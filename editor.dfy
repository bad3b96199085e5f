/**
 * The editor's "format document" action (`formatCode`): every line is
 * trimmed and re-indented by two spaces per open bracket. A line starting
 * with a closing bracket is outdented first (never below zero); a line
 * ending with an opening bracket, or, for Python, with a colon, indents the
 * lines after it. Blank lines become empty.
 */
module Editor {
  import opened Text

  const IndentSize: nat := 2

  predicate IsCloser(c: char) { c == '}' || c == ']' || c == ')' }

  predicate IsOpener(c: char) { c == '{' || c == '[' || c == '(' }

  /** The indentation level in force for a line: one less than `level` when
      the trimmed line starts with a closing bracket and `level > 0`. */
  function LineLevel(trimmed: string, level: nat): nat {
    if trimmed != [] && IsCloser(trimmed[0]) && level > 0 then level - 1 else level
  }

  /** Whether a trimmed line opens a block: it ends with an opening bracket,
      or, for Python, with `:` (the trailing `\s*` of the pattern matches
      nothing in a trimmed line). */
  predicate Opens(trimmed: string, python: bool) {
    trimmed != [] &&
    (IsOpener(trimmed[|trimmed| - 1]) || (trimmed[|trimmed| - 1] == ':' && python))
  }

  /** The level after a trimmed line. */
  function NextLevel(trimmed: string, level: nat, python: bool): nat {
    if trimmed == [] then level
    else
      var l := LineLevel(trimmed, level);
      if Opens(trimmed, python) then l + 1 else l
  }

  /** The output for a trimmed line at `level`. */
  function FormatLine(trimmed: string, level: nat): string {
    if trimmed == [] then "" else Repeat(' ', LineLevel(trimmed, level) * IndentSize) + trimmed
  }

  /** The trimmed text of each line. */
  function TrimAll(lines: seq<string>): (ts: seq<string>)
    ensures |ts| == |lines|
  {
    seq(|lines|, k requires 0 <= k < |lines| => Trim(lines[k]))
  }

  /** The formatted lines, from their trimmed text and starting at `level`. */
  function FormatLines(ts: seq<string>, level: nat, python: bool): seq<string> {
    if ts == [] then []
    else [FormatLine(ts[0], level)] + FormatLines(ts[1..], NextLevel(ts[0], level, python), python)
  }

  /** What `formatCode(code, language)` returns. */
  function Formatted(code: string, language: string): string {
    Join(FormatLines(TrimAll(Split(code, '\n')), 0, language == "python"), '\n')
  }

  /** `formatCode`: split into lines, re-indent them, join them again. */
  method FormatCode(code: string, language: string) returns (r: string)
    ensures r == Formatted(code, language)
  {
    var out := IndentLines(Split(code, '\n'), language == "python");
    r := Join(out, '\n');
  }

  /** The `map` over the lines, threading the indentation level. */
  method IndentLines(lines: seq<string>, python: bool) returns (out: seq<string>)
    ensures out == FormatLines(TrimAll(lines), 0, python)
  {
    ghost var ts := TrimAll(lines);
    var indentLevel: nat := 0;
    out := [];
    var i := 0;
    while i < |lines|
      invariant 0 <= i <= |lines|
      invariant out + FormatLines(ts[i..], indentLevel, python) == FormatLines(ts, 0, python)
    {
      FormatLinesFrom(ts, i, indentLevel, python);
      var formatted;
      formatted, indentLevel := IndentLine(lines[i], indentLevel, python);
      AppendAssoc(out, [formatted], FormatLines(ts[i + 1..], indentLevel, python));
      out := out + [formatted];
      i := i + 1;
    }
    assert ts[i..] == [];
  }

  /** The arrow function passed to `map`, as written: it trims the line,
      lowers `indentLevel` for a closer, indents, and raises the level for an
      opener. `FormatLine` and `NextLevel` are its specification, and the
      lemmas about formatting are stated over them. */
  method IndentLine(line: string, indentLevel: nat, python: bool) returns (formatted: string, next: nat)
    ensures formatted == FormatLine(Trim(line), indentLevel)
    ensures next == NextLevel(Trim(line), indentLevel, python)
  {
    var trimmed := Trim(line);
    next := indentLevel;
    if trimmed == [] {
      return "", next;
    }
    if IsCloser(trimmed[0]) && next > 0 {
      next := next - 1;
    }
    formatted := Repeat(' ', next * IndentSize) + trimmed;
    if IsOpener(trimmed[|trimmed| - 1]) || (trimmed[|trimmed| - 1] == ':' && python) {
      next := next + 1;
    }
  }

  lemma FormatLinesFrom(ts: seq<string>, i: nat, level: nat, python: bool)
    requires i < |ts|
    ensures FormatLines(ts[i..], level, python) ==
      [FormatLine(ts[i], level)] + FormatLines(ts[i + 1..], NextLevel(ts[i], level, python), python)
  {
    assert ts[i..][1..] == ts[i + 1..];
  }

  // ---------------------------------------------------------------------------
  // What formatting preserves
  // ---------------------------------------------------------------------------

  /** The level in force before line `k`. */
  function LevelBefore(ts: seq<string>, level: nat, python: bool, k: nat): nat
    requires k <= |ts|
  {
    if k == 0 then level else LevelBefore(ts[1..], NextLevel(ts[0], level, python), python, k - 1)
  }

  /** Line `k` of the output is line `k`'s trimmed text at the level the
      lines before it leave. */
  lemma {:induction false} FormatLinesElement(ts: seq<string>, level: nat, python: bool, k: nat)
    requires k < |ts|
    ensures |FormatLines(ts, level, python)| == |ts|
    ensures FormatLines(ts, level, python)[k] == FormatLine(ts[k], LevelBefore(ts, level, python, k))
  {
    FormatLinesLength(ts, level, python);
    if k > 0 {
      FormatLinesElement(ts[1..], NextLevel(ts[0], level, python), python, k - 1);
    }
  }

  lemma {:induction false} FormatLinesLength(ts: seq<string>, level: nat, python: bool)
    ensures |FormatLines(ts, level, python)| == |ts|
  {
    if ts != [] {
      FormatLinesLength(ts[1..], NextLevel(ts[0], level, python), python);
    }
  }

  lemma FormatLineShape(line: string, level: nat)
    ensures Trim(FormatLine(Trim(line), level)) == Trim(line)
    ensures '\n' !in line ==> '\n' !in FormatLine(Trim(line), level)
  {
    var t := Trim(line);
    TrimIsTrimmed(line);
    if t == [] {
      TrimOfEmpty();
    } else {
      TrimAfterIndent(Repeat(' ', LineLevel(t, level) * IndentSize), t);
    }
    if '\n' !in line {
      TrimHasNo(line, '\n');
    }
  }

  lemma TrimOfEmpty()
    ensures Trim("") == ""
  {
  }

  lemma TrimHasNo(line: string, c: char)
    requires c !in line
    ensures c !in Trim(line)
  {
    var i, j := TrimBounds(line);
    assert forall k :: 0 <= k < j - i ==> Trim(line)[k] == line[i + k];
  }

  /** The lines of the output are the formatted lines, and each keeps its
      line's trimmed text. */
  lemma OutputLines(code: string, language: string)
    ensures var ts := TrimAll(Split(code, '\n'));
      var out := FormatLines(ts, 0, language == "python");
      Split(Formatted(code, language), '\n') == out &&
      |out| == |ts| &&
      forall k :: 0 <= k < |out| ==>
        out[k] == FormatLine(ts[k], LevelBefore(ts, 0, language == "python", k)) &&
        Trim(out[k]) == ts[k]
  {
    var lines := Split(code, '\n');
    var python := language == "python";
    var ts := TrimAll(lines);
    var out := FormatLines(ts, 0, python);
    FormatLinesLength(ts, 0, python);
    SplitFieldsLack(code, '\n');
    forall k | 0 <= k < |lines|
      ensures out[k] == FormatLine(ts[k], LevelBefore(ts, 0, python, k))
      ensures Trim(out[k]) == ts[k] && '\n' !in out[k]
    {
      FormatLinesElement(ts, 0, python, k);
      assert '\n' !in lines[k];
      FormatLineShape(lines[k], LevelBefore(ts, 0, python, k));
    }
    SplitJoin(out, '\n');
  }

  /** Formatting keeps the number of lines and each line's text up to the
      whitespace around it: a blank line becomes empty, any other line is its
      trimmed text behind an even number of spaces. */
  lemma FormatShape(code: string, language: string)
    ensures var lines := Split(code, '\n');
      var out := Split(Formatted(code, language), '\n');
      |out| == |lines| &&
      forall k :: 0 <= k < |lines| ==>
        Trim(out[k]) == Trim(lines[k]) &&
        (Trim(lines[k]) == [] ==> out[k] == []) &&
        (Trim(lines[k]) != [] ==> exists n: nat :: out[k] == Repeat(' ', n * IndentSize) + Trim(lines[k]))
  {
    OutputLines(code, language);
  }

  /** Formatting formatted code changes nothing. */
  lemma FormattedIdempotent(code: string, language: string)
    ensures Formatted(Formatted(code, language), language) == Formatted(code, language)
  {
    var python := language == "python";
    var ts := TrimAll(Split(code, '\n'));
    var out := FormatLines(ts, 0, python);
    OutputLines(code, language);
    TrimAllOf(out, ts);
  }

  lemma TrimAllOf(lines: seq<string>, ts: seq<string>)
    requires |lines| == |ts| && forall k :: 0 <= k < |lines| ==> Trim(lines[k]) == ts[k]
    ensures TrimAll(lines) == ts
  {
  }
}
