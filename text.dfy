/**
 * The JavaScript string primitives the front end relies on: `String(n)` for
 * non-negative integers, `parseInt`, `lastIndexOf`, `split`/`join` on a
 * one-character separator, `trim` and `toLowerCase`. `IndexOf` is a helper for
 * the proofs about `split`'s first field.
 */
module Text {
  import opened Wrappers

  // ---------------------------------------------------------------------------
  // Digits and numbers
  // ---------------------------------------------------------------------------

  /** The value of `c` as a digit in any radix up to 36 (`0-9`, `a-z`, `A-Z`),
      or 36 when `c` is not a digit at all. */
  function DigitVal(c: char): (d: nat)
    ensures d <= 36
  {
    if '0' <= c <= '9' then c as int - '0' as int
    else if 'a' <= c <= 'z' then c as int - 'a' as int + 10
    else if 'A' <= c <= 'Z' then c as int - 'A' as int + 10
    else 36
  }

  predicate IsDigit(c: char) {
    '0' <= c <= '9'
  }

  predicate IsDigitIn(c: char, radix: nat) {
    DigitVal(c) < radix
  }

  predicate AllDigitsIn(s: string, radix: nat) {
    forall i :: 0 <= i < |s| ==> IsDigitIn(s[i], radix)
  }

  /** The number that the digits `s` denote in `radix`, most significant first. */
  function ValueIn(s: string, radix: nat): nat
    requires AllDigitsIn(s, radix)
  {
    if s == [] then 0 else ValueIn(s[..|s| - 1], radix) * radix + DigitVal(s[|s| - 1])
  }

  function DigitChar(d: nat): (c: char)
    requires d < 10
    ensures IsDigit(c) && DigitVal(c) == d
  {
    ('0' as int + d) as char
  }

  function Pow10(n: nat): (p: nat)
    ensures p >= 1
  {
    if n == 0 then 1 else 10 * Pow10(n - 1)
  }

  /** JavaScript's `String(n)` (and template interpolation) for a non-negative integer. */
  function NatToString(n: nat): (s: string)
    ensures |s| >= 1 && AllDigitsIn(s, 10)
    ensures forall i :: 0 <= i < |s| ==> IsDigit(s[i])
    ensures s[0] == '0' ==> n == 0 && s == "0"
  {
    if n < 10 then [DigitChar(n)] else NatToString(n / 10) + [DigitChar(n % 10)]
  }

  /** Reading back the decimal string of `n` gives `n`. */
  lemma {:induction false} NatToStringValue(n: nat)
    ensures ValueIn(NatToString(n), 10) == n
  {
    if n >= 10 {
      var s := NatToString(n);
      assert s[..|s| - 1] == NatToString(n / 10);
      NatToStringValue(n / 10);
    }
  }

  /** A decimal string of length `k` denotes a number below `10^k`. */
  lemma {:induction false} ValueBound(s: string)
    requires AllDigitsIn(s, 10)
    ensures ValueIn(s, 10) < Pow10(|s|)
  {
    if s != [] {
      ValueBound(s[..|s| - 1]);
    }
  }

  /** Splitting a decimal string after its first `k` digits. */
  lemma {:induction false} ValueSplit(s: string, k: nat)
    requires AllDigitsIn(s, 10) && k <= |s|
    ensures ValueIn(s, 10) == ValueIn(s[..k], 10) * Pow10(|s| - k) + ValueIn(s[k..], 10)
    decreases |s|
  {
    if k == |s| {
      assert s[..k] == s;
      assert s[k..] == [];
    } else {
      var init := s[..|s| - 1];
      ValueSplit(init, k);
      assert init[..k] == s[..k];
      var t := s[k..];
      assert t[..|t| - 1] == init[k..] && t[|t| - 1] == s[|s| - 1];
      assert Pow10(|s| - k) == 10 * Pow10(|s| - 1 - k);
      ShiftDigit(ValueIn(s[..k], 10), Pow10(|s| - 1 - k), ValueIn(init[k..], 10), DigitVal(s[|s| - 1]));
    }
  }

  lemma ShiftDigit(a: nat, p: nat, b: nat, d: nat)
    ensures (a * p + b) * 10 + d == a * (10 * p) + (b * 10 + d)
  {
  }

  /** `n` copies of `c`: JavaScript's `c.repeat(n)`. */
  function Repeat(c: char, n: nat): (r: string)
    ensures |r| == n && forall i :: 0 <= i < n ==> r[i] == c
  {
    seq(n, _ => c)
  }

  /** Leading zeros do not change the value of a decimal string. */
  lemma ValueLeadingZeros(n: nat, t: string)
    requires AllDigitsIn(t, 10)
    ensures AllDigitsIn(Repeat('0', n) + t, 10)
    ensures ValueIn(Repeat('0', n) + t, 10) == ValueIn(t, 10)
  {
    var s := Repeat('0', n) + t;
    ValueSplit(s, n);
    assert s[n..] == t;
    ZerosValue(s[..n]);
  }

  lemma {:induction false} ZerosValue(z: string)
    requires forall i :: 0 <= i < |z| ==> z[i] == '0'
    ensures AllDigitsIn(z, 10) && ValueIn(z, 10) == 0
  {
    if z != [] {
      ZerosValue(z[..|z| - 1]);
    }
  }

  /** The last `n` digits of a decimal string denote its value modulo `10^n`. */
  lemma SuffixValue(s: string, n: nat)
    requires AllDigitsIn(s, 10) && n <= |s|
    ensures ValueIn(s[|s| - n..], 10) == ValueIn(s, 10) % Pow10(n)
  {
    ValueSplit(s, |s| - n);
    ValueBound(s[|s| - n..]);
    assert |s| - (|s| - n) == n && |s[|s| - n..]| == n;
    ModOfMulAdd(ValueIn(s[..|s| - n], 10), Pow10(n), ValueIn(s[|s| - n..], 10));
  }

  lemma ModOfMulAdd(a: nat, p: nat, b: nat)
    requires 0 <= b < p
    ensures (a * p + b) % p == b
  {
    var x := a * p + b;
    var q, r := x / p, x % p;
    assert x == q * p + r;
    assert (a - q) * p == r - b;
    if a - q >= 1 {
      assert false;
    } else if a - q <= -1 {
      assert false;
    }
  }

  // ---------------------------------------------------------------------------
  // parseInt
  // ---------------------------------------------------------------------------

  /** The characters ECMAScript strips in `trim` and `parseInt`: WhiteSpace
      (tab, vertical tab, form feed, space, no-break space, byte order mark and
      the space separators) and LineTerminator (line feed, carriage return,
      line and paragraph separators). */
  predicate IsJsWhitespace(c: char) {
    c == '\t' || c == '\n' || c == '\U{000B}' || c == '\U{000C}' || c == '\r' || c == ' ' ||
    c == '\U{00A0}' || c == '\U{1680}' || ('\U{2000}' <= c <= '\U{200A}') ||
    c == '\U{2028}' || c == '\U{2029}' || c == '\U{202F}' || c == '\U{205F}' ||
    c == '\U{3000}' || c == '\U{FEFF}'
  }

  /** `s` with its leading JavaScript whitespace removed. */
  function TrimStart(s: string): (r: string)
    ensures |r| <= |s| && r == s[|s| - |r|..]
    ensures r == [] || !IsJsWhitespace(r[0])
    ensures forall i :: 0 <= i < |s| - |r| ==> IsJsWhitespace(s[i])
  {
    if s != [] && IsJsWhitespace(s[0]) then
      var r := TrimStart(s[1..]);
      assert s[1..][|s| - 1 - |r|..] == s[|s| - |r|..];
      assert forall i :: 1 <= i < |s| - |r| ==> s[i] == s[1..][i - 1];
      r
    else s
  }

  /** `s` with its trailing JavaScript whitespace removed. */
  function TrimEnd(s: string): (r: string)
    ensures |r| <= |s| && r == s[..|r|]
    ensures r == [] || !IsJsWhitespace(r[|r| - 1])
    ensures forall i :: |r| <= i < |s| ==> IsJsWhitespace(s[i])
  {
    if s != [] && IsJsWhitespace(s[|s| - 1]) then TrimEnd(s[..|s| - 1]) else s
  }

  /** JavaScript's `String.prototype.trim`. */
  function Trim(s: string): string {
    TrimEnd(TrimStart(s))
  }

  predicate IsTrimmed(s: string) {
    s == [] || (!IsJsWhitespace(s[0]) && !IsJsWhitespace(s[|s| - 1]))
  }

  /** Trimming leaves no whitespace at either end and drops only whitespace. */
  lemma {:induction false} TrimIsTrimmed(s: string)
    ensures IsTrimmed(Trim(s))
    ensures exists i, j ::
              0 <= i <= j <= |s| && Trim(s) == s[i..j] &&
              (forall k :: 0 <= k < i ==> IsJsWhitespace(s[k])) &&
              (forall k :: j <= k < |s| ==> IsJsWhitespace(s[k]))
  {
    var i, j := TrimBounds(s);
  }

  /** Where the trimmed text sits in `s`. */
  lemma {:induction false} TrimBounds(s: string) returns (i: nat, j: nat)
    ensures i <= j <= |s| && Trim(s) == s[i..j]
    ensures forall k :: 0 <= k < i ==> IsJsWhitespace(s[k])
    ensures forall k :: j <= k < |s| ==> IsJsWhitespace(s[k])
  {
    var t := TrimStart(s);
    var r := TrimEnd(t);
    i, j := |s| - |t|, |s| - |t| + |r|;
    SliceOfSuffix(s, i, |r|);
    WhitespaceAfter(s, i, |r|);
  }

  lemma SliceOfSuffix(s: string, i: nat, n: nat)
    requires i + n <= |s|
    ensures s[i..][..n] == s[i..i + n]
  {
  }

  /** Trailing whitespace of a suffix of `s` is trailing whitespace of `s`. */
  lemma WhitespaceAfter(s: string, i: nat, n: nat)
    requires i + n <= |s|
    requires forall m :: n <= m < |s[i..]| ==> IsJsWhitespace(s[i..][m])
    ensures forall k :: i + n <= k < |s| ==> IsJsWhitespace(s[k])
  {
    forall k | i + n <= k < |s| ensures IsJsWhitespace(s[k]) {
      assert s[k] == s[i..][k - i];
    }
  }

  /** Trimming a trimmed string preceded by whitespace gives it back. */
  lemma {:induction false} TrimAfterIndent(pad: string, t: string)
    requires forall i :: 0 <= i < |pad| ==> IsJsWhitespace(pad[i])
    requires IsTrimmed(t)
    ensures Trim(pad + t) == t
  {
    if pad == [] {
      assert pad + t == t;
      TrimStartOfNonSpace(t);
      TrimEndOfNonSpace(t);
    } else {
      assert (pad + t)[1..] == pad[1..] + t;
      TrimAfterIndent(pad[1..], t);
    }
  }

  lemma TrimStartOfNonSpace(t: string)
    requires t == [] || !IsJsWhitespace(t[0])
    ensures TrimStart(t) == t
  {
  }

  lemma TrimEndOfNonSpace(t: string)
    requires t == [] || !IsJsWhitespace(t[|t| - 1])
    ensures TrimEnd(t) == t
  {
  }

  /** The number of leading characters of `s` that are digits in `radix`. */
  function DigitPrefixLength(s: string, radix: nat): (k: nat)
    ensures k <= |s| && AllDigitsIn(s[..k], radix)
    ensures k < |s| ==> !IsDigitIn(s[k], radix)
  {
    if s != [] && IsDigitIn(s[0], radix) then
      var k := 1 + DigitPrefixLength(s[1..], radix);
      assert s[..k] == [s[0]] + s[1..][..k - 1];
      k
    else 0
  }

  /**
   * JavaScript's `parseInt(s)` without a radix: leading whitespace is skipped, one
   * `+` or `-` is taken as the sign, a `0x`/`0X` prefix selects radix 16, and the
   * longest run of digits that follows is read; `None` stands for `NaN` (no digits).
   */
  function ParseInt(s: string): Option<int> {
    var t := TrimStart(s);
    var sign := if t != [] && t[0] == '-' then -1 else 1;
    var (digits, radix) := ParseDigitsAfterPrefix(s);
    var z := digits[..DigitPrefixLength(digits, radix)];
    if z == [] then None else Some(sign * ValueIn(z, radix))
  }

  /** What `parseInt` scans for digits, and in which radix: the text after
      whitespace, sign and hexadecimal prefix. */
  function ParseDigitsAfterPrefix(s: string): (dr: (string, nat))
    ensures dr.1 == 10 || dr.1 == 16
  {
    var t := TrimStart(s);
    var u := if t != [] && (t[0] == '-' || t[0] == '+') then t[1..] else t;
    var hex := |u| >= 2 && u[0] == '0' && (u[1] == 'x' || u[1] == 'X');
    if hex then (u[2..], 16) else (u, 10)
  }

  /** `parseInt` reads back every decimal string `String(n)` produces. */
  lemma ParseIntOfNatToString(n: nat)
    ensures ParseInt(NatToString(n)) == Some(n)
  {
    var s := NatToString(n);
    TrimStartOfNonSpace(s);
    assert ParseDigitsAfterPrefix(s) == (s, 10);
    DigitsPrefixOfDigits(s, 10);
    assert s[..|s|] == s;
    NatToStringValue(n);
  }

  lemma {:induction false} DigitsPrefixOfDigits(s: string, radix: nat)
    requires AllDigitsIn(s, radix)
    ensures DigitPrefixLength(s, radix) == |s|
  {
    if s != [] {
      DigitsPrefixOfDigits(s[1..], radix);
    }
  }

  // ---------------------------------------------------------------------------
  // Searching, splitting and joining
  // ---------------------------------------------------------------------------

  /** The first position of `c` in `s`, or -1 (as `s.indexOf(c)` would give):
      where the first field of `Split(s, c)` ends. */
  function IndexOf(s: string, c: char): (i: int)
    ensures -1 <= i < |s|
    ensures i == -1 ==> forall j :: 0 <= j < |s| ==> s[j] != c
    ensures i >= 0 ==> s[i] == c && forall j :: 0 <= j < i ==> s[j] != c
  {
    if s == [] then -1
    else if s[0] == c then 0
    else
      var j := IndexOf(s[1..], c);
      if j == -1 then -1
      else
        assert s[..j + 1] == [s[0]] + s[1..][..j];
        j + 1
  }

  /** JavaScript's `s.lastIndexOf(c)`: the last position of `c`, or -1. */
  function LastIndexOf(s: string, c: char): (i: int)
    ensures -1 <= i < |s|
    ensures i == -1 <==> c !in s
    ensures i >= 0 ==> s[i] == c && forall j :: i < j < |s| ==> s[j] != c
  {
    if s == [] then -1
    else if s[|s| - 1] == c then |s| - 1
    else LastIndexOf(s[..|s| - 1], c)
  }

  lemma IndexOfAt(a: string, c: char, b: string)
    requires c !in a
    ensures IndexOf(a + [c] + b, c) == |a|
  {
    var s := a + [c] + b;
    assert s[|a|] == c;
    assert s[..|a|] == a;
  }

  /** JavaScript's `s.split(c)` for a one-character separator. */
  function Split(s: string, c: char): (parts: seq<string>)
    ensures |parts| >= 1
  {
    if s == [] then [""]
    else
      var rest := Split(s[1..], c);
      if s[0] == c then [""] + rest else [[s[0]] + rest[0]] + rest[1..]
  }

  /** No field of `parts` contains `c`. */
  predicate NoneContains(parts: seq<string>, c: char) {
    forall k :: 0 <= k < |parts| ==> c !in parts[k]
  }

  /** No field of a split contains the separator. */
  lemma {:induction false} SplitFieldsLack(s: string, c: char)
    ensures NoneContains(Split(s, c), c)
    decreases |s|
  {
    var i := IndexOf(s, c);
    if i >= 0 {
      SplitFieldsLack(s[i + 1..], c);
      SplitAtFirst(s, c, i);
      NoneContainsCons(s[..i], Split(s[i + 1..], c), c);
    } else {
      SplitWithout(s, c);
    }
  }

  lemma NoneContainsCons(head: string, rest: seq<string>, c: char)
    requires c !in head && NoneContains(rest, c)
    ensures NoneContains([head] + rest, c)
  {
    var parts := [head] + rest;
    forall k | 0 <= k < |parts| ensures c !in parts[k] {
      if k > 0 {
        assert parts[k] == rest[k - 1];
      }
    }
  }

  /** JavaScript's `parts.join(c)` for a one-character separator. */
  function Join(parts: seq<string>, c: char): string {
    if |parts| == 0 then ""
    else if |parts| == 1 then parts[0]
    else parts[0] + [c] + Join(parts[1..], c)
  }

  /** Joining the pieces of a split gives back the original string. */
  lemma {:induction false} JoinSplit(s: string, c: char)
    ensures Join(Split(s, c), c) == s
    decreases |s|
  {
    var i := IndexOf(s, c);
    if i >= 0 {
      JoinSplit(s[i + 1..], c);
      JoinSplitStep(s, c, i);
    } else {
      SplitWithout(s, c);
    }
  }

  /** The step of `JoinSplit`: the first field, the separator, and the
      rest joined back. */
  lemma JoinSplitStep(s: string, c: char, i: nat)
    requires i < |s| && i == IndexOf(s, c)
    requires Join(Split(s[i + 1..], c), c) == s[i + 1..]
    ensures Join(Split(s, c), c) == s
  {
    var head, rest := s[..i], s[i + 1..];
    var tail := Split(rest, c);
    SplitAtFirst(s, c, i);
    JoinCons(head, tail, c);
    CutAt(s, i);
  }

  /** Where the separator first occurs, the split takes its first field. */
  lemma {:induction false} SplitAtFirst(s: string, c: char, i: nat)
    requires i < |s| && i == IndexOf(s, c)
    ensures Split(s, c) == [s[..i]] + Split(s[i + 1..], c)
  {
    CutAt(s, i);
    SplitAfterFirst(s[..i], c, s[i + 1..]);
  }

  /** A string is the text before position `i`, the character at `i`, and
      the text after it. */
  lemma CutAt(s: string, i: nat)
    requires i < |s|
    ensures s == s[..i] + [s[i]] + s[i + 1..]
  {
    assert s[i..] == [s[i]] + s[i + 1..];
    assert s == s[..i] + s[i..];
  }

  lemma JoinCons(head: string, tail: seq<string>, c: char)
    requires |tail| >= 1
    ensures Join([head] + tail, c) == head + [c] + Join(tail, c)
  {
    assert ([head] + tail)[1..] == tail;
  }

  /** Splitting a join gives back the pieces, provided none contains the separator. */
  lemma {:induction false} SplitJoin(parts: seq<string>, c: char)
    requires |parts| >= 1
    requires forall k :: 0 <= k < |parts| ==> c !in parts[k]
    ensures Split(Join(parts, c), c) == parts
  {
    if |parts| == 1 {
      assert Join(parts, c) == parts[0];
      SplitWithout(parts[0], c);
    } else {
      var rest := Join(parts[1..], c);
      assert Join(parts, c) == parts[0] + [c] + rest;
      SplitJoin(parts[1..], c);
      SplitAfterFirst(parts[0], c, rest);
      assert [parts[0]] + parts[1..] == parts;
    }
  }

  lemma AppendAssoc<T>(a: seq<T>, b: seq<T>, c: seq<T>)
    ensures a + (b + c) == (a + b) + c
  {
  }

  /** A string without the separator splits into itself. */
  lemma {:induction false} SplitWithout(s: string, c: char)
    requires c !in s
    ensures Split(s, c) == [s]
    decreases |s|
  {
    if s != [] {
      assert c !in s[1..];
      SplitWithout(s[1..], c);
      assert [s[0]] + s[1..] == s;
    }
  }

  /** The first field ends at the first separator. */
  lemma {:induction false} SplitAfterFirst(a: string, c: char, b: string)
    requires c !in a
    ensures Split(a + [c] + b, c) == [a] + Split(b, c)
    decreases |a|
  {
    var s := a + [c] + b;
    if a == [] {
      assert s[1..] == b;
    } else {
      assert s[1..] == a[1..] + [c] + b;
      assert c !in a[1..];
      SplitAfterFirst(a[1..], c, b);
      assert [a[0]] + a[1..] == a;
    }
  }

  // ---------------------------------------------------------------------------
  // Case
  // ---------------------------------------------------------------------------

  function ToLowerChar(c: char): (l: char)
    ensures !('A' <= l <= 'Z')
  {
    if 'A' <= c <= 'Z' then (c as int - 'A' as int + 'a' as int) as char else c
  }

  /** JavaScript's `toLowerCase`, for the ASCII letters. */
  function ToLower(s: string): (r: string)
    ensures |r| == |s|
    ensures forall i :: 0 <= i < |s| ==> r[i] == ToLowerChar(s[i])
  {
    seq(|s|, i requires 0 <= i < |s| => ToLowerChar(s[i]))
  }

  predicate IsLower(s: string) {
    forall i :: 0 <= i < |s| ==> !('A' <= s[i] <= 'Z')
  }

  /** Case-insensitive (ASCII) occurrence of `pat` in `s`, like a regular
      expression `/pat/i` made of letters only. */
  predicate ContainsIgnoringCase(s: string, pat: string) {
    exists i :: 0 <= i <= |s| - |pat| && MatchesIgnoringCaseAt(s, pat, i)
  }

  predicate MatchesIgnoringCaseAt(s: string, pat: string, i: nat)
    requires i + |pat| <= |s|
  {
    ToLower(s[i..i + |pat|]) == ToLower(pat)
  }
}
