/**
 * The pure string helpers of the file manager front end: file extensions and
 * file-type classification, zero padding and durations, directory item counts,
 * HTML escaping, the charset of a `Content-Type` header and the editor language
 * of a path.
 */
module Helpers {
  import opened Wrappers
  import opened Text
  import JsObject

  // ---------------------------------------------------------------------------
  // extName
  // ---------------------------------------------------------------------------

  /** `k` is the dot that starts the extension of `f`: the last `.` of `f`,
      neither its first nor its last character. */
  predicate IsExtensionDot(f: string, k: int) {
    0 < k < |f| - 1 && f[k] == '.' && forall j :: k < j < |f| ==> f[j] != '.'
  }

  /** The extension of a file name, dot included; empty when the name has no dot,
      only a leading dot (a hidden file) or a trailing dot. */
  function ExtName(filename: string): (ext: string)
    ensures ext != [] <==> exists k :: IsExtensionDot(filename, k)
    ensures forall k :: IsExtensionDot(filename, k) ==> ext == filename[k..]
  {
    var dot := LastIndexOf(filename, '.');
    assert forall k :: IsExtensionDot(filename, k) ==> k == dot by {
      forall k | IsExtensionDot(filename, k) ensures k == dot {
        assert filename[k] == '.';
      }
    }
    if dot == -1 || dot == 0 || dot == |filename| - 1 then ""
    else
      assert IsExtensionDot(filename, dot);
      filename[dot..]
  }

  /** Lower-casing a name lower-cases its extension and nothing else about it. */
  lemma ExtNameOfLower(f: string)
    ensures ExtName(ToLower(f)) == ToLower(ExtName(f))
  {
    var g := ToLower(f);
    forall k ensures IsExtensionDot(g, k) <==> IsExtensionDot(f, k) {
      if 0 <= k < |f| {
        assert g[k] == '.' <==> f[k] == '.';
        assert (forall j :: k < j < |f| ==> g[j] != '.') <==> (forall j :: k < j < |f| ==> f[j] != '.');
      }
    }
    if exists k :: IsExtensionDot(f, k) {
      var k :| IsExtensionDot(f, k);
      assert g[k..] == ToLower(f[k..]);
    }
  }

  // ---------------------------------------------------------------------------
  // padZero and formatDuration
  // ---------------------------------------------------------------------------

  /** `("0".repeat(size) + value).slice(-size)`: the last `size` characters of
      `size` zeros followed by the digits of `value`. Since `slice(-0)` is
      `slice(0)`, a `size` of 0 keeps the whole string. */
  function PadZero(value: nat, size: nat): (r: string)
    ensures size > 0 ==> |r| == size
    ensures AllDigitsIn(r, 10)
  {
    var s := Repeat('0', size) + NatToString(value);
    ValueLeadingZeros(size, NatToString(value));
    if size == 0 then s else s[|s| - size..]
  }

  /** Read back, a padded number is the value modulo `10^size`: values of `size`
      digits or fewer survive, longer ones lose their leading digits. */
  lemma PadZeroValue(value: nat, size: nat)
    requires size > 0
    ensures ValueIn(PadZero(value, size), 10) == value % Pow10(size)
  {
    var digits := NatToString(value);
    var s := Repeat('0', size) + digits;
    ValueLeadingZeros(size, digits);
    NatToStringValue(value);
    SuffixValue(s, size);
  }

  /** With a size of 0 the digits are returned unpadded and untruncated. */
  lemma PadZeroSizeZero(value: nat)
    ensures PadZero(value, 0) == NatToString(value)
  {
    assert Repeat('0', 0) == [];
  }

  /** JavaScript's `Math.ceil` on a non-negative real. */
  function Ceil(x: real): (c: int)
    ensures c as real - 1.0 < x <= c as real
  {
    if x == x.Floor as real then x.Floor else x.Floor + 1
  }

  /** Whole hours, minutes below 60 and seconds below 60 of a number of seconds. */
  function Hms(seconds: nat): (t: (nat, nat, nat))
    ensures t.0 * 3600 + t.1 * 60 + t.2 == seconds
    ensures t.1 < 60 && t.2 < 60
  {
    var h := seconds / 3600;
    var m := (seconds - h * 3600) / 60;
    (h, m, seconds - h * 3600 - m * 60)
  }

  /** `HH:MM:SS` for a non-negative number of seconds, rounded up to whole seconds. */
  function FormatDuration(seconds: real): (r: string)
    requires seconds >= 0.0
    ensures |r| == 8 && r[2] == ':' && r[5] == ':'
  {
    var t := Hms(Ceil(seconds));
    PadZero(t.0, 2) + ":" + PadZero(t.1, 2) + ":" + PadZero(t.2, 2)
  }

  predicate IsDurationText(r: string) {
    |r| == 8 && r[2] == ':' && r[5] == ':' &&
    AllDigitsIn(r[..2], 10) && AllDigitsIn(r[3..5], 10) && AllDigitsIn(r[6..], 10)
  }

  /** The number of seconds an `HH:MM:SS` text stands for. */
  function DurationValue(r: string): nat
    requires IsDurationText(r)
  {
    ValueIn(r[..2], 10) * 3600 + ValueIn(r[3..5], 10) * 60 + ValueIn(r[6..], 10)
  }

  /** A formatted duration reads back as the ceiled seconds, modulo 100 hours
      (hours of three digits or more keep only their last two digits); minutes
      and seconds are below 60. */
  lemma FormatDurationReadsBack(seconds: real)
    requires seconds >= 0.0
    ensures IsDurationText(FormatDuration(seconds))
    ensures DurationValue(FormatDuration(seconds)) == Ceil(seconds) % 360000
    ensures ValueIn(FormatDuration(seconds)[3..5], 10) < 60
    ensures ValueIn(FormatDuration(seconds)[6..], 10) < 60
  {
    var c := Ceil(seconds);
    var t := Hms(c);
    DurationFields(t.0, t.1, t.2);
    HoursWrap(c, t.0, t.1, t.2);
  }

  lemma DurationFields(h: nat, m: nat, s: nat)
    ensures var r := PadZero(h, 2) + ":" + PadZero(m, 2) + ":" + PadZero(s, 2);
      IsDurationText(r) &&
      ValueIn(r[..2], 10) == h % 100 && ValueIn(r[3..5], 10) == m % 100 &&
      ValueIn(r[6..], 10) == s % 100
  {
    var hh, mm, ss := PadZero(h, 2), PadZero(m, 2), PadZero(s, 2);
    var r := hh + ":" + mm + ":" + ss;
    assert r[..2] == hh && r[3..5] == mm && r[6..] == ss;
    PadZeroValue(h, 2);
    PadZeroValue(m, 2);
    PadZeroValue(s, 2);
    assert Pow10(2) == 100;
  }

  lemma HoursWrap(c: nat, h: nat, m: nat, s: nat)
    requires c == h * 3600 + m * 60 + s && m < 60 && s < 60
    ensures m % 100 == m && s % 100 == s
    ensures (h % 100) * 3600 + m * 60 + s == c % 360000
  {
    var q, r := h / 100, h % 100;
    assert h == q * 100 + r;
    assert h * 3600 == q * 360000 + r * 3600;
    ModOfMulAdd(q, 360000, r * 3600 + m * 60 + s);
  }

  /** Below 100 hours the formatted duration reads back exactly. */
  lemma FormatDurationExact(seconds: real)
    requires 0.0 <= seconds <= 359999.0
    ensures IsDurationText(FormatDuration(seconds))
    ensures DurationValue(FormatDuration(seconds)) == Ceil(seconds)
  {
    FormatDurationReadsBack(seconds);
    ModOfMulAdd(0, 360000, Ceil(seconds));
  }

  // ---------------------------------------------------------------------------
  // formatDirSize
  // ---------------------------------------------------------------------------

  /** The largest number of directory entries the server counts exactly. */
  const MaxSubpathsCount: nat := 1000

  /** The size column of a directory: ` <count> item(s)`, with counts of
      `MaxSubpathsCount` or more shown as `>999`. */
  function FormatDirSize(size: nat): string {
    " " + DirSizeCount(size) + " " + (if size == 1 then "item" else "items")
  }

  function DirSizeCount(size: nat): (num: string)
    ensures ' ' !in num
  {
    var num := if size >= MaxSubpathsCount then ">" + NatToString(MaxSubpathsCount - 1)
               else NatToString(size);
    assert forall i :: 0 <= i < |num| ==> num[i] == '>' || IsDigit(num[i]);
    num
  }

  /** The space-separated fields of the size column give back the count (below
      the cap) and the right grammatical number. */
  lemma FormatDirSizeReadsBack(size: nat)
    ensures var parts := Split(FormatDirSize(size), ' ');
      |parts| == 3 && parts[0] == "" &&
      (parts[2] == "item" <==> size == 1) && (parts[2] == "items" <==> size != 1) &&
      (size < MaxSubpathsCount ==> ParseInt(parts[1]) == Some(size)) &&
      (size >= MaxSubpathsCount ==> parts[1] == ">999" && ParseInt(parts[1]) == None)
  {
    DirSizeFields(size);
    assert |"item"| != |"items"|;
    if size < MaxSubpathsCount {
      ParseIntOfNatToString(size);
    } else {
      CapMarker();
      ParseIntRejectsMarker(NatToString(MaxSubpathsCount - 1));
    }
  }

  lemma CapMarker()
    ensures ">" + NatToString(MaxSubpathsCount - 1) == ">999"
  {
    CapText();
  }

  lemma DirSizeFields(size: nat)
    ensures Split(FormatDirSize(size), ' ') == ["", DirSizeCount(size), if size == 1 then "item" else "items"]
  {
    var unit := if size == 1 then "item" else "items";
    var num := DirSizeCount(size);
    UnitLiterals();
    SplitThree("", num, unit, ' ');
    assert FormatDirSize(size) == "" + [' '] + num + [' '] + unit;
  }

  lemma UnitLiterals()
    ensures ' ' !in "item" && ' ' !in "items"
  {
  }

  lemma ParseIntRejectsMarker(digits: string)
    ensures ParseInt(">" + digits) == None
  {
    TrimStartOfNonSpace(">" + digits);
  }

  lemma CapText()
    ensures NatToString(MaxSubpathsCount - 1) == "999"
  {
    assert NatToString(9) == "9";
    assert NatToString(99) == NatToString(9) + ['9'];
    assert NatToString(999) == NatToString(99) + ['9'];
  }

  lemma SplitThree(a: string, b: string, c: string, sep: char)
    requires sep !in a && sep !in b && sep !in c
    ensures Split(a + [sep] + b + [sep] + c, sep) == [a, b, c]
  {
    assert a + [sep] + b + [sep] + c == a + [sep] + (b + [sep] + c);
    SplitAfterFirst(a, sep, b + [sep] + c);
    SplitAfterFirst(b, sep, c);
    SplitWithout(c, sep);
  }

  // ---------------------------------------------------------------------------
  // encodedStr
  // ---------------------------------------------------------------------------

  /** The characters `encodedStr` replaces: U+00A0 to U+9999, `<`, `>` and `&`. */
  predicate NeedsCharRef(c: char) {
    ('\U{00A0}' <= c <= '\U{9999}') || c == '<' || c == '>' || c == '&'
  }

  /** The decimal character reference `&#n;` of `c`. */
  function CharRef(c: char): string {
    "&#" + NatToString(c as int) + ";"
  }

  /** `s` with every character `NeedsCharRef` selects replaced by its decimal
      character reference; the result holds no `<` and no `>`. */
  function EncodedStr(s: string): (r: string)
    ensures forall i :: 0 <= i < |r| ==> r[i] != '<' && r[i] != '>'
    ensures forall i :: 0 <= i < |r| ==> !('\U{00A0}' <= r[i] <= '\U{9999}')
  {
    if s == [] then []
    else
      var head := if NeedsCharRef(s[0]) then CharRef(s[0]) else [s[0]];
      assert forall i :: 0 <= i < |head| ==>
        head[i] != '<' && head[i] != '>' && !('\U{00A0}' <= head[i] <= '\U{9999}');
      head + EncodedStr(s[1..])
  }

  /** A decimal character reference `&#digits;` at the start of `s`: the
      character it denotes and the reference's length. */
  function CharRefAt(s: string): (r: Option<(char, nat)>)
    ensures r.Some? ==> 4 <= r.value.1 <= |s|
  {
    if |s| < 2 || s[0] != '&' || s[1] != '#' then None
    else
      var j := IndexOf(s[2..], ';');
      if j <= 0 then None
      else
        var digits := s[2..2 + j];
        if !AllDigitsIn(digits, 10) then None
        else
          var v := ValueIn(digits, 10);
          if v < 0xD800 || 0xE000 <= v < 0x11_0000 then Some((v as char, j + 3)) else None
  }

  /** The text an HTML parser reads from `s`, for the decimal character
      references `encodedStr` writes; every other character stands for itself. */
  function DecodeCharRefs(s: string): string
    decreases |s|
  {
    if s == [] then []
    else match CharRefAt(s)
      case Some((c, n)) => [c] + DecodeCharRefs(s[n..])
      case None => [s[0]] + DecodeCharRefs(s[1..])
  }

  /** What the browser shows for `encodedStr(s)` is `s` itself. */
  lemma {:induction false} EncodedStrRoundTrip(s: string)
    ensures DecodeCharRefs(EncodedStr(s)) == s
  {
    if s != [] {
      var c := s[0];
      var rest := EncodedStr(s[1..]);
      EncodedStrRoundTrip(s[1..]);
      if NeedsCharRef(c) {
        assert EncodedStr(s) == CharRef(c) + rest;
        CharRefAtRef(c, rest);
        assert (CharRef(c) + rest)[|CharRef(c)|..] == rest;
      } else {
        assert EncodedStr(s) == [c] + rest;
        assert CharRefAt([c] + rest) == None;
        assert ([c] + rest)[1..] == rest;
      }
      assert [c] + s[1..] == s;
    }
  }

  /** The reference `encodedStr` writes for `c` is read back as `c`, whatever follows. */
  lemma CharRefAtRef(c: char, rest: string)
    requires NeedsCharRef(c)
    ensures CharRefAt(CharRef(c) + rest) == Some((c, |CharRef(c)|))
  {
    var digits := NatToString(c as int);
    var t := CharRef(c) + rest;
    assert t == "&#" + digits + [';'] + rest;
    assert ';' !in digits by {
      assert forall i :: 0 <= i < |digits| ==> IsDigit(digits[i]);
    }
    assert t[2..] == digits + [';'] + rest;
    IndexOfAt(digits, ';', rest);
    assert t[2..2 + |digits|] == digits;
    NatToStringValue(c as int);
  }

  // ---------------------------------------------------------------------------
  // getEncoding
  // ---------------------------------------------------------------------------

  /** The character encoding named by a `Content-Type` header (absent: `None`):
      the value after `=` in its second `;`-separated field when that field
      mentions `charset` in any case, lower-cased; `utf-8` otherwise. */
  function GetEncoding(contentType: Option<string>): (enc: string)
    ensures enc != [] && IsLower(enc)
    ensures contentType.None? ==> enc == "utf-8"
    ensures contentType.Some? && ';' !in contentType.value ==> enc == "utf-8"
  {
    // `contentType?.split(";")[1]` is `undefined` without a second field, and the
    // test `/charset/i` of `undefined` reads the text "undefined", which fails
    match SecondField(contentType)
    case None => "utf-8"
    case Some(charset) => EncodingOfField(charset)
  }

  /** `contentType?.split(";")[1]`. */
  function SecondField(contentType: Option<string>): (field: Option<string>)
    ensures contentType.None? ==> field.None?
    ensures contentType.Some? && ';' !in contentType.value ==> field.None?
  {
    match contentType
    case None => None
    case Some(ct) =>
      if ';' in ct then
        var fields := Split(ct, ';');
        if |fields| >= 2 then Some(fields[1]) else None
      else
        SplitWithout(ct, ';');
        None
  }

  function EncodingOfField(charset: string): (enc: string)
    ensures enc != [] && IsLower(enc)
  {
    if ContainsIgnoringCase(charset, "charset") then
      var parts := Split(charset, '=');
      if |parts| >= 2 && parts[1] != [] then ToLower(parts[1]) else "utf-8"
    else "utf-8"
  }

  /** A header `type;KEY=NAME` yields `NAME` lower-cased, whatever the text
      `sp` before the key (one space, none, ...), whatever the case of the key
      `charset`, and whatever parameters follow after a further `;`. */
  lemma GetEncodingReadsCharset(mime: string, sp: string, key: string, name: string, rest: string)
    requires ';' !in mime && ';' !in sp && '=' !in sp && ToLower(key) == "charset"
    requires ';' !in name && '=' !in name && name != []
    requires rest == [] || rest[0] == ';'
    ensures GetEncoding(Some(mime + ";" + sp + key + "=" + name + rest)) == ToLower(name)
  {
    KeyHasNoSeparator(key);
    var pre := sp + key;
    var field := pre + "=" + name;
    assert ';' !in field;
    assert mime + ";" + sp + key + "=" + name + rest == mime + ";" + field + rest;
    SecondFieldOf(mime, field, rest);
    KeyMentionsCharset(sp, key);
    EncodingOfCharsetField(pre, name);
  }

  /** A header whose second field does not mention `charset` yields `utf-8`,
      even when a later field does: only `split(";")[1]` is read. */
  lemma GetEncodingFallback(mime: string, field: string, rest: string)
    requires ';' !in mime && ';' !in field && !ContainsIgnoringCase(field, "charset")
    requires rest == [] || rest[0] == ';'
    ensures GetEncoding(Some(mime + ";" + field + rest)) == "utf-8"
  {
    SecondFieldOf(mime, field, rest);
  }

  /** The second `;` field of `mime;field` followed by nothing or by more
      `;` fields is `field`. */
  lemma SecondFieldOf(mime: string, field: string, rest: string)
    requires ';' !in mime && ';' !in field
    requires rest == [] || rest[0] == ';'
    ensures SecondField(Some(mime + ";" + field + rest)) == Some(field)
  {
    var s := mime + ";" + field + rest;
    assert s == mime + [';'] + (field + rest);
    SplitAfterFirst(mime, ';', field + rest);
    if rest == [] {
      assert field + rest == field;
      SplitWithout(field, ';');
    } else {
      assert field + rest == field + [';'] + rest[1..];
      SplitAfterFirst(field, ';', rest[1..]);
    }
    assert ';' in s by {
      assert s[|mime|] == ';';
    }
  }

  /** A spelling of `charset` holds neither separator. */
  lemma KeyHasNoSeparator(key: string)
    requires ToLower(key) == "charset"
    ensures ';' !in key && '=' !in key
  {
    forall i | 0 <= i < |key|
      ensures key[i] != ';' && key[i] != '='
    {
      assert ToLowerChar(key[i]) == "charset"[i];
    }
  }

  lemma KeyMentionsCharset(sp: string, key: string)
    requires ToLower(key) == "charset"
    ensures ContainsIgnoringCase(sp + key, "charset")
  {
    var s := sp + key;
    assert s[|sp|..|sp| + 7] == key;
    assert MatchesIgnoringCaseAt(s, "charset", |sp|);
  }

  /** From a field `pre=NAME` that mentions `charset` before its `=`, the
      encoding is `NAME` lower-cased. */
  lemma EncodingOfCharsetField(pre: string, name: string)
    requires '=' !in pre && ContainsIgnoringCase(pre, "charset")
    requires '=' !in name && name != []
    ensures EncodingOfField(pre + "=" + name) == ToLower(name)
  {
    MentionsCharset(pre, "=" + name);
    assert pre + "=" + name == pre + ("=" + name) == pre + ['='] + name;
    SplitAfterFirst(pre, '=', name);
    SplitWithout(name, '=');
  }

  /** The case-insensitive `charset` test still passes once text is appended. */
  lemma MentionsCharset(pre: string, post: string)
    requires ContainsIgnoringCase(pre, "charset")
    ensures ContainsIgnoringCase(pre + post, "charset")
  {
    var i :| 0 <= i <= |pre| - 7 && MatchesIgnoringCaseAt(pre, "charset", i);
    assert (pre + post)[i..i + 7] == pre[i..i + 7];
    assert MatchesIgnoringCaseAt(pre + post, "charset", i);
  }

  // ---------------------------------------------------------------------------
  // detectLanguage
  // ---------------------------------------------------------------------------

  /** The editor language of each file extension (an object literal in the source). */
  const LanguageMap: map<string, string> := map[
    "js" := "javascript", "jsx" := "javascript", "ts" := "javascript", "tsx" := "javascript",
    "py" := "python", "java" := "java",
    "cpp" := "cpp", "cc" := "cpp", "cxx" := "cpp", "c" := "cpp", "h" := "cpp", "hpp" := "cpp",
    "rs" := "rust", "go" := "go", "php" := "php", "html" := "html", "htm" := "html",
    "css" := "css", "scss" := "css", "sass" := "css", "less" := "css",
    "json" := "json", "xml" := "xml", "svg" := "xml", "sql" := "sql",
    "yaml" := "yaml", "yml" := "yaml", "md" := "markdown", "markdown" := "markdown"
  ]

  /** What `detectLanguage` looks up: the text after the last `.` of the
      lower-cased path (the whole path when it has no dot). */
  function LanguageKey(filePath: string): string {
    var fields := Split(ToLower(filePath), '.');
    fields[|fields| - 1]
  }

  /** `detectLanguage` as written: the value of `languageMap[ext] || 'text'` on
      an object literal, so an extension naming an inherited member of
      `Object.prototype` yields that member instead of a language name. */
  function DetectLanguageAsWritten(filePath: string): JsObject.Lookup<string> {
    if filePath == "" then JsObject.Own("text")
    else match JsObject.Get(LanguageMap, LanguageKey(filePath))
      case Own(lang) => JsObject.Own(lang)
      case Inherited(k) => JsObject.Inherited(k)
      case Undefined => JsObject.Own("text")
  }

  /** `detectLanguage` with the lookup restricted to the table's own entries:
      the language of the path's extension, `text` when the table has none. */
  function DetectLanguage(filePath: string): (lang: string)
    ensures lang == "text" || lang in LanguageMap.Values
  {
    if filePath == "" then "text"
    else
      var key := LanguageKey(filePath);
      if key in LanguageMap then LanguageMap[key] else "text"
  }

  /** The source returns a function, not a language name, for `a.constructor`. */
  lemma DetectLanguageAsWrittenInherited()
    ensures DetectLanguageAsWritten("a.constructor") == JsObject.Inherited("constructor")
    ensures DetectLanguage("a.constructor") == "text"
  {
    assert "a.constructor" == "a" + "." + "constructor";
    LanguageKeyOfExtension("a", "constructor");
    LowerOfLower("constructor");
    NotLanguageKey();
  }

  lemma NotLanguageKey()
    ensures "constructor" !in LanguageMap
  {
  }

  /** Everywhere else the source and the corrected lookup agree. */
  lemma DetectLanguageAgrees(filePath: string)
    requires LanguageKey(filePath) !in JsObject.InheritedKeys
    ensures DetectLanguageAsWritten(filePath) == JsObject.Own(DetectLanguage(filePath))
  {
  }

  /** The last field of a split is what follows the last separator. */
  lemma {:induction false} LastOfSplit(a: string, c: char, b: string)
    requires c !in b
    ensures var fields := Split(a + [c] + b, c); fields[|fields| - 1] == b
    decreases |a|
  {
    SplitWithout(b, c);
    var i := IndexOf(a, c);
    if i < 0 {
      SplitAfterFirst(a, c, b);
    } else {
      var a1, a2 := a[..i], a[i + 1..];
      assert a + [c] + b == a1 + [c] + (a2 + [c] + b);
      SplitAfterFirst(a1, c, a2 + [c] + b);
      LastOfSplit(a2, c, b);
    }
  }

  /** A path ending in `.ext`, for any extension without a dot, gets the
      language of the extension lower-cased (`text` when the table has none):
      the case the extension is written in does not matter. */
  lemma DetectLanguageOfExtension(stem: string, ext: string)
    requires '.' !in ext
    ensures DetectLanguage(stem + "." + ext) ==
      (if ToLower(ext) in LanguageMap then LanguageMap[ToLower(ext)] else "text")
    ensures DetectLanguage(stem + "." + ext) == DetectLanguage(stem + "." + ToLower(ext))
  {
    LanguageKeyOfExtension(stem, ext);
    var lext := ToLower(ext);
    assert '.' !in lext by {
      forall j | 0 <= j < |lext| ensures lext[j] != '.' {
        assert ext[j] != '.';
      }
    }
    LanguageKeyOfExtension(stem, lext);
    LowerOfLower(lext);
  }

  lemma LowerOfLower(s: string)
    requires IsLower(s)
    ensures ToLower(s) == s
  {
  }

  lemma LanguageKeyOfExtension(stem: string, ext: string)
    requires '.' !in ext
    ensures LanguageKey(stem + "." + ext) == ToLower(ext)
  {
    var lext := ToLower(ext);
    assert ToLower(stem + "." + ext) == ToLower(stem) + ['.'] + lext;
    assert '.' !in lext by {
      forall j | 0 <= j < |lext| ensures lext[j] != '.' {
        assert ext[j] != '.';
      }
    }
    LastOfSplit(ToLower(stem), '.', lext);
  }

  // ---------------------------------------------------------------------------
  // isMarkdownFile and getFileType
  // ---------------------------------------------------------------------------

  const ImageFormats: seq<string> :=
    [".jpg", ".jpeg", ".png", ".gif", ".bmp", ".svg", ".webp", ".ico", ".tiff", ".tif"]
  const VideoFormats: seq<string> :=
    [".mp4", ".mov", ".avi", ".wmv", ".flv", ".webm", ".mkv", ".m4v", ".3gp", ".ogv"]
  const AudioFormats: seq<string> :=
    [".mp3", ".ogg", ".wav", ".m4a", ".aac", ".flac", ".wma", ".opus"]
  const PdfFormats: seq<string> := [".pdf"]
  const MarkdownExtensions: seq<string> := [".md", ".markdown", ".mdown", ".mkd", ".mkdn", ".mdx"]
  const TextExtensions: seq<string> := [
    ".txt", ".log", ".json", ".xml", ".html", ".htm", ".css", ".js", ".ts",
    ".jsx", ".tsx", ".py", ".java", ".c", ".cpp", ".h", ".hpp", ".rs", ".go",
    ".php", ".rb", ".sh", ".bash", ".zsh", ".fish", ".ps1", ".bat", ".cmd",
    ".yml", ".yaml", ".toml", ".ini", ".conf", ".cfg", ".properties"
  ]

  /** The viewer a file opens in. */
  datatype FileType = Image | Video | Audio | Pdf | Markdown | PlainText | Binary

  function IsMarkdownFile(filename: string): bool {
    ToLower(ExtName(filename)) in MarkdownExtensions
  }

  /** `getFileType`: the type of the file's lower-cased extension. Its
      markdown test is `isMarkdownFile(filename)`, which looks at the same
      lower-cased extension. */
  function GetFileType(filename: string): (t: FileType)
    ensures var ext := ToLower(ExtName(filename));
      (t == Image <==> ext in ImageFormats) && (t == Video <==> ext in VideoFormats) &&
      (t == Audio <==> ext in AudioFormats) && (t == Pdf <==> ext in PdfFormats) &&
      (t == Markdown <==> ext in MarkdownExtensions) && (t == PlainText <==> ext in TextExtensions)
    ensures t == Binary <==> !InAnyList(ToLower(ExtName(filename)))
    ensures ExtName(filename) == "" ==> t == Binary
  {
    assert ExtName(filename) == "" ==> ToLower(ExtName(filename)) == "";
    TypeOfExtension(ToLower(ExtName(filename)))
  }

  /** The first of the extension lists, in order, that holds `ext` decides
      the type; none of them: binary. */
  function TypeOfExtension(ext: string): (t: FileType)
    ensures t == Image <==> ext in ImageFormats
    ensures t == Video <==> ext in VideoFormats
    ensures t == Audio <==> ext in AudioFormats
    ensures t == Pdf <==> ext in PdfFormats
    ensures t == Markdown <==> ext in MarkdownExtensions
    ensures t == PlainText <==> ext in TextExtensions
    ensures t == Binary <==> !InAnyList(ext)
    ensures |ext| < 2 ==> t == Binary
  {
    VideoNotImage(ext);
    AudioNotEarlier(ext);
    PdfNotEarlier(ext);
    MarkdownNotEarlier(ext);
    TextNotEarlier(ext);
    if ext in ImageFormats then Image
    else if ext in VideoFormats then Video
    else if ext in AudioFormats then Audio
    else if ext in PdfFormats then Pdf
    else if ext in MarkdownExtensions then Markdown
    else if ext in TextExtensions then PlainText
    else Binary
  }

  predicate InAnyList(ext: string) {
    ext in ImageFormats || ext in VideoFormats || ext in AudioFormats ||
    ext in PdfFormats || ext in MarkdownExtensions || ext in TextExtensions
  }

  // The lists are disjoint, so the list that holds an extension decides its
  // type whatever the order of the tests.

  lemma VideoNotImage(ext: string)
    ensures ext in VideoFormats ==> ext !in ImageFormats
  {
  }

  lemma AudioNotEarlier(ext: string)
    ensures ext in AudioFormats ==> ext !in ImageFormats && ext !in VideoFormats
  {
  }

  lemma PdfNotEarlier(ext: string)
    ensures ext in PdfFormats ==> ext !in ImageFormats && ext !in VideoFormats && ext !in AudioFormats
  {
  }

  lemma MarkdownNotEarlier(ext: string)
    ensures ext in MarkdownExtensions ==>
      ext !in ImageFormats && ext !in VideoFormats && ext !in AudioFormats && ext !in PdfFormats
  {
  }

  /** Whether a list tested before the plain-text list holds `ext`. */
  predicate InEarlierList(ext: string) {
    ext in ImageFormats || ext in VideoFormats || ext in AudioFormats ||
    ext in PdfFormats || ext in MarkdownExtensions
  }

  lemma TextNotEarlier(ext: string)
    ensures ext in TextExtensions ==> !InEarlierList(ext)
  {
    if ext in TextExtensions {
      var k :| 0 <= k < |TextExtensions| && TextExtensions[k] == ext;
      if k < 6 {
        TextEntries0To5(k);
      } else if k < 12 {
        TextEntries6To11(k);
      } else if k < 18 {
        TextEntries12To17(k);
      } else if k < 24 {
        TextEntries18To23(k);
      } else if k < 30 {
        TextEntries24To29(k);
      } else {
        TextEntries30To34(k);
      }
    }
  }

  // The plain-text list checked a few entries at a time, against every
  // earlier list.

  lemma TextEntries0To5(k: nat)
    requires k < 6
    ensures !InEarlierList(TextExtensions[k])
  {
  }

  lemma TextEntries6To11(k: nat)
    requires 6 <= k < 12
    ensures !InEarlierList(TextExtensions[k])
  {
  }

  lemma TextEntries12To17(k: nat)
    requires 12 <= k < 18
    ensures !InEarlierList(TextExtensions[k])
  {
  }

  lemma TextEntries18To23(k: nat)
    requires 18 <= k < 24
    ensures !InEarlierList(TextExtensions[k])
  {
  }

  lemma TextEntries24To29(k: nat)
    requires 24 <= k < 30
    ensures !InEarlierList(TextExtensions[k])
  {
  }

  lemma TextEntries30To34(k: nat)
    requires 30 <= k < 35
    ensures !InEarlierList(TextExtensions[k])
  {
  }

  /** A file opens in the markdown viewer exactly when `isMarkdownFile` holds. */
  lemma GetFileTypeMarkdown(filename: string)
    ensures GetFileType(filename) == Markdown <==> IsMarkdownFile(filename)
  {
  }

  /** The type of a file does not depend on the case of its name. */
  lemma FileTypeIgnoresCase(filename: string)
    ensures GetFileType(ToLower(filename)) == GetFileType(filename)
  {
    ExtNameOfLower(filename);
    LowerOfLower(ToLower(ExtName(filename)));
  }
}
