/**
 * Building the URL of an uploaded file: `newUrl` appends the file's path,
 * each `/`-separated segment passed through `encodeURIComponent`, to the page
 * URL with its query and fragment removed (`baseUrl`).
 *
 * `encodeURIComponent` is the ECMAScript function: every character outside
 * the unreserved set `A-Z a-z 0-9 - _ . ! ~ * ' ( )` is replaced by its UTF-8
 * bytes, each written `%XX` with upper-case hexadecimal digits (section 2.1 of
 * RFC 3986). Dafny's `char` is a Unicode scalar value, so the lone surrogates
 * for which the JavaScript function throws cannot occur.
 */
module Url {
  import opened Wrappers
  import opened Text

  // ---------------------------------------------------------------------------
  // UTF-8
  // ---------------------------------------------------------------------------

  predicate IsByte(b: nat) { b < 256 }

  predicate IsScalar(v: nat) { v < 0xD800 || 0xE000 <= v < 0x11_0000 }

  /** The UTF-8 encoding of one character. */
  function Utf8(c: char): (bytes: seq<nat>)
    ensures 1 <= |bytes| <= 4
    ensures forall k :: 0 <= k < |bytes| ==> IsByte(bytes[k])
    ensures |bytes| == 1 <==> c as int < 0x80
  {
    var n := c as int;
    if n < 0x80 then [n]
    else if n < 0x800 then [0xC0 + n / 64, 0x80 + n % 64]
    else if n < 0x1_0000 then [0xE0 + n / 4096, 0x80 + (n / 64) % 64, 0x80 + n % 64]
    else [0xF0 + n / 262144, 0x80 + (n / 4096) % 64, 0x80 + (n / 64) % 64, 0x80 + n % 64]
  }

  function Utf8Bytes(s: string): seq<nat> {
    if s == [] then [] else Utf8(s[0]) + Utf8Bytes(s[1..])
  }

  predicate IsContinuation(b: nat) { 0x80 <= b < 0xC0 }

  /** The length of the sequence a lead byte starts (0: not a lead byte). */
  function SequenceLength(b: nat): nat {
    if b < 0x80 then 1
    else if 0xC0 <= b < 0xE0 then 2
    else if 0xE0 <= b < 0xF0 then 3
    else if 0xF0 <= b < 0xF8 then 4
    else 0
  }

  /** The scalar value of a sequence of `len` bytes starting with a lead byte. */
  function SequenceValue(bytes: seq<nat>, len: nat): nat
    requires 1 <= len <= 4 && len <= |bytes|
  {
    if len == 1 then bytes[0]
    else if len == 2 then bytes[0] % 32 * 64 + bytes[1] % 64
    else if len == 3 then bytes[0] % 16 * 4096 + bytes[1] % 64 * 64 + bytes[2] % 64
    else bytes[0] % 8 * 262144 + bytes[1] % 64 * 4096 + bytes[2] % 64 * 64 + bytes[3] % 64
  }

  /** UTF-8 decoding; `None` for a byte sequence that is not the encoding of
      any string (a stray continuation byte, a truncated sequence, a value
      that is not a scalar). */
  function DecodeUtf8(bytes: seq<nat>): Option<string>
    decreases |bytes|
  {
    if bytes == [] then Some([])
    else
      var len := SequenceLength(bytes[0]);
      if len == 0 || len > |bytes| then None
      else if exists k :: 1 <= k < len && !IsContinuation(bytes[k]) then None
      else
        var v := SequenceValue(bytes, len);
        if !IsScalar(v) then None
        else match DecodeUtf8(bytes[len..])
          case None => None
          case Some(rest) => Some([v as char] + rest)
  }

  lemma Utf8Value(c: char)
    ensures var bytes := Utf8(c);
      SequenceLength(bytes[0]) == |bytes| &&
      (forall k :: 1 <= k < |bytes| ==> IsContinuation(bytes[k])) &&
      SequenceValue(bytes, |bytes|) == c as int
  {
    var n := c as int;
    if 0x80 <= n < 0x800 {
      TwoByteValue(n);
    } else if 0x800 <= n < 0x1_0000 {
      ThreeByteValue(n);
    } else if 0x1_0000 <= n {
      FourByteValue(n);
    }
  }

  lemma TwoByteValue(n: nat)
    requires 0x80 <= n < 0x800
    ensures var bytes := [0xC0 + n / 64, 0x80 + n % 64];
      SequenceLength(bytes[0]) == 2 && IsContinuation(bytes[1]) && SequenceValue(bytes, 2) == n
  {
    var hi, lo := n / 64, n % 64;
    ModOfMulAdd(6, 32, hi);
    ModOfMulAdd(2, 64, lo);
    Digits64(n, 0);
  }

  lemma ThreeByteValue(n: nat)
    requires 0x800 <= n < 0x1_0000
    ensures var bytes := [0xE0 + n / 4096, 0x80 + (n / 64) % 64, 0x80 + n % 64];
      SequenceLength(bytes[0]) == 3 && IsContinuation(bytes[1]) && IsContinuation(bytes[2]) &&
      SequenceValue(bytes, 3) == n
  {
    ModOfMulAdd(14, 16, n / 4096);
    ModOfMulAdd(2, 64, (n / 64) % 64);
    ModOfMulAdd(2, 64, n % 64);
    Digits64(n, 1);
  }

  lemma FourByteValue(n: nat)
    requires 0x1_0000 <= n < 0x11_0000
    ensures var bytes := [0xF0 + n / 262144, 0x80 + (n / 4096) % 64, 0x80 + (n / 64) % 64, 0x80 + n % 64];
      SequenceLength(bytes[0]) == 4 &&
      IsContinuation(bytes[1]) && IsContinuation(bytes[2]) && IsContinuation(bytes[3]) &&
      SequenceValue(bytes, 4) == n
  {
    ModOfMulAdd(30, 8, n / 262144);
    ModOfMulAdd(2, 64, (n / 4096) % 64);
    ModOfMulAdd(2, 64, (n / 64) % 64);
    ModOfMulAdd(2, 64, n % 64);
    Digits64(n, 2);
  }

  /** Base-64 digits of `n`: `n == n/64*64 + n%64`, and so on up. */
  lemma Digits64(n: nat, depth: nat)
    requires depth <= 2
    ensures n == n / 64 * 64 + n % 64
    ensures depth >= 1 ==> n == n / 4096 * 4096 + (n / 64) % 64 * 64 + n % 64
    ensures depth >= 2 ==> n == n / 262144 * 262144 + (n / 4096) % 64 * 4096 + (n / 64) % 64 * 64 + n % 64
  {
    var q1 := n / 64;
    assert q1 / 64 == n / 4096;
    var q2 := q1 / 64;
    assert q2 / 64 == n / 262144;
    assert n == q1 * 64 + n % 64;
    assert q1 == q2 * 64 + q1 % 64;
    assert q2 == q2 / 64 * 64 + q2 % 64;
  }

  /** Decoding the UTF-8 bytes of a string gives the string back. */
  lemma {:induction false} DecodeUtf8Bytes(s: string)
    ensures DecodeUtf8(Utf8Bytes(s)) == Some(s)
  {
    if s != [] {
      DecodeUtf8Bytes(s[1..]);
      DecodeUtf8Char(s[0], Utf8Bytes(s[1..]), s[1..]);
      assert [s[0]] + s[1..] == s;
    }
  }

  lemma DecodeUtf8Char(c: char, rest: seq<nat>, t: string)
    requires DecodeUtf8(rest) == Some(t)
    ensures DecodeUtf8(Utf8(c) + rest) == Some([c] + t)
  {
    var head := Utf8(c);
    var bytes := head + rest;
    Utf8Value(c);
    assert bytes[0] == head[0];
    assert bytes[..|head|] == head;
    assert bytes[|head|..] == rest;
    assert forall k :: 1 <= k < |head| ==> bytes[k] == head[k];
    assert SequenceValue(bytes, |head|) == SequenceValue(head, |head|);
  }

  // ---------------------------------------------------------------------------
  // encodeURIComponent
  // ---------------------------------------------------------------------------

  /** The characters `encodeURIComponent` leaves as they are. */
  predicate IsUnreserved(c: char) {
    'A' <= c <= 'Z' || 'a' <= c <= 'z' || '0' <= c <= '9' ||
    c == '-' || c == '_' || c == '.' || c == '!' || c == '~' ||
    c == '*' || c == '\'' || c == '(' || c == ')'
  }

  function HexDigit(d: nat): (c: char)
    requires d < 16
    ensures '0' <= c <= '9' || 'A' <= c <= 'F'
    ensures HexValue(c) == d
  {
    if d < 10 then ('0' as int + d) as char else ('A' as int + d - 10) as char
  }

  function HexValue(c: char): nat {
    if '0' <= c <= '9' then c as int - '0' as int
    else if 'A' <= c <= 'F' then c as int - 'A' as int + 10
    else if 'a' <= c <= 'f' then c as int - 'a' as int + 10
    else 0
  }

  predicate IsHexDigit(c: char) { '0' <= c <= '9' || 'A' <= c <= 'F' || 'a' <= c <= 'f' }

  /** `%XX` for one byte. */
  function PercentByte(b: nat): (r: string)
    requires IsByte(b)
    ensures |r| == 3 && r[0] == '%' && IsHexDigit(r[1]) && IsHexDigit(r[2])
    ensures HexValue(r[1]) * 16 + HexValue(r[2]) == b
  {
    ['%', HexDigit(b / 16), HexDigit(b % 16)]
  }

  function PercentBytes(bytes: seq<nat>): (r: string)
    requires forall k :: 0 <= k < |bytes| ==> IsByte(bytes[k])
    ensures |r| == 3 * |bytes|
    ensures forall k :: 0 <= k < |r| ==> r[k] == '%' || '0' <= r[k] <= '9' || 'A' <= r[k] <= 'F'
  {
    if bytes == [] then [] else PercentByte(bytes[0]) + PercentBytes(bytes[1..])
  }

  function EncodeChar(c: char): (r: string)
    ensures forall k :: 0 <= k < |r| ==> IsUnreserved(r[k]) || r[k] == '%'
  {
    if IsUnreserved(c) then [c] else PercentBytes(Utf8(c))
  }

  /** `encodeURIComponent(s)`. */
  function EncodeUriComponent(s: string): (r: string)
    ensures forall k :: 0 <= k < |r| ==> IsUnreserved(r[k]) || r[k] == '%'
  {
    if s == [] then [] else EncodeChar(s[0]) + EncodeUriComponent(s[1..])
  }

  /** The characters of a URI component decode back to bytes: `%XX` is one
      byte, any other character its own code. */
  function PercentDecode(s: string): seq<nat>
    decreases |s|
  {
    if s == [] then []
    else if s[0] == '%' && |s| >= 3 then [HexValue(s[1]) * 16 + HexValue(s[2])] + PercentDecode(s[3..])
    else [s[0] as int] + PercentDecode(s[1..])
  }

  lemma {:induction false} PercentDecodeBytes(bytes: seq<nat>, rest: string)
    requires forall k :: 0 <= k < |bytes| ==> IsByte(bytes[k])
    ensures PercentDecode(PercentBytes(bytes) + rest) == bytes + PercentDecode(rest)
  {
    if bytes != [] {
      PercentDecodeFirst(bytes, rest);
      PercentDecodeBytes(bytes[1..], rest);
      AppendAssoc([bytes[0]], bytes[1..], PercentDecode(rest));
      assert bytes == [bytes[0]] + bytes[1..];
    } else {
      assert PercentBytes(bytes) + rest == rest;
    }
  }

  /** The first byte's escape decodes to that byte. */
  lemma PercentDecodeFirst(bytes: seq<nat>, rest: string)
    requires bytes != [] && forall k :: 0 <= k < |bytes| ==> IsByte(bytes[k])
    ensures PercentDecode(PercentBytes(bytes) + rest) == [bytes[0]] + PercentDecode(PercentBytes(bytes[1..]) + rest)
  {
    var tail := PercentBytes(bytes[1..]) + rest;
    assert PercentBytes(bytes) == PercentByte(bytes[0]) + PercentBytes(bytes[1..]);
    AppendAssoc(PercentByte(bytes[0]), PercentBytes(bytes[1..]), rest);
    PercentDecodeEscape(PercentByte(bytes[0]), tail);
  }

  /** One escape `%XX` in front of `tail` decodes to its byte. */
  lemma PercentDecodeEscape(p: string, tail: string)
    requires |p| == 3 && p[0] == '%'
    ensures PercentDecode(p + tail) == [HexValue(p[1]) * 16 + HexValue(p[2])] + PercentDecode(tail)
  {
    var s := p + tail;
    assert s[0] == '%' && s[1] == p[1] && s[2] == p[2] && s[3..] == tail;
  }

  /** Decoding the percent escapes of `encodeURIComponent(s)` gives the UTF-8
      bytes of `s`: the encoding loses nothing. */
  lemma {:induction false} EncodeUriComponentDecodes(s: string)
    ensures PercentDecode(EncodeUriComponent(s)) == Utf8Bytes(s)
  {
    if s != [] {
      var rest := EncodeUriComponent(s[1..]);
      EncodeUriComponentDecodes(s[1..]);
      if IsUnreserved(s[0]) {
        assert ([s[0]] + rest)[1..] == rest;
      } else {
        PercentDecodeBytes(Utf8(s[0]), rest);
      }
    }
  }

  /** So `encodeURIComponent` is one-to-one. */
  lemma EncodeUriComponentInjective(s: string, t: string)
    requires EncodeUriComponent(s) == EncodeUriComponent(t)
    ensures s == t
  {
    EncodeUriComponentDecodes(s);
    EncodeUriComponentDecodes(t);
    DecodeUtf8Bytes(s);
    DecodeUtf8Bytes(t);
  }

  // ---------------------------------------------------------------------------
  // baseUrl and newUrl
  // ---------------------------------------------------------------------------

  /** `location.href.split(/[?#]/)[0]`: the page URL up to its first `?` or `#`. */
  function BaseUrl(href: string): (base: string)
    ensures |base| <= |href| && base == href[..|base|]
    ensures '?' !in base && '#' !in base
    ensures |base| < |href| ==> href[|base|] == '?' || href[|base|] == '#'
  {
    if href == [] || href[0] == '?' || href[0] == '#' then []
    else [href[0]] + BaseUrl(href[1..])
  }

  function EncodeSegments(segments: seq<string>): (r: seq<string>)
    ensures |r| == |segments|
    ensures forall k :: 0 <= k < |r| ==> r[k] == EncodeUriComponent(segments[k])
  {
    if segments == [] then [] else [EncodeUriComponent(segments[0])] + EncodeSegments(segments[1..])
  }

  /** The base URL with a `/` appended unless it already ends in one. */
  function Directory(href: string): (dir: string)
    ensures |dir| >= 1 && dir[|dir| - 1] == '/'
    ensures '?' !in dir && '#' !in dir
    ensures var base := BaseUrl(href);
      (dir == base || dir == base + "/") &&
      (dir == base <==> |base| > 0 && base[|base| - 1] == '/')
  {
    var base := BaseUrl(href);
    if |base| > 0 && base[|base| - 1] == '/' then base else base + "/"
  }

  /** `newUrl(name)` on the page `href`. */
  function NewUrl(href: string, name: string): string {
    Directory(href) + UrlPath(name)
  }

  /** `name.split("/").map(encodeURIComponent).join("/")`. */
  function UrlPath(name: string): string {
    Join(EncodeSegments(Split(name, '/')), '/')
  }

  lemma {:induction false} JoinWithout(parts: seq<string>, sep: char, c: char)
    requires c != sep
    requires forall k :: 0 <= k < |parts| ==> c !in parts[k]
    ensures c !in Join(parts, sep)
  {
    if |parts| > 1 {
      JoinWithout(parts[1..], sep, c);
    }
  }

  lemma EncodedWithout(s: string, c: char)
    requires !IsUnreserved(c) && c != '%'
    ensures c !in EncodeUriComponent(s)
  {
  }

  /** The path appended to the directory splits, at `/`, into the encoded
      segments of `name`, one per segment and in order. */
  lemma UrlPathSegments(name: string)
    ensures Split(UrlPath(name), '/') == EncodeSegments(Split(name, '/'))
  {
    var segments := EncodeSegments(Split(name, '/'));
    forall k | 0 <= k < |segments| ensures '/' !in segments[k] {
      EncodedWithout(Split(name, '/')[k], '/');
    }
    SplitJoin(segments, '/');
  }

  /** Each encoded segment decodes to the UTF-8 bytes of its segment. */
  lemma UrlPathDecodes(name: string)
    ensures var segments := Split(name, '/');
      forall k :: 0 <= k < |segments| ==>
        PercentDecode(EncodeSegments(segments)[k]) == Utf8Bytes(segments[k])
  {
    var segments := Split(name, '/');
    forall k | 0 <= k < |segments|
      ensures PercentDecode(EncodeSegments(segments)[k]) == Utf8Bytes(segments[k])
    {
      EncodeUriComponentDecodes(segments[k]);
    }
  }

  /** The URL of a new file is the page's directory followed by the path,
      whose `/`-separated fields are the encoded segments of the name. */
  lemma NewUrlParts(href: string, name: string)
    ensures var url := NewUrl(href, name);
      var dir := Directory(href);
      |dir| <= |url| && url[..|dir|] == dir &&
      Split(url[|dir|..], '/') == EncodeSegments(Split(name, '/'))
  {
    var dir := Directory(href);
    assert NewUrl(href, name)[..|dir|] == dir;
    assert NewUrl(href, name)[|dir|..] == UrlPath(name);
    UrlPathSegments(name);
  }

  /** No character of a name, `?` and `#` included, can give the new URL a
      query or a fragment. */
  lemma NewUrlHasNoQuery(href: string, name: string)
    ensures BaseUrl(NewUrl(href, name)) == NewUrl(href, name)
  {
    var segments := EncodeSegments(Split(name, '/'));
    forall k | 0 <= k < |segments| ensures '?' !in segments[k] && '#' !in segments[k] {
      EncodedWithout(Split(name, '/')[k], '?');
      EncodedWithout(Split(name, '/')[k], '#');
    }
    JoinWithout(segments, '/', '?');
    JoinWithout(segments, '/', '#');
    NoQueryNoFragment(NewUrl(href, name));
  }

  lemma NoQueryNoFragment(url: string)
    requires '?' !in url && '#' !in url
    ensures BaseUrl(url) == url
  {
  }

  /** Two names get the same URL on the same page only if they are equal. */
  lemma NewUrlInjective(href: string, name1: string, name2: string)
    requires NewUrl(href, name1) == NewUrl(href, name2)
    ensures name1 == name2
  {
    var d := Directory(href);
    assert UrlPath(name1) == NewUrl(href, name1)[|d|..];
    assert UrlPath(name2) == NewUrl(href, name2)[|d|..];
    UrlPathSegments(name1);
    UrlPathSegments(name2);
    var s1, s2 := Split(name1, '/'), Split(name2, '/');
    assert EncodeSegments(s1) == EncodeSegments(s2);
    forall k | 0 <= k < |s1| ensures s1[k] == s2[k] {
      EncodeUriComponentInjective(s1[k], s2[k]);
    }
    assert s1 == s2;
    JoinSplit(name1, '/');
    JoinSplit(name2, '/');
  }
}
