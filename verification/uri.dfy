/**
 * `encodeURIComponent` as ECMA-262 (section 19.2.6.5) defines it: every
 * character outside the unreserved set is written as the UTF-8 bytes of its
 * code point, each byte as `%` and two upper-case hexadecimal digits
 * (percent-encoding, section 2.1 of RFC 3986). Beside it, the form-style
 * variant the lookup URL uses (a space becomes `+`) and a decoder for that
 * variant, which shows that no information about the word is lost.
 */
module Uri {
  import opened Options
  import opened JsString

  /** The characters `encodeURIComponent` leaves as they are: letters, digits and `-_.!~*'()`. */
  predicate IsUnreserved(c: char) {
    ('A' <= c <= 'Z') || ('a' <= c <= 'z') || ('0' <= c <= '9') ||
    c == '-' || c == '_' || c == '.' || c == '!' || c == '~' || c == '*' ||
    c == '\'' || c == '(' || c == ')'
  }

  predicate IsByte(b: int) {
    0 <= b < 256
  }

  predicate AreBytes(bs: seq<int>) {
    forall k :: 0 <= k < |bs| ==> IsByte(bs[k])
  }

  /** The UTF-8 encoding of one Unicode scalar value: one to four bytes. */
  function Utf8(c: char): (bytes: seq<int>)
    ensures 1 <= |bytes| <= 4 && AreBytes(bytes)
    ensures c as int < 0x80 ==> bytes == [c as int]
    ensures c as int >= 0x80 ==> forall k :: 0 <= k < |bytes| ==> bytes[k] >= 0x80
  {
    var cp := c as int;
    if cp < 0x80 then [cp]
    else if cp < 0x800 then [0xC0 + cp / 64, 0x80 + cp % 64]
    else if cp < 0x10000 then [0xE0 + cp / 4096, 0x80 + (cp / 64) % 64, 0x80 + cp % 64]
    else [0xF0 + cp / 262144, 0x80 + (cp / 4096) % 64, 0x80 + (cp / 64) % 64, 0x80 + cp % 64]
  }

  function HexDigit(d: int): (c: char)
    requires 0 <= d < 16
    ensures c != '%' && c != '+' && !IsWhite(c)
  {
    "0123456789ABCDEF"[d]
  }

  /** The value of a hexadecimal digit of either case. */
  function HexValue(c: char): (v: Option<int>)
    ensures v.Some? ==> 0 <= v.value < 16
  {
    if '0' <= c <= '9' then Some(c as int - '0' as int)
    else if 'A' <= c <= 'F' then Some(c as int - 'A' as int + 10)
    else if 'a' <= c <= 'f' then Some(c as int - 'a' as int + 10)
    else None
  }

  lemma HexValueOfDigit(d: int)
    requires 0 <= d < 16
    ensures HexValue(HexDigit(d)) == Some(d)
  {
  }

  /** `%XY` for one byte. */
  function PercentByte(b: int): (r: string)
    requires IsByte(b)
    ensures |r| == 3 && r[0] == '%'
  {
    ['%', HexDigit(b / 16), HexDigit(b % 16)]
  }

  function PercentBytes(bs: seq<int>): (r: string)
    requires AreBytes(bs)
    ensures |r| == 3 * |bs|
  {
    if bs == [] then [] else PercentByte(bs[0]) + PercentBytes(bs[1..])
  }

  /** What `encodeURIComponent` writes for one character. */
  function EncodeChar(c: char): string {
    if IsUnreserved(c) then [c] else PercentBytes(Utf8(c))
  }

  /** `encodeURIComponent(s)`, one character after the other. */
  function EncodeURIComponent(s: string): string {
    if s == [] then [] else EncodeChar(s[0]) + EncodeURIComponent(s[1..])
  }

  /** What the form-style encoding writes for one character: a space is `+`. */
  function FormEncodeChar(c: char): string {
    if c == ' ' then "+" else EncodeChar(c)
  }

  /** Every character encoded on its own, with a space written as `+`. */
  function FormEncode(s: string): string {
    if s == [] then [] else FormEncodeChar(s[0]) + FormEncode(s[1..])
  }

  /** Byte `b` encodes to `%20` exactly when it is the space byte. */
  lemma PercentByteIsSpaceCode(b: int)
    requires IsByte(b)
    ensures PercentByte(b) == "%20" <==> b == 0x20
  {
    if PercentByte(b) == "%20" {
      HexValueOfDigit(b / 16);
      HexValueOfDigit(b % 16);
      assert HexDigit(b / 16) == '2' && HexDigit(b % 16) == '0';
    }
  }

  /** Unfolding ReplaceAll at a character that cannot start `%20`. */
  lemma ReplaceAtOther(s: string)
    requires s != [] && s[0] != '%'
    ensures ReplaceAll(s, "%20", "+") == [s[0]] + ReplaceAll(s[1..], "%20", "+")
  {
    if |s| >= 3 {
      assert s[..3][0] == s[0];
    }
  }

  /** Unfolding ReplaceAll over one encoded byte that is not the space byte. */
  lemma ReplaceKeepsByte(b: int, rest: string)
    requires IsByte(b) && b != 0x20
    ensures ReplaceAll(PercentByte(b) + rest, "%20", "+") == PercentByte(b) + ReplaceAll(rest, "%20", "+")
  {
    var p := PercentByte(b);
    var s := p + rest;
    PercentByteIsSpaceCode(b);
    assert s[..3] == p;
    assert !IsPrefix("%20", s);
    var t1, t2 := [p[1], p[2]] + rest, [p[2]] + rest;
    assert s[1..] == t1 && t1[1..] == t2 && t2[1..] == rest;
    assert p[1] == HexDigit(b / 16) && p[2] == HexDigit(b % 16);
    ReplaceAtOther(t2);
    ReplaceAtOther(t1);
    assert [p[0]] + ([p[1]] + ([p[2]] + ReplaceAll(rest, "%20", "+"))) == p + ReplaceAll(rest, "%20", "+");
  }

  lemma {:induction false} ReplaceKeepsBytes(bs: seq<int>, rest: string)
    requires AreBytes(bs) && forall k :: 0 <= k < |bs| ==> bs[k] != 0x20
    ensures ReplaceAll(PercentBytes(bs) + rest, "%20", "+") == PercentBytes(bs) + ReplaceAll(rest, "%20", "+")
    decreases |bs|
  {
    if bs == [] {
      assert PercentBytes(bs) + rest == rest;
    } else {
      var head, tail := PercentByte(bs[0]), PercentBytes(bs[1..]);
      assert PercentBytes(bs) == head + tail;
      assert forall k :: 0 <= k < |bs[1..]| ==> bs[1..][k] == bs[k + 1];
      calc {
        ReplaceAll(PercentBytes(bs) + rest, "%20", "+");
        { assert PercentBytes(bs) + rest == head + (tail + rest); }
        ReplaceAll(head + (tail + rest), "%20", "+");
        { ReplaceKeepsByte(bs[0], tail + rest); }
        head + ReplaceAll(tail + rest, "%20", "+");
        { ReplaceKeepsBytes(bs[1..], rest); }
        head + (tail + ReplaceAll(rest, "%20", "+"));
        PercentBytes(bs) + ReplaceAll(rest, "%20", "+");
      }
    }
  }

  /** Rewriting `%20` to `+` in one encoded character gives its form-style encoding. */
  lemma {:induction false} ReplaceOneChar(c: char, rest: string)
    ensures ReplaceAll(EncodeChar(c) + rest, "%20", "+") == FormEncodeChar(c) + ReplaceAll(rest, "%20", "+")
  {
    var s := EncodeChar(c) + rest;
    if IsUnreserved(c) {
      assert s[0] == c && c != '%';
      assert !IsPrefix("%20", s);
      assert s[1..] == rest;
    } else if c == ' ' {
      assert Utf8(c) == [0x20];
      assert EncodeChar(c) == "%20";
      assert s[..3] == "%20" && s[3..] == rest;
    } else {
      ReplaceKeepsBytes(Utf8(c), rest);
    }
  }

  /**
   * The word segment of the lookup URL, `encodeURIComponent(text)` with
   * every `%20` rewritten to `+`, is the form-style encoding of the text:
   * each space becomes `+` and every other character is encoded as
   * `encodeURIComponent` encodes it.
   */
  lemma {:induction false} PlusForSpaces(s: string)
    ensures ReplaceAll(EncodeURIComponent(s), "%20", "+") == FormEncode(s)
    decreases |s|
  {
    if s != [] {
      PlusForSpaces(s[1..]);
      ReplaceOneChar(s[0], EncodeURIComponent(s[1..]));
    }
  }

  /** The first character that ReplaceAll writes. */
  lemma ReplaceHead(t: string)
    ensures t == [] ==> ReplaceAll(t, "%20", "+") == []
    ensures t != [] ==> ReplaceAll(t, "%20", "+") != [] &&
                        ReplaceAll(t, "%20", "+")[0] == (if IsPrefix("%20", t) then '+' else t[0])
  {
  }

  /** After the rewrite no `%20` is left, whatever the input. */
  lemma {:induction false} ReplacedHasNoPattern(s: string)
    ensures !Contains(ReplaceAll(s, "%20", "+"), "%20")
    decreases |s|
  {
    var r := ReplaceAll(s, "%20", "+");
    if s == [] {
    } else if IsPrefix("%20", s) {
      ReplacedHasNoPattern(s[3..]);
      assert r[1..] == ReplaceAll(s[3..], "%20", "+");
      assert r[0] == '+';
    } else {
      var t := s[1..];
      var rt := ReplaceAll(t, "%20", "+");
      ReplacedHasNoPattern(t);
      assert r == [s[0]] + rt && r[1..] == rt;
      ReplaceHead(t);
      if t != [] {
        ReplaceHead(t[1..]);
      }
    }
  }

  /** The form-style encoding never contains a space. */
  lemma {:induction false} FormEncodeHasNoSpace(s: string)
    ensures ' ' !in FormEncode(s)
    decreases |s|
  {
    if s != [] {
      FormEncodeHasNoSpace(s[1..]);
      var c := s[0];
      if c != ' ' && !IsUnreserved(c) {
        PercentBytesAlphabet(Utf8(c));
      }
    }
  }

  /** Percent-encoded bytes consist of `%` and hexadecimal digits only. */
  lemma {:induction false} PercentBytesAlphabet(bs: seq<int>)
    requires AreBytes(bs)
    ensures forall k :: 0 <= k < |PercentBytes(bs)| ==> PercentBytes(bs)[k] == '%' || HexValue(PercentBytes(bs)[k]).Some?
    decreases |bs|
  {
    if bs != [] {
      PercentBytesAlphabet(bs[1..]);
      HexValueOfDigit(bs[0] / 16);
      HexValueOfDigit(bs[0] % 16);
    }
  }

  // ---- Decoding, the inverse of FormEncode ----

  /** The byte written as `%XY` at the start of `e`, if there is one. */
  function ReadByte(e: string): (b: Option<int>)
    ensures b.Some? ==> IsByte(b.value)
  {
    if |e| < 3 || e[0] != '%' then None
    else match (HexValue(e[1]), HexValue(e[2]))
      case (Some(hi), Some(lo)) => Some(16 * hi + lo)
      case _ => None
  }

  /** `n` consecutive `%XY` bytes at the start of `e`. */
  function ReadBytes(e: string, n: nat): (bs: Option<seq<int>>)
    ensures bs.Some? ==> |bs.value| == n && AreBytes(bs.value) && 3 * n <= |e|
  {
    if n == 0 then Some([])
    else match ReadByte(e)
      case None => None
      case Some(b) =>
        match ReadBytes(e[3..], n - 1)
        case None => None
        case Some(bs) => Some([b] + bs)
  }

  /** How many bytes a UTF-8 sequence with this first byte has; 0 if none. */
  function SequenceLength(b0: int): nat {
    if b0 < 0x80 then 1
    else if 0xC0 <= b0 < 0xE0 then 2
    else if 0xE0 <= b0 < 0xF0 then 3
    else if 0xF0 <= b0 < 0xF8 then 4
    else 0
  }

  predicate IsContinuation(b: int) {
    0x80 <= b < 0xC0
  }

  /** The code point a well-formed UTF-8 sequence of one to four bytes stands for. */
  function CodePoint(bs: seq<int>): int
    requires 1 <= |bs| <= 4
  {
    if |bs| == 1 then bs[0]
    else if |bs| == 2 then (bs[0] - 0xC0) * 64 + (bs[1] - 0x80)
    else if |bs| == 3 then (bs[0] - 0xE0) * 4096 + (bs[1] - 0x80) * 64 + (bs[2] - 0x80)
    else (bs[0] - 0xF0) * 262144 + (bs[1] - 0x80) * 4096 + (bs[2] - 0x80) * 64 + (bs[3] - 0x80)
  }

  /** A code point that an `n`-byte sequence may carry: shortest form, no surrogate. */
  predicate IsScalarOfLength(cp: int, n: nat) {
    if n == 1 then 0 <= cp < 0x80
    else if n == 2 then 0x80 <= cp < 0x800
    else if n == 3 then 0x800 <= cp < 0x10000 && !(0xD800 <= cp < 0xE000)
    else n == 4 && 0x10000 <= cp < 0x110000
  }

  /** One percent-encoded UTF-8 character at the start of `e`, and how many characters of `e` it takes. */
  function ReadChar(e: string): (r: Option<(char, nat)>)
    ensures r.Some? ==> 3 <= r.value.1 <= |e|
  {
    match ReadByte(e)
    case None => None
    case Some(b0) =>
      var n := SequenceLength(b0);
      if n == 0 then None
      else match ReadBytes(e, n)
        case None => None
        case Some(bs) =>
          if (forall k :: 1 <= k < n ==> IsContinuation(bs[k])) && IsScalarOfLength(CodePoint(bs), n)
          then Some((CodePoint(bs) as char, 3 * n))
          else None
  }

  function Prepend(c: char, rest: Option<string>): Option<string> {
    match rest
    case None => None
    case Some(s) => Some([c] + s)
  }

  /**
   * Form-style decoding: `+` is a space, `%XY` sequences are UTF-8, every
   * other character stands for itself; None for a malformed escape.
   */
  function FormDecode(e: string): Option<string>
    decreases |e|
  {
    if e == [] then Some([])
    else if e[0] == '%' then
      match ReadChar(e)
      case None => None
      case Some((c, n)) => Prepend(c, FormDecode(e[n..]))
    else Prepend(if e[0] == '+' then ' ' else e[0], FormDecode(e[1..]))
  }

  lemma ReadByteOfPercentByte(b: int, rest: string)
    requires IsByte(b)
    ensures ReadByte(PercentByte(b) + rest) == Some(b)
  {
    HexValueOfDigit(b / 16);
    HexValueOfDigit(b % 16);
  }

  /** Reading one more byte after an encoded byte. */
  lemma ReadBytesStep(b: int, tail: string, n: nat)
    requires IsByte(b)
    ensures ReadBytes(PercentByte(b) + tail, n + 1) ==
      match ReadBytes(tail, n)
      case None => None
      case Some(bs) => Some([b] + bs)
  {
    ReadByteOfPercentByte(b, tail);
    assert (PercentByte(b) + tail)[3..] == tail;
  }

  lemma {:induction false} ReadBytesOfPercentBytes(bs: seq<int>, rest: string)
    requires AreBytes(bs)
    ensures ReadBytes(PercentBytes(bs) + rest, |bs|) == Some(bs)
    decreases |bs|
  {
    if bs != [] {
      var tail := PercentBytes(bs[1..]) + rest;
      assert PercentBytes(bs) + rest == PercentByte(bs[0]) + tail;
      ReadBytesStep(bs[0], tail, |bs| - 1);
      ReadBytesOfPercentBytes(bs[1..], rest);
      assert [bs[0]] + bs[1..] == bs;
    }
  }

  lemma TwoByteDecodes(cp: int)
    requires 0x80 <= cp < 0x800
    ensures var bs := [0xC0 + cp / 64, 0x80 + cp % 64];
      SequenceLength(bs[0]) == 2 && IsContinuation(bs[1]) && CodePoint(bs) == cp
  {
    assert cp == 64 * (cp / 64) + cp % 64;
  }

  lemma ThreeByteDecodes(cp: int)
    requires 0x800 <= cp < 0x10000
    ensures var bs := [0xE0 + cp / 4096, 0x80 + (cp / 64) % 64, 0x80 + cp % 64];
      SequenceLength(bs[0]) == 3 && IsContinuation(bs[1]) && IsContinuation(bs[2]) && CodePoint(bs) == cp
  {
    var q := cp / 64;
    assert cp == 64 * q + cp % 64;
    assert q == 64 * (q / 64) + q % 64;
    assert q / 64 == cp / 4096;
  }

  lemma FourByteDecodes(cp: int)
    requires 0x10000 <= cp < 0x110000
    ensures var bs := [0xF0 + cp / 262144, 0x80 + (cp / 4096) % 64, 0x80 + (cp / 64) % 64, 0x80 + cp % 64];
      && SequenceLength(bs[0]) == 4 && IsContinuation(bs[1]) && IsContinuation(bs[2]) && IsContinuation(bs[3])
      && CodePoint(bs) == cp
  {
    var q := cp / 64;
    var r := q / 64;
    assert cp == 64 * q + cp % 64;
    assert q == 64 * r + q % 64;
    assert r == 64 * (r / 64) + r % 64;
    assert r == cp / 4096;
    assert r / 64 == cp / 262144;
  }

  /** The UTF-8 bytes of `c` are a well-formed sequence that decodes to `c`. */
  lemma Utf8Decodes(c: char)
    ensures SequenceLength(Utf8(c)[0]) == |Utf8(c)|
    ensures forall k :: 1 <= k < |Utf8(c)| ==> IsContinuation(Utf8(c)[k])
    ensures CodePoint(Utf8(c)) == c as int
    ensures IsScalarOfLength(c as int, |Utf8(c)|)
  {
    var cp := c as int;
    if cp < 0x80 {
    } else if cp < 0x800 {
      TwoByteDecodes(cp);
    } else if cp < 0x10000 {
      ThreeByteDecodes(cp);
    } else {
      FourByteDecodes(cp);
    }
  }

  lemma ReadCharOfEncoded(c: char, rest: string)
    ensures ReadChar(PercentBytes(Utf8(c)) + rest) == Some((c, 3 * |Utf8(c)|))
  {
    var bs := Utf8(c);
    var e := PercentBytes(bs) + rest;
    assert e == PercentByte(bs[0]) + (PercentBytes(bs[1..]) + rest);
    ReadByteOfPercentByte(bs[0], PercentBytes(bs[1..]) + rest);
    ReadBytesOfPercentBytes(bs, rest);
    Utf8Decodes(c);
  }

  /** Decoding undoes the form-style encoding: no two texts share an encoding. */
  lemma {:induction false} FormDecodeEncode(s: string)
    ensures FormDecode(FormEncode(s)) == Some(s)
    decreases |s|
  {
    if s != [] {
      var c := s[0];
      var rest := FormEncode(s[1..]);
      var e := FormEncode(s);
      FormDecodeEncode(s[1..]);
      assert e == FormEncodeChar(c) + rest;
      if c == ' ' {
        assert e[0] == '+' && e[1..] == rest;
      } else if IsUnreserved(c) {
        assert e[0] == c && e[1..] == rest;
      } else {
        var bs := Utf8(c);
        ReadCharOfEncoded(c, rest);
        assert e[0] == '%';
        assert e[3 * |bs|..] == rest;
      }
      assert [c] + s[1..] == s;
    }
  }

  lemma FormEncodeInjective(a: string, b: string)
    requires FormEncode(a) == FormEncode(b)
    ensures a == b
  {
    FormDecodeEncode(a);
    FormDecodeEncode(b);
  }
}
