/**
 * Percent-encoding as ECMAScript's `encodeURIComponent`, `encodeURI` and
 * `decodeURIComponent` perform it: a character outside the flavour's
 * unescaped set is written as the `%XY` triplets (section 2.1 of RFC 3986,
 * upper-case hex digits) of its UTF-8 bytes (section 3 of RFC 3629).
 */
module Percent {
  import opened Results
  import Seqs

  /** The message of the `URIError` that `decodeURIComponent` throws. */
  const UriMalformed := "URI malformed"

  /** `Component` is `encodeURIComponent`; `WholeUri` is `encodeURI`, which also keeps the URI delimiters. */
  datatype Flavour = Component | WholeUri

  predicate IsAsciiAlnum(c: char) {
    ('a' <= c <= 'z') || ('A' <= c <= 'Z') || ('0' <= c <= '9')
  }

  /** The characters a flavour copies unchanged. */
  predicate Unescaped(f: Flavour, c: char) {
    || IsAsciiAlnum(c)
    || c in "-_.!~*'()"
    || (f == WholeUri && c in ";/?:@&=+$,#")
  }

  /** UTF-8: one byte below U+0080, then two, three or four bytes. */
  function Utf8(c: char): (bs: seq<Byte>)
    ensures 1 <= |bs| <= 4
    ensures |bs| == 1 <==> c as int < 0x80
  {
    var v := c as int;
    if v < 0x80 then [v]
    else if v < 0x800 then [0xC0 + v / 64, 0x80 + v % 64]
    else if v < 0x10000 then [0xE0 + v / 4096, 0x80 + v / 64 % 64, 0x80 + v % 64]
    else [0xF0 + v / 262144, 0x80 + v / 4096 % 64, 0x80 + v / 64 % 64, 0x80 + v % 64]
  }

  function HexDigit(n: int): (c: char)
    requires 0 <= n < 16
  {
    "0123456789ABCDEF"[n]
  }

  /** The value of a hex digit of either case. */
  function HexValue(c: char): (r: Option<int>)
    ensures r.Some? ==> 0 <= r.value < 16
  {
    if '0' <= c <= '9' then Some(c as int - '0' as int)
    else if 'A' <= c <= 'F' then Some(c as int - 'A' as int + 10)
    else if 'a' <= c <= 'f' then Some(c as int - 'a' as int + 10)
    else None
  }

  lemma HexDigitValue(n: int)
    requires 0 <= n < 16
    ensures HexValue(HexDigit(n)) == Some(n)
  {
  }

  function EscapeByte(b: Byte): string {
    ['%', HexDigit(b / 16), HexDigit(b % 16)]
  }

  function Escapes(bs: seq<Byte>): (r: string)
    ensures |r| == 3 * |bs|
  {
    if bs == [] then [] else EscapeByte(bs[0]) + Escapes(bs[1..])
  }

  function EncodeChar(f: Flavour, c: char): string {
    if Unescaped(f, c) then [c] else Escapes(Utf8(c))
  }

  /** `encodeURIComponent(s)` or `encodeURI(s)`. It never throws: a Dafny string holds no lone surrogate. */
  function Encode(f: Flavour, s: string): string {
    if s == [] then [] else EncodeChar(f, s[0]) + Encode(f, s[1..])
  }

  /** The byte written as a `%XY` triplet at index `i` of `s`, if one is there. */
  function EscapedByte(s: string, i: nat): (r: Option<Byte>)
  {
    if i + 3 <= |s| && s[i] == '%' && HexValue(s[i + 1]).Some? && HexValue(s[i + 2]).Some? then
      Some(16 * HexValue(s[i + 1]).value + HexValue(s[i + 2]).value)
    else None
  }

  predicate IsContinuation(b: Byte) { 0x80 <= b < 0xC0 }

  /** Continuation byte `b` as a 6-bit value. */
  function Low6(b: Byte): int requires IsContinuation(b) { b - 0x80 }

  /**
   * Reads one escaped UTF-8 sequence at the start of `s` and gives the
   * character and the number of string characters it took; None where
   * `decodeURIComponent` throws: a malformed triplet, a stray continuation
   * byte, a lead byte with more than four leading ones, a missing or bad
   * continuation byte, an overlong form, a surrogate or a value above U+10FFFF.
   */
  function DecodeEscape(s: string): (r: Option<(char, nat)>)
    ensures r.Some? ==> 3 <= r.value.1 <= |s|
  {
    match EscapedByte(s, 0)
    case None => None
    case Some(b0) =>
      if b0 < 0x80 then Some((b0 as char, 3))
      else if b0 < 0xC0 || 0xF8 <= b0 then None
      else
        var n := if b0 < 0xE0 then 2 else if b0 < 0xF0 then 3 else 4;
        var b1 := EscapedByte(s, 3);
        var b2 := if n >= 3 then EscapedByte(s, 6) else Some(0x80);
        var b3 := if n == 4 then EscapedByte(s, 9) else Some(0x80);
        if b1.None? || b2.None? || b3.None? then None
        else if !IsContinuation(b1.value) || !IsContinuation(b2.value) || !IsContinuation(b3.value) then None
        else if n == 2 then
          var v := (b0 - 0xC0) * 64 + Low6(b1.value);
          if 0x80 <= v then Some((v as char, 6)) else None
        else if n == 3 then
          var v := ((b0 - 0xE0) * 64 + Low6(b1.value)) * 64 + Low6(b2.value);
          if 0x800 <= v && !(0xD800 <= v < 0xE000) then Some((v as char, 9)) else None
        else
          var v := (((b0 - 0xF0) * 64 + Low6(b1.value)) * 64 + Low6(b2.value)) * 64 + Low6(b3.value);
          if 0x10000 <= v < 0x110000 then Some((v as char, 12)) else None
  }

  function Prepend(c: char, r: Result<string, string>): Result<string, string> {
    match r
    case Ok(t) => Ok([c] + t)
    case Err(e) => Err(e)
  }

  /** `decodeURIComponent(s)`: the `URIError` it may throw becomes `Err`. */
  function Decode(s: string): (r: Result<string, string>)
    decreases |s|
  {
    if s == [] then Ok([])
    else if s[0] != '%' then Prepend(s[0], Decode(s[1..]))
    else
      match DecodeEscape(s)
      case None => Err(UriMalformed)
      case Some(p) => Prepend(p.0, Decode(s[p.1..]))
  }

  // ---- Properties ----

  /** Encoding distributes over concatenation. */
  lemma {:induction false} EncodeConcat(f: Flavour, a: string, b: string)
    ensures Encode(f, a + b) == Encode(f, a) + Encode(f, b)
  {
    if a == [] {
      assert a + b == b;
    } else {
      Seqs.TailConcat(a, b);
      EncodeConcat(f, a[1..], b);
      Seqs.Associates(EncodeChar(f, a[0]), Encode(f, a[1..]), Encode(f, b));
    }
  }

  /** A string made only of unescaped characters encodes to itself. */
  lemma {:induction false} EncodeUnescaped(f: Flavour, s: string)
    requires forall i | 0 <= i < |s| :: Unescaped(f, s[i])
    ensures Encode(f, s) == s
  {
    if s != [] {
      EncodeUnescaped(f, s[1..]);
    }
  }

  /** A character that may appear in an encoding: a copied one, `%`, or an upper-case hex digit. */
  predicate InEncodedAlphabet(f: Flavour, c: char) {
    Unescaped(f, c) || c == '%' || ('0' <= c <= '9') || ('A' <= c <= 'F')
  }

  lemma {:induction false} EscapesAlphabet(f: Flavour, bs: seq<Byte>)
    ensures forall i | 0 <= i < |Escapes(bs)| :: InEncodedAlphabet(f, Escapes(bs)[i])
  {
    if bs != [] {
      EscapesAlphabet(f, bs[1..]);
      var e := EscapeByte(bs[0]);
      assert forall i | 0 <= i < 3 :: InEncodedAlphabet(f, e[i]);
    }
  }

  /** Every character of an encoding is a copied one, a `%` or an upper-case hex digit. */
  lemma {:induction false} EncodeAlphabet(f: Flavour, s: string)
    ensures forall i | 0 <= i < |Encode(f, s)| :: InEncodedAlphabet(f, Encode(f, s)[i])
  {
    if s != [] {
      EncodeAlphabet(f, s[1..]);
      if !Unescaped(f, s[0]) {
        EscapesAlphabet(f, Utf8(s[0]));
      }
    }
  }

  /** A string without `%` decodes to itself. */
  lemma {:induction false} DecodeWithoutPercent(s: string)
    requires '%' !in s
    ensures Decode(s) == Ok(s)
  {
    if s != [] {
      DecodeWithoutPercent(s[1..]);
      assert s == [s[0]] + s[1..];
    }
  }

  lemma ByteFromHexDigits(b: Byte)
    ensures EscapedByte(EscapeByte(b), 0) == Some(b)
  {
    HexDigitValue(b / 16);
    HexDigitValue(b % 16);
  }

  /** The `j`-th triplet of an escape run, followed by anything, reads back as the `j`-th byte. */
  lemma {:induction false} EscapedByteAt(bs: seq<Byte>, rest: string, j: nat)
    requires j < |bs|
    ensures EscapedByte(Escapes(bs) + rest, 3 * j) == Some(bs[j])
  {
    var e, t := EscapeByte(bs[0]), Escapes(bs[1..]) + rest;
    Seqs.Associates(e, Escapes(bs[1..]), rest);
    if j == 0 {
      ByteFromHexDigits(bs[0]);
      EscapedByteHead(e, t);
    } else {
      EscapedByteAt(bs[1..], rest, j - 1);
      EscapedByteShift(e, t, 3 * (j - 1));
    }
  }

  lemma EscapedByteHead(p: string, t: string)
    requires |p| == 3
    ensures EscapedByte(p + t, 0) == EscapedByte(p, 0)
  {
    assert (p + t)[0] == p[0] && (p + t)[1] == p[1] && (p + t)[2] == p[2];
  }

  lemma EscapedByteShift(p: string, t: string, i: nat)
    ensures EscapedByte(p + t, |p| + i) == EscapedByte(t, i)
  {
    if i + 3 <= |t| {
      assert (p + t)[|p| + i] == t[i];
      assert (p + t)[|p| + i + 1] == t[i + 1];
      assert (p + t)[|p| + i + 2] == t[i + 2];
    }
  }

  lemma SplitCodePoint(v: int)
    requires 0 <= v
    ensures v == (v / 64) * 64 + v % 64
    ensures v / 4096 == (v / 64) / 64
    ensures v / 262144 == (v / 4096) / 64
  {
  }

  /** The decoder's arithmetic puts the bytes `Utf8` takes apart back together. */
  lemma Utf8Reassembles(c: char)
    ensures var bs, v := Utf8(c), c as int;
      && (|bs| >= 2 ==> 0xC0 <= bs[0] < 0xF8 && IsContinuation(bs[1]))
      && (|bs| >= 3 ==> IsContinuation(bs[2]))
      && (|bs| == 4 ==> IsContinuation(bs[3]))
      && (|bs| == 2 ==> bs[0] < 0xE0 && (bs[0] - 0xC0) * 64 + Low6(bs[1]) == v)
      && (|bs| == 3 ==> 0xE0 <= bs[0] < 0xF0 && ((bs[0] - 0xE0) * 64 + Low6(bs[1])) * 64 + Low6(bs[2]) == v)
      && (|bs| == 4 ==>
            && 0xF0 <= bs[0]
            && (((bs[0] - 0xF0) * 64 + Low6(bs[1])) * 64 + Low6(bs[2])) * 64 + Low6(bs[3]) == v)
  {
    var v := c as int;
    SplitCodePoint(v);
    SplitCodePoint(v / 64);
    SplitCodePoint(v / 4096);
  }

  lemma DecodeTwo(s: string, b0: Byte, b1: Byte, c: char)
    requires EscapedByte(s, 0) == Some(b0) && EscapedByte(s, 3) == Some(b1)
    requires 0xC0 <= b0 < 0xE0 && IsContinuation(b1)
    requires (b0 - 0xC0) * 64 + Low6(b1) == c as int >= 0x80
    ensures DecodeEscape(s) == Some((c, 6))
  {
  }

  lemma DecodeThree(s: string, b0: Byte, b1: Byte, b2: Byte, c: char)
    requires EscapedByte(s, 0) == Some(b0) && EscapedByte(s, 3) == Some(b1) && EscapedByte(s, 6) == Some(b2)
    requires 0xE0 <= b0 < 0xF0 && IsContinuation(b1) && IsContinuation(b2)
    requires ((b0 - 0xE0) * 64 + Low6(b1)) * 64 + Low6(b2) == c as int >= 0x800
    ensures DecodeEscape(s) == Some((c, 9))
  {
  }

  lemma DecodeFour(s: string, b0: Byte, b1: Byte, b2: Byte, b3: Byte, c: char)
    requires EscapedByte(s, 0) == Some(b0) && EscapedByte(s, 3) == Some(b1)
    requires EscapedByte(s, 6) == Some(b2) && EscapedByte(s, 9) == Some(b3)
    requires 0xF0 <= b0 < 0xF8 && IsContinuation(b1) && IsContinuation(b2) && IsContinuation(b3)
    requires (((b0 - 0xF0) * 64 + Low6(b1)) * 64 + Low6(b2)) * 64 + Low6(b3) == c as int >= 0x10000
    ensures DecodeEscape(s) == Some((c, 12))
  {
  }

  /** An escaped UTF-8 sequence, followed by anything, reads back as its character. */
  lemma Utf8Escapes(c: char, rest: string)
    requires c as int >= 0x80
    ensures DecodeEscape(Escapes(Utf8(c)) + rest) == Some((c, |Escapes(Utf8(c))|))
  {
    var bs := Utf8(c);
    var s := Escapes(bs) + rest;
    Utf8Reassembles(c);
    EscapedByteAt(bs, rest, 0);
    EscapedByteAt(bs, rest, 1);
    if |bs| == 2 {
      DecodeTwo(s, bs[0], bs[1], c);
    } else if |bs| == 3 {
      EscapedByteAt(bs, rest, 2);
      DecodeThree(s, bs[0], bs[1], bs[2], c);
    } else {
      EscapedByteAt(bs, rest, 2);
      EscapedByteAt(bs, rest, 3);
      DecodeFour(s, bs[0], bs[1], bs[2], bs[3], c);
    }
  }

  lemma EncodeCharThenDecode(f: Flavour, c: char, rest: string)
    ensures Decode(EncodeChar(f, c) + rest) == Prepend(c, Decode(rest))
  {
    var s := EncodeChar(f, c) + rest;
    if Unescaped(f, c) {
      assert s[0] == c && s[1..] == rest;
    } else {
      var bs := Utf8(c);
      if c as int < 0x80 {
        ByteFromHexDigits(bs[0]);
        assert s[..3] == EscapeByte(bs[0]);
        assert s[0] == '%' && s[1] == EscapeByte(bs[0])[1] && s[2] == EscapeByte(bs[0])[2];
        assert DecodeEscape(s) == Some((c, 3));
      } else {
        Utf8Escapes(c, rest);
        assert s[0] == EscapeByte(bs[0])[0];
      }
      assert s[|EncodeChar(f, c)|..] == rest;
    }
  }

  /** `decodeURIComponent` inverts both encoders. */
  lemma {:induction false} DecodeEncode(f: Flavour, s: string)
    ensures Decode(Encode(f, s)) == Ok(s)
  {
    if s != [] {
      DecodeEncode(f, s[1..]);
      EncodeCharThenDecode(f, s[0], Encode(f, s[1..]));
      assert s == [s[0]] + s[1..];
    }
  }
}
