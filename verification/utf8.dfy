/** UTF-8, as Foundation's `String(data:encoding: .utf8)` and
    `writeString` use it: a strict decoder (no overlong forms, no surrogates,
    nothing above U+10FFFF) and the matching encoder. A byte buffer is "valid
    text" exactly when the decoder accepts all of it. */
module Utf8 {
  import opened Wrappers

  /** One octet on the wire. */
  type byte = x: int | 0 <= x < 256

  /** The code points a Dafny `char` can hold (Unicode scalar values). */
  predicate IsScalar(cp: int) {
    0 <= cp < 0xD800 || 0xE000 <= cp < 0x11_0000
  }

  predicate InRange(b: byte, lo: int, hi: int) {
    lo <= b <= hi
  }

  predicate IsContinuation(b: byte) {
    InRange(b, 0x80, 0xBF)
  }

  // ---------------------------------------------------------------------------
  // Encoding
  // ---------------------------------------------------------------------------

  /** The one to four bytes that encode `c`. */
  function EncodeChar(c: char): (bs: seq<byte>)
    ensures 1 <= |bs| <= 4
    ensures |bs| == 1 <==> c as int < 0x80
    ensures forall i | 1 <= i < |bs| :: IsContinuation(bs[i])
  {
    var cp := c as int;
    if cp < 0x80 then
      [cp]
    else if cp < 0x800 then
      [0xC0 + cp / 64, 0x80 + cp % 64]
    else if cp < 0x1_0000 then
      [0xE0 + cp / 4096, 0x80 + (cp / 64) % 64, 0x80 + cp % 64]
    else
      [0xF0 + cp / 262144, 0x80 + (cp / 4096) % 64, 0x80 + (cp / 64) % 64, 0x80 + cp % 64]
  }

  /** The bytes `writeString` puts on the wire for `s`. */
  function Encode(s: string): (bs: seq<byte>)
    ensures |bs| >= |s|
    ensures s != [] ==> bs != []
  {
    if s == [] then [] else EncodeChar(s[0]) + Encode(s[1..])
  }

  // ---------------------------------------------------------------------------
  // Decoding
  // ---------------------------------------------------------------------------

  /** A character read off the front of a buffer, with the number of bytes it took. */
  datatype Decoded = Decoded(c: char, length: nat)

  /** Decodes the first character of `bs`, or None when `bs` does not start
      with a complete, well-formed encoding. */
  function DecodeFirst(bs: seq<byte>): (d: Option<Decoded>)
    requires |bs| > 0
    ensures d.Some? ==> 1 <= d.value.length <= |bs| && d.value.length <= 4
  {
    var b0: int := bs[0];
    if b0 < 0x80 then
      Some(Decoded(b0 as char, 1))
    else if 0xC2 <= b0 < 0xE0 then
      if |bs| >= 2 && IsContinuation(bs[1]) then
        Some(Decoded(((b0 - 0xC0) * 64 + (bs[1] as int - 0x80)) as char, 2))
      else None
    else if 0xE0 <= b0 < 0xF0 then
      if |bs| >= 3 && IsContinuation(bs[1]) && IsContinuation(bs[2]) then
        var cp := (b0 - 0xE0) * 4096 + (bs[1] as int - 0x80) * 64 + (bs[2] as int - 0x80);
        if 0x800 <= cp && IsScalar(cp) then Some(Decoded(cp as char, 3)) else None
      else None
    else if 0xF0 <= b0 < 0xF5 then
      if |bs| >= 4 && IsContinuation(bs[1]) && IsContinuation(bs[2]) && IsContinuation(bs[3]) then
        var cp := (b0 - 0xF0) * 262144 + (bs[1] as int - 0x80) * 4096 + (bs[2] as int - 0x80) * 64 + (bs[3] as int - 0x80);
        if 0x1_0000 <= cp && IsScalar(cp) then Some(Decoded(cp as char, 4)) else None
      else None
    else
      None
  }

  /** The whole buffer as text, or None when any part of it is not valid UTF-8
      (including a character cut short at the end). */
  function Decode(bs: seq<byte>): (r: Option<string>)
    ensures r.Some? ==> |r.value| <= |bs|
    ensures r.Some? && bs != [] ==> r.value != []
    decreases |bs|
  {
    if bs == [] then Some([])
    else
      match DecodeFirst(bs)
      case None => None
      case Some(d) =>
        match Decode(bs[d.length..])
        case None => None
        case Some(rest) => Some([d.c] + rest)
  }

  /** The predicate `listen` asks of its buffer before handing it to the matcher. */
  predicate IsValid(bs: seq<byte>)
    ensures IsValid(bs) && bs != [] ==> DecodeFirst(bs).Some? && IsValid(bs[DecodeFirst(bs).value.length..])
  {
    Decode(bs).Some?
  }

  // ---------------------------------------------------------------------------
  // Table 3-7 of the Unicode Standard (section 3.9): the well-formed byte
  // sequences, written as byte ranges. An independent reference for IsValid.
  // ---------------------------------------------------------------------------

  /** Length of the well-formed sequence at the front of `bs`, 0 if there is none. */
  function TableLength(bs: seq<byte>): nat
    requires |bs| > 0
  {
    var b0 := bs[0];
    if InRange(b0, 0x00, 0x7F) then 1
    else if InRange(b0, 0xC2, 0xDF) then
      if |bs| >= 2 && InRange(bs[1], 0x80, 0xBF) then 2 else 0
    else if b0 == 0xE0 then
      if |bs| >= 3 && InRange(bs[1], 0xA0, 0xBF) && InRange(bs[2], 0x80, 0xBF) then 3 else 0
    else if InRange(b0, 0xE1, 0xEC) || InRange(b0, 0xEE, 0xEF) then
      if |bs| >= 3 && InRange(bs[1], 0x80, 0xBF) && InRange(bs[2], 0x80, 0xBF) then 3 else 0
    else if b0 == 0xED then
      if |bs| >= 3 && InRange(bs[1], 0x80, 0x9F) && InRange(bs[2], 0x80, 0xBF) then 3 else 0
    else if b0 == 0xF0 then
      if |bs| >= 4 && InRange(bs[1], 0x90, 0xBF) && InRange(bs[2], 0x80, 0xBF) && InRange(bs[3], 0x80, 0xBF) then 4 else 0
    else if InRange(b0, 0xF1, 0xF3) then
      if |bs| >= 4 && InRange(bs[1], 0x80, 0xBF) && InRange(bs[2], 0x80, 0xBF) && InRange(bs[3], 0x80, 0xBF) then 4 else 0
    else if b0 == 0xF4 then
      if |bs| >= 4 && InRange(bs[1], 0x80, 0x8F) && InRange(bs[2], 0x80, 0xBF) && InRange(bs[3], 0x80, 0xBF) then 4 else 0
    else 0
  }

  /** A buffer made only of Table 3-7 sequences. */
  predicate WellFormed(bs: seq<byte>)
    decreases |bs|
  {
    bs == [] || (TableLength(bs) > 0 && TableLength(bs) <= |bs| && WellFormed(bs[TableLength(bs)..]))
  }

  /** The decoder accepts a first character exactly where Table 3-7 has a
      well-formed sequence, and of the same length. */
  lemma DecodeFirstMatchesTable(bs: seq<byte>)
    requires |bs| > 0
    ensures DecodeFirst(bs).Some? <==> TableLength(bs) > 0
    ensures DecodeFirst(bs).Some? ==> DecodeFirst(bs).value.length == TableLength(bs)
  {
  }

  /** IsValid agrees with Table 3-7 on every buffer. */
  lemma {:induction false} ValidIffWellFormed(bs: seq<byte>)
    ensures IsValid(bs) <==> WellFormed(bs)
    decreases |bs|
  {
    if bs != [] {
      DecodeFirstMatchesTable(bs);
      if DecodeFirst(bs).Some? {
        ValidIffWellFormed(bs[DecodeFirst(bs).value.length..]);
      }
    }
  }

  // ---------------------------------------------------------------------------
  // Round trips
  // ---------------------------------------------------------------------------

  lemma EncodeAppend(a: string, b: string)
    ensures Encode(a + b) == Encode(a) + Encode(b)
  {
    if a != [] {
      assert (a + b)[0] == a[0];
      assert (a + b)[1..] == a[1..] + b;
      EncodeAppend(a[1..], b);
      calc {
        Encode(a + b);
        EncodeChar(a[0]) + Encode(a[1..] + b);
        EncodeChar(a[0]) + (Encode(a[1..]) + Encode(b));
        (EncodeChar(a[0]) + Encode(a[1..])) + Encode(b);
      }
    } else {
      assert a + b == b;
    }
  }

  lemma EncodeCons(c: char, s: string)
    ensures Encode([c] + s) == EncodeChar(c) + Encode(s)
  {
    assert ([c] + s)[1..] == s;
  }

  /** Division by 64 undoes a shift by one six-bit group. */
  lemma SixBits(hi: int, lo: int)
    requires 0 <= lo < 64
    ensures (hi * 64 + lo) / 64 == hi && (hi * 64 + lo) % 64 == lo
  {
  }

  /** The six-bit groups of a code point of up to 21 bits, least significant last. */
  lemma Groups(top: int, hi: int, mid: int, lo: int)
    requires 0 <= hi < 64 && 0 <= mid < 64 && 0 <= lo < 64
    ensures var cp := top * 262144 + hi * 4096 + mid * 64 + lo;
      cp / 262144 == top && (cp / 4096) % 64 == hi && (cp / 64) % 64 == mid && cp % 64 == lo
  {
    var cp := top * 262144 + hi * 4096 + mid * 64 + lo;
    assert cp == ((top * 64 + hi) * 64 + mid) * 64 + lo;
    SixBits((top * 64 + hi) * 64 + mid, lo);
    SixBits(top * 64 + hi, mid);
    SixBits(top, hi);
  }

  /** The decoder reads back exactly the character the encoder wrote,
      whatever follows it. */
  lemma DecodeFirstEncodeChar(c: char, rest: seq<byte>)
    ensures DecodeFirst(EncodeChar(c) + rest) == Some(Decoded(c, |EncodeChar(c)|))
  {
    var cp := c as int;
    if cp < 0x80 {
    } else if cp < 0x800 {
      DecodeTwoBytes(c, rest);
    } else if cp < 0x1_0000 {
      DecodeThreeBytes(c, rest);
    } else {
      DecodeFourBytes(c, rest);
    }
  }

  /** A code point is the sum of its six-bit groups. */
  lemma Compose(cp: nat)
    ensures cp == (cp / 262144) * 262144 + ((cp / 4096) % 64) * 4096 + ((cp / 64) % 64) * 64 + cp % 64
  {
    assert cp == (cp / 64) * 64 + cp % 64;
    assert cp / 64 == (cp / 4096) * 64 + (cp / 64) % 64;
    assert cp / 4096 == (cp / 262144) * 64 + (cp / 4096) % 64;
  }

  lemma DecodeTwoBytes(c: char, rest: seq<byte>)
    requires 0x80 <= c as int < 0x800
    ensures DecodeFirst(EncodeChar(c) + rest) == Some(Decoded(c, 2))
  {
    var cp := c as int;
    var hi, lo := cp / 64, cp % 64;
    assert cp == hi * 64 + lo;
    var bs := EncodeChar(c) + rest;
    assert bs[0] as int - 0xC0 == hi && bs[1] as int - 0x80 == lo;
  }

  lemma DecodeThreeBytes(c: char, rest: seq<byte>)
    requires 0x800 <= c as int < 0x1_0000
    ensures DecodeFirst(EncodeChar(c) + rest) == Some(Decoded(c, 3))
  {
    var cp := c as int;
    Compose(cp);
    var hi, mid, lo := cp / 4096, (cp / 64) % 64, cp % 64;
    assert cp == hi * 4096 + mid * 64 + lo;
    var bs := EncodeChar(c) + rest;
    assert bs[0] as int - 0xE0 == hi && bs[1] as int - 0x80 == mid && bs[2] as int - 0x80 == lo;
  }

  lemma DecodeFourBytes(c: char, rest: seq<byte>)
    requires 0x1_0000 <= c as int
    ensures DecodeFirst(EncodeChar(c) + rest) == Some(Decoded(c, 4))
  {
    var cp := c as int;
    Compose(cp);
    var top, hi, mid, lo := cp / 262144, (cp / 4096) % 64, (cp / 64) % 64, cp % 64;
    assert cp == top * 262144 + hi * 4096 + mid * 64 + lo;
    var bs := EncodeChar(c) + rest;
    assert bs[0] as int - 0xF0 == top && bs[1] as int - 0x80 == hi;
    assert bs[2] as int - 0x80 == mid && bs[3] as int - 0x80 == lo;
  }

  /** Encoded text always decodes, to the same text. */
  lemma {:induction false} DecodeEncode(s: string)
    ensures Decode(Encode(s)) == Some(s)
  {
    hide EncodeChar, DecodeFirst;
    if s != [] {
      var e := EncodeChar(s[0]);
      DecodeFirstEncodeChar(s[0], Encode(s[1..]));
      assert (e + Encode(s[1..]))[|e|..] == Encode(s[1..]);
      DecodeEncode(s[1..]);
      assert [s[0]] + s[1..] == s;
    }
  }

  /** A first character the decoder accepts re-encodes to the bytes it came from. */
  lemma EncodeCharDecodeFirst(bs: seq<byte>)
    requires |bs| > 0 && DecodeFirst(bs).Some?
    ensures EncodeChar(DecodeFirst(bs).value.c) == bs[..DecodeFirst(bs).value.length]
  {
    if bs[0] < 0x80 {
      assert bs[..1] == [bs[0]];
    } else if bs[0] < 0xE0 {
      ReencodeTwoBytes(bs);
    } else if bs[0] < 0xF0 {
      ReencodeThreeBytes(bs);
    } else {
      ReencodeFourBytes(bs);
    }
  }

  lemma ReencodeTwoBytes(bs: seq<byte>)
    requires |bs| > 0 && 0x80 <= bs[0] < 0xE0 && DecodeFirst(bs).Some?
    ensures DecodeFirst(bs).value.length == 2
    ensures EncodeChar(DecodeFirst(bs).value.c) == bs[..2]
  {
    var hi, lo := bs[0] as int - 0xC0, bs[1] as int - 0x80;
    var cp := hi * 64 + lo;
    assert DecodeFirst(bs) == Some(Decoded(cp as char, 2));
    SixBits(hi, lo);
    assert EncodeChar(cp as char) == [bs[0], bs[1]];
    assert bs[..2] == [bs[0], bs[1]];
  }

  lemma ReencodeThreeBytes(bs: seq<byte>)
    requires |bs| > 0 && 0xE0 <= bs[0] < 0xF0 && DecodeFirst(bs).Some?
    ensures DecodeFirst(bs).value.length == 3
    ensures EncodeChar(DecodeFirst(bs).value.c) == bs[..3]
  {
    var hi, mid, lo := bs[0] as int - 0xE0, bs[1] as int - 0x80, bs[2] as int - 0x80;
    var cp := hi * 4096 + mid * 64 + lo;
    assert DecodeFirst(bs) == Some(Decoded(cp as char, 3));
    Groups(0, hi, mid, lo);
    assert EncodeChar(cp as char) == [bs[0], bs[1], bs[2]];
    assert bs[..3] == [bs[0], bs[1], bs[2]];
  }

  lemma ReencodeFourBytes(bs: seq<byte>)
    requires |bs| > 0 && 0xF0 <= bs[0] && DecodeFirst(bs).Some?
    ensures DecodeFirst(bs).value.length == 4
    ensures EncodeChar(DecodeFirst(bs).value.c) == bs[..4]
  {
    var top, hi, mid, lo := bs[0] as int - 0xF0, bs[1] as int - 0x80, bs[2] as int - 0x80, bs[3] as int - 0x80;
    var cp := top * 262144 + hi * 4096 + mid * 64 + lo;
    assert DecodeFirst(bs) == Some(Decoded(cp as char, 4));
    Groups(top, hi, mid, lo);
    assert EncodeChar(cp as char) == [bs[0], bs[1], bs[2], bs[3]];
    assert bs[..4] == [bs[0], bs[1], bs[2], bs[3]];
  }

  /** Valid buffers re-encode to themselves: decoding loses nothing. */
  lemma {:induction false} EncodeDecode(bs: seq<byte>)
    requires IsValid(bs)
    ensures Encode(Decode(bs).value) == bs
    decreases |bs|
  {
    hide EncodeChar, DecodeFirst;
    if bs != [] {
      var d := DecodeFirst(bs).value;
      var tail := bs[d.length..];
      var rest := Decode(tail).value;
      assert Decode(bs).value == [d.c] + rest;
      EncodeDecode(tail);
      EncodeCharDecodeFirst(bs);
      EncodeCons(d.c, rest);
      assert bs == bs[..d.length] + tail;
    }
  }

  lemma EncodeInjective(s: string, t: string)
    requires Encode(s) == Encode(t)
    ensures s == t
  {
    DecodeEncode(s);
    DecodeEncode(t);
  }

  /** UTF-8 is a prefix code: when one encoding begins another, so does the text. */
  lemma {:induction false} EncodePrefix(t: string, s: string)
    requires Encode(t) <= Encode(s)
    ensures t <= s
  {
    hide EncodeChar, DecodeFirst;
    if t != [] {
      var et := Encode(s);
      assert Encode(s) != [];
      assert s != [];
      var x := Encode(s)[|Encode(t)|..];
      assert Encode(s) == EncodeChar(t[0]) + (Encode(t[1..]) + x);
      assert Encode(s) == EncodeChar(s[0]) + Encode(s[1..]);
      DecodeFirstEncodeChar(t[0], Encode(t[1..]) + x);
      DecodeFirstEncodeChar(s[0], Encode(s[1..]));
      assert t[0] == s[0];
      var n := |EncodeChar(s[0])|;
      assert Encode(t[1..]) == Encode(t)[n..];
      assert Encode(s[1..]) == Encode(s)[n..];
      EncodePrefix(t[1..], s[1..]);
      assert t == [t[0]] + t[1..];
      assert s == [s[0]] + s[1..];
    }
  }

  /** Cutting the encoding of `s` anywhere gives either invalid bytes or the
      encoding of a prefix of `s`; the prefix is all of `s` only when nothing
      was cut. This is why a byte-at-a-time reader never shows the matcher
      text that is not a prefix of what the peer sent. */
  lemma PrefixOfEncoding(s: string, k: nat)
    requires k <= |Encode(s)|
    ensures var d := Decode(Encode(s)[..k]);
      d.Some? ==> d.value <= s && (d.value == s <==> k == |Encode(s)|)
  {
    var p := Encode(s)[..k];
    if IsValid(p) {
      var t := Decode(p).value;
      EncodeDecode(p);
      assert Encode(t) <= Encode(s);
      EncodePrefix(t, s);
      if t == s {
        assert |Encode(t)| == k;
      }
      if k == |Encode(s)| {
        assert p == Encode(s);
        EncodeInjective(t, s);
      }
    }
  }

  predicate IsAscii(s: string) {
    forall i | 0 <= i < |s| :: s[i] as int < 0x80
  }

  /** ASCII text takes one byte per character, so every cut of its encoding
      is the encoding of a prefix. */
  lemma {:induction false} AsciiEncoding(s: string)
    requires IsAscii(s)
    ensures |Encode(s)| == |s|
    ensures forall j | 0 <= j <= |s| :: Encode(s)[..j] == Encode(s[..j])
  {
    hide DecodeFirst;
    if s != [] {
      AsciiEncoding(s[1..]);
      assert EncodeChar(s[0]) == [s[0] as int];
      forall j | 0 <= j <= |s| ensures Encode(s)[..j] == Encode(s[..j]) {
        if j > 0 {
          assert s[..j][0] == s[0] && s[..j][1..] == s[1..][..j - 1];
          assert Encode(s)[..j] == [s[0] as int] + Encode(s[1..])[..j - 1];
        }
      }
    }
  }
}
