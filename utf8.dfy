/**
 * UTF-8, as Rust's `String::from_utf8`, `CStr::to_str` and `str::as_bytes`
 * use it: the encoding of a `char` (a Unicode scalar value) and the strict
 * decoder that rejects overlong forms, surrogates and values past U+10FFFF.
 */
module Utf8 {
  import opened Wrappers

  /** Number of bytes UTF-8 spends on `c`. */
  function Width(c: char): nat {
    var v := c as int;
    if v < 0x80 then 1 else if v < 0x800 then 2 else if v < 0x10000 then 3 else 4
  }

  predicate IsContinuation(b: byte) {
    0x80 <= b < 0xC0
  }

  function EncodeChar(c: char): (bs: seq<byte>)
    ensures |bs| == Width(c)
    ensures bs[0] == 0 <==> c == '\0'
    ensures forall i :: 1 <= i < |bs| ==> IsContinuation(bs[i])
  {
    var v := c as int;
    if v < 0x80 then [v]
    else if v < 0x800 then [0xC0 + v / 64, 0x80 + v % 64]
    else if v < 0x10000 then [0xE0 + v / 4096, 0x80 + (v / 64) % 64, 0x80 + v % 64]
    else [0xF0 + v / 0x40000, 0x80 + (v / 4096) % 64, 0x80 + (v / 64) % 64, 0x80 + v % 64]
  }

  /** `str::as_bytes` of a string. */
  function Encode(s: string): (bs: seq<byte>)
    ensures s == [] <==> bs == []
  {
    if s == [] then [] else EncodeChar(s[0]) + Encode(s[1..])
  }

  /** The character that starts `bs` and the number of bytes it occupies, if they form one. */
  function DecodeFirst(bs: seq<byte>): (r: Option<(char, nat)>)
    requires bs != []
    ensures r.Some? ==> 1 <= r.value.1 <= |bs|
  {
    var b0: int := bs[0];
    if b0 < 0x80 then Some((b0 as char, 1))
    else if 0xC2 <= b0 <= 0xDF then
      if |bs| >= 2 && IsContinuation(bs[1])
      then Some((Value2(b0, bs[1]) as char, 2))
      else None
    else if 0xE0 <= b0 <= 0xEF then
      var lo := if b0 == 0xE0 then 0xA0 else 0x80;
      var hi := if b0 == 0xED then 0x9F else 0xBF;
      if |bs| >= 3 && lo <= bs[1] <= hi && IsContinuation(bs[2])
      then Some((Value3(b0, bs[1], bs[2]) as char, 3))
      else None
    else if 0xF0 <= b0 <= 0xF4 then
      var lo := if b0 == 0xF0 then 0x90 else 0x80;
      var hi := if b0 == 0xF4 then 0x8F else 0xBF;
      if |bs| >= 4 && lo <= bs[1] <= hi && IsContinuation(bs[2]) && IsContinuation(bs[3])
      then Some((Value4(b0, bs[1], bs[2], bs[3]) as char, 4))
      else None
    else None
  }

  /** The scalar value a two-, three- or four-byte sequence stands for. */
  function Value2(b0: int, b1: int): int {
    (b0 - 0xC0) * 64 + (b1 - 0x80)
  }

  function Value3(b0: int, b1: int, b2: int): int {
    (b0 - 0xE0) * 4096 + (b1 - 0x80) * 64 + (b2 - 0x80)
  }

  function Value4(b0: int, b1: int, b2: int, b3: int): int {
    (b0 - 0xF0) * 0x40000 + (b1 - 0x80) * 4096 + (b2 - 0x80) * 64 + (b3 - 0x80)
  }

  /** `String::from_utf8` / `CStr::to_str`: the text, or `None` for invalid UTF-8. */
  function Decode(bs: seq<byte>): (r: Option<string>)
    decreases |bs|
  {
    if bs == [] then Some([])
    else match DecodeFirst(bs)
      case None => None
      case Some((c, n)) =>
        match Decode(bs[n..])
        case None => None
        case Some(s) => Some([c] + s)
  }

  lemma DecodeFirstOfEncodeChar(c: char, rest: seq<byte>)
    ensures DecodeFirst(EncodeChar(c) + rest) == Some((c, Width(c)))
  {
    var v := c as int;
    if v < 0x80 {
    } else if v < 0x800 {
      DecodeFirstOfEncode2(c, rest);
    } else if v < 0x10000 {
      DecodeFirstOfEncode3(c, rest);
    } else {
      DecodeFirstOfEncode4(c, rest);
    }
  }

  lemma DecodeFirstOfEncode2(c: char, rest: seq<byte>)
    requires 0x80 <= c as int < 0x800
    ensures DecodeFirst(EncodeChar(c) + rest) == Some((c, 2))
  {
    var v := c as int;
    var bs := EncodeChar(c) + rest;
    assert bs[0] == 0xC0 + v / 64 && bs[1] == 0x80 + v % 64;
    assert Value2(bs[0], bs[1]) == v;
  }

  lemma DecodeFirstOfEncode3(c: char, rest: seq<byte>)
    requires 0x800 <= c as int < 0x10000
    ensures DecodeFirst(EncodeChar(c) + rest) == Some((c, 3))
  {
    var v := c as int;
    var bs := EncodeChar(c) + rest;
    assert bs[0] == 0xE0 + v / 4096 && bs[1] == 0x80 + (v / 64) % 64 && bs[2] == 0x80 + v % 64;
    assert (v / 4096) * 64 + (v / 64) % 64 == v / 64;
    assert Value3(bs[0], bs[1], bs[2]) == v;
  }

  lemma DecodeFirstOfEncode4(c: char, rest: seq<byte>)
    requires 0x10000 <= c as int
    ensures DecodeFirst(EncodeChar(c) + rest) == Some((c, 4))
  {
    var v := c as int;
    var bs := EncodeChar(c) + rest;
    assert bs[0] == 0xF0 + v / 0x40000 && bs[1] == 0x80 + (v / 4096) % 64;
    assert bs[2] == 0x80 + (v / 64) % 64 && bs[3] == 0x80 + v % 64;
    assert (v / 0x40000) * 64 + (v / 4096) % 64 == v / 4096;
    assert (v / 4096) * 64 + (v / 64) % 64 == v / 64;
    assert Value4(bs[0], bs[1], bs[2], bs[3]) == v;
  }

  /** Decoding undoes encoding: every string survives `as_bytes` then `from_utf8`. */
  lemma {:induction false} DecodeEncode(s: string)
    ensures Decode(Encode(s)) == Some(s)
    decreases |s|
  {
    if s != [] {
      var rest := Encode(s[1..]);
      DecodeFirstOfEncodeChar(s[0], rest);
      assert (EncodeChar(s[0]) + rest)[Width(s[0])..] == rest;
      DecodeEncode(s[1..]);
      assert s == [s[0]] + s[1..];
    }
  }

  lemma Digits2(b0: int, b1: int)
    requires 0 <= b0 - 0xC0 < 32 && 0 <= b1 - 0x80 < 64
    ensures Value2(b0, b1) / 64 == b0 - 0xC0 && Value2(b0, b1) % 64 == b1 - 0x80
  {
  }

  lemma Digits3(b0: int, b1: int, b2: int)
    requires 0 <= b0 - 0xE0 < 16 && 0 <= b1 - 0x80 < 64 && 0 <= b2 - 0x80 < 64
    ensures var v := Value3(b0, b1, b2);
      v / 4096 == b0 - 0xE0 && (v / 64) % 64 == b1 - 0x80 && v % 64 == b2 - 0x80
  {
    var v := Value3(b0, b1, b2);
    assert v / 64 == (b0 - 0xE0) * 64 + (b1 - 0x80);
  }

  lemma Digits4(b0: int, b1: int, b2: int, b3: int)
    requires 0 <= b0 - 0xF0 < 8 && 0 <= b1 - 0x80 < 64 && 0 <= b2 - 0x80 < 64 && 0 <= b3 - 0x80 < 64
    ensures var v := Value4(b0, b1, b2, b3);
      && v / 0x40000 == b0 - 0xF0 && (v / 4096) % 64 == b1 - 0x80
      && (v / 64) % 64 == b2 - 0x80 && v % 64 == b3 - 0x80
  {
    var v := Value4(b0, b1, b2, b3);
    assert v / 64 == (b0 - 0xF0) * 4096 + (b1 - 0x80) * 64 + (b2 - 0x80);
    assert v / 4096 == (b0 - 0xF0) * 64 + (b1 - 0x80);
  }

  lemma EncodeCharOfDecodeFirst(bs: seq<byte>)
    requires bs != [] && DecodeFirst(bs).Some?
    ensures EncodeChar(DecodeFirst(bs).value.0) == bs[..DecodeFirst(bs).value.1]
  {
    var b0: int := bs[0];
    if b0 < 0x80 {
    } else if b0 <= 0xDF {
      Digits2(b0, bs[1]);
    } else if b0 <= 0xEF {
      Digits3(b0, bs[1], bs[2]);
    } else {
      Digits4(b0, bs[1], bs[2], bs[3]);
    }
  }

  /** Decoding peels off the first character and decodes the rest. */
  lemma DecodeCons(bs: seq<byte>)
    requires bs != [] && Decode(bs).Some?
    ensures var (c, n) := DecodeFirst(bs).value;
      && Decode(bs[n..]).Some?
      && Decode(bs).value == [c] + Decode(bs[n..]).value
  {
  }

  lemma SliceJoin(bs: seq<byte>, n: nat)
    requires n <= |bs|
    ensures bs[..n] + bs[n..] == bs
  {
  }

  lemma EncodeCons(c: char, s: string)
    ensures Encode([c] + s) == EncodeChar(c) + Encode(s)
  {
    assert ([c] + s)[0] == c && ([c] + s)[1..] == s;
  }

  /** The decoder accepts only encodings: whatever it decodes re-encodes to the same bytes. */
  lemma {:induction false} EncodeDecode(bs: seq<byte>)
    requires Decode(bs).Some?
    ensures Encode(Decode(bs).value) == bs
    decreases |bs|
  {
    if bs != [] {
      var (c, n) := DecodeFirst(bs).value;
      DecodeCons(bs);
      var head, tail := bs[..n], bs[n..];
      var rest := Decode(tail).value;
      EncodeCharOfDecodeFirst(bs);
      EncodeDecode(tail);
      EncodeCons(c, rest);
      SliceJoin(bs, n);
    }
  }

  /** A string without NUL characters encodes to bytes without a zero byte, as `CString::new` demands. */
  lemma {:induction false} EncodeWithoutNul(s: string)
    requires '\0' !in s
    ensures 0 !in Encode(s)
    decreases |s|
  {
    if s != [] {
      EncodeWithoutNul(s[1..]);
      var e := EncodeChar(s[0]);
      forall i | 0 <= i < |e| ensures e[i] != 0 {
        if i > 0 { assert IsContinuation(e[i]); }
      }
    }
  }

  /** Every character takes at least one byte, so decoding never lengthens. */
  lemma {:induction false} DecodeLength(bs: seq<byte>)
    requires Decode(bs).Some?
    ensures |Decode(bs).value| <= |bs|
    decreases |bs|
  {
    if bs != [] {
      DecodeLength(bs[DecodeFirst(bs).value.1..]);
    }
  }
}
