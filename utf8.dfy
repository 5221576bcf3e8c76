/**
  UTF-8 as specified in section 3 of RFC 3629: what Python's `str.encode()`
  produces from a string. A Dafny `char` is a Unicode scalar value, so, as for
  every string without lone surrogates, encoding cannot fail. The strict
  decoder is the encoder's inverse and serves to state the round trip.
 */
module Utf8 {
  import opened Bytes
  import opened Wrappers

  /** The 1 to 4 octets of one scalar value (the table of RFC 3629, section 3). */
  function EncodeChar(c: char): (b: seq<byte>)
    ensures 1 <= |b| <= 4
    ensures (|b| == 1) == (c as int < 0x80)
  {
    var cp := c as int;
    if cp < 0x80 then [cp]
    else if cp < 0x800 then [0xC0 + cp / 0x40, 0x80 + cp % 0x40]
    else if cp < 0x1_0000 then [0xE0 + cp / 0x1000, 0x80 + cp / 0x40 % 0x40, 0x80 + cp % 0x40]
    else [0xF0 + cp / 0x4_0000, 0x80 + cp / 0x1000 % 0x40, 0x80 + cp / 0x40 % 0x40, 0x80 + cp % 0x40]
  }

  /** `s.encode()`: the concatenated encodings of the characters of s. */
  function Encode(s: string): (b: seq<byte>)
    ensures |s| <= |b| <= 4 * |s|
  {
    if s == [] then [] else EncodeChar(s[0]) + Encode(s[1..])
  }

  predicate IsContinuation(b: byte) {
    0x80 <= b < 0xC0
  }

  /** The value encoded by the first 1 to 4 octets of b, with the number of
      octets it takes; None when they are not a well-formed UTF-8 sequence
      (a stray continuation octet, a truncated sequence, an overlong form,
      a surrogate or a value beyond U+10FFFF). */
  function DecodeFirst(b: seq<byte>): (r: Option<(char, nat)>)
    ensures r.Some? ==> 1 <= r.value.1 <= |b|
  {
    if |b| == 0 then None
    else if b[0] < 0x80 then Some((b[0] as char, 1))
    else if 0xC2 <= b[0] < 0xE0 then
      if 2 <= |b| && IsContinuation(b[1]) then
        Some((((b[0] as int - 0xC0) * 0x40 + (b[1] as int - 0x80)) as char, 2))
      else None
    else if 0xE0 <= b[0] < 0xF0 then
      if 3 <= |b| && IsContinuation(b[1]) && IsContinuation(b[2]) then
        var cp := (b[0] as int - 0xE0) * 0x1000 + (b[1] as int - 0x80) * 0x40 + (b[2] as int - 0x80);
        if 0x800 <= cp && !(0xD800 <= cp < 0xE000) then Some((cp as char, 3)) else None
      else None
    else if 0xF0 <= b[0] < 0xF5 then
      if 4 <= |b| && IsContinuation(b[1]) && IsContinuation(b[2]) && IsContinuation(b[3]) then
        var cp := (b[0] as int - 0xF0) * 0x4_0000 + (b[1] as int - 0x80) * 0x1000 + (b[2] as int - 0x80) * 0x40 + (b[3] as int - 0x80);
        if 0x1_0000 <= cp < 0x11_0000 then Some((cp as char, 4)) else None
      else None
    else None
  }

  /** Strict UTF-8 decoding of a whole octet sequence. */
  function Decode(b: seq<byte>): Option<string>
    decreases |b|
  {
    if b == [] then Some([])
    else match DecodeFirst(b)
      case None => None
      case Some((c, n)) =>
        match Decode(b[n..])
        case None => None
        case Some(s) => Some([c] + s)
  }

  lemma DecodeEncodeChar(c: char, rest: seq<byte>)
    ensures DecodeFirst(EncodeChar(c) + rest) == Some((c, |EncodeChar(c)|))
  {
    var cp := c as int;
    if cp < 0x80 {
    } else if cp < 0x800 {
      DecodeEncodeTwo(c, rest);
    } else if cp < 0x1_0000 {
      DecodeEncodeThree(c, rest);
    } else {
      DecodeEncodeFour(c, rest);
    }
  }

  lemma DecodeEncodeTwo(c: char, rest: seq<byte>)
    requires 0x80 <= c as int < 0x800
    ensures DecodeFirst(EncodeChar(c) + rest) == Some((c, 2))
  {
    var cp := c as int;
    var b := EncodeChar(c) + rest;
    assert b[0] == 0xC0 + cp / 0x40 && b[1] == 0x80 + cp % 0x40;
  }

  lemma DecodeEncodeThree(c: char, rest: seq<byte>)
    requires 0x800 <= c as int < 0x1_0000
    ensures DecodeFirst(EncodeChar(c) + rest) == Some((c, 3))
  {
    var cp := c as int;
    var b := EncodeChar(c) + rest;
    assert b[0] == 0xE0 + cp / 0x1000 && b[1] == 0x80 + cp / 0x40 % 0x40 && b[2] == 0x80 + cp % 0x40;
    assert (b[0] as int - 0xE0) * 0x1000 + (b[1] as int - 0x80) * 0x40 + (b[2] as int - 0x80) == cp;
  }

  lemma DecodeEncodeFour(c: char, rest: seq<byte>)
    requires 0x1_0000 <= c as int
    ensures DecodeFirst(EncodeChar(c) + rest) == Some((c, 4))
  {
    var cp := c as int;
    var b := EncodeChar(c) + rest;
    var x0, x1, x2, x3 := cp / 0x4_0000, cp / 0x1000 % 0x40, cp / 0x40 % 0x40, cp % 0x40;
    assert b[0] == 0xF0 + x0 && b[1] == 0x80 + x1 && b[2] == 0x80 + x2 && b[3] == 0x80 + x3;
    SplitFour(cp);
  }

  /** A value below 0x110000 in four groups of 3, 6, 6 and 6 bits. */
  lemma SplitFour(cp: int)
    requires 0 <= cp
    ensures cp / 0x4_0000 * 0x4_0000 + cp / 0x1000 % 0x40 * 0x1000 + cp / 0x40 % 0x40 * 0x40 + cp % 0x40 == cp
  {
    var q1, r0 := cp / 0x40, cp % 0x40;
    var q2, r1 := q1 / 0x40, q1 % 0x40;
    assert cp == q2 * 0x1000 + (r1 * 0x40 + r0);
    DivMod4096(q2, r1 * 0x40 + r0);
    var q3, r2 := q2 / 0x40, q2 % 0x40;
    assert cp == q3 * 0x4_0000 + (r2 * 0x1000 + r1 * 0x40 + r0);
    DivMod262144(q3, r2 * 0x1000 + r1 * 0x40 + r0);
  }

  lemma DivMod4096(hi: int, lo: int)
    requires 0 <= lo < 0x1000
    ensures (hi * 0x1000 + lo) / 0x1000 == hi && (hi * 0x1000 + lo) % 0x1000 == lo
  {
  }

  lemma DivMod262144(hi: int, lo: int)
    requires 0 <= lo < 0x4_0000
    ensures (hi * 0x4_0000 + lo) / 0x4_0000 == hi
  {
  }

  lemma EncodeDecodeFirst(b: seq<byte>)
    requires DecodeFirst(b).Some?
    ensures EncodeChar(DecodeFirst(b).value.0) == b[..DecodeFirst(b).value.1]
  {
    if b[0] < 0x80 {
    } else if b[0] < 0xE0 {
      EncodeDecodeTwo(b);
    } else if b[0] < 0xF0 {
      EncodeDecodeThree(b);
    } else {
      EncodeDecodeFour(b);
    }
  }

  lemma EncodeDecodeTwo(b: seq<byte>)
    requires DecodeFirst(b).Some? && 0xC2 <= b[0] < 0xE0
    ensures EncodeChar(DecodeFirst(b).value.0) == b[..2]
  {
    var x0, x1 := b[0] as int - 0xC0, b[1] as int - 0x80;
    var cp := DecodeFirst(b).value.0 as int;
    assert cp == x0 * 0x40 + x1;
    DivMod64(x0, x1);
  }

  lemma EncodeDecodeThree(b: seq<byte>)
    requires DecodeFirst(b).Some? && 0xE0 <= b[0] < 0xF0
    ensures EncodeChar(DecodeFirst(b).value.0) == b[..3]
  {
    var x0, x1, x2 := b[0] as int - 0xE0, b[1] as int - 0x80, b[2] as int - 0x80;
    var cp := DecodeFirst(b).value.0 as int;
    assert cp == x0 * 0x1000 + x1 * 0x40 + x2;
    DivMod4096(x0, x1 * 0x40 + x2);
    assert cp == (x0 * 0x40 + x1) * 0x40 + x2;
    DivMod64(x0 * 0x40 + x1, x2);
    DivMod64(x0, x1);
  }

  lemma EncodeDecodeFour(b: seq<byte>)
    requires DecodeFirst(b).Some? && 0xF0 <= b[0]
    ensures EncodeChar(DecodeFirst(b).value.0) == b[..4]
  {
    var x0, x1, x2, x3 := b[0] as int - 0xF0, b[1] as int - 0x80, b[2] as int - 0x80, b[3] as int - 0x80;
    var cp := DecodeFirst(b).value.0 as int;
    assert cp == x0 * 0x4_0000 + x1 * 0x1000 + x2 * 0x40 + x3;
    DivMod262144(x0, x1 * 0x1000 + x2 * 0x40 + x3);
    assert cp == (x0 * 0x40 + x1) * 0x1000 + (x2 * 0x40 + x3);
    DivMod4096(x0 * 0x40 + x1, x2 * 0x40 + x3);
    DivMod64(x0, x1);
    assert cp == ((x0 * 0x40 + x1) * 0x40 + x2) * 0x40 + x3;
    DivMod64((x0 * 0x40 + x1) * 0x40 + x2, x3);
    DivMod64(x0 * 0x40 + x1, x2);
  }

  lemma DecodeCons(b: seq<byte>)
    requires b != [] && Decode(b).Some?
    ensures DecodeFirst(b).Some?
    ensures Decode(b[DecodeFirst(b).value.1..]).Some?
    ensures Decode(b).value == [DecodeFirst(b).value.0] + Decode(b[DecodeFirst(b).value.1..]).value
  {
  }

  lemma ConsEncode(b: seq<byte>, c: char, n: nat, t: string)
    requires n <= |b| && EncodeChar(c) == b[..n] && Encode(t) == b[n..]
    ensures Encode([c] + t) == b
  {
    assert ([c] + t)[1..] == t;
    assert b == b[..n] + b[n..];
  }

  /** Decoding what `str.encode()` produced gives back exactly the string. */
  lemma {:induction false} DecodeEncode(s: string)
    ensures Decode(Encode(s)) == Some(s)
  {
    if s != [] {
      var b := Encode(s);
      DecodeEncodeChar(s[0], Encode(s[1..]));
      assert b[|EncodeChar(s[0])|..] == Encode(s[1..]);
      DecodeEncode(s[1..]);
      assert [s[0]] + s[1..] == s;
    }
  }

  /** Whatever the strict decoder accepts is the encoding of what it returns:
      every string has exactly one UTF-8 form. */
  lemma {:induction false} EncodeDecode(b: seq<byte>)
    requires Decode(b).Some?
    ensures Encode(Decode(b).value) == b
    decreases |b|
  {
    if b != [] {
      DecodeCons(b);
      var c, n := DecodeFirst(b).value.0, DecodeFirst(b).value.1;
      EncodeDecodeFirst(b);
      EncodeDecode(b[n..]);
      ConsEncode(b, c, n, Decode(b[n..]).value);
    }
  }
}
