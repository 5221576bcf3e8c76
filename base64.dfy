/**
  Padded base64 with the standard alphabet (section 4 of RFC 4648), as
  produced by Python's `base64.b64encode`, together with a strict decoder
  that accepts exactly the canonical encodings.

  Both directions go through a sequence of symbols, each a 6-bit value or
  the pad: regrouping octets into 6-bit values is arithmetic on integers,
  and spelling the symbols is a character table, and each is proved apart.
 */
module Base64 {
  import opened Bytes
  import opened Wrappers

  type sextet = x: int | 0 <= x < 0x40

  /** One output position: a 6-bit value, or the pad character `=`. */
  datatype Symbol = Bits(v: sextet) | Pad

  // ---- Octets and symbols ----

  /** The four symbols for one group of three octets, read as 24 bits. */
  function Quantum(b0: byte, b1: byte, b2: byte): seq<Symbol> {
    [Bits(b0 / 4), Bits(b0 % 4 * 16 + b1 / 16), Bits(b1 % 16 * 4 + b2 / 64), Bits(b2 % 64)]
  }

  /** A last group of one octet: its 8 bits and 4 zero bits, then two pads. */
  function PaddedOne(b0: byte): seq<Symbol> {
    [Bits(b0 / 4), Bits(b0 % 4 * 16), Pad, Pad]
  }

  /** A last group of two octets: their 16 bits and 2 zero bits, then one pad. */
  function PaddedTwo(b0: byte, b1: byte): seq<Symbol> {
    [Bits(b0 / 4), Bits(b0 % 4 * 16 + b1 / 16), Bits(b1 % 16 * 4), Pad]
  }

  /** Every full group of three octets gives four 6-bit values; a final group
      of one or two octets is filled with zero bits and padded to four symbols. */
  function Symbols(b: seq<byte>): seq<Symbol>
    decreases |b|
  {
    if |b| == 0 then []
    else if |b| == 1 then PaddedOne(b[0])
    else if |b| == 2 then PaddedTwo(b[0], b[1])
    else Quantum(b[0], b[1], b[2]) + Symbols(b[3..])
  }

  /** Four 6-bit values become three octets. */
  function Octets(d0: sextet, d1: sextet, d2: sextet, d3: sextet): seq<byte> {
    [d0 * 4 + d1 / 16, d1 % 16 * 16 + d2 / 4, d2 % 4 * 64 + d3]
  }

  /** The last quantum may carry one or two pads; the bits a padded quantum
      does not use must be zero, so that only canonical text is accepted. */
  function LastOctets(s0: Symbol, s1: Symbol, s2: Symbol, s3: Symbol): Option<seq<byte>> {
    if s0.Pad? || s1.Pad? then None
    else if s2.Bits? && s3.Bits? then Some(Octets(s0.v, s1.v, s2.v, s3.v))
    else if s2.Bits? && s3.Pad? && s2.v % 4 == 0 then Some(Octets(s0.v, s1.v, s2.v, 0)[..2])
    else if s2.Pad? && s3.Pad? && s1.v % 16 == 0 then Some(Octets(s0.v, s1.v, 0, 0)[..1])
    else None
  }

  /** Symbols back to octets: whole quanta, pads only in the last one. */
  function Join(ds: seq<Symbol>): (r: Option<seq<byte>>)
    ensures r.Some? ==> (|r.value| == 0 <==> ds == [])
    decreases |ds|
  {
    if ds == [] then Some([])
    else if |ds| < 4 then None
    else if |ds| == 4 then LastOctets(ds[0], ds[1], ds[2], ds[3])
    else if ds[0].Bits? && ds[1].Bits? && ds[2].Bits? && ds[3].Bits? then
      match Join(ds[4..])
      case None => None
      case Some(rest) => Some(Octets(ds[0].v, ds[1].v, ds[2].v, ds[3].v) + rest)
    else None
  }

  // ---- Symbols and characters ----

  /** The 64 characters of the alphabet, Table 1 of RFC 4648. */
  predicate IsAlphabetChar(c: char) {
    ('A' <= c <= 'Z') || ('a' <= c <= 'z') || ('0' <= c <= '9') || c == '+' || c == '/'
  }

  /** The character that encodes the 6-bit value d. */
  function Digit(d: sextet): (c: char)
    ensures IsAlphabetChar(c)
  {
    if d < 26 then ('A' as int + d) as char
    else if d < 52 then ('a' as int + (d - 26)) as char
    else if d < 62 then ('0' as int + (d - 52)) as char
    else if d == 62 then '+'
    else '/'
  }

  /** The 6-bit value an alphabet character encodes. */
  function Value(c: char): sextet
    requires IsAlphabetChar(c)
  {
    if 'A' <= c <= 'Z' then c as int - 'A' as int
    else if 'a' <= c <= 'z' then c as int - 'a' as int + 26
    else if '0' <= c <= '9' then c as int - '0' as int + 52
    else if c == '+' then 62
    else 63
  }

  function Spell(d: Symbol): char {
    match d
    case Bits(v) => Digit(v)
    case Pad => '='
  }

  /** The text of a symbol sequence. */
  function Render(ds: seq<Symbol>): (s: string)
    ensures |s| == |ds|
    ensures forall i :: 0 <= i < |ds| ==> s[i] == Spell(ds[i])
  {
    if ds == [] then [] else [Spell(ds[0])] + Render(ds[1..])
  }

  /** The symbol a character of the alphabet, or the pad, stands for. */
  function SymbolOf(c: char): Symbol
    requires IsAlphabetChar(c) || c == '='
  {
    if c == '=' then Pad else Bits(Value(c))
  }

  /** Reads each character as a symbol; None at a character outside the
      alphabet other than `=`. */
  function Scan(s: string): (r: Option<seq<Symbol>>)
    ensures r.Some? ==> |r.value| == |s|
  {
    if s == [] then Some([])
    else if IsAlphabetChar(s[0]) || s[0] == '=' then
      match Scan(s[1..])
      case None => None
      case Some(ds) => Some([SymbolOf(s[0])] + ds)
    else None
  }

  // ---- Encoder and decoder ----

  /** `base64.b64encode(b)`, as text. */
  function Encode(b: seq<byte>): string {
    Render(Symbols(b))
  }

  /** Strict decoding: a multiple of four characters of the alphabet, with
      `=` only as padding of the last quantum. */
  function Decode(s: string): Option<seq<byte>> {
    match Scan(s)
    case None => None
    case Some(ds) => Join(ds)
  }

  // ---- Proofs: characters ----

  lemma ValueOfDigit(d: sextet)
    ensures Value(Digit(d)) == d
  {
  }

  lemma DigitOfValue(c: char)
    requires IsAlphabetChar(c)
    ensures Digit(Value(c)) == c
  {
  }

  lemma {:induction false} ScanRender(ds: seq<Symbol>)
    ensures Scan(Render(ds)) == Some(ds)
  {
    if ds != [] {
      var s := Render(ds);
      assert s == [Spell(ds[0])] + Render(ds[1..]);
      ScanSpell(ds[0]);
      ScanRender(ds[1..]);
      ScanStep(s);
      assert ds == [ds[0]] + ds[1..];
    }
  }

  /** Reading back the character of one symbol gives the symbol. */
  lemma ScanSpell(d: Symbol)
    ensures IsAlphabetChar(Spell(d)) || Spell(d) == '='
    ensures SymbolOf(Spell(d)) == d
  {
    if d.Bits? {
      ValueOfDigit(d.v);
    }
  }

  /** One step of Scan on a text whose first character is read. */
  lemma ScanStep(s: string)
    requires s != [] && (IsAlphabetChar(s[0]) || s[0] == '=') && Scan(s[1..]).Some?
    ensures Scan(s) == Some([SymbolOf(s[0])] + Scan(s[1..]).value)
  {
  }

  lemma {:induction false} RenderScan(s: string)
    requires Scan(s).Some?
    ensures Render(Scan(s).value) == s
  {
    if s != [] {
      RenderScan(s[1..]);
      if s[0] != '=' {
        DigitOfValue(s[0]);
      }
      assert s == [s[0]] + s[1..];
    }
  }

  // ---- Proofs: octets ----

  lemma DivMod4(hi: int, lo: int)
    requires 0 <= lo < 4
    ensures (hi * 4 + lo) / 4 == hi && (hi * 4 + lo) % 4 == lo
  {
  }

  lemma DivMod16(hi: int, lo: int)
    requires 0 <= lo < 16
    ensures (hi * 16 + lo) / 16 == hi && (hi * 16 + lo) % 16 == lo
  {
  }

  /** Regrouping 3 x 8 bits as 4 x 6 bits and back is the identity. */
  lemma OctetsOfQuantum(b0: byte, b1: byte, b2: byte)
    ensures var q := Quantum(b0, b1, b2); Octets(q[0].v, q[1].v, q[2].v, q[3].v) == [b0, b1, b2]
  {
    DivMod16(b0 % 4, b1 / 16);
    DivMod4(b1 % 16, b2 / 64);
  }

  /** Regrouping 4 x 6 bits as 3 x 8 bits and back is the identity. */
  lemma QuantumOfOctets(d0: sextet, d1: sextet, d2: sextet, d3: sextet)
    ensures var b := Octets(d0, d1, d2, d3); Quantum(b[0], b[1], b[2]) == [Bits(d0), Bits(d1), Bits(d2), Bits(d3)]
  {
    DivMod4(d0, d1 / 16);
    DivMod16(d1 % 16, d2 / 4);
    DivMod64(d2 % 4, d3);
  }

  /** One octet: zero-filled to twelve bits and two pads. */
  lemma JoinOne(b0: byte)
    ensures Join(PaddedOne(b0)) == Some([b0])
  {
    var d0, d1 := b0 / 4, b0 % 4 * 16;
    assert Join(PaddedOne(b0)) == LastOctets(Bits(d0), Bits(d1), Pad, Pad);
    DivMod16(b0 % 4, 0);
    assert d1 % 16 == 0 && d1 / 16 == b0 % 4;
    assert d0 * 4 + b0 % 4 == b0;
    assert Octets(d0, d1, 0, 0)[..1] == [b0];
  }

  /** Two octets: zero-filled to eighteen bits and one pad. */
  lemma JoinTwo(b0: byte, b1: byte)
    ensures Join(PaddedTwo(b0, b1)) == Some([b0, b1])
  {
    var d0, d1, d2 := b0 / 4, b0 % 4 * 16 + b1 / 16, b1 % 16 * 4;
    assert Join(PaddedTwo(b0, b1)) == LastOctets(Bits(d0), Bits(d1), Bits(d2), Pad);
    DivMod4(b1 % 16, 0);
    OctetsOfQuantum(b0, b1, 0);
    assert Octets(d0, d1, d2, 0)[..2] == [b0, b1];
  }

  /** Three octets: one full quantum. */
  lemma JoinThree(b0: byte, b1: byte, b2: byte)
    ensures Join(Quantum(b0, b1, b2)) == Some([b0, b1, b2])
  {
    OctetsOfQuantum(b0, b1, b2);
  }

  /** Joining the symbols of b gives back b. */
  lemma {:induction false} JoinSymbols(b: seq<byte>)
    ensures Join(Symbols(b)) == Some(b)
    decreases |b|
  {
    if |b| == 1 {
      JoinOne(b[0]);
      assert b == [b[0]];
    } else if |b| == 2 {
      JoinTwo(b[0], b[1]);
      assert b == [b[0], b[1]];
    } else if |b| == 3 {
      JoinThree(b[0], b[1], b[2]);
      assert b[3..] == [];
      assert Symbols(b) == Quantum(b[0], b[1], b[2]) + [];
      assert b == [b[0], b[1], b[2]];
    } else if |b| > 3 {
      JoinSymbols(b[3..]);
      var q, t := Quantum(b[0], b[1], b[2]), Symbols(b[3..]);
      var ds := Symbols(b);
      assert ds == q + t;
      assert ds[..4] == q && ds[4..] == t;
      OctetsOfQuantum(b[0], b[1], b[2]);
      assert b == [b[0], b[1], b[2]] + b[3..];
    }
  }

  lemma SymbolsOfLast(s0: Symbol, s1: Symbol, s2: Symbol, s3: Symbol)
    requires LastOctets(s0, s1, s2, s3).Some?
    ensures Symbols(LastOctets(s0, s1, s2, s3).value) == [s0, s1, s2, s3]
  {
    if s2.Bits? && s3.Bits? {
      SymbolsOfFull(s0.v, s1.v, s2.v, s3.v);
    } else if s2.Bits? {
      SymbolsOfTwo(s0.v, s1.v, s2.v);
    } else {
      SymbolsOfOne(s0.v, s1.v);
    }
  }

  lemma SymbolsOfFull(d0: sextet, d1: sextet, d2: sextet, d3: sextet)
    ensures Symbols(Octets(d0, d1, d2, d3)) == [Bits(d0), Bits(d1), Bits(d2), Bits(d3)]
  {
    var b := Octets(d0, d1, d2, d3);
    QuantumOfOctets(d0, d1, d2, d3);
    assert b[3..] == [];
    assert Symbols(b) == Quantum(b[0], b[1], b[2]) + Symbols([]);
  }

  /** Two octets, when the third 6-bit value has its two low bits zero. */
  lemma SymbolsOfTwo(d0: sextet, d1: sextet, d2: sextet)
    requires d2 % 4 == 0
    ensures Symbols(Octets(d0, d1, d2, 0)[..2]) == [Bits(d0), Bits(d1), Bits(d2), Pad]
  {
    var q0, q1 := d0 * 4 + d1 / 16, d1 % 16 * 16 + d2 / 4;
    DivMod4(d0, d1 / 16);
    DivMod16(d1 % 16, d2 / 4);
    assert d1 / 16 * 16 + d1 % 16 == d1;
    assert d2 / 4 * 4 == d2;
    assert Octets(d0, d1, d2, 0)[..2] == [q0, q1];
    assert Symbols([q0, q1]) == PaddedTwo(q0, q1);
  }

  /** One octet, when the second 6-bit value has its four low bits zero. */
  lemma SymbolsOfOne(d0: sextet, d1: sextet)
    requires d1 % 16 == 0
    ensures Symbols(Octets(d0, d1, 0, 0)[..1]) == [Bits(d0), Bits(d1), Pad, Pad]
  {
    var q0 := d0 * 4 + d1 / 16;
    DivMod4(d0, d1 / 16);
    assert d1 / 16 * 16 == d1;
    assert Octets(d0, d1, 0, 0)[..1] == [q0];
    assert Symbols([q0]) == PaddedOne(q0);
  }

  /** Whatever Join accepts are the symbols of what it returns. */
  lemma {:induction false} SymbolsJoin(ds: seq<Symbol>)
    requires Join(ds).Some?
    ensures Symbols(Join(ds).value) == ds
    decreases |ds|
  {
    if |ds| == 4 {
      SymbolsOfLast(ds[0], ds[1], ds[2], ds[3]);
    } else if |ds| > 4 {
      var rest := Join(ds[4..]).value;
      var block := Octets(ds[0].v, ds[1].v, ds[2].v, ds[3].v);
      var b := block + rest;
      assert Join(ds).value == b;
      SymbolsJoin(ds[4..]);
      QuantumOfOctets(ds[0].v, ds[1].v, ds[2].v, ds[3].v);
      assert b[..3] == block && b[3..] == rest;
      assert Symbols(b) == Quantum(b[0], b[1], b[2]) + Symbols(rest);
      assert ds == ds[..4] + ds[4..];
    }
  }

  // ---- The properties of the encoder ----

  /** The encoding of n octets has 4 * ceil(n / 3) characters. */
  lemma {:induction false} EncodeLength(b: seq<byte>)
    ensures |Encode(b)| == 4 * ((|b| + 2) / 3)
  {
    SymbolsLength(b);
  }

  lemma {:induction false} SymbolsLength(b: seq<byte>)
    ensures |Symbols(b)| == 4 * ((|b| + 2) / 3)
    decreases |b|
  {
    if |b| > 3 {
      SymbolsLength(b[3..]);
    }
  }

  /** The encoding uses only the alphabet and `=`. */
  lemma EncodeAlphabet(b: seq<byte>)
    ensures forall i :: 0 <= i < |Encode(b)| ==> IsAlphabetChar(Encode(b)[i]) || Encode(b)[i] == '='
  {
  }

  /** Decoding what `b64encode` produced gives back exactly the octets. */
  lemma DecodeEncode(b: seq<byte>)
    ensures Decode(Encode(b)) == Some(b)
  {
    ScanRender(Symbols(b));
    JoinSymbols(b);
  }

  /** Whatever the strict decoder accepts is the encoding of what it returns:
      the encoder is a bijection onto the canonical base64 strings. */
  lemma EncodeDecode(s: string)
    requires Decode(s).Some?
    ensures Encode(Decode(s).value) == s
  {
    var ds := Scan(s).value;
    RenderScan(s);
    SymbolsJoin(ds);
  }
}
