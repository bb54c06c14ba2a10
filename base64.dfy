/** Base64 with the standard alphabet and '=' padding, section 4 of RFC 4648, as the
    Rust `base64` crate's `STANDARD` engine implements it: encoding always pads,
    and decoding accepts exactly the canonical padded form (padding required,
    no stray symbols, unused trailing bits zero). */
module Base64 {
  import opened Wrappers
  import opened Bytes

  /** A 6-bit value, the index of one alphabet symbol. */
  type sextet = x: int | 0 <= x < 64

  const Pad: char := '='

  /** The alphabet of Table 1, section 4 of RFC 4648. */
  function Symbol(i: sextet): char {
    if i < 26 then ('A' as int + i) as char
    else if i < 52 then ('a' as int + (i - 26)) as char
    else if i < 62 then ('0' as int + (i - 52)) as char
    else if i == 62 then '+'
    else '/'
  }

  /** The value of an alphabet symbol; None for every other character. */
  function Value(c: char): Option<sextet> {
    if 'A' <= c <= 'Z' then Some(c as int - 'A' as int)
    else if 'a' <= c <= 'z' then Some(c as int - 'a' as int + 26)
    else if '0' <= c <= '9' then Some(c as int - '0' as int + 52)
    else if c == '+' then Some(62)
    else if c == '/' then Some(63)
    else None
  }

  predicate IsSymbol(c: char) {
    Value(c).Some?
  }

  /** Symbol and Value are inverse to each other. */
  lemma SymbolValue(i: sextet)
    ensures Value(Symbol(i)) == Some(i)
  {
  }

  lemma ValueSymbol(c: char)
    requires IsSymbol(c)
    ensures Symbol(Value(c).value) == c
  {
  }

  // --------------------------------------------- regrouping 8-bit and 6-bit

  // Three bytes b0 b1 b2 are 24 bits; read in groups of six they are the sextets
  // S0 S1 S2 S3 below, and the functions B0 B1 B2 regroup four sextets into bytes.

  function S0(b0: byte): sextet { b0 / 4 }
  function S1(b0: byte, b1: byte): sextet { (b0 % 4) * 16 + b1 / 16 }
  function S2(b1: byte, b2: byte): sextet { (b1 % 16) * 4 + b2 / 64 }
  function S3(b2: byte): sextet { b2 % 64 }

  function B0(v0: sextet, v1: sextet): byte { v0 * 4 + v1 / 16 }
  function B1(v1: sextet, v2: sextet): byte { (v1 % 16) * 16 + v2 / 4 }
  function B2(v2: sextet, v3: sextet): byte { (v2 % 4) * 64 + v3 }

  lemma BytesToSextetsToBytes(b0: byte, b1: byte, b2: byte)
    ensures B0(S0(b0), S1(b0, b1)) == b0
    ensures B1(S1(b0, b1), S2(b1, b2)) == b1
    ensures B2(S2(b1, b2), S3(b2)) == b2
  {
  }

  lemma SextetsToBytesToSextets(v0: sextet, v1: sextet, v2: sextet, v3: sextet)
    ensures S0(B0(v0, v1)) == v0
    ensures S1(B0(v0, v1), B1(v1, v2)) == v1
    ensures S2(B1(v1, v2), B2(v2, v3)) == v2
    ensures S3(B2(v2, v3)) == v3
  {
  }

  /** The sextets that carry the last bits of a padded quantum have their unused
      low bits zero. */
  lemma PaddedSextets(b0: byte, b1: byte)
    ensures S1(b0, 0) % 16 == 0
    ensures S2(b1, 0) % 4 == 0
  {
  }

  // ------------------------------------------------------------- encoding

  function Quad(b0: byte, b1: byte, b2: byte): string {
    [Symbol(S0(b0)), Symbol(S1(b0, b1)), Symbol(S2(b1, b2)), Symbol(S3(b2))]
  }

  /** The final quantum of one byte: two symbols and two pad characters. */
  function Quad1(b0: byte): string {
    [Symbol(S0(b0)), Symbol(S1(b0, 0)), Pad, Pad]
  }

  /** The final quantum of two bytes: three symbols and one pad character. */
  function Quad2(b0: byte, b1: byte): string {
    [Symbol(S0(b0)), Symbol(S1(b0, b1)), Symbol(S2(b1, 0)), Pad]
  }

  function Encode(b: seq<byte>): string
    decreases |b|
  {
    if |b| == 0 then ""
    else if |b| == 1 then Quad1(b[0])
    else if |b| == 2 then Quad2(b[0], b[1])
    else Quad(b[0], b[1], b[2]) + Encode(b[3..])
  }

  // ------------------------------------------------------------- decoding

  /** Four symbols without padding give three bytes. */
  function DecodeQuad(s: string): Option<seq<byte>>
    requires |s| == 4
  {
    match (Value(s[0]), Value(s[1]), Value(s[2]), Value(s[3]))
    case (Some(v0), Some(v1), Some(v2), Some(v3)) => Some([B0(v0, v1), B1(v1, v2), B2(v2, v3)])
    case _ => None
  }

  /** The last quantum may carry padding; the bits a padded quantum does not use
      must be zero. */
  function DecodeLast(s: string): Option<seq<byte>>
    requires |s| == 4
  {
    if s[2] == Pad && s[3] == Pad then
      match (Value(s[0]), Value(s[1]))
      case (Some(v0), Some(v1)) => if v1 % 16 == 0 then Some([B0(v0, v1)]) else None
      case _ => None
    else if s[3] == Pad then
      match (Value(s[0]), Value(s[1]), Value(s[2]))
      case (Some(v0), Some(v1), Some(v2)) => if v2 % 4 == 0 then Some([B0(v0, v1), B1(v1, v2)]) else None
      case _ => None
    else DecodeQuad(s)
  }

  function Decode(s: string): Option<seq<byte>>
    decreases |s|
  {
    if |s| == 0 then Some([])
    else if |s| < 4 then None
    else if |s| == 4 then DecodeLast(s)
    else
      match DecodeQuad(s[..4])
      case None => None
      case Some(head) =>
        match Decode(s[4..])
        case None => None
        case Some(tail) => Some(head + tail)
  }

  // ----------------------------------------------------------- properties

  /** Encoded text is padded to whole quanta of four characters. */
  lemma {:induction false} EncodeLength(b: seq<byte>)
    ensures |Encode(b)| == 4 * ((|b| + 2) / 3)
    ensures |Encode(b)| % 4 == 0
    decreases |b|
  {
    if |b| >= 3 {
      EncodeLength(b[3..]);
      EncodeQuantum(b);
      QuantaStep(|b|);
    } else if |b| == 2 {
      assert |Quad2(b[0], b[1])| == 4;
    } else if |b| == 1 {
      assert |Quad1(b[0])| == 4;
    }
  }

  lemma EncodeQuantum(b: seq<byte>)
    requires |b| >= 3
    ensures |Encode(b)| == 4 + |Encode(b[3..])|
  {
    assert |Quad(b[0], b[1], b[2])| == 4;
  }

  lemma QuantaStep(n: nat)
    requires n >= 3
    ensures (n + 2) / 3 == (n - 3 + 2) / 3 + 1
  {
  }

  /** Encoded text holds only alphabet symbols and '='. */
  lemma {:induction false} EncodeAlphabet(b: seq<byte>)
    ensures forall i :: 0 <= i < |Encode(b)| ==> IsSymbol(Encode(b)[i]) || Encode(b)[i] == Pad
    decreases |b|
  {
    if |b| == 1 {
      SymbolValue(S0(b[0]));
      SymbolValue(S1(b[0], 0));
    } else if |b| == 2 {
      SymbolValue(S0(b[0]));
      SymbolValue(S1(b[0], b[1]));
      SymbolValue(S2(b[1], 0));
    } else if |b| >= 3 {
      EncodeAlphabet(b[3..]);
      QuadSymbols(b[0], b[1], b[2]);
    }
  }

  lemma QuadSymbols(b0: byte, b1: byte, b2: byte)
    ensures forall i :: 0 <= i < 4 ==> IsSymbol(Quad(b0, b1, b2)[i])
  {
    SymbolValue(S0(b0));
    SymbolValue(S1(b0, b1));
    SymbolValue(S2(b1, b2));
    SymbolValue(S3(b2));
  }

  /** Padding appears only in the last quantum. */
  lemma {:induction false} EncodePaddingAtEnd(b: seq<byte>)
    ensures forall i :: 0 <= i < |Encode(b)| - 4 ==> IsSymbol(Encode(b)[i])
    decreases |b|
  {
    if |b| > 3 {
      EncodePaddingAtEnd(b[3..]);
      EncodeLength(b[3..]);
      EncodeAlphabet(b[3..]);
      QuadSymbols(b[0], b[1], b[2]);
    }
  }

  lemma QuadRoundTrip(b0: byte, b1: byte, b2: byte)
    ensures DecodeQuad(Quad(b0, b1, b2)) == Some([b0, b1, b2])
    ensures DecodeLast(Quad(b0, b1, b2)) == Some([b0, b1, b2])
  {
    SymbolValue(S0(b0));
    SymbolValue(S1(b0, b1));
    SymbolValue(S2(b1, b2));
    SymbolValue(S3(b2));
    BytesToSextetsToBytes(b0, b1, b2);
  }

  /** DecodeLast on a quantum with two pad characters, by its symbol values. */
  lemma DecodeLastTwoPads(q: string, v0: sextet, v1: sextet)
    requires |q| == 4 && q[2] == Pad && q[3] == Pad
    requires Value(q[0]) == Some(v0) && Value(q[1]) == Some(v1) && v1 % 16 == 0
    ensures DecodeLast(q) == Some([B0(v0, v1)])
  {
  }

  /** DecodeLast on a quantum with one pad character, by its symbol values. */
  lemma DecodeLastOnePad(q: string, v0: sextet, v1: sextet, v2: sextet)
    requires |q| == 4 && q[2] != Pad && q[3] == Pad
    requires Value(q[0]) == Some(v0) && Value(q[1]) == Some(v1) && Value(q[2]) == Some(v2)
    requires v2 % 4 == 0
    ensures DecodeLast(q) == Some([B0(v0, v1), B1(v1, v2)])
  {
  }

  lemma Quad1RoundTrip(b0: byte)
    ensures DecodeLast(Quad1(b0)) == Some([b0])
  {
    var q := Quad1(b0);
    var v0, v1 := S0(b0), S1(b0, 0);
    SymbolValue(v0);
    SymbolValue(v1);
    assert Value(q[0]) == Some(v0) && Value(q[1]) == Some(v1);
    PaddedSextets(b0, 0);
    DecodeLastTwoPads(q, v0, v1);
    assert B0(v0, v1) == B0(S0(b0), S1(b0, 0));
    BytesToSextetsToBytes(b0, 0, 0);
  }

  lemma Quad2RoundTrip(b0: byte, b1: byte)
    ensures DecodeLast(Quad2(b0, b1)) == Some([b0, b1])
  {
    var q := Quad2(b0, b1);
    var v0, v1, v2 := S0(b0), S1(b0, b1), S2(b1, 0);
    SymbolValue(v0);
    SymbolValue(v1);
    SymbolValue(v2);
    assert Value(q[0]) == Some(v0) && Value(q[1]) == Some(v1) && Value(q[2]) == Some(v2);
    BytesToSextetsToBytes(b0, b1, 0);
    PaddedSextets(b0, b1);
    DecodeLastOnePad(q, v0, v1, v2);
  }

  /** A full quantum followed by more text decodes quantum by quantum. */
  lemma DecodeAppend(q: string, r: string)
    requires |q| == 4 && |r| > 0 && DecodeQuad(q).Some? && Decode(r).Some?
    ensures Decode(q + r) == Some(DecodeQuad(q).value + Decode(r).value)
  {
    assert (q + r)[..4] == q && (q + r)[4..] == r;
  }

  /** The encoding of three or more bytes starts with one full quantum. */
  lemma EncodeFirstQuad(b: seq<byte>)
    requires |b| >= 3
    ensures Encode(b) == Quad(b[0], b[1], b[2]) + Encode(b[3..])
  {
  }

  lemma DecodeEncodeOne(b: seq<byte>)
    requires |b| == 1
    ensures Decode(Encode(b)) == Some(b)
  {
    assert Encode(b) == Quad1(b[0]);
    Quad1RoundTrip(b[0]);
    assert b == [b[0]];
  }

  lemma DecodeEncodeTwo(b: seq<byte>)
    requires |b| == 2
    ensures Decode(Encode(b)) == Some(b)
  {
    assert Encode(b) == Quad2(b[0], b[1]);
    Quad2RoundTrip(b[0], b[1]);
    assert b == [b[0], b[1]];
  }

  lemma DecodeEncodeThree(b: seq<byte>)
    requires |b| == 3
    ensures Decode(Encode(b)) == Some(b)
  {
    EncodeFirstQuad(b);
    assert Encode(b) == Quad(b[0], b[1], b[2]);
    QuadRoundTrip(b[0], b[1], b[2]);
    assert b == [b[0], b[1], b[2]];
  }

  /** Decoding inverts encoding. */
  lemma {:induction false} DecodeEncode(b: seq<byte>)
    ensures Decode(Encode(b)) == Some(b)
    decreases |b|
  {
    if |b| == 1 {
      DecodeEncodeOne(b);
    } else if |b| == 2 {
      DecodeEncodeTwo(b);
    } else if |b| == 3 {
      DecodeEncodeThree(b);
    } else if |b| > 3 {
      var q, r := Quad(b[0], b[1], b[2]), Encode(b[3..]);
      EncodeFirstQuad(b);
      QuadRoundTrip(b[0], b[1], b[2]);
      DecodeEncode(b[3..]);
      EncodeLength(b[3..]);
      DecodeAppend(q, r);
      assert b == [b[0], b[1], b[2]] + b[3..];
    }
  }

  lemma DecodeQuadCanonical(s: string)
    requires |s| == 4 && DecodeQuad(s).Some?
    ensures var d := DecodeQuad(s).value; |d| == 3 && Quad(d[0], d[1], d[2]) == s
  {
    var v0, v1, v2, v3 := Value(s[0]).value, Value(s[1]).value, Value(s[2]).value, Value(s[3]).value;
    ValueSymbol(s[0]);
    ValueSymbol(s[1]);
    ValueSymbol(s[2]);
    ValueSymbol(s[3]);
    SextetsToBytesToSextets(v0, v1, v2, v3);
  }

  lemma DecodeLastCanonical(s: string)
    requires |s| == 4 && DecodeLast(s).Some?
    ensures var d := DecodeLast(s).value; 1 <= |d| <= 3 && Encode(d) == s
  {
    ValueSymbol(s[0]);
    ValueSymbol(s[1]);
    if s[2] == Pad && s[3] == Pad {
      var v0, v1 := Value(s[0]).value, Value(s[1]).value;
      SextetsToBytesToSextets(v0, v1, 0, 0);
    } else if s[3] == Pad {
      ValueSymbol(s[2]);
      var v0, v1, v2 := Value(s[0]).value, Value(s[1]).value, Value(s[2]).value;
      SextetsToBytesToSextets(v0, v1, v2, 0);
    } else {
      DecodeQuadCanonical(s);
      var d := DecodeLast(s).value;
      assert Encode(d) == Quad(d[0], d[1], d[2]) + Encode(d[3..]);
    }
  }

  /** Decoding accepts only canonical text: whatever decodes is the encoding of
      what it decodes to, so every string has at most one decoding and every
      byte sequence exactly one encoding. */
  lemma {:induction false} EncodeDecode(s: string)
    requires Decode(s).Some?
    ensures Encode(Decode(s).value) == s
    decreases |s|
  {
    if |s| == 4 {
      DecodeLastCanonical(s);
    } else if |s| > 4 {
      var head := DecodeQuad(s[..4]).value;
      var tail := Decode(s[4..]).value;
      DecodeQuadCanonical(s[..4]);
      EncodeDecode(s[4..]);
      var d := head + tail;
      assert d[3..] == tail;
      assert Encode(d) == Quad(d[0], d[1], d[2]) + Encode(tail);
      assert s == s[..4] + s[4..];
    }
  }

  /** Only text made of alphabet symbols and '=' can decode. */
  lemma DecodeOnlyAlphabet(s: string)
    requires Decode(s).Some?
    ensures forall i :: 0 <= i < |s| ==> IsSymbol(s[i]) || s[i] == Pad
  {
    EncodeDecode(s);
    EncodeAlphabet(Decode(s).value);
  }

  /** Alphabet symbols and '=' are ASCII characters. */
  lemma AlphabetIsAscii(c: char)
    requires IsSymbol(c) || c == Pad
    ensures (c as int) < 0x80
  {
  }
}
