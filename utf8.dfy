/** UTF-8 as Rust's `str::as_bytes` produces it and `String::from_utf8` accepts it
    (section 3.9, table 3-7 of the Unicode Standard): every scalar value is one to
    four bytes, and decoding rejects overlong forms, encoded surrogates, values
    above U+10FFFF, stray continuation bytes and truncated sequences. */
module Utf8 {
  import opened Wrappers
  import opened Bytes

  /** A continuation byte, 10xxxxxx. */
  predicate IsCont(b: byte) {
    0x80 <= b < 0xC0
  }

  /** The byte at position i, or 0 past the end; only read after a length check. */
  function At(b: seq<byte>, i: nat): int {
    if i < |b| then b[i] else 0
  }

  function EncodeChar(c: char): (r: seq<byte>)
    ensures 1 <= |r| <= 4
    ensures |r| == 1 <==> (c as int) < 0x80
    ensures forall i :: 1 <= i < |r| ==> IsCont(r[i])
  {
    var n := c as int;
    if n < 0x80 then [n]
    else if n < 0x800 then [0xC0 + n / 64, 0x80 + n % 64]
    else if n < 0x10000 then [0xE0 + n / 64 / 64, 0x80 + n / 64 % 64, 0x80 + n % 64]
    else [0xF0 + n / 64 / 64 / 64, 0x80 + n / 64 / 64 % 64, 0x80 + n / 64 % 64, 0x80 + n % 64]
  }

  /** `s.as_bytes()`: the characters' encodings, one after the other. */
  function Encode(s: string): seq<byte>
    decreases |s|
  {
    if |s| == 0 then [] else EncodeChar(s[0]) + Encode(s[1..])
  }

  /** The character at the start of `b` and the number of bytes it takes, or None
      when `b` does not start with a well-formed sequence. */
  function DecodeChar(b: seq<byte>): (r: Option<(char, nat)>)
    requires |b| > 0
    ensures r.Some? ==> 1 <= r.value.1 <= |b| && r.value.1 <= 4
  {
    var b0, b1, b2, b3 := b[0] as int, At(b, 1), At(b, 2), At(b, 3);
    if b0 < 0x80 then Some((b0 as char, 1))
    else if 0xC2 <= b0 < 0xE0 then
      if |b| >= 2 && IsCont(b[1]) then
        Some((((b0 - 0xC0) * 64 + (b1 - 0x80)) as char, 2))
      else None
    else if 0xE0 <= b0 < 0xF0 then
      if |b| >= 3 && IsCont(b[1]) && IsCont(b[2]) then
        var n := ((b0 - 0xE0) * 64 + (b1 - 0x80)) * 64 + (b2 - 0x80);
        if 0x800 <= n && !(0xD800 <= n < 0xE000) then Some((n as char, 3)) else None
      else None
    else if 0xF0 <= b0 < 0xF5 then
      if |b| >= 4 && IsCont(b[1]) && IsCont(b[2]) && IsCont(b[3]) then
        var n := (((b0 - 0xF0) * 64 + (b1 - 0x80)) * 64 + (b2 - 0x80)) * 64 + (b3 - 0x80);
        if 0x10000 <= n < 0x110000 then Some((n as char, 4)) else None
      else None
    else None
  }

  /** `String::from_utf8(b).ok()`. */
  function Decode(b: seq<byte>): Option<string>
    decreases |b|
  {
    if |b| == 0 then Some("")
    else
      match DecodeChar(b)
      case None => None
      case Some((c, k)) =>
        match Decode(b[k..])
        case None => None
        case Some(rest) => Some([c] + rest)
  }

  // ----------------------------------------------------------- properties

  lemma {:induction false} EncodeAppend(s: string, t: string)
    ensures Encode(s + t) == Encode(s) + Encode(t)
    decreases |s|
  {
    if |s| > 0 {
      EncodeAppend(s[1..], t);
      assert (s + t)[0] == s[0] && (s + t)[1..] == s[1..] + t;
    } else {
      assert s + t == t;
    }
  }

  /** ASCII text is its own encoding, one byte per character. */
  lemma {:induction false} EncodeAscii(s: string)
    requires forall i :: 0 <= i < |s| ==> (s[i] as int) < 0x80
    ensures |Encode(s)| == |s|
    ensures forall i :: 0 <= i < |s| ==> Encode(s)[i] == s[i] as int
    decreases |s|
  {
    if |s| > 0 {
      EncodeAscii(s[1..]);
    }
  }

  lemma DecodeEncodeChar(c: char, rest: seq<byte>)
    ensures DecodeChar(EncodeChar(c) + rest) == Some((c, |EncodeChar(c)|))
  {
    var n := c as int;
    var b := EncodeChar(c) + rest;
    if n < 0x80 {
    } else if n < 0x800 {
      assert b[0] == 0xC0 + n / 64 && b[1] == 0x80 + n % 64;
    } else if n < 0x10000 {
      assert b[0] == 0xE0 + n / 64 / 64 && b[1] == 0x80 + n / 64 % 64 && b[2] == 0x80 + n % 64;
    } else {
      assert b[0] == 0xF0 + n / 64 / 64 / 64 && b[1] == 0x80 + n / 64 / 64 % 64;
      assert b[2] == 0x80 + n / 64 % 64 && b[3] == 0x80 + n % 64;
    }
  }

  /** Decoding inverts encoding: every string's bytes are valid UTF-8. */
  lemma {:induction false} DecodeEncode(s: string)
    ensures Decode(Encode(s)) == Some(s)
    decreases |s|
  {
    if |s| > 0 {
      var e := EncodeChar(s[0]);
      DecodeEncodeChar(s[0], Encode(s[1..]));
      DecodeEncode(s[1..]);
      assert (e + Encode(s[1..]))[|e|..] == Encode(s[1..]);
      assert s == [s[0]] + s[1..];
    }
  }

  /** Splitting off the last six bits. */
  lemma Split64(x: nat, y: nat)
    requires y < 64
    ensures (x * 64 + y) / 64 == x && (x * 64 + y) % 64 == y
  {
  }

  lemma EncodeDecodeChar(b: seq<byte>)
    requires |b| > 0 && DecodeChar(b).Some?
    ensures EncodeChar(DecodeChar(b).value.0) == b[..DecodeChar(b).value.1]
  {
    if b[0] < 0x80 {
      assert b[..1] == [b[0]];
    } else if b[0] < 0xE0 {
      EncodeDecodeTwo(b);
    } else if b[0] < 0xF0 {
      EncodeDecodeThree(b);
    } else {
      EncodeDecodeFour(b);
    }
  }

  lemma EncodeDecodeTwo(b: seq<byte>)
    requires |b| > 0 && 0x80 <= b[0] < 0xE0 && DecodeChar(b).Some?
    ensures EncodeChar(DecodeChar(b).value.0) == b[..DecodeChar(b).value.1]
  {
    var x: int, y: int := b[0] - 0xC0, b[1] - 0x80;
    assert DecodeChar(b) == Some(((x * 64 + y) as char, 2));
    Split64(x, y);
    assert b[..2] == [b[0], b[1]];
  }

  lemma EncodeDecodeThree(b: seq<byte>)
    requires |b| > 0 && 0xE0 <= b[0] < 0xF0 && DecodeChar(b).Some?
    ensures EncodeChar(DecodeChar(b).value.0) == b[..DecodeChar(b).value.1]
  {
    var x: int, y: int, z: int := b[0] - 0xE0, b[1] - 0x80, b[2] - 0x80;
    var n := (x * 64 + y) * 64 + z;
    assert DecodeChar(b) == Some((n as char, 3));
    Split64(x * 64 + y, z);
    Split64(x, y);
    assert b[..3] == [b[0], b[1], b[2]];
  }

  lemma EncodeDecodeFour(b: seq<byte>)
    requires |b| > 0 && 0xF0 <= b[0] && DecodeChar(b).Some?
    ensures EncodeChar(DecodeChar(b).value.0) == b[..DecodeChar(b).value.1]
  {
    var x: int, y: int, z: int, w: int := b[0] - 0xF0, b[1] - 0x80, b[2] - 0x80, b[3] - 0x80;
    var n := ((x * 64 + y) * 64 + z) * 64 + w;
    assert DecodeChar(b) == Some((n as char, 4));
    Split64((x * 64 + y) * 64 + z, w);
    Split64(x * 64 + y, z);
    Split64(x, y);
    assert b[..4] == [b[0], b[1], b[2], b[3]];
  }

  /** Decoding accepts only the encoding of what it returns, so no two byte
      sequences decode to the same string. */
  lemma {:induction false} EncodeDecode(b: seq<byte>)
    requires Decode(b).Some?
    ensures Encode(Decode(b).value) == b
    decreases |b|
  {
    if |b| > 0 {
      var c, k, rest := DecodeStep(b);
      EncodeDecode(b[k..]);
      EncodeCons(c, rest);
      assert b[..k] + b[k..] == b;
    }
  }

  /** A successful decoding is a character, whose encoding is the bytes it was
      read from, followed by the decoding of the bytes after it. */
  lemma DecodeStep(b: seq<byte>) returns (c: char, k: nat, rest: string)
    requires |b| > 0 && Decode(b).Some?
    ensures 1 <= k <= |b| && EncodeChar(c) == b[..k]
    ensures Decode(b[k..]) == Some(rest) && Decode(b) == Some([c] + rest)
  {
    c, k := DecodeChar(b).value.0, DecodeChar(b).value.1;
    rest := Decode(b[k..]).value;
    EncodeDecodeChar(b);
  }

  lemma EncodeCons(c: char, s: string)
    ensures Encode([c] + s) == EncodeChar(c) + Encode(s)
  {
    assert ([c] + s)[1..] == s;
  }
}
