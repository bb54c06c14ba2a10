/** The name codec of `encoding.rs`: a string is stored as the standard Base64 of
    its UTF-8 bytes, and decoding fails on bad Base64 or on bytes that are not
    UTF-8. */
module Encoding {
  import opened Wrappers
  import Base64
  import Utf8

  /** `encode_string`: `STANDARD.encode(input.as_bytes())`. */
  function EncodeString(s: string): (r: string)
    ensures |r| % 4 == 0
    ensures forall i :: 0 <= i < |r| ==> Base64.IsSymbol(r[i]) || r[i] == Base64.Pad
  {
    var b := Utf8.Encode(s);
    Base64.EncodeLength(b);
    Base64.EncodeAlphabet(b);
    Base64.Encode(b)
  }

  /** `decode_string`: None when the input is not canonical padded Base64 or when
      the bytes it stands for are not UTF-8. */
  function DecodeString(t: string): Option<string> {
    match Base64.Decode(t)
    case None => None
    case Some(b) => Utf8.Decode(b)
  }

  /** Every string survives encoding and decoding. */
  lemma DecodeEncodeString(s: string)
    ensures DecodeString(EncodeString(s)) == Some(s)
  {
    Base64.DecodeEncode(Utf8.Encode(s));
    Utf8.DecodeEncode(s);
  }

  /** A stored form that decodes is the one encoding produces: no two stored forms
      decode to the same string. */
  lemma EncodeDecodeString(t: string)
    requires DecodeString(t).Some?
    ensures EncodeString(DecodeString(t).value) == t
  {
    var b := Base64.Decode(t).value;
    Base64.EncodeDecode(t);
    Utf8.EncodeDecode(b);
  }

  /** A character outside the Base64 alphabet, other than '=', makes decoding fail. */
  lemma DecodeRejectsForeignCharacter(t: string, i: nat)
    requires i < |t| && !Base64.IsSymbol(t[i]) && t[i] != Base64.Pad
    ensures DecodeString(t) == None
  {
    if Base64.Decode(t).Some? {
      Base64.DecodeOnlyAlphabet(t);
    }
  }

  /** The example of the module's tests: spaces and '!' are not Base64. */
  lemma DecodeInvalidExample()
    ensures DecodeString("not valid base64!!!") == None
  {
    DecodeRejectsForeignCharacter("not valid base64!!!", 3);
  }

  /** Well-formed Base64 that stands for bytes which are not UTF-8 fails too:
      "/w==" is the single byte 0xFF. */
  lemma DecodeNotUtf8Example()
    ensures Base64.Decode("/w==") == Some([0xFF])
    ensures DecodeString("/w==") == None
  {
    var t := "/w==";
    assert Base64.Value(t[0]) == Some(63) && Base64.Value(t[1]) == Some(48);
    Base64.DecodeLastTwoPads(t, 63, 48);
  }

  /** The stored form is ASCII, so its length in bytes is its length in characters. */
  lemma EncodeStringIsAscii(s: string)
    ensures |Utf8.Encode(EncodeString(s))| == |EncodeString(s)|
    ensures |EncodeString(s)| == 4 * ((|Utf8.Encode(s)| + 2) / 3)
  {
    var b := Utf8.Encode(s);
    var r := EncodeString(s);
    assert r == Base64.Encode(b);
    Base64.EncodeLength(b);
    StoredFormIsAscii(r);
    Utf8.EncodeAscii(r);
  }

  lemma StoredFormIsAscii(r: string)
    requires forall i :: 0 <= i < |r| ==> Base64.IsSymbol(r[i]) || r[i] == Base64.Pad
    ensures forall i :: 0 <= i < |r| ==> (r[i] as int) < 0x80
  {
    forall i | 0 <= i < |r| ensures (r[i] as int) < 0x80 {
      Base64.AlphabetIsAscii(r[i]);
    }
  }
}
