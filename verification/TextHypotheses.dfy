/** The hypotheses about UTF-8 and Base64 decoding can be met. */
module TextHypotheses {
  import opened Foundations
  import opened TextEncoding
  import Base64
  import SecretDecodings

  /** An encoding that knows ASCII and refuses the rest. */
  function AsciiEncode(text: string): Option<seq<Byte>> {
    if IsAscii(text) then Some(Codes(text)) else None
  }

  function AsciiDecode(bytes: seq<Byte>): Option<string> {
    if forall i | 0 <= i < |bytes| :: bytes[i] < 128
    then Some(seq(|bytes|, i requires 0 <= i < |bytes| => bytes[i] as char))
    else None
  }

  /** Strict text encodings that keep ASCII exist, and so does a Base64 decoder faithful on padded text. */
  lemma TextHypothesesAreMet(strip: string -> string)
    ensures var utf8 := Utf8(AsciiEncode, AsciiDecode); utf8.Strict() && utf8.KeepsAscii()
    ensures SecretDecodings.Codecs(Utf8(AsciiEncode, AsciiDecode), Base64.Decode, strip).FaithfulBase64()
  {
    var utf8 := Utf8(AsciiEncode, AsciiDecode);
    forall bytes, text ensures utf8.Agrees(bytes, text) {
      if utf8.encode(text) == Some(bytes) {
        assert AsciiDecode(bytes).value == text;
      }
      if utf8.decode(bytes) == Some(text) {
        assert Codes(text) == bytes;
      }
    }
    assert Codes("") == [];
    forall text ensures utf8.PlainOn(text) {
    }
    hide Base64.Decode;
    var codecs := SecretDecodings.Codecs(utf8, Base64.Decode, strip);
    forall urlsafe, s ensures codecs.FaithfulOn(urlsafe, s) {
    }
  }
}
