/** The reverse decodings `agent/datahub_discovery.py` registers for a strong secret: one layer of
  * hexadecimal (RFC 4648, section 8) or Base64 in either alphabet.
  *
  * UTF-8, `base64.b64decode` and `strip` are foreign. Of UTF-8 the model assumes that strict decoding
  * inverts encoding; of the Base64 decoder only that it decodes well-formed, fully padded text as the
  * RFC says. On any other text it may answer anything.
  */
module SecretDecodings {
  import opened Foundations
  import opened Base64
  import opened Hexadecimal
  import opened TextEncoding

  const MAX_VARIANT_SOURCE_BYTES := 4096

  datatype Codecs = Codecs(utf8: Utf8, b64decode: (bool, string) -> Option<seq<Byte>>, strip: string -> string) {

    predicate FaithfulOn(urlsafe: bool, s: string) {
      |s| % 4 == 0 && Decode(urlsafe, s).Some? ==> b64decode(urlsafe, s) == Decode(urlsafe, s)
    }

    ghost predicate FaithfulBase64() {
      forall urlsafe, s :: FaithfulOn(urlsafe, s)
    }
  }

  // ---------------------------------------------------------------- Base64 candidates

  /** The value with the padding it lacks. */
  function Padded(value: string): string {
    value + Equals((4 - |value| % 4) % 4)
  }

  function DecodeCandidate(c: Codecs, urlsafe: bool, value: string): Option<string> {
    if value == "" || |value| % 4 == 1 then None
    else
      match c.b64decode(urlsafe, Padded(value))
      case None => None
      case Some(bytes) =>
        if bytes == [] || value !in Variants(urlsafe, bytes) then None
        else if c.utf8.decode(bytes) == Some("") then None
        else c.utf8.decode(bytes)
  }

  lemma PaddedDecodes(urlsafe: bool, value: string, bytes: seq<Byte>)
    requires bytes != [] && Decode(urlsafe, value) == Some(bytes)
    ensures value != "" && |value| % 4 != 1
    ensures |Padded(value)| % 4 == 0 && Decode(urlsafe, Padded(value)) == Some(bytes)
  {
    hide Spells, DecodeSextets, TrimPadding;
    DecodableWrites(urlsafe, value, bytes);
    var vs := Values(urlsafe, TrimPadding(value));
    SpellingLength(vs, bytes);
    PaddedLength(|vs|, PaddingLength(bytes));
    assert Padded(value) == Letters(urlsafe, vs) + Equals(PaddingLength(bytes));
    WrittenDecodes(urlsafe, Padded(value), vs, bytes);
  }

  lemma PaddedLength(n: nat, padding: nat)
    requires n % 4 != 1 && (n + padding) % 4 == 0 && padding <= 2
    ensures (4 - n % 4) % 4 == padding && (4 - (n + padding) % 4) % 4 == 0 && (n + padding) % 4 != 1
  {
  }

  predicate IsBase64Of(c: Codecs, urlsafe: bool, value: string, text: string) {
    c.utf8.encode(text).Some? && value in Variants(urlsafe, c.utf8.encode(text).value)
  }

  /** A candidate decodes to nonempty text exactly when it is a Base64 spelling of the text's bytes. */
  lemma CandidateIsSpelling(c: Codecs, urlsafe: bool, value: string, text: string)
    requires c.utf8.Strict() && c.FaithfulBase64()
    ensures DecodeCandidate(c, urlsafe, value) == Some(text)
       <==> text != "" && IsBase64Of(c, urlsafe, value, text)
  {
    hide Variants, Decode, Utf8.Agrees;
    if text != "" && IsBase64Of(c, urlsafe, value, text) {
      TextHasBytes(c.utf8, text);
      var bytes := c.utf8.encode(text).value;
      VariantsAreExactlySpellings(urlsafe, bytes, value);
      PaddedDecodes(urlsafe, value, bytes);
      assert c.FaithfulOn(urlsafe, Padded(value));
    }
    if DecodeCandidate(c, urlsafe, value) == Some(text) {
      DecodedBytesEncode(c.utf8, c.b64decode(urlsafe, Padded(value)).value, text);
    }
  }

  lemma DecodedBytesEncode(utf8: Utf8, bytes: seq<Byte>, text: string)
    requires utf8.Strict() && utf8.decode(bytes) == Some(text)
    ensures utf8.encode(text) == Some(bytes)
  {
    assert utf8.Agrees(bytes, text);
  }

  // ---------------------------------------------------------------- one reverse layer

  predicate IsHexOf(c: Codecs, s: string, text: string) {
    c.utf8.encode(text).Some? && LowerHex(s) == HexEncode(c.utf8.encode(text).value)
  }

  function HexCandidates(c: Codecs, text: string): set<string> {
    if text != "" && IsHex(text) then
      var bytes := FromHex(text);
      match c.utf8.decode(bytes)
      case None => {}
      case Some(decoded) =>
        if decoded != "" && HexEncode(bytes) == LowerHex(text) then {decoded} else {}
    else {}
  }

  function Candidates(decoded: Option<string>): set<string> {
    match decoded
    case None => {}
    case Some(text) => {text}
  }

  /** `None` where encoding the text raises; otherwise the set of decodings. */
  function SingleLayerDecodings(c: Codecs, value: string): Option<set<string>> {
    var text := c.strip(value);
    if text == "" then Some({})
    else
      match c.utf8.encode(text)
      case None => None
      case Some(encoded) =>
        if |encoded| > MAX_VARIANT_SOURCE_BYTES then Some({})
        else
          Some(HexCandidates(c, text) + Candidates(DecodeCandidate(c, false, text))
               + Candidates(DecodeCandidate(c, true, text)) - {text})
  }

  lemma HexCandidateIsExact(c: Codecs, s: string, text: string)
    requires c.utf8.Strict() && s != ""
    ensures text in HexCandidates(c, s) <==> text != "" && IsHexOf(c, s, text)
  {
    hide HexEncode, FromHex, Utf8.Agrees;
    if c.utf8.encode(text).Some? && text != "" {
      TextHasBytes(c.utf8, text);
      HexIsExact(s, c.utf8.encode(text).value);
    }
    if text in HexCandidates(c, s) {
      DecodedBytesEncode(c.utf8, FromHex(s), text);
    }
  }

  /** The registered decodings are exactly the other nonempty texts of which the secret is a hexadecimal or Base64
    * spelling; a secret that is blank or longer than 4096 bytes has none, and one that cannot be encoded raises.
    */
  lemma DecodingsAreExact(c: Codecs, value: string, text: string)
    requires c.utf8.Strict() && c.FaithfulBase64()
    ensures var s := c.strip(value);
            var encoded := c.utf8.encode(s);
            && (SingleLayerDecodings(c, value) == None <==> s != "" && encoded == None)
            && (SingleLayerDecodings(c, value).Some? ==>
                 (text in SingleLayerDecodings(c, value).value
                  <==> && s != "" && |encoded.value| < 4097 && text != "" && text != s
                       && (IsHexOf(c, s, text) || IsBase64Of(c, false, s, text) || IsBase64Of(c, true, s, text))))
  {
    hide HexCandidates, DecodeCandidate, IsHexOf, IsBase64Of, Utf8.Strict, Codecs.FaithfulBase64;
    var s := c.strip(value);
    if s != "" {
      HexCandidateIsExact(c, s, text);
      CandidateIsSpelling(c, false, s, text);
      CandidateIsSpelling(c, true, s, text);
    }
  }

  /** Every spelling the guard blocks for some text is one it decodes back to that text. */
  lemma SpellingsDecodeBack(c: Codecs, urlsafe: bool, s: string, text: string)
    requires c.utf8.Strict() && c.FaithfulBase64() && c.strip(s) == s && s != text && text != "" && s != ""
    requires c.utf8.encode(s).Some? && |c.utf8.encode(s).value| <= MAX_VARIANT_SOURCE_BYTES
    requires c.utf8.encode(text).Some?
    requires var bytes := c.utf8.encode(text).value;
             s in Variants(urlsafe, bytes) || LowerHex(s) == HexEncode(bytes)
    ensures SingleLayerDecodings(c, s).Some? && text in SingleLayerDecodings(c, s).value
  {
    hide SingleLayerDecodings, Variants, Utf8.Strict, Codecs.FaithfulBase64;
    DecodingsAreExact(c, s, text);
  }
}
