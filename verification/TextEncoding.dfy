/** UTF-8 as the program uses it: foreign, strict in both directions. */
module TextEncoding {
  import opened Foundations

  /** `None` stands for the `UnicodeEncodeError` or `UnicodeDecodeError` of the strict handlers. */
  datatype Utf8 = Utf8(encode: string -> Option<seq<Byte>>, decode: seq<Byte> -> Option<string>) {

    predicate Agrees(bytes: seq<Byte>, text: string) {
      decode(bytes) == Some(text) <==> encode(text) == Some(bytes)
    }

    /** Strict decoding inverts encoding, and the empty text has no bytes. */
    ghost predicate Strict() {
      && encode("") == Some([])
      && forall bytes, text :: Agrees(bytes, text)
    }

    predicate PlainOn(text: string) {
      IsAscii(text) ==> encode(text) == Some(Codes(text))
    }

    /** ASCII text is encoded by its character codes. */
    ghost predicate KeepsAscii() {
      forall text :: PlainOn(text)
    }
  }

  predicate IsAscii(text: string) {
    forall i | 0 <= i < |text| :: text[i] < 128 as char
  }

  function Codes(text: string): (bytes: seq<Byte>)
    requires IsAscii(text)
    ensures |bytes| == |text|
    ensures forall i | 0 <= i < |text| :: bytes[i] == text[i] as int
  {
    seq(|text|, i requires 0 <= i < |text| => text[i] as int)
  }

  /** The bytes of nonempty text are not empty. */
  lemma TextHasBytes(utf8: Utf8, text: string)
    requires utf8.Strict() && text != "" && utf8.encode(text).Some?
    ensures utf8.encode(text).value != []
    ensures utf8.decode(utf8.encode(text).value) == Some(text)
  {
    assert utf8.Agrees(utf8.encode(text).value, text) && utf8.Agrees([], "");
  }
}
