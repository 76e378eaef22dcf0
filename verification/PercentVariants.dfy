/** The percent-encoded spellings of a secret that the guard of `agent/datahub_discovery.py` blocks
  * (RFC 3986, section 2.1: the hexadecimal digits of an escape are equivalent in either case).
  */
module PercentVariants {
  import opened Foundations
  import opened Hexadecimal
  import opened TextEncoding
  import opened UrnComponents

  /** `%02X` or `%02x`. */
  function EscapeIn(lower: bool, b: Byte): string {
    if lower then ['%', HexDigit(b / 16), HexDigit(b % 16)] else Escape(b)
  }

  function EscapeAll(lower: bool, bytes: seq<Byte>): string {
    if bytes == [] then "" else EscapeIn(lower, bytes[0]) + EscapeAll(lower, bytes[1..])
  }

  predicate StartsWithUpperEscape(s: string) {
    |s| >= 3 && s[0] == '%' && IsUpperHex(s[1]) && IsUpperHex(s[2])
  }

  /** `_lower_percent_escapes`: every match of `%[0-9A-F]{2}` in lower case. */
  function LowerEscapes(s: string): string {
    if s == "" then ""
    else if StartsWithUpperEscape(s) then ['%', Lower(s[1]), Lower(s[2])] + LowerEscapes(s[3..])
    else [s[0]] + LowerEscapes(s[1..])
  }

  /** The percent-encoded part of `_secret_text_variants`, for the UTF-8 bytes of the secret. */
  function Variants(bytes: seq<Byte>): set<string> {
    {Quote("", bytes), LowerEscapes(Quote("", bytes)), EscapeAll(false, bytes), EscapeAll(true, bytes)}
  }

  /** Every `%` of the text starts an escape, and read from the left it spells the bytes. */
  predicate Spells(s: string, bytes: seq<Byte>) {
    if s == "" || bytes == [] then s == "" && bytes == []
    else if s[0] == '%' then
      && |s| >= 3 && Nibble(s[1]).Some? && Nibble(s[2]).Some? && ByteOf(s[1], s[2]) == bytes[0]
      && Spells(s[3..], bytes[1..])
    else s[0] < 128 as char && s[0] as int == bytes[0] && Spells(s[1..], bytes[1..])
  }

  lemma {:induction false} SpellingUnquotes(s: string, bytes: seq<Byte>)
    requires Spells(s, bytes)
    ensures IsAscii(s) && Unquote(Codes(s)) == bytes
    decreases |s|
  {
    hide ByteOf;
    if s != "" && s[0] == '%' {
      SpellingUnquotes(s[3..], bytes[1..]);
      assert s == ['%', s[1], s[2]] + s[3..] && Codes(s)[3..] == Codes(s[3..]);
    } else if s != "" {
      SpellingUnquotes(s[1..], bytes[1..]);
      assert s == [s[0]] + s[1..] && Codes(s)[1..] == Codes(s[1..]);
    }
  }

  lemma EscapeSpells(lower: bool, b: Byte)
    ensures var s := EscapeIn(lower, b);
            && |s| == 3 && s[0] == '%' && Nibble(s[1]).Some? && Nibble(s[2]).Some? && ByteOf(s[1], s[2]) == b
  {
    EscapeReads(b);
    DigitIsNibble(HexDigit(b / 16), b / 16);
    DigitIsNibble(HexDigit(b % 16), b % 16);
  }

  lemma SpellsMore(lower: bool, b: Byte, s: string, bytes: seq<Byte>)
    requires Spells(s, bytes)
    ensures Spells(EscapeIn(lower, b) + s, [b] + bytes)
    ensures b < 128 && b as char != '%' ==> Spells([b as char] + s, [b] + bytes)
  {
    hide EscapeIn, ByteOf, Nibble;
    EscapeSpells(lower, b);
    assert (EscapeIn(lower, b) + s)[3..] == s && ([b as char] + s)[1..] == s && ([b] + bytes)[1..] == bytes;
  }

  lemma {:induction false} EscapeAllSpells(lower: bool, bytes: seq<Byte>)
    ensures Spells(EscapeAll(lower, bytes), bytes)
  {
    if bytes != [] {
      hide EscapeIn, Spells;
      EscapeAllSpells(lower, bytes[1..]);
      SpellsMore(lower, bytes[0], EscapeAll(lower, bytes[1..]), bytes[1..]);
      assert bytes == [bytes[0]] + bytes[1..];
    }
  }

  lemma {:induction false} QuoteSpells(safe: string, bytes: seq<Byte>)
    requires '%' !in safe
    ensures Spells(Quote(safe, bytes), bytes)
  {
    if bytes != [] {
      hide Escape, Spells;
      QuoteSpells(safe, bytes[1..]);
      SpellsMore(false, bytes[0], Quote(safe, bytes[1..]), bytes[1..]);
      assert bytes == [bytes[0]] + bytes[1..];
    }
  }

  lemma LowerKeepsNibble(ch: char)
    requires IsUpperHex(ch)
    ensures Nibble(Lower(ch)) == Nibble(ch) && Nibble(ch).Some?
  {
  }

  /** Lowering escapes does not change what is spelled. */
  lemma {:induction false} LowerEscapesSpell(s: string, bytes: seq<Byte>)
    requires Spells(s, bytes)
    ensures Spells(LowerEscapes(s), bytes)
    decreases |s|
  {
    hide Nibble, Lower;
    if s == "" {
    } else if StartsWithUpperEscape(s) {
      LowerEscapesSpell(s[3..], bytes[1..]);
      LowerKeepsNibble(s[1]);
      LowerKeepsNibble(s[2]);
      var head := ['%', Lower(s[1]), Lower(s[2])];
      assert LowerEscapes(s)[3..] == LowerEscapes(s[3..]);
    } else if s[0] == '%' {
      KeepsOtherEscape(s, bytes);
      LowerEscapesSpell(s[3..], bytes[1..]);
    } else {
      LowerEscapesSpell(s[1..], bytes[1..]);
      assert LowerEscapes(s)[1..] == LowerEscapes(s[1..]);
    }
  }

  /** An escape with a lower-case digit is left alone, and its digits start no other escape. */
  lemma KeepsOtherEscape(s: string, bytes: seq<Byte>)
    requires Spells(s, bytes) && s != "" && s[0] == '%' && !StartsWithUpperEscape(s)
    ensures LowerEscapes(s) == s[..3] + LowerEscapes(s[3..])
  {
    var rest := s[1..];
    assert rest[0] != '%' && rest[1] != '%' && rest[1..][1..] == s[3..] && rest[1..][0] == s[2];
    assert LowerEscapes(rest) == [s[1]] + LowerEscapes(rest[1..]);
    assert LowerEscapes(rest[1..]) == [s[2]] + LowerEscapes(s[3..]);
    assert LowerEscapes(s) == [s[0]] + ([s[1]] + ([s[2]] + LowerEscapes(s[3..])));
  }

  lemma EscapeInExactly(lower: bool, b: Byte, high: char, low: char)
    ensures ['%', high, low] == EscapeIn(lower, b) <==> IsDigit(high, b / 16, lower) && IsDigit(low, b % 16, lower)
  {
    hide IsDigit;
    DigitExactly(high, b / 16);
    DigitExactly(low, b % 16);
  }

  lemma {:induction false} EscapesAllExactly(lower: bool, bytes: seq<Byte>, s: string)
    ensures s == EscapeAll(lower, bytes) <==> IsSpelledWith(s, bytes, "", true, lower)
    decreases |bytes|
  {
    if bytes != [] {
      hide IsUnreserved, IsDigit, EscapeIn;
      EscapeSpells(lower, bytes[0]);
      if |s| >= 3 && s[0] == '%' {
        EscapeInExactly(lower, bytes[0], s[1], s[2]);
        EscapesAllExactly(lower, bytes[1..], s[3..]);
        assert s == ['%', s[1], s[2]] + s[3..];
      }
    }
  }

  /** Lowering the escapes of the quoted bytes gives them with lower-case digits. */
  lemma {:induction false} LowersExactly(bytes: seq<Byte>, s: string)
    ensures s == LowerEscapes(Quote("", bytes)) <==> IsSpelledWith(s, bytes, "", false, true)
    decreases |bytes|
  {
    if bytes != [] {
      hide IsSafe, IsUnreserved, IsDigit, Nibble, UpperHexDigit, Lower, IsUpperHex;
      var b, rest := bytes[0], Quote("", bytes[1..]);
      SafeExactly("", b);
      LowersHead(b, rest);
      if IsSafe("", b as char) {
        if s != "" {
          LowersExactly(bytes[1..], s[1..]);
          assert s == [s[0]] + s[1..];
        }
      } else if |s| >= 3 {
        DigitExactly(s[1], b / 16);
        DigitExactly(s[2], b % 16);
        LowersExactly(bytes[1..], s[3..]);
        assert s == [s[0], s[1], s[2]] + s[3..];
      }
    }
  }

  lemma LowersHead(b: Byte, rest: string)
    ensures IsSafe("", b as char) ==> LowerEscapes(QuoteByte("", b) + rest) == [b as char] + LowerEscapes(rest)
    ensures !IsSafe("", b as char) ==>
              LowerEscapes(QuoteByte("", b) + rest) == ['%', HexDigit(b / 16), HexDigit(b % 16)] + LowerEscapes(rest)
  {
    hide Nibble;
    if IsSafe("", b as char) {
      assert ([b as char] + rest)[1..] == rest;
    } else {
      EscapeReads(b);
      assert (Escape(b) + rest)[3..] == rest;
    }
  }

  /** The guard blocks exactly four spellings: the unreserved characters escaped too or left as they are, and all
    * escapes with upper-case or with lower-case digits.
    */
  lemma VariantsAreExactly(bytes: seq<Byte>, s: string)
    ensures s in Variants(bytes) <==> exists all, lower :: IsSpelledWith(s, bytes, "", all, lower)
  {
    hide IsSpelledWith, Quote, EscapeAll, LowerEscapes;
    QuotesExactly("", bytes, s);
    LowersExactly(bytes, s);
    EscapesAllExactly(false, bytes, s);
    EscapesAllExactly(true, bytes, s);
  }

  /** Every percent-encoded spelling the guard blocks decodes to the secret's bytes. */
  lemma VariantsDecode(bytes: seq<Byte>, variant: string)
    requires variant in Variants(bytes)
    ensures IsAscii(variant) && Unquote(Codes(variant)) == bytes
  {
    hide Spells, Quote, EscapeAll, LowerEscapes, Unquote;
    QuoteSpells("", bytes);
    LowerEscapesSpell(Quote("", bytes), bytes);
    EscapeAllSpells(false, bytes);
    EscapeAllSpells(true, bytes);
    SpellingUnquotes(variant, bytes);
  }
}
