/** Canonical percent-encoding of dataset URNs in `agent/datahub_discovery.py`
  * (RFC 3986, sections 2.1 and 2.3).
  *
  * `Unquote` and `Quote` are Python's `urllib.parse.unquote_to_bytes` and `quote`. UTF-8 and the
  * character classes `isspace` and category C are foreign.
  */
module UrnComponents {
  import opened Foundations
  import opened Hexadecimal
  import opened TextEncoding

  /** The fixed text before a dataset URN's fields and the characters each field keeps unescaped. */
  datatype Grammar = Grammar(prefix: string, platformSafe: string, datasetSafe: string, environmentSafe: string) {

    predicate KeepsReserved() {
      Reserves(platformSafe) && Reserves(datasetSafe) && Reserves(environmentSafe)
    }
  }

  predicate Reserves(safe: string) {
    '%' !in safe && ',' !in safe && '(' !in safe && ')' !in safe
  }

  /** `n` consecutive characters. */
  function Letters(first: char, n: nat): (s: string)
    requires first as int + n <= 128
    ensures |s| == n && forall i | 0 <= i < n :: s[i] as int == first as int + i
  {
    seq(n, i requires 0 <= i < n => (first as int + i) as char)
  }

  const ALPHANUMERIC := Letters('A', 26) + Letters('a', 26) + Letters('0', 10)

  const DATASET_GRAMMAR := Grammar("urn:li:dataset:(urn:li:dataPlatform:",
                                   ALPHANUMERIC + "._-", ALPHANUMERIC + "._:/+~-", ALPHANUMERIC + "._-")

  const MAX_URN_LENGTH := 2048

  /** None of the three constant sets keeps a character with a meaning in the URN. */
  lemma GrammarKeepsReserved()
    ensures DATASET_GRAMMAR.KeepsReserved()
  {
    assert '%' !in ALPHANUMERIC && ',' !in ALPHANUMERIC && '(' !in ALPHANUMERIC && ')' !in ALPHANUMERIC;
  }

  // ---------------------------------------------------------------- percent-encoding

  predicate IsAlphanumeric(ch: char) {
    'A' <= ch <= 'Z' || 'a' <= ch <= 'z' || '0' <= ch <= '9'
  }

  /** Left as it is by `quote`: the unreserved characters, and the ASCII characters of `safe`. */
  predicate IsSafe(safe: string, ch: char) {
    ch < 128 as char && (IsAlphanumeric(ch) || ch in "_.-~" || ch in safe)
  }

  function UpperHexDigit(n: int): char
    requires 0 <= n < 16
  {
    if n < 10 then '0' + n as char else 'A' + (n - 10) as char
  }

  predicate IsUpperHex(ch: char) {
    '0' <= ch <= '9' || 'A' <= ch <= 'F'
  }

  function Escape(b: Byte): string {
    ['%', UpperHexDigit(b / 16), UpperHexDigit(b % 16)]
  }

  function QuoteByte(safe: string, b: Byte): string {
    if IsSafe(safe, b as char) then [b as char] else Escape(b)
  }

  function Quote(safe: string, bytes: seq<Byte>): string {
    if bytes == [] then "" else QuoteByte(safe, bytes[0]) + Quote(safe, bytes[1..])
  }

  /** RFC 3986, section 2.3, by code: letters, digits, hyphen, full stop, underscore and tilde. */
  predicate IsUnreserved(b: int) {
    0x41 <= b <= 0x5A || 0x61 <= b <= 0x7A || 0x30 <= b <= 0x39 || b == 0x2D || b == 0x2E || b == 0x5F || b == 0x7E
  }

  /** A hexadecimal digit of this value, not in the other case. */
  predicate IsDigit(ch: char, n: int, lower: bool) {
    Nibble(ch) == Some(n) && if lower then !('A' <= ch <= 'F') else !('a' <= ch <= 'f')
  }

  /** Byte for byte: an escape with digits of one case, except that unreserved bytes and ASCII bytes of `kept`
    * stand for themselves, unless all are escaped.
    */
  predicate IsSpelledWith(s: string, bytes: seq<Byte>, kept: string, all: bool, lower: bool) {
    if bytes == [] then s == ""
    else if !all && bytes[0] < 128 && (IsUnreserved(bytes[0]) || bytes[0] as char in kept) then
      s != "" && s[0] as int == bytes[0] && IsSpelledWith(s[1..], bytes[1..], kept, all, lower)
    else
      && |s| >= 3 && s[0] == '%' && IsDigit(s[1], bytes[0] / 16, lower) && IsDigit(s[2], bytes[0] % 16, lower)
      && IsSpelledWith(s[3..], bytes[1..], kept, all, lower)
  }

  lemma SafeExactly(safe: string, b: Byte)
    ensures IsSafe(safe, b as char) <==> b < 128 && (IsUnreserved(b) || b as char in safe)
  {
  }

  lemma DigitExactly(ch: char, n: int)
    requires 0 <= n < 16
    ensures IsDigit(ch, n, false) <==> ch == UpperHexDigit(n)
    ensures IsDigit(ch, n, true) <==> ch == HexDigit(n)
  {
  }

  /** Quoting is exactly that, with upper-case digits. */
  lemma {:induction false} QuotesExactly(safe: string, bytes: seq<Byte>, s: string)
    ensures s == Quote(safe, bytes) <==> IsSpelledWith(s, bytes, safe, false, false)
    decreases |bytes|
  {
    if bytes != [] {
      hide IsSafe, IsUnreserved, IsDigit, Nibble, UpperHexDigit;
      var b, rest := bytes[0], Quote(safe, bytes[1..]);
      SafeExactly(safe, b);
      if IsSafe(safe, b as char) {
        if s != "" {
          QuotesExactly(safe, bytes[1..], s[1..]);
          assert s == [s[0]] + s[1..];
        }
      } else {
        if |s| >= 3 {
          DigitExactly(s[1], b / 16);
          DigitExactly(s[2], b % 16);
          QuotesExactly(safe, bytes[1..], s[3..]);
          assert s == [s[0], s[1], s[2]] + s[3..];
        }
      }
    }
  }

  /** The bytes start with `%` and two hexadecimal digits of either case. */
  predicate StartsWithEscape(bytes: seq<Byte>) {
    && |bytes| >= 3 && bytes[0] as char == '%'
    && Nibble(bytes[1] as char).Some? && Nibble(bytes[2] as char).Some?
  }

  /** Escapes become bytes; a `%` that starts no escape stays. */
  function Unquote(bytes: seq<Byte>): seq<Byte> {
    if bytes == [] then []
    else if StartsWithEscape(bytes) then [ByteOf(bytes[1] as char, bytes[2] as char)] + Unquote(bytes[3..])
    else [bytes[0]] + Unquote(bytes[1..])
  }

  lemma EscapeReads(b: Byte)
    ensures var s := Escape(b); Nibble(s[1]).Some? && Nibble(s[2]).Some? && ByteOf(s[1], s[2]) == b
    ensures IsAscii(Escape(b)) && IsUpperHex(Escape(b)[1]) && IsUpperHex(Escape(b)[2])
  {
    UpperDigitReads(b / 16);
    UpperDigitReads(b % 16);
  }

  lemma UpperDigitReads(n: int)
    requires 0 <= n < 16
    ensures Nibble(UpperHexDigit(n)) == Some(n) && IsUpperHex(UpperHexDigit(n)) && UpperHexDigit(n) < 128 as char
  {
  }

  lemma UpperEscapeIsWritten(high: char, low: char)
    requires Nibble(high).Some? && Nibble(low).Some?
    ensures Escape(ByteOf(high, low)) == ['%', high, low] <==> IsUpperHex(high) && IsUpperHex(low)
  {
    var b := ByteOf(high, low);
    NibbleBounds(high);
    NibbleBounds(low);
    NibblesJoin(Nibble(high).value, Nibble(low).value, b);
    UpperDigitWrites(high);
    UpperDigitWrites(low);
    assert Escape(b)[1] == UpperHexDigit(b / 16) && Escape(b)[2] == UpperHexDigit(b % 16);
  }

  lemma UpperDigitWrites(ch: char)
    requires Nibble(ch).Some?
    ensures 0 <= Nibble(ch).value < 16 && (UpperHexDigit(Nibble(ch).value) == ch <==> IsUpperHex(ch))
  {
  }

  /** Decoding inverts encoding, for every set of safe characters without `%`. */
  lemma {:induction false} UnquoteInvertsQuote(safe: string, bytes: seq<Byte>)
    requires '%' !in safe
    ensures IsAscii(Quote(safe, bytes)) && Unquote(Codes(Quote(safe, bytes))) == bytes
  {
    hide Nibble, Escape, ByteOf, IsSafe;
    if bytes == [] {
    } else {
      var b, rest := bytes[0], Quote(safe, bytes[1..]);
      UnquoteInvertsQuote(safe, bytes[1..]);
      QuotedByteReads(safe, b, rest);
      assert bytes == [b] + bytes[1..];
    }
  }

  lemma QuotedByteReads(safe: string, b: Byte, rest: string)
    requires '%' !in safe && IsAscii(rest)
    ensures IsAscii(QuoteByte(safe, b) + rest)
    ensures Unquote(Codes(QuoteByte(safe, b) + rest)) == [b] + Unquote(Codes(rest))
  {
    hide Nibble, ByteOf;
    EscapeReads(b);
    var s := QuoteByte(safe, b) + rest;
    assert Codes(s)[|QuoteByte(safe, b)|..] == Codes(rest);
  }

  // ---------------------------------------------------------------- the normal form

  /** Only safe characters and upper-case escapes of unsafe bytes. */
  predicate NormalForm(safe: string, s: string) {
    if s == "" then true
    else if IsSafe(safe, s[0]) then NormalForm(safe, s[1..])
    else
      && |s| >= 3 && s[0] == '%' && IsUpperHex(s[1]) && IsUpperHex(s[2])
      && !IsSafe(safe, ByteOf(s[1], s[2]) as char) && NormalForm(safe, s[3..])
  }

  /** Re-encoding the decoded bytes returns the text exactly when the text is in normal form. */
  lemma {:induction false} RequotingKeepsNormalForm(safe: string, s: string)
    requires '%' !in safe && IsAscii(s)
    ensures Quote(safe, Unquote(Codes(s))) == s <==> NormalForm(safe, s)
    decreases |s|
  {
    hide Nibble, ByteOf, Escape, IsSafe;
    if s == "" {
    } else if StartsWithEscape(Codes(s)) {
      RequotingKeepsNormalForm(safe, s[3..]);
      EscapeRequotes(safe, s);
    } else {
      RequotingKeepsNormalForm(safe, s[1..]);
      CharacterRequotes(safe, s);
    }
  }

  lemma EscapeRequotes(safe: string, s: string)
    requires '%' !in safe && IsAscii(s) && StartsWithEscape(Codes(s))
    ensures Nibble(s[1]).Some? && Nibble(s[2]).Some?
    ensures Quote(safe, Unquote(Codes(s))) == s
       <==> && IsUpperHex(s[1]) && IsUpperHex(s[2]) && !IsSafe(safe, ByteOf(s[1], s[2]) as char)
            && Quote(safe, Unquote(Codes(s[3..]))) == s[3..]
    ensures !IsSafe(safe, s[0])
  {
    hide Nibble, ByteOf, Escape, Quote;
    var codes, b := Codes(s), ByteOf(s[1], s[2]);
    UpperEscapeIsWritten(s[1], s[2]);
    assert codes[3..] == Codes(s[3..]);
    QuotePeels(safe, b, Unquote(codes[3..]));
    assert s == ['%', s[1], s[2]] + s[3..];
    if !IsSafe(safe, b as char) {
      SplitsAt(Escape(b), Quote(safe, Unquote(codes[3..])), ['%', s[1], s[2]], s[3..]) by {
        EscapeLength(b);
      }
    }
  }

  lemma EscapeLength(b: Byte)
    ensures |Escape(b)| == 3
  {
  }

  lemma QuotePeels(safe: string, b: Byte, rest: seq<Byte>)
    ensures Quote(safe, [b] + rest) == QuoteByte(safe, b) + Quote(safe, rest)
  {
    assert ([b] + rest)[1..] == rest;
  }

  lemma SplitsAt(a: string, b: string, c: string, d: string)
    requires |a| == |c|
    ensures a + b == c + d <==> a == c && b == d
  {
    if a + b == c + d {
      assert a == (a + b)[..|a|] && c == (c + d)[..|a|];
      assert b == (a + b)[|a|..] && d == (c + d)[|a|..];
    }
  }

  lemma CharacterRequotes(safe: string, s: string)
    requires '%' !in safe && IsAscii(s) && s != "" && !StartsWithEscape(Codes(s))
    ensures Quote(safe, Unquote(Codes(s))) == s
       <==> IsSafe(safe, s[0]) && Quote(safe, Unquote(Codes(s[1..]))) == s[1..]
    ensures !IsSafe(safe, s[0]) && |s| >= 3 && s[0] == '%' ==> !(IsUpperHex(s[1]) && IsUpperHex(s[2]))
  {
    hide ByteOf, Quote, IsSafe;
    var codes := Codes(s);
    var b := codes[0];
    assert codes[1..] == Codes(s[1..]);
    var rest := Quote(safe, Unquote(codes[1..]));
    QuotePeels(safe, b, Unquote(codes[1..]));
    assert s == [s[0]] + s[1..];
    if IsSafe(safe, s[0]) {
      SplitsAt([s[0]], rest, [s[0]], s[1..]);
    } else if Quote(safe, Unquote(codes)) == s {
      EscapeReads(b);
      assert false;
    }
  }

  // ---------------------------------------------------------------- canonical components

  /** The decoded text may be named: not empty, no blank or control character, none of `,()`. */
  predicate Admissible(isBlankOrControl: char -> bool, text: string) {
    && text != ""
    && (forall i | 0 <= i < |text| :: !isBlankOrControl(text[i]) && text[i] !in ",()")
  }

  /** A name: some text without blanks, control characters, commas and parentheses. */
  predicate MayBeNamed(isBlankOrControl: char -> bool, text: string) {
    0 < |text| && forall i | 0 <= i < |text| ::
      var ch := text[i]; ch != ',' && ch != '(' && ch != ')' && !isBlankOrControl(ch)
  }

  lemma AdmissibleExactly(isBlankOrControl: char -> bool, text: string)
    ensures Admissible(isBlankOrControl, text) <==> MayBeNamed(isBlankOrControl, text)
  {
  }

  function DecodedComponent(utf8: Utf8, value: string): Option<string> {
    match utf8.encode(value)
    case None => None
    case Some(bytes) => utf8.decode(Unquote(bytes))
  }

  /** `_is_canonical_urn_component` */
  predicate IsCanonicalComponent(utf8: Utf8, isBlankOrControl: char -> bool, safe: string, value: string) {
    && value != ""
    && DecodedComponent(utf8, value).Some?
    && var decoded := DecodedComponent(utf8, value).value;
       && Admissible(isBlankOrControl, decoded)
       && utf8.encode(decoded).Some?
       && Quote(safe, utf8.encode(decoded).value) == value
  }

  /** The text's bytes, percent-encoded with upper-case digits except for unreserved and safe characters. */
  predicate IsQuoteOf(utf8: Utf8, safe: string, value: string, text: string) {
    utf8.encode(text).Some? && IsSpelledWith(value, utf8.encode(text).value, safe, false, false)
  }

  /** The component decodes to an admissible text and is accepted exactly when it is that text's encoding. */
  lemma AcceptsExactlyEncodings(utf8: Utf8, isBlankOrControl: char -> bool, safe: string, value: string, text: string)
    requires utf8.Strict() && utf8.KeepsAscii() && '%' !in safe
    ensures IsCanonicalComponent(utf8, isBlankOrControl, safe, value) && DecodedComponent(utf8, value) == Some(text)
       <==> MayBeNamed(isBlankOrControl, text) && IsQuoteOf(utf8, safe, value, text)
  {
    hide Utf8.Agrees, MayBeNamed, IsSpelledWith;
    AdmissibleExactly(isBlankOrControl, text);
    if utf8.encode(text).Some? {
      QuotesExactly(safe, utf8.encode(text).value, value);
    }
    if Admissible(isBlankOrControl, text) && IsQuoteOf(utf8, safe, value, text) {
      var bytes := utf8.encode(text).value;
      TextHasBytes(utf8, text);
      UnquoteInvertsQuote(safe, bytes);
      assert utf8.PlainOn(value);
    }
  }

  /** Two accepted components that decode to the same text are the same string. */
  lemma AcceptedIsUnique(utf8: Utf8, isBlankOrControl: char -> bool, safe: string, a: string, b: string)
    requires IsCanonicalComponent(utf8, isBlankOrControl, safe, a)
    requires IsCanonicalComponent(utf8, isBlankOrControl, safe, b)
    ensures DecodedComponent(utf8, a) == DecodedComponent(utf8, b) <==> a == b
  {
  }

  /** What is accepted is text in normal form that decodes to an admissible name. */
  lemma AcceptsExactlyNormalForms(utf8: Utf8, isBlankOrControl: char -> bool, safe: string, value: string)
    requires utf8.Strict() && utf8.KeepsAscii() && '%' !in safe
    ensures IsCanonicalComponent(utf8, isBlankOrControl, safe, value)
       <==> && value != "" && NormalForm(safe, value) && DecodedComponent(utf8, value).Some?
            && Admissible(isBlankOrControl, DecodedComponent(utf8, value).value)
  {
    hide Admissible, NormalForm, Quote, Unquote;
    NormalFormIsAscii(safe, value);
    if IsCanonicalComponent(utf8, isBlankOrControl, safe, value) {
      UnquoteInvertsQuote(safe, utf8.encode(DecodedComponent(utf8, value).value).value);
    }
    if IsAscii(value) && DecodedComponent(utf8, value).Some? {
      assert utf8.PlainOn(value);
      RequotingKeepsNormalForm(safe, value);
      assert utf8.Agrees(Unquote(Codes(value)), DecodedComponent(utf8, value).value);
    }
  }

  lemma {:induction false} NormalFormIsAscii(safe: string, s: string)
    ensures NormalForm(safe, s) ==> IsAscii(s)
    decreases |s|
  {
    hide ByteOf;
    if s == "" || !NormalForm(safe, s) {
    } else if IsSafe(safe, s[0]) {
      NormalFormIsAscii(safe, s[1..]);
      assert forall i | 1 <= i < |s| :: s[i] == s[1..][i - 1];
    } else {
      NormalFormIsAscii(safe, s[3..]);
      assert forall i | 3 <= i < |s| :: s[i] == s[3..][i - 3];
    }
  }

  // ---------------------------------------------------------------- dataset URNs

  datatype DatasetUrn = DatasetUrn(platform: string, dataset: string, environment: string)

  function Render(g: Grammar, urn: DatasetUrn): string {
    g.prefix + urn.platform + "," + urn.dataset + "," + urn.environment + ")"
  }

  predicate IsPlain(s: string) {
    s != "" && forall i | 0 <= i < |s| :: s[i] !in ",()"
  }

  /** `[^,()]*`, as far as it reaches. */
  function Field(s: string): (field: string)
    ensures |field| <= |s|
  {
    if s == "" || s[0] in ",()" then "" else [s[0]] + Field(s[1..])
  }

  /** A nonempty field, the character that must follow it, and what comes after. */
  function TakeField(s: string, delimiter: char): Option<(string, string)> {
    var field := Field(s);
    if field == "" || |field| == |s| || s[|field|] != delimiter then None else Some((field, s[|field| + 1..]))
  }

  /** The groups `_DATASET_URN_PATTERN.fullmatch` captures. */
  function MatchUrn(g: Grammar, value: string): Option<DatasetUrn> {
    if !(g.prefix <= value) then None
    else
      match TakeField(value[|g.prefix|..], ',')
      case None => None
      case Some((platform, afterPlatform)) =>
        match TakeField(afterPlatform, ',')
        case None => None
        case Some((dataset, afterDataset)) =>
          match TakeField(afterDataset, ')')
          case None => None
          case Some((environment, afterEnvironment)) =>
            if afterEnvironment == "" then Some(DatasetUrn(platform, dataset, environment)) else None
  }

  lemma {:induction false} FieldReads(field: string, rest: string)
    requires field == "" || IsPlain(field)
    requires rest != "" && rest[0] in ",()"
    ensures Field(field + rest) == field
  {
    if field == "" {
      assert field + rest == rest;
    } else {
      FieldReads(field[1..], rest);
      assert (field + rest)[1..] == field[1..] + rest;
    }
  }

  lemma {:induction false} FieldIsPlain(s: string)
    ensures Field(s) != "" ==> IsPlain(Field(s))
    ensures s == Field(s) + s[|Field(s)|..]
  {
    if s == "" || s[0] in ",()" {
    } else {
      FieldIsPlain(s[1..]);
    }
  }

  lemma TakesExactly(s: string, delimiter: char, field: string, rest: string)
    requires delimiter in ",()"
    ensures TakeField(s, delimiter) == Some((field, rest)) <==> IsPlain(field) && s == field + [delimiter] + rest
  {
    hide Field;
    FieldIsPlain(s);
    if IsPlain(field) && s == field + [delimiter] + rest {
      assert s == field + ([delimiter] + rest);
      FieldReads(field, [delimiter] + rest);
    }
    if TakeField(s, delimiter).Some? {
      var n := |Field(s)|;
      assert s[n..] == [delimiter] + s[n + 1..];
    }
  }

  predicate PlainFields(urn: DatasetUrn) {
    IsPlain(urn.platform) && IsPlain(urn.dataset) && IsPlain(urn.environment)
  }

  /** The pattern captures three plain fields exactly where the value is their rendering. */
  lemma MatchesExactlyRenderings(g: Grammar, value: string, urn: DatasetUrn)
    ensures MatchUrn(g, value) == Some(urn) <==> PlainFields(urn) && value == Render(g, urn)
  {
    hide IsPlain, TakeField;
    var tail2 := urn.environment + [')'] + "";
    var tail1 := urn.dataset + [','] + tail2;
    var tail0 := urn.platform + [','] + tail1;
    assert Render(g, urn) == g.prefix + tail0;
    if g.prefix <= value {
      var rest := value[|g.prefix|..];
      assert value == g.prefix + rest;
      assert value == g.prefix + tail0 <==> rest == tail0 by {
        assert (g.prefix + tail0)[|g.prefix|..] == tail0;
      }
      TakesExactly(rest, ',', urn.platform, tail1);
      TakesExactly(tail1, ',', urn.dataset, tail2);
      TakesExactly(tail2, ')', urn.environment, "");
      if MatchUrn(g, value) == Some(urn) {
        MatchRenders(g, value);
      }
    }
  }

  lemma MatchRenders(g: Grammar, value: string)
    requires MatchUrn(g, value).Some?
    ensures var urn := MatchUrn(g, value).value; PlainFields(urn) && value == Render(g, urn)
  {
    hide IsPlain, TakeField;
    var rest := value[|g.prefix|..];
    var (platform, afterPlatform) := TakeField(rest, ',').value;
    var (dataset, afterDataset) := TakeField(afterPlatform, ',').value;
    var (environment, afterEnvironment) := TakeField(afterDataset, ')').value;
    TakesExactly(rest, ',', platform, afterPlatform);
    TakesExactly(afterPlatform, ',', dataset, afterDataset);
    TakesExactly(afterDataset, ')', environment, afterEnvironment);
    assert value == g.prefix + rest;
  }

  /** `_is_canonical_dataset_urn` */
  predicate IsCanonicalDatasetUrn(g: Grammar, utf8: Utf8, isBlankOrControl: char -> bool, value: string) {
    && |value| <= MAX_URN_LENGTH
    && MatchUrn(g, value).Some?
    && var urn := MatchUrn(g, value).value;
       && IsCanonicalComponent(utf8, isBlankOrControl, g.platformSafe, urn.platform)
       && IsCanonicalComponent(utf8, isBlankOrControl, g.datasetSafe, urn.dataset)
       && IsCanonicalComponent(utf8, isBlankOrControl, g.environmentSafe, urn.environment)
       && Render(g, urn) == value
  }

  /** The three decoded names of a URN's groups. */
  function DecodedUrn(g: Grammar, utf8: Utf8, value: string): Option<DatasetUrn> {
    match MatchUrn(g, value)
    case None => None
    case Some(urn) =>
      match (DecodedComponent(utf8, urn.platform), DecodedComponent(utf8, urn.dataset),
             DecodedComponent(utf8, urn.environment))
      case (Some(p), Some(d), Some(e)) => Some(DatasetUrn(p, d, e))
      case _ => None
  }

  predicate AdmissibleNames(isBlankOrControl: char -> bool, names: DatasetUrn) {
    && Admissible(isBlankOrControl, names.platform) && Admissible(isBlankOrControl, names.dataset)
    && Admissible(isBlankOrControl, names.environment)
  }

  /** The names percent-encoded, where they can be encoded at all. */
  function EncodedUrn(g: Grammar, utf8: Utf8, names: DatasetUrn): Option<DatasetUrn> {
    match (utf8.encode(names.platform), utf8.encode(names.dataset), utf8.encode(names.environment))
    case (Some(p), Some(d), Some(e)) =>
      Some(DatasetUrn(Quote(g.platformSafe, p), Quote(g.datasetSafe, d), Quote(g.environmentSafe, e)))
    case _ => None
  }

  lemma {:induction false} QuoteIsPlain(safe: string, bytes: seq<Byte>)
    requires bytes != [] && Reserves(safe)
    ensures IsPlain(Quote(safe, bytes))
  {
    hide Escape;
    var s, b := Quote(safe, bytes), bytes[0];
    EscapeIsPlain(b);
    if |bytes| > 1 {
      var rest := Quote(safe, bytes[1..]);
      QuoteIsPlain(safe, bytes[1..]);
      assert s == QuoteByte(safe, b) + rest;
    } else {
      assert bytes[1..] == [] && s == QuoteByte(safe, b);
    }
  }

  lemma EscapeIsPlain(b: Byte)
    ensures |Escape(b)| == 3 && IsPlain(Escape(b))
  {
  }

  /** A dataset URN within the length limit is accepted, and decodes to three names, exactly when it is
    * the rendering of those admissible names percent-encoded. Hence no two spellings of one dataset are
    * both accepted.
    */
  lemma AcceptsExactlyEncodedUrns(g: Grammar, utf8: Utf8, isBlankOrControl: char -> bool, value: string, names: DatasetUrn)
    requires utf8.Strict() && utf8.KeepsAscii() && g.KeepsReserved()
    ensures IsCanonicalDatasetUrn(g, utf8, isBlankOrControl, value) && DecodedUrn(g, utf8, value) == Some(names)
       <==> && |value| <= MAX_URN_LENGTH && AdmissibleNames(isBlankOrControl, names)
            && EncodedUrn(g, utf8, names).Some? && value == Render(g, EncodedUrn(g, utf8, names).value)
  {
    hide MatchUrn, Render, IsCanonicalComponent, DecodedComponent, Admissible, Quote, IsPlain, Utf8.Strict, Utf8.KeepsAscii;
    if MatchUrn(g, value).Some? {
      ComponentsAreEncodings(g, utf8, isBlankOrControl, MatchUrn(g, value).value, names);
      MatchesExactlyRenderings(g, value, MatchUrn(g, value).value);
    }
    if AdmissibleNames(isBlankOrControl, names) && EncodedUrn(g, utf8, names).Some? {
      var urn := EncodedUrn(g, utf8, names).value;
      EncodedIsPlain(g, utf8, isBlankOrControl, names);
      MatchesExactlyRenderings(g, value, urn);
      ComponentsAreEncodings(g, utf8, isBlankOrControl, urn, names);
    }
  }

  lemma ComponentsAreEncodings(g: Grammar, utf8: Utf8, isBlankOrControl: char -> bool, urn: DatasetUrn, names: DatasetUrn)
    requires utf8.Strict() && utf8.KeepsAscii() && g.KeepsReserved()
    ensures (&& IsCanonicalComponent(utf8, isBlankOrControl, g.platformSafe, urn.platform)
             && IsCanonicalComponent(utf8, isBlankOrControl, g.datasetSafe, urn.dataset)
             && IsCanonicalComponent(utf8, isBlankOrControl, g.environmentSafe, urn.environment)
             && DecodedComponent(utf8, urn.platform) == Some(names.platform)
             && DecodedComponent(utf8, urn.dataset) == Some(names.dataset)
             && DecodedComponent(utf8, urn.environment) == Some(names.environment))
       <==> AdmissibleNames(isBlankOrControl, names) && EncodedUrn(g, utf8, names) == Some(urn)
  {
    hide IsCanonicalComponent, DecodedComponent, Admissible, Quote, Utf8.Strict, Utf8.KeepsAscii;
    NameIsQuoted(utf8, isBlankOrControl, g.platformSafe, urn.platform, names.platform);
    NameIsQuoted(utf8, isBlankOrControl, g.datasetSafe, urn.dataset, names.dataset);
    NameIsQuoted(utf8, isBlankOrControl, g.environmentSafe, urn.environment, names.environment);
  }

  lemma NameIsQuoted(utf8: Utf8, isBlankOrControl: char -> bool, safe: string, value: string, name: string)
    requires utf8.Strict() && utf8.KeepsAscii() && '%' !in safe
    ensures IsCanonicalComponent(utf8, isBlankOrControl, safe, value) && DecodedComponent(utf8, value) == Some(name)
       <==> && Admissible(isBlankOrControl, name) && utf8.encode(name).Some?
            && value == Quote(safe, utf8.encode(name).value)
  {
    hide IsCanonicalComponent, DecodedComponent, Admissible, MayBeNamed, Quote, IsSpelledWith, Utf8.Strict, Utf8.KeepsAscii;
    AcceptsExactlyEncodings(utf8, isBlankOrControl, safe, value, name);
    AdmissibleExactly(isBlankOrControl, name);
    if utf8.encode(name).Some? {
      QuotesExactly(safe, utf8.encode(name).value, value);
    }
  }

  lemma EncodedIsPlain(g: Grammar, utf8: Utf8, isBlankOrControl: char -> bool, names: DatasetUrn)
    requires utf8.Strict() && g.KeepsReserved() && AdmissibleNames(isBlankOrControl, names) && EncodedUrn(g, utf8, names).Some?
    ensures var urn := EncodedUrn(g, utf8, names).value;
            PlainFields(urn)
  {
    hide IsPlain, Quote, Utf8.Strict;
    TextHasBytes(utf8, names.platform);
    TextHasBytes(utf8, names.dataset);
    TextHasBytes(utf8, names.environment);
    QuoteIsPlain(g.platformSafe, utf8.encode(names.platform).value);
    QuoteIsPlain(g.datasetSafe, utf8.encode(names.dataset).value);
    QuoteIsPlain(g.environmentSafe, utf8.encode(names.environment).value);
  }

  // ---------------------------------------------------------------- dataset URNs, written out

  predicate IsKept(kept: string, b: int)
    requires 0 <= b < 128
  {
    IsUnreserved(b) || b as char in kept
  }

  lemma {:induction false} SameKeptSameSpelling(s: string, bytes: seq<Byte>, kept: string, other: string)
    requires forall b | 0 <= b < 128 :: IsKept(kept, b) <==> IsKept(other, b)
    ensures IsSpelledWith(s, bytes, kept, false, false) <==> IsSpelledWith(s, bytes, other, false, false)
    decreases |bytes|
  {
    if bytes != [] {
      hide IsUnreserved, IsDigit;
      if bytes[0] < 128 {
        assert IsKept(kept, bytes[0]) <==> IsKept(other, bytes[0]);
      }
      if s != "" {
        SameKeptSameSpelling(s[1..], bytes[1..], kept, other);
      }
      if |s| >= 3 {
        SameKeptSameSpelling(s[3..], bytes[1..], kept, other);
      }
    }
  }

  lemma AlphanumericIsUnreserved(b: int)
    requires 0 <= b < 128 && b as char in ALPHANUMERIC
    ensures IsUnreserved(b)
  {
    var i :| 0 <= i < |ALPHANUMERIC| && ALPHANUMERIC[i] == b as char;
  }

  /** Beyond the unreserved characters the platform and the environment keep none, the dataset `:`, `/` and `+`. */
  lemma GrammarKeeps(b: int)
    requires 0 <= b < 128
    ensures IsKept(DATASET_GRAMMAR.platformSafe, b) <==> IsKept("", b)
    ensures IsKept(DATASET_GRAMMAR.datasetSafe, b) <==> IsKept(":/+", b)
    ensures IsKept(DATASET_GRAMMAR.environmentSafe, b) <==> IsKept("", b)
  {
    if b as char in ALPHANUMERIC {
      AlphanumericIsUnreserved(b);
    }
    assert b as char in DATASET_GRAMMAR.datasetSafe <==> b as char in ALPHANUMERIC || b as char in "._:/+~-";
    assert b as char in DATASET_GRAMMAR.platformSafe <==> b as char in ALPHANUMERIC || b as char in "._-";
  }

  /** The three fields spell the names: all but the unreserved characters escaped in upper case, and in the dataset
    * also `:`, `/` and `+` left alone.
    */
  predicate SpellsNames(utf8: Utf8, urn: DatasetUrn, names: DatasetUrn) {
    && utf8.encode(names.platform).Some? && utf8.encode(names.dataset).Some? && utf8.encode(names.environment).Some?
    && IsSpelledWith(urn.platform, utf8.encode(names.platform).value, "", false, false)
    && IsSpelledWith(urn.dataset, utf8.encode(names.dataset).value, ":/+", false, false)
    && IsSpelledWith(urn.environment, utf8.encode(names.environment).value, "", false, false)
  }

  lemma SpellsNamesExactly(utf8: Utf8, urn: DatasetUrn, names: DatasetUrn)
    ensures EncodedUrn(DATASET_GRAMMAR, utf8, names) == Some(urn) <==> SpellsNames(utf8, urn, names)
  {
    hide IsSpelledWith, Quote, IsKept;
    forall b | 0 <= b < 128
      ensures IsKept(DATASET_GRAMMAR.platformSafe, b) <==> IsKept("", b)
      ensures IsKept(DATASET_GRAMMAR.datasetSafe, b) <==> IsKept(":/+", b)
      ensures IsKept(DATASET_GRAMMAR.environmentSafe, b) <==> IsKept("", b)
    {
      GrammarKeeps(b);
    }
    match (utf8.encode(names.platform), utf8.encode(names.dataset), utf8.encode(names.environment))
    case (Some(p), Some(d), Some(e)) =>
      QuotesExactly(DATASET_GRAMMAR.platformSafe, p, urn.platform);
      QuotesExactly(DATASET_GRAMMAR.datasetSafe, d, urn.dataset);
      QuotesExactly(DATASET_GRAMMAR.environmentSafe, e, urn.environment);
      SameKeptSameSpelling(urn.platform, p, DATASET_GRAMMAR.platformSafe, "");
      SameKeptSameSpelling(urn.dataset, d, DATASET_GRAMMAR.datasetSafe, ":/+");
      SameKeptSameSpelling(urn.environment, e, DATASET_GRAMMAR.environmentSafe, "");
    case _ =>
  }

  /** A dataset URN is accepted with these three names exactly when they may be names and it is this text. */
  lemma DatasetUrnsAreExact(utf8: Utf8, isBlankOrControl: char -> bool, value: string, names: DatasetUrn)
    requires utf8.Strict() && utf8.KeepsAscii()
    ensures IsCanonicalDatasetUrn(DATASET_GRAMMAR, utf8, isBlankOrControl, value)
            && DecodedUrn(DATASET_GRAMMAR, utf8, value) == Some(names)
       <==> && |value| < 2049
            && MayBeNamed(isBlankOrControl, names.platform) && MayBeNamed(isBlankOrControl, names.dataset)
            && MayBeNamed(isBlankOrControl, names.environment)
            && exists urn :: SpellsNames(utf8, urn, names)
                 && value == "urn:li:dataset:(urn:li:dataPlatform:" + urn.platform + "," + urn.dataset + "," + urn.environment + ")"
  {
    hide IsCanonicalDatasetUrn, DecodedUrn, EncodedUrn, SpellsNames, MayBeNamed, Admissible, Utf8.Strict, Utf8.KeepsAscii;
    GrammarKeepsReserved();
    AcceptsExactlyEncodedUrns(DATASET_GRAMMAR, utf8, isBlankOrControl, value, names);
    AdmissibleExactly(isBlankOrControl, names.platform);
    AdmissibleExactly(isBlankOrControl, names.dataset);
    AdmissibleExactly(isBlankOrControl, names.environment);
    forall urn ensures EncodedUrn(DATASET_GRAMMAR, utf8, names) == Some(urn) <==> SpellsNames(utf8, urn, names) {
      SpellsNamesExactly(utf8, urn, names);
    }
    if EncodedUrn(DATASET_GRAMMAR, utf8, names).Some? {
      assert SpellsNames(utf8, EncodedUrn(DATASET_GRAMMAR, utf8, names).value, names);
    }
  }
}
