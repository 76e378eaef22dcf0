/** Base64 spellings as the secret guard of `agent/datahub_discovery.py` enumerates them
  * (RFC 4648, sections 3.5, 4 and 5).
  *
  * `Encode` is the standard encoder. `Decode` is an independent decoder that accepts text that is
  * fully padded or wholly unpadded and ignores the pad bits; the theorem of this module is that the
  * guard's set of variants is exactly what that decoder maps to the given bytes.
  */
module Base64 {
  import opened Foundations

  type Sextet = v: int | 0 <= v < 64

  // ---------------------------------------------------------------- alphabets

  function Letter(urlsafe: bool, v: Sextet): char {
    if v < 26 then 'A' + v as char
    else if v < 52 then 'a' + (v - 26) as char
    else if v < 62 then '0' + (v - 52) as char
    else if v == 62 then (if urlsafe then '-' else '+')
    else (if urlsafe then '_' else '/')
  }

  /** `alphabet.index`, for letters of the alphabet. */
  function Value(urlsafe: bool, ch: char): Option<Sextet> {
    if 'A' <= ch <= 'Z' then Some((ch - 'A') as int)
    else if 'a' <= ch <= 'z' then Some((ch - 'a') as int + 26)
    else if '0' <= ch <= '9' then Some((ch - '0') as int + 52)
    else if ch == (if urlsafe then '-' else '+') then Some(62)
    else if ch == (if urlsafe then '_' else '/') then Some(63)
    else None
  }

  lemma LetterHasValue(urlsafe: bool, v: Sextet)
    ensures Value(urlsafe, Letter(urlsafe, v)) == Some(v) && Letter(urlsafe, v) != '='
  {
  }

  lemma ValueHasLetter(urlsafe: bool, ch: char)
    ensures Value(urlsafe, ch).Some? ==> Letter(urlsafe, Value(urlsafe, ch).value) == ch && ch != '='
  {
  }

  function Letters(urlsafe: bool, vs: seq<Sextet>): (s: string)
    ensures |s| == |vs|
    ensures forall i | 0 <= i < |vs| :: s[i] == Letter(urlsafe, vs[i])
  {
    seq(|vs|, i requires 0 <= i < |vs| => Letter(urlsafe, vs[i]))
  }

  predicate InAlphabet(urlsafe: bool, s: string) {
    forall i | 0 <= i < |s| :: Value(urlsafe, s[i]).Some?
  }

  function Values(urlsafe: bool, s: string): (vs: seq<Sextet>)
    requires InAlphabet(urlsafe, s)
    ensures |vs| == |s|
    ensures forall i | 0 <= i < |s| :: vs[i] == Value(urlsafe, s[i]).value
  {
    seq(|s|, i requires 0 <= i < |s| => Value(urlsafe, s[i]).value)
  }

  lemma LettersHaveValues(urlsafe: bool, vs: seq<Sextet>)
    ensures InAlphabet(urlsafe, Letters(urlsafe, vs)) && Values(urlsafe, Letters(urlsafe, vs)) == vs
    ensures forall i | 0 <= i < |vs| :: Letters(urlsafe, vs)[i] != '='
  {
    hide Letter, Value;
    forall i | 0 <= i < |vs| {
      LetterHasValue(urlsafe, vs[i]);
    }
  }

  lemma ValuesHaveLetters(urlsafe: bool, s: string)
    requires InAlphabet(urlsafe, s)
    ensures Letters(urlsafe, Values(urlsafe, s)) == s
  {
    hide Letter, Value;
    forall i | 0 <= i < |s| {
      ValueHasLetter(urlsafe, s[i]);
    }
  }

  // ---------------------------------------------------------------- encoder and decoder

  /** The four sextets of three octets, and the octets of four sextets. */
  function Sextet0(a: Byte): Sextet { a / 4 }
  function Sextet1(a: Byte, b: Byte): Sextet { a % 4 * 16 + b / 16 }
  function Sextet2(b: Byte, c: Byte): Sextet { b % 16 * 4 + c / 64 }
  function Sextet3(c: Byte): Sextet { c % 64 }

  function Octet0(v0: Sextet, v1: Sextet): Byte { v0 * 4 + v1 / 16 }
  function Octet1(v1: Sextet, v2: Sextet): Byte { v1 % 16 * 16 + v2 / 4 }
  function Octet2(v2: Sextet, v3: Sextet): Byte { v2 % 4 * 64 + v3 }

  function Quad(a: Byte, b: Byte, c: Byte): seq<Sextet> {
    [Sextet0(a), Sextet1(a, b), Sextet2(b, c), Sextet3(c)]
  }

  function Sextets(bytes: seq<Byte>): seq<Sextet> {
    if bytes == [] then []
    else if |bytes| == 1 then [Sextet0(bytes[0]), Sextet1(bytes[0], 0)]
    else if |bytes| == 2 then [Sextet0(bytes[0]), Sextet1(bytes[0], bytes[1]), Sextet2(bytes[1], 0)]
    else Quad(bytes[0], bytes[1], bytes[2]) + Sextets(bytes[3..])
  }

  function Padding(bytes: seq<Byte>): string {
    if |bytes| % 3 == 0 then "" else if |bytes| % 3 == 1 then "==" else "="
  }

  function Encode(urlsafe: bool, bytes: seq<Byte>): string {
    Letters(urlsafe, Sextets(bytes)) + Padding(bytes)
  }

  /** The octets the sextets complete; unused low bits of the last sextet are ignored. */
  function DecodeSextets(vs: seq<Sextet>): Option<seq<Byte>> {
    if vs == [] then Some([])
    else if |vs| == 1 then None
    else if |vs| == 2 then Some([Octet0(vs[0], vs[1])])
    else if |vs| == 3 then Some([Octet0(vs[0], vs[1]), Octet1(vs[1], vs[2])])
    else
      match DecodeSextets(vs[4..])
      case None => None
      case Some(rest) => Some([Octet0(vs[0], vs[1]), Octet1(vs[1], vs[2]), Octet2(vs[2], vs[3])] + rest)
  }

  /** `rstrip("=")` */
  function TrimPadding(s: string): (body: string) {
    if s != "" && s[|s| - 1] == '=' then TrimPadding(s[..|s| - 1]) else s
  }

  function Equals(n: nat): (s: string)
    ensures |s| == n
    ensures forall i | 0 <= i < n :: s[i] == '='
  {
    seq(n, i => '=')
  }

  lemma {:induction false} TrimPaddingSplits(s: string)
    ensures |TrimPadding(s)| <= |s|
    ensures s == TrimPadding(s) + Equals(|s| - |TrimPadding(s)|)
    decreases |s|
  {
    if s != "" && s[|s| - 1] == '=' {
      TrimPaddingSplits(s[..|s| - 1]);
    }
  }

  lemma {:induction false} TrimPaddingRemoves(body: string, n: nat)
    requires body == "" || body[|body| - 1] != '='
    ensures TrimPadding(body + Equals(n)) == body
  {
    var s := body + Equals(n);
    if n == 0 {
      assert s == body;
    } else {
      assert s[..|s| - 1] == body + Equals(n - 1);
      TrimPaddingRemoves(body, n - 1);
    }
  }

  /** Fully padded or wholly unpadded text. */
  predicate WellPadded(s: string) {
    var padding := |s| - |TrimPadding(s)|;
    padding == 0 || (padding <= 2 && |s| % 4 == 0)
  }

  function Decode(urlsafe: bool, s: string): Option<seq<Byte>> {
    var body := TrimPadding(s);
    if WellPadded(s) && InAlphabet(urlsafe, body) then DecodeSextets(Values(urlsafe, body)) else None
  }

  // ---------------------------------------------------------------- the guard's variants

  /** The position of the letter whose low bits are unused, from the end of the canonical spelling. */
  function DataOffset(bytes: seq<Byte>): int {
    if |bytes| % 3 == 1 then 3 else 2
  }

  /** How many values the unused bits of the last letter can have. */
  function UnusedValues(bytes: seq<Byte>): int {
    if |bytes| % 3 == 0 then 1 else if |bytes| % 3 == 1 then 16 else 4
  }

  function Last(vs: seq<Sextet>): Sextet
    requires vs != []
  {
    vs[|vs| - 1]
  }

  lemma {:induction false} SextetsShape(bytes: seq<Byte>)
    requires bytes != []
    ensures |Sextets(bytes)| == |bytes| / 3 * 4 + |bytes| % 3 + if |bytes| % 3 == 0 then 0 else 1
    ensures Last(Sextets(bytes)) % UnusedValues(bytes) == 0
  {
    if |bytes| > 3 {
      SextetsShape(bytes[3..]);
    }
  }

  /** `prefix + alphabet[meaningful_bits | unused_bits] + suffix`, where `meaningful_bits` is the index of
    * the data letter with its `n` unused values masked out.
    */
  function WithUnusedBits(urlsafe: bool, canonical: string, i: int, n: int, unused: int): string {
    if 0 <= i < |canonical| && Value(urlsafe, canonical[i]).Some? && 0 <= unused < n && (n == 16 || n == 4) then
      var index := Value(urlsafe, canonical[i]).value;
      canonical[..i] + [Letter(urlsafe, index - index % n + unused)] + canonical[i + 1..]
    else canonical
  }

  function VariantsUpTo(urlsafe: bool, bytes: seq<Byte>, n: nat): set<string> {
    var canonical := Encode(urlsafe, bytes);
    var i := |canonical| - DataOffset(bytes);
    {canonical, TrimPadding(canonical)}
    + (set u | 0 <= u < n :: WithUnusedBits(urlsafe, canonical, i, UnusedValues(bytes), u))
    + (set u | 0 <= u < n :: TrimPadding(WithUnusedBits(urlsafe, canonical, i, UnusedValues(bytes), u)))
  }

  /** The set `_base64_equivalent_variants` returns. */
  function Variants(urlsafe: bool, bytes: seq<Byte>): set<string> {
    if bytes == [] then {}
    else VariantsUpTo(urlsafe, bytes, if |bytes| % 3 == 0 then 0 else UnusedValues(bytes))
  }

  method EquivalentVariants(urlsafe: bool, bytes: seq<Byte>) returns (variants: set<string>)
    ensures variants == Variants(urlsafe, bytes)
  {
    hide Encode, TrimPadding, WithUnusedBits;
    if bytes == [] {
      return {};
    }
    var canonical := Encode(urlsafe, bytes);
    variants := {canonical, TrimPadding(canonical)};
    if |bytes| % 3 == 0 {
      assert variants == VariantsUpTo(urlsafe, bytes, 0);
      return;
    }
    var i, n := |canonical| - DataOffset(bytes), UnusedValues(bytes);
    for unused := 0 to n
      invariant variants == VariantsUpTo(urlsafe, bytes, unused)
    {
      var variant := WithUnusedBits(urlsafe, canonical, i, n, unused);
      variants := variants + {variant} + {TrimPadding(variant)};
    }
  }

  // ---------------------------------------------------------------- spellings

  /** The sextets of the bytes, up to the unused bits of the last sextet. */
  predicate Spells(vs: seq<Sextet>, bytes: seq<Byte>) {
    if bytes == [] then vs == []
    else if |bytes| == 1 then
      |vs| == 2 && vs[0] == Sextet0(bytes[0]) && vs[1] / 16 == bytes[0] % 4
    else if |bytes| == 2 then
      && |vs| == 3 && vs[0] == Sextet0(bytes[0]) && vs[1] == Sextet1(bytes[0], bytes[1])
      && vs[2] / 4 == bytes[1] % 16
    else
      && |vs| >= 4
      && vs[0] == Sextet0(bytes[0]) && vs[1] == Sextet1(bytes[0], bytes[1])
      && vs[2] == Sextet2(bytes[1], bytes[2]) && vs[3] == Sextet3(bytes[2])
      && Spells(vs[4..], bytes[3..])
  }

  /** Each octet fixes the high bits of one sextet and the low bits of the next. */
  lemma OctetsSplit(v0: Sextet, v1: Sextet, a: Byte)
    ensures a == Octet0(v0, v1) <==> v0 == Sextet0(a) && v1 / 16 == a % 4
    ensures a == Octet1(v0, v1) <==> v0 % 16 == a / 16 && v1 / 4 == a % 16
    ensures a == Octet2(v0, v1) <==> v0 % 4 == a / 64 && v1 == Sextet3(a)
  {
  }

  lemma SextetsJoin(v: Sextet, a: Byte, b: Byte)
    ensures v == Sextet1(a, b) <==> v / 16 == a % 4 && v % 16 == b / 16
    ensures v == Sextet2(a, b) <==> v / 4 == a % 16 && v % 4 == b / 64
  {
  }

  lemma QuadIsThreeBytes(v0: Sextet, v1: Sextet, v2: Sextet, v3: Sextet, a: Byte, b: Byte, c: Byte)
    ensures a == Octet0(v0, v1) && b == Octet1(v1, v2) && c == Octet2(v2, v3)
       <==> v0 == Sextet0(a) && v1 == Sextet1(a, b) && v2 == Sextet2(b, c) && v3 == Sextet3(c)
  {
    hide Sextet0, Sextet1, Sextet2, Sextet3, Octet0, Octet1, Octet2;
    OctetsSplit(v0, v1, a);
    OctetsSplit(v1, v2, b);
    OctetsSplit(v2, v3, c);
    SextetsJoin(v1, a, b);
    SextetsJoin(v2, b, c);
  }

  lemma TripleIsTwoBytes(v0: Sextet, v1: Sextet, v2: Sextet, a: Byte, b: Byte)
    ensures a == Octet0(v0, v1) && b == Octet1(v1, v2)
       <==> v0 == Sextet0(a) && v1 == Sextet1(a, b) && v2 / 4 == b % 16
  {
    hide Sextet0, Sextet1, Sextet2, Sextet3, Octet0, Octet1, Octet2;
    OctetsSplit(v0, v1, a);
    OctetsSplit(v1, v2, b);
    SextetsJoin(v1, a, b);
  }

  /** Sextets decode to given bytes exactly when they spell them. */
  lemma {:induction false} DecodesExactlySpellings(vs: seq<Sextet>, bytes: seq<Byte>)
    ensures DecodeSextets(vs) == Some(bytes) <==> Spells(vs, bytes)
  {
    hide Sextet0, Sextet1, Sextet2, Sextet3, Octet0, Octet1, Octet2;
    if |vs| == 2 && |bytes| == 1 {
      OctetsSplit(vs[0], vs[1], bytes[0]);
      assert bytes == [bytes[0]];
    } else if |vs| == 3 && |bytes| == 2 {
      TripleIsTwoBytes(vs[0], vs[1], vs[2], bytes[0], bytes[1]);
      assert bytes == [bytes[0], bytes[1]];
    } else if |vs| >= 4 && |bytes| >= 3 {
      QuadIsThreeBytes(vs[0], vs[1], vs[2], vs[3], bytes[0], bytes[1], bytes[2]);
      DecodesExactlySpellings(vs[4..], bytes[3..]);
      DecodePeels(vs, bytes);
    }
  }

  lemma DecodePeels(vs: seq<Sextet>, bytes: seq<Byte>)
    requires |vs| >= 4 && |bytes| >= 3
    ensures DecodeSextets(vs) == Some(bytes)
       <==> && bytes[0] == Octet0(vs[0], vs[1]) && bytes[1] == Octet1(vs[1], vs[2])
            && bytes[2] == Octet2(vs[2], vs[3]) && DecodeSextets(vs[4..]) == Some(bytes[3..])
  {
    hide Octet0, Octet1, Octet2;
    var decoded := DecodeSextets(vs);
    assert bytes == [bytes[0], bytes[1], bytes[2]] + bytes[3..];
    if decoded.Some? {
      assert decoded.value[3..] == DecodeSextets(vs[4..]).value;
    }
  }

  /** The same sextets but for the last, which exceeds by less than `n`: its low bits are free. */
  predicate VariesLowBits(vs: seq<Sextet>, exact: seq<Sextet>, n: int) {
    && |vs| == |exact| > 0
    && vs[..|vs| - 1] == exact[..|vs| - 1]
    && Last(exact) <= Last(vs) < Last(exact) + n
  }

  /** The spellings of nonempty bytes are the exact sextets with any low bits. */
  lemma {:induction false} SpellingsVaryLowBits(vs: seq<Sextet>, bytes: seq<Byte>)
    requires bytes != []
    ensures Spells(vs, bytes) <==> VariesLowBits(vs, Sextets(bytes), UnusedValues(bytes))
  {
    hide VariesLowBits, Sextet0, Sextet1, Sextet2, Sextet3;
    if |bytes| <= 3 {
      ShortSpellingsVary(vs, bytes);
    } else if |vs| > 4 {
      var quad, rest := Quad(bytes[0], bytes[1], bytes[2]), bytes[3..];
      SpellsPeels(vs, bytes);
      SpellingsVaryLowBits(vs[4..], rest);
      SextetsShape(rest);
      assert |rest| % 3 == |bytes| % 3;
      VariationPeels(vs, quad, Sextets(rest), UnusedValues(bytes));
    } else {
      ShortTextSpellsLittle(vs, bytes);
    }
  }

  lemma SpellsPeels(vs: seq<Sextet>, bytes: seq<Byte>)
    requires |bytes| > 3 && |vs| >= 4
    ensures Spells(vs, bytes)
       <==> vs[..4] == Quad(bytes[0], bytes[1], bytes[2]) && Spells(vs[4..], bytes[3..])
  {
    hide Sextet0, Sextet1, Sextet2, Sextet3;
    var start := vs[..4];
    assert start == [vs[0], vs[1], vs[2], vs[3]];
  }

  lemma ShortTextSpellsLittle(vs: seq<Sextet>, bytes: seq<Byte>)
    requires |bytes| > 3 && |vs| <= 4
    ensures !Spells(vs, bytes) && !VariesLowBits(vs, Sextets(bytes), UnusedValues(bytes))
  {
    hide Sextet0, Sextet1, Sextet2, Sextet3;
    SextetsShape(bytes);
  }

  lemma VariationPeels(vs: seq<Sextet>, quad: seq<Sextet>, rest: seq<Sextet>, n: int)
    requires |quad| == 4 && |vs| > 4 && |rest| > 0
    ensures VariesLowBits(vs, quad + rest, n)
       <==> vs[..4] == quad && VariesLowBits(vs[4..], rest, n)
  {
    var exact, k := quad + rest, |vs| - 1;
    if |vs| == |exact| {
      var front := exact[..k];
      assert vs[..k] == vs[..4] + vs[4..][..k - 4];
      assert front == quad + rest[..k - 4];
      assert front[..4] == quad && front[4..] == rest[..k - 4];
      assert vs[..k][..4] == vs[..4] && vs[..k][4..] == vs[4..][..k - 4];
    }
  }

  lemma ShortSpellingsVary(vs: seq<Sextet>, bytes: seq<Byte>)
    requires 1 <= |bytes| <= 3
    ensures Spells(vs, bytes) <==> VariesLowBits(vs, Sextets(bytes), UnusedValues(bytes))
  {
    if |bytes| == 3 {
      assert bytes[3..] == [] && Sextets(bytes) == Quad(bytes[0], bytes[1], bytes[2]);
      if |vs| >= 4 {
        assert vs[4..] == [] <==> |vs| == 4;
      }
    }
    if |vs| == |Sextets(bytes)| {
      var k := |vs| - 1;
      assert forall i | 0 <= i < k :: vs[..k][i] == vs[i] && Sextets(bytes)[..k][i] == Sextets(bytes)[i];
    }
  }

  // ---------------------------------------------------------------- the set is exact

  lemma LettersTrim(urlsafe: bool, vs: seq<Sextet>, n: nat)
    requires vs != []
    ensures TrimPadding(Letters(urlsafe, vs) + Equals(n)) == Letters(urlsafe, vs)
  {
    LettersHaveValues(urlsafe, vs);
    TrimPaddingRemoves(Letters(urlsafe, vs), n);
  }

  function PaddingLength(bytes: seq<Byte>): nat {
    if |bytes| % 3 == 0 then 0 else 3 - |bytes| % 3
  }

  /** The letters of the sextets, fully padded for these bytes or bare. */
  predicate Writes(urlsafe: bool, s: string, vs: seq<Sextet>, bytes: seq<Byte>) {
    s == Letters(urlsafe, vs) || s == Letters(urlsafe, vs) + Equals(PaddingLength(bytes))
  }

  lemma SpellingLength(vs: seq<Sextet>, bytes: seq<Byte>)
    requires bytes != [] && Spells(vs, bytes)
    ensures vs != [] && |vs| % 4 != 1 && (|vs| + PaddingLength(bytes)) % 4 == 0
    ensures PaddingLength(bytes) == 0 <==> |vs| % 4 == 0
  {
    hide Spells, Sextets;
    SpellingsVaryLowBits(vs, bytes);
    SextetsShape(bytes);
    SextetCount(|bytes| / 3, |bytes| % 3);
  }

  lemma SextetCount(q: nat, r: nat)
    requires r < 3 && q + r > 0
    ensures var n, padding := q * 4 + r + (if r == 0 then 0 else 1), if r == 0 then 0 else 3 - r;
            n > 0 && n % 4 != 1 && (n + padding) % 4 == 0 && (padding == 0 <==> n % 4 == 0)
  {
  }

  /** What decodes to the bytes writes a spelling of them, padded or bare ... */
  lemma DecodableWrites(urlsafe: bool, s: string, bytes: seq<Byte>)
    requires bytes != [] && Decode(urlsafe, s) == Some(bytes)
    ensures var vs := Values(urlsafe, TrimPadding(s));
            Spells(vs, bytes) && Writes(urlsafe, s, vs, bytes)
  {
    hide Letter, Value, Spells, DecodeSextets, TrimPadding;
    var body := TrimPadding(s);
    var vs := Values(urlsafe, body);
    TrimPaddingSplits(s);
    ValuesHaveLetters(urlsafe, body);
    DecodesExactlySpellings(vs, bytes);
    SpellingLength(vs, bytes);
    PaddingIsForced(|s| - |body|, |vs|, PaddingLength(bytes));
    assert body + Equals(0) == body;
  }

  lemma PaddingIsForced(written: int, n: nat, padding: nat)
    requires 0 <= written <= 2 && padding <= 2 && (n + padding) % 4 == 0
    requires written == 0 || (n + written) % 4 == 0
    ensures written == 0 || written == padding
  {
  }

  /** ... and what writes a spelling decodes to the bytes. */
  lemma WrittenDecodes(urlsafe: bool, s: string, vs: seq<Sextet>, bytes: seq<Byte>)
    requires bytes != [] && Spells(vs, bytes) && Writes(urlsafe, s, vs, bytes)
    ensures Decode(urlsafe, s) == Some(bytes)
  {
    hide Letter, Value, Spells, DecodeSextets, TrimPadding;
    SpellingLength(vs, bytes);
    LettersHaveValues(urlsafe, vs);
    assert Letters(urlsafe, vs) + Equals(0) == Letters(urlsafe, vs);
    LettersTrim(urlsafe, vs, |s| - |vs|);
    DecodesExactlySpellings(vs, bytes);
  }

  /** The exact sextets with `unused` in the unused bits. */
  function Spelling(bytes: seq<Byte>, unused: int): (vs: seq<Sextet>)
    requires bytes != [] && 0 <= unused < UnusedValues(bytes)
  {
    SextetsShape(bytes);
    var exact := Sextets(bytes);
    exact[..|exact| - 1] + [WithLowBits(Last(exact), unused, UnusedValues(bytes))]
  }

  function WithLowBits(v: Sextet, unused: int, n: int): Sextet
    requires (n == 1 || n == 4 || n == 16) && 0 <= unused < n && v % n == 0
  {
    v + unused
  }

  lemma SpellingSpells(bytes: seq<Byte>, unused: int)
    requires bytes != [] && 0 <= unused < UnusedValues(bytes)
    ensures Spells(Spelling(bytes, unused), bytes)
  {
    hide Spells, Sextets;
    SextetsShape(bytes);
    SpellingsVaryLowBits(Spelling(bytes, unused), bytes);
  }

  lemma SpelledByUnusedBits(vs: seq<Sextet>, bytes: seq<Byte>)
    requires bytes != [] && Spells(vs, bytes)
    ensures var unused := Last(vs) - Last(Sextets(bytes));
            0 <= unused < UnusedValues(bytes) && vs == Spelling(bytes, unused)
  {
    hide Spells, Sextets;
    SextetsShape(bytes);
    SpellingsVaryLowBits(vs, bytes);
    assert vs == vs[..|vs| - 1] + [Last(vs)];
  }

  /** A variant is the padded writing of the spelling with the same unused bits. */
  lemma VariantIsSpelling(urlsafe: bool, bytes: seq<Byte>, unused: int)
    requires bytes != [] && |bytes| % 3 != 0 && 0 <= unused < UnusedValues(bytes)
    ensures WithUnusedBits(urlsafe, Encode(urlsafe, bytes), |Encode(urlsafe, bytes)| - DataOffset(bytes),
                           UnusedValues(bytes), unused)
         == Letters(urlsafe, Spelling(bytes, unused)) + Padding(bytes)
  {
    hide Letter, Value, Sextets;
    SextetsShape(bytes);
    var exact, canonical := Sextets(bytes), Encode(urlsafe, bytes);
    var last, vs := Last(exact), Spelling(bytes, unused);
    LetterHasValue(urlsafe, last);
    LastLetterReplaced(urlsafe, exact, Last(vs), Padding(bytes));
    assert vs == exact[..|exact| - 1] + [Last(vs)];
  }

  lemma LastLetterReplaced(urlsafe: bool, exact: seq<Sextet>, v: Sextet, padding: string)
    requires exact != []
    ensures var i, s := |exact| - 1, Letters(urlsafe, exact) + padding;
            && s[i] == Letter(urlsafe, Last(exact))
            && s[..i] + [Letter(urlsafe, v)] + s[i + 1..] == Letters(urlsafe, exact[..i] + [v]) + padding
  {
    hide Letter;
    var i, s := |exact| - 1, Letters(urlsafe, exact) + padding;
    var letters := Letters(urlsafe, exact[..i] + [v]);
    assert s[i + 1..] == padding;
    assert letters[i] == Letter(urlsafe, v);
    assert forall j | 0 <= j < i :: letters[j] == s[j];
    assert letters == s[..i] + [Letter(urlsafe, v)];
  }

  lemma TrimmedVariant(urlsafe: bool, bytes: seq<Byte>, unused: int)
    requires bytes != [] && 0 <= unused < UnusedValues(bytes)
    ensures TrimPadding(Letters(urlsafe, Spelling(bytes, unused)) + Padding(bytes))
         == Letters(urlsafe, Spelling(bytes, unused))
    ensures Padding(bytes) == Equals(PaddingLength(bytes))
  {
    hide Letter, Sextets;
    assert Padding(bytes) == Equals(PaddingLength(bytes));
    LettersTrim(urlsafe, Spelling(bytes, unused), PaddingLength(bytes));
  }

  /** The canonical spelling has no unused bit set. */
  lemma CanonicalIsSpelling(urlsafe: bool, bytes: seq<Byte>)
    requires bytes != []
    ensures Encode(urlsafe, bytes) == Letters(urlsafe, Spelling(bytes, 0)) + Padding(bytes)
  {
    hide Letter, Sextets;
    SextetsShape(bytes);
    assert Spelling(bytes, 0) == Sextets(bytes);
  }

  lemma SpellingIsVariant(urlsafe: bool, bytes: seq<Byte>, unused: int, s: string)
    requires bytes != [] && 0 <= unused < UnusedValues(bytes)
    requires Writes(urlsafe, s, Spelling(bytes, unused), bytes)
    ensures s in Variants(urlsafe, bytes)
  {
    hide Spelling, Encode, WithUnusedBits, TrimPadding;
    TrimmedVariant(urlsafe, bytes, unused);
    CanonicalIsSpelling(urlsafe, bytes);
    if |bytes| % 3 != 0 {
      VariantIsSpelling(urlsafe, bytes, unused);
    }
  }

  lemma VariantDecodes(urlsafe: bool, bytes: seq<Byte>, unused: int, s: string)
    requires bytes != [] && 0 <= unused < UnusedValues(bytes)
    requires var padded := Letters(urlsafe, Spelling(bytes, unused)) + Padding(bytes);
             s == padded || s == TrimPadding(padded)
    ensures Decode(urlsafe, s) == Some(bytes)
  {
    hide Spelling, TrimPadding, Decode, Spells;
    TrimmedVariant(urlsafe, bytes, unused);
    SpellingSpells(bytes, unused);
    WrittenDecodes(urlsafe, s, Spelling(bytes, unused), bytes);
  }

  lemma DecodableIsVariant(urlsafe: bool, bytes: seq<Byte>, s: string)
    requires bytes != [] && Decode(urlsafe, s) == Some(bytes)
    ensures s in Variants(urlsafe, bytes)
  {
    hide Spelling, Encode, WithUnusedBits, TrimPadding, Variants, Spells, Sextets, DecodeSextets;
    DecodableWrites(urlsafe, s, bytes);
    var vs := Values(urlsafe, TrimPadding(s));
    SpellingLength(vs, bytes);
    SextetsShape(bytes);
    SpelledByUnusedBits(vs, bytes);
    SpellingIsVariant(urlsafe, bytes, Last(vs) - Last(Sextets(bytes)), s);
  }

  /** The guard's variants are exactly the spellings that decode to the bytes, of which there must be some. */
  lemma VariantsAreExactlySpellings(urlsafe: bool, bytes: seq<Byte>, s: string)
    ensures s in Variants(urlsafe, bytes) <==> bytes != [] && Decode(urlsafe, s) == Some(bytes)
  {
    hide Spelling, Encode, WithUnusedBits, TrimPadding, Decode, Spells;
    if bytes != [] && Decode(urlsafe, s) == Some(bytes) {
      DecodableIsVariant(urlsafe, bytes, s);
    }
    if s in Variants(urlsafe, bytes) {
      var canonical := Encode(urlsafe, bytes);
      CanonicalIsSpelling(urlsafe, bytes);
      if s == canonical || s == TrimPadding(canonical) {
        VariantDecodes(urlsafe, bytes, 0, s);
      } else {
        var n := UnusedValues(bytes);
        var i := |canonical| - DataOffset(bytes);
        var unused :| 0 <= unused < n && (s == WithUnusedBits(urlsafe, canonical, i, n, unused)
                                          || s == TrimPadding(WithUnusedBits(urlsafe, canonical, i, n, unused)));
        VariantIsSpelling(urlsafe, bytes, unused);
        VariantDecodes(urlsafe, bytes, unused, s);
      }
    }
  }

  /** Encoding and then decoding is the identity. */
  lemma EncodeDecodes(urlsafe: bool, bytes: seq<Byte>)
    ensures Decode(urlsafe, Encode(urlsafe, bytes)) == Some(bytes)
  {
    if bytes == [] {
      assert Letters(urlsafe, []) == "";
    } else {
      VariantsAreExactlySpellings(urlsafe, bytes, Encode(urlsafe, bytes));
    }
  }
}
