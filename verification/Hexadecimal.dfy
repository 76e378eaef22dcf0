/** Hexadecimal text (RFC 4648, section 8), as `bytes.hex` writes it and `bytes.fromhex` reads it. */
module Hexadecimal {
  import opened Foundations

  function Nibble(ch: char): Option<int> {
    if '0' <= ch <= '9' then Some((ch - '0') as int)
    else if 'a' <= ch <= 'f' then Some((ch - 'a') as int + 10)
    else if 'A' <= ch <= 'F' then Some((ch - 'A') as int + 10)
    else None
  }

  function HexDigit(n: int): char
    requires 0 <= n < 16
  {
    if n < 10 then '0' + n as char else 'a' + (n - 10) as char
  }

  function Lower(ch: char): char {
    if 'A' <= ch <= 'Z' then (ch - 'A') + 'a' else ch
  }

  function LowerHex(s: string): (lower: string)
    ensures |lower| == |s|
    ensures forall i | 0 <= i < |s| :: lower[i] == Lower(s[i])
  {
    seq(|s|, i requires 0 <= i < |s| => Lower(s[i]))
  }

  predicate IsHex(s: string) {
    |s| % 2 == 0 && forall i | 0 <= i < |s| :: Nibble(s[i]).Some?
  }

  /** `bytes.hex()` */
  function HexEncode(bytes: seq<Byte>): (s: string) {
    if bytes == [] then "" else [HexDigit(bytes[0] / 16), HexDigit(bytes[0] % 16)] + HexEncode(bytes[1..])
  }

  /** `bytes.fromhex`, on hexadecimal digits. */
  function FromHex(s: string): (bytes: seq<Byte>)
    requires IsHex(s)
  {
    if s == "" then [] else [ByteOf(s[0], s[1])] + FromHex(s[2..])
  }

  function ByteOf(high: char, low: char): Byte
    requires Nibble(high).Some? && Nibble(low).Some?
  {
    Nibble(high).value * 16 + Nibble(low).value
  }

  lemma DigitsAreByte(high: char, low: char, byte: Byte)
    ensures Lower(high) == HexDigit(byte / 16) && Lower(low) == HexDigit(byte % 16)
       <==> Nibble(high).Some? && Nibble(low).Some? && ByteOf(high, low) == byte
  {
    DigitIsNibble(high, byte / 16);
    DigitIsNibble(low, byte % 16);
    hide Nibble, Lower, HexDigit;
    if Nibble(high).Some? && Nibble(low).Some? {
      NibbleBounds(high);
      NibbleBounds(low);
      NibblesJoin(Nibble(high).value, Nibble(low).value, byte);
    }
  }

  lemma NibblesJoin(high: int, low: int, byte: int)
    requires 0 <= high < 16 && 0 <= low < 16 && 0 <= byte < 256
    ensures high * 16 + low == byte <==> high == byte / 16 && low == byte % 16
  {
  }

  lemma NibbleBounds(ch: char)
    ensures Nibble(ch).Some? ==> 0 <= Nibble(ch).value < 16
  {
  }

  lemma DigitIsNibble(ch: char, n: int)
    requires 0 <= n < 16
    ensures Lower(ch) == HexDigit(n) <==> Nibble(ch) == Some(n)
  {
  }

  /** Text is hexadecimal for the bytes exactly when its lower case is the bytes' canonical form. */
  lemma {:induction false} HexIsExact(s: string, bytes: seq<Byte>)
    ensures IsHex(s) && FromHex(s) == bytes <==> LowerHex(s) == HexEncode(bytes)
    decreases |bytes|
  {
    hide Nibble, Lower, HexDigit, ByteOf;
    if bytes == [] {
      assert LowerHex(s) == "" <==> s == "";
      assert IsHex(s) && FromHex(s) == [] ==> s == "";
    } else if |s| >= 2 {
      var rest, byte := s[2..], bytes[0];
      HexIsExact(rest, bytes[1..]);
      DigitsAreByte(s[0], s[1], byte);
      HexPeels(s);
      assert LowerHex(s) == [Lower(s[0]), Lower(s[1])] + LowerHex(rest);
      LeadingPair(LowerHex(s), HexEncode(bytes));
      if IsHex(s) {
        assert FromHex(s) == bytes <==> ByteOf(s[0], s[1]) == byte && FromHex(rest) == bytes[1..] by {
          assert FromHex(s) == [ByteOf(s[0], s[1])] + FromHex(rest) && FromHex(s)[1..] == FromHex(rest);
          assert bytes == [byte] + bytes[1..];
        }
      }
    } else {
      assert |HexEncode(bytes)| >= 2;
      assert IsHex(s) ==> s == "";
    }
  }

  lemma LeadingPair(a: string, b: string)
    requires |a| >= 2 && |b| >= 2
    ensures a == b <==> a[0] == b[0] && a[1] == b[1] && a[2..] == b[2..]
  {
    if a[0] == b[0] && a[1] == b[1] && a[2..] == b[2..] {
      assert a == [a[0], a[1]] + a[2..] && b == [b[0], b[1]] + b[2..];
    }
  }

  lemma HexPeels(s: string)
    requires |s| >= 2
    ensures IsHex(s) <==> Nibble(s[0]).Some? && Nibble(s[1]).Some? && IsHex(s[2..])
  {
    hide Nibble;
    var rest := s[2..];
    assert forall i | 2 <= i < |s| :: s[i] == rest[i - 2];
    assert forall i | 0 <= i < |rest| :: rest[i] == s[i + 2];
  }

  lemma {:induction false} HexIsLower(bytes: seq<Byte>)
    ensures LowerHex(HexEncode(bytes)) == HexEncode(bytes)
  {
    if bytes == [] {
    } else {
      HexIsLower(bytes[1..]);
      var s := HexEncode(bytes);
      assert forall i | 2 <= i < |s| :: s[i] == HexEncode(bytes[1..])[i - 2];
      assert forall i | 2 <= i < |s| :: Lower(s[i]) == LowerHex(HexEncode(bytes[1..]))[i - 2];
    }
  }

  /** Reading hexadecimal text inverts writing it. */
  lemma HexRoundTrips(bytes: seq<Byte>)
    ensures IsHex(HexEncode(bytes)) && FromHex(HexEncode(bytes)) == bytes
  {
    HexIsLower(bytes);
    HexIsExact(HexEncode(bytes), bytes);
  }
}
