/**
 * `uuid4` of the load generator: 16 random bytes get the version-4 marker
 * in byte 6 and the RFC 4122 variant bits in byte 8 (section 4.4 of
 * RFC 4122, section 5.4 of RFC 9562), then are printed as five groups of
 * lower-case hex digits, 8-4-4-4-12, joined by hyphens. The random bytes
 * are an input.
 */
module Uuid {
  import opened Base

  /** The 16 bytes after the version and variant bits are set. */
  function Masked(random: Bytes): (b: Bytes)
    requires |random| == 16
    ensures |b| == 16
  {
    random[6 := (random[6] & 0x0f) | 0x40][8 := (random[8] & 0x3f) | 0x80]
  }

  predicate IsLowerHex(c: char) {
    '0' <= c <= '9' || 'a' <= c <= 'f'
  }

  /** The lower-case hex digit of a value below 16. */
  function HexDigit(n: byte): (c: char)
    requires n < 16
    ensures IsLowerHex(c)
  {
    if n < 10 then ('0' as int + n as int) as char else ('a' as int + n as int - 10) as char
  }

  /** The value of a lower-case hex digit; anything else is refused. */
  function HexValue(c: char): (v: Option<byte>)
    ensures v.Some? <==> IsLowerHex(c)
    ensures v.Some? ==> v.value < 16
  {
    if '0' <= c <= '9' then Some((c as int - '0' as int) as byte)
    else if 'a' <= c <= 'f' then Some((c as int - 'a' as int + 10) as byte)
    else None
  }

  /** `%x` of a byte slice: two lower-case digits per byte, high nibble first. */
  function EncodeHex(bytes: Bytes): (s: string)
    ensures |s| == 2 * |bytes|
    ensures forall i | 0 <= i < |s| :: IsLowerHex(s[i])
  {
    if bytes == [] then ""
    else [HexDigit(bytes[0] >> 4), HexDigit(bytes[0] & 0x0f)] + EncodeHex(bytes[1..])
  }

  /** Reads pairs of lower-case hex digits back into bytes. */
  function DecodeHex(s: string): (r: Option<Bytes>)
    ensures r.Some? ==> 2 * |r.value| == |s|
  {
    if s == [] then Some([])
    else if |s| == 1 then None
    else
      match (HexValue(s[0]), HexValue(s[1]), DecodeHex(s[2..]))
      case (Some(high), Some(low), Some(rest)) => Some([(high << 4) | low] + rest)
      case _ => None
  }

  /** Five groups joined by hyphens. */
  function Hyphenated(g1: string, g2: string, g3: string, g4: string, g5: string): string {
    g1 + "-" + g2 + "-" + g3 + "-" + g4 + "-" + g5
  }

  /** `fmt.Sprintf("%x-%x-%x-%x-%x", b[0:4], b[4:6], b[6:8], b[8:10], b[10:])`. */
  function Format(b: Bytes): (s: string)
    requires |b| == 16
    ensures |s| == 36 && s[8] == s[13] == s[18] == s[23] == '-'
  {
    HyphenatedSlices(EncodeHex(b[0..4]), EncodeHex(b[4..6]), EncodeHex(b[6..8]),
                     EncodeHex(b[8..10]), EncodeHex(b[10..]));
    Hyphenated(EncodeHex(b[0..4]), EncodeHex(b[4..6]), EncodeHex(b[6..8]), EncodeHex(b[8..10]), EncodeHex(b[10..]))
  }

  /** Reads an 8-4-4-4-12 hyphenated lower-case hex string back into 16 bytes. */
  function Parse(s: string): Option<Bytes> {
    if |s| != 36 || s[8] != '-' || s[13] != '-' || s[18] != '-' || s[23] != '-' then None
    else
      match (DecodeHex(s[0..8]), DecodeHex(s[9..13]), DecodeHex(s[14..18]),
             DecodeHex(s[19..23]), DecodeHex(s[24..]))
      case (Some(g1), Some(g2), Some(g3), Some(g4), Some(g5)) => Some(g1 + g2 + g3 + g4 + g5)
      case _ => None
  }

  /** `uuid4`, with the bytes `crypto/rand` would have written given as `random`. */
  method Uuid4(random: Bytes) returns (s: string)
    requires |random| == 16
    ensures s == Format(Masked(random))
  {
    var b := new byte[16](i requires 0 <= i < 16 => random[i]);
    b[6] := (b[6] & 0x0f) | 0x40; // version 4
    b[8] := (b[8] & 0x3f) | 0x80; // variant
    assert b[..] == Masked(random);
    s := Format(b[..]);
  }

  // ---------------------------------------------------------------------
  // Properties

  /**
   * Byte 6 carries version 4 in its high nibble and keeps its low nibble;
   * byte 8 starts with the bits 10 and keeps its low six bits; every other
   * byte is the random input.
   */
  lemma MaskedBits(random: Bytes)
    requires |random| == 16
    ensures Masked(random)[6] & 0xf0 == 0x40
    ensures Masked(random)[6] & 0x0f == random[6] & 0x0f
    ensures Masked(random)[8] & 0xc0 == 0x80
    ensures Masked(random)[8] & 0x3f == random[8] & 0x3f
    ensures forall i | 0 <= i < 16 && i != 6 && i != 8 :: Masked(random)[i] == random[i]
  {
  }

  lemma HexDigitValue(n: byte)
    requires n < 16
    ensures HexValue(HexDigit(n)) == Some(n)
  {
  }

  lemma ValueHexDigit(c: char)
    requires IsLowerHex(c)
    ensures HexDigit(HexValue(c).value) == c
  {
  }

  lemma NibblesJoin(b: byte)
    ensures ((b >> 4) << 4) | (b & 0x0f) == b
  {
  }

  lemma NibblesSplit(high: byte, low: byte)
    requires high < 16 && low < 16
    ensures ((high << 4) | low) >> 4 == high
    ensures ((high << 4) | low) & 0x0f == low
  {
  }

  lemma {:induction false} DecodeEncodeHex(bytes: Bytes)
    ensures DecodeHex(EncodeHex(bytes)) == Some(bytes)
    decreases |bytes|
  {
    if bytes != [] {
      var b := bytes[0];
      var s := EncodeHex(bytes);
      DecodeEncodeHex(bytes[1..]);
      HexDigitValue(b >> 4);
      HexDigitValue(b & 0x0f);
      NibblesJoin(b);
      assert s[2..] == EncodeHex(bytes[1..]);
      assert [b] + bytes[1..] == bytes;
    }
  }

  lemma {:induction false} EncodeDecodeHex(s: string)
    requires DecodeHex(s).Some?
    ensures EncodeHex(DecodeHex(s).value) == s
    decreases |s|
  {
    if s != [] {
      var high, low := HexValue(s[0]).value, HexValue(s[1]).value;
      var bytes := DecodeHex(s).value;
      EncodeDecodeHex(s[2..]);
      NibblesSplit(high, low);
      ValueHexDigit(s[0]);
      ValueHexDigit(s[1]);
      assert bytes[1..] == DecodeHex(s[2..]).value;
      assert s == [s[0], s[1]] + s[2..];
    }
  }

  lemma HyphenatedSlices(g1: string, g2: string, g3: string, g4: string, g5: string)
    requires |g1| == 8 && |g2| == 4 && |g3| == 4 && |g4| == 4 && |g5| == 12
    ensures var s := Hyphenated(g1, g2, g3, g4, g5);
            && |s| == 36 && s[8] == s[13] == s[18] == s[23] == '-'
            && s[0..8] == g1 && s[9..13] == g2 && s[14..18] == g3 && s[19..23] == g4 && s[24..] == g5
  {
  }

  lemma HyphenatedOfSlices(s: string)
    requires |s| == 36 && s[8] == s[13] == s[18] == s[23] == '-'
    ensures s == Hyphenated(s[0..8], s[9..13], s[14..18], s[19..23], s[24..])
  {
  }

  lemma BytesSlices(g1: Bytes, g2: Bytes, g3: Bytes, g4: Bytes, g5: Bytes)
    requires |g1| == 4 && |g2| == 2 && |g3| == 2 && |g4| == 2 && |g5| == 6
    ensures var b := g1 + g2 + g3 + g4 + g5;
            |b| == 16 && b[0..4] == g1 && b[4..6] == g2 && b[6..8] == g3 && b[8..10] == g4 && b[10..] == g5
  {
  }

  /** The printed form is 36 characters, hyphens at 8, 13, 18 and 23, lower-case hex elsewhere. */
  lemma FormatShape(b: Bytes)
    requires |b| == 16
    ensures |Format(b)| == 36
    ensures Format(b)[8] == Format(b)[13] == Format(b)[18] == Format(b)[23] == '-'
    ensures forall i | 0 <= i < 36 && i !in {8, 13, 18, 23} :: IsLowerHex(Format(b)[i])
  {
  }

  /** The hex groups of the printed form decode to exactly the 16 bytes. */
  lemma ParseFormat(b: Bytes)
    requires |b| == 16
    ensures Parse(Format(b)) == Some(b)
  {
    HyphenatedSlices(EncodeHex(b[0..4]), EncodeHex(b[4..6]), EncodeHex(b[6..8]),
                     EncodeHex(b[8..10]), EncodeHex(b[10..]));
    DecodeEncodeHex(b[0..4]);
    DecodeEncodeHex(b[4..6]);
    DecodeEncodeHex(b[6..8]);
    DecodeEncodeHex(b[8..10]);
    DecodeEncodeHex(b[10..]);
    assert b[0..4] + b[4..6] + b[6..8] + b[8..10] + b[10..] == b;
  }

  /** Conversely, a string that parses is the printed form of what it parses to. */
  lemma FormatParse(s: string)
    requires Parse(s).Some?
    ensures |Parse(s).value| == 16 && Format(Parse(s).value) == s
  {
    var g1, g2, g3 := DecodeHex(s[0..8]).value, DecodeHex(s[9..13]).value, DecodeHex(s[14..18]).value;
    var g4, g5 := DecodeHex(s[19..23]).value, DecodeHex(s[24..]).value;
    BytesSlices(g1, g2, g3, g4, g5);
    EncodeDecodeHex(s[0..8]);
    EncodeDecodeHex(s[9..13]);
    EncodeDecodeHex(s[14..18]);
    EncodeDecodeHex(s[19..23]);
    EncodeDecodeHex(s[24..]);
    HyphenatedOfSlices(s);
  }

  /** The version digit prints as '4' and the variant digit as one of 8, 9, a, b. */
  lemma Uuid4Digits(random: Bytes)
    requires |random| == 16
    ensures Format(Masked(random))[14] == '4'
    ensures Format(Masked(random))[19] in "89ab"
  {
  }
}
