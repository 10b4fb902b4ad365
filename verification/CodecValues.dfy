/** Which characters and code points the codecs write: their tables and values in plain numbers. */
module CodecValues {
  import opened Alphabets
  import opened Wrappers
  import opened Utf8Points
  import opened Base64
  import Base64Codec
  import Utf8

  // ---------------------------------------------------------------------
  // The alphabet of base64 (table 1 of RFC 4648)
  // ---------------------------------------------------------------------

  const LETTERS := UPPER + LOWER + DIGITS + "+/"

  /** The alphabet, position by position. */
  lemma AlphabetIs(value: bv32)
    requires value <= 63
    ensures |LETTERS| == 64 && value as int < 64 && LETTERS[value as int] as int == Alphabet(value) as int
  {
    var i := value as int;
    if i < 26 {
      UpperAt(i);
    } else if i < 52 {
      LowerAt(i - 26);
    } else if i < 62 {
      DigitAt(i - 52);
    }
  }

  /** How the bits of three octets are shared out to four values, six bits each from the top. */
  predicate SharedOut(x: Octet, y: Octet, z: Octet, p: bv32, q: bv32, r: bv32, s: bv32) {
    && p == x >> 2 && q == ((x & 3) << 4) | (y >> 4)
    && r == ((y & 15) << 2) | (z >> 6) && s == z & 63
  }

  lemma SextetsAre(x: Octet, y: Octet, z: Octet, p: bv32, q: bv32, r: bv32, s: bv32)
    requires p == (Bits(x, y, z) >> 18) & 63 && q == (Bits(x, y, z) >> 12) & 63
    requires r == (Bits(x, y, z) >> 6) & 63 && s == Bits(x, y, z) & 63
    ensures SharedOut(x, y, z, p, q, r, s) && p <= 63 && q <= 63 && r <= 63 && s <= 63
  {
  }

  function OctetAt(octets: seq<Octet>, i: nat): Octet {
    if i < |octets| then octets[i] else 0
  }

  /** The group of up to three octets: the letters of the four values, an equals sign where no octet gives any. */
  lemma GroupIs(octets: seq<Octet>) returns (p: bv32, q: bv32, r: bv32, s: bv32)
    requires octets != []
    ensures SharedOut(OctetAt(octets, 0), OctetAt(octets, 1), OctetAt(octets, 2), p, q, r, s)
    ensures p <= 63 && q <= 63 && r <= 63 && s <= 63
    ensures EncodeGroup(octets)
            == [Alphabet(p), Alphabet(q), if |octets| > 1 then Alphabet(r) else 0x3D, if |octets| > 2 then Alphabet(s) else 0x3D]
  {
    var x, y, z := OctetAt(octets, 0), OctetAt(octets, 1), OctetAt(octets, 2);
    p, q, r, s := (Bits(x, y, z) >> 18) & 63, (Bits(x, y, z) >> 12) & 63, (Bits(x, y, z) >> 6) & 63, Bits(x, y, z) & 63;
    SextetsAre(x, y, z, p, q, r, s);
    GroupLetters(octets, x, y, z, p, q, r, s);
  }

  /** The text is the groups of every three octets one after another. */
  lemma {:induction false} GroupsAre(octets: seq<Octet>, k: nat, three: seq<Octet>, text: Text)
    requires 3 * k < |octets| && three == octets[3 * k..Least(3 * k + 3, |octets|)] && text == Base64Codec.Encoded(octets)
    ensures 4 * k + 4 <= |text| && text[4 * k..4 * k + 4] == EncodeGroup(three)
    decreases k
  {
    if k == 0 {
      FirstStands(octets, three, text);
    } else {
      var rest := Base64Codec.Encoded(octets[3..]);
      var group := GroupBefore(octets, rest, text);
      LaterThree(octets, k, three);
      GroupsAre(octets[3..], k - 1, three, rest);
      LaterStands(group, rest, text, k);
    }
  }

  lemma FirstStands(octets: seq<Octet>, three: seq<Octet>, text: Text)
    requires octets != [] && three == octets[0..Least(3, |octets|)] && text == Base64Codec.Encoded(octets)
    ensures 4 <= |text| && text[0..4] == EncodeGroup(three)
  {
    FirstThree(octets, three);
  }

  lemma GroupBefore(octets: seq<Octet>, rest: Text, text: Text) returns (group: Text)
    requires |octets| >= 3 && text == Base64Codec.Encoded(octets) && rest == Base64Codec.Encoded(octets[3..])
    ensures |group| == 4 && text == group + rest
  {
    group := EncodeGroup(octets);
  }

  lemma LaterStands(group: Text, rest: Text, text: Text, k: nat)
    requires |group| == 4 && text == group + rest && 0 < k && 4 * (k - 1) + 4 <= |rest|
    ensures 4 * k + 4 <= |text| && text[4 * k..4 * k + 4] == rest[4 * (k - 1)..4 * (k - 1) + 4]
  {
  }

  lemma LaterThree(octets: seq<Octet>, k: nat, three: seq<Octet>)
    requires 0 < k && 3 * k < |octets| && three == octets[3 * k..Least(3 * k + 3, |octets|)]
    ensures three == octets[3..][3 * (k - 1)..Least(3 * (k - 1) + 3, |octets[3..]|)]
  {
  }

  /** Only the first three octets make the group. */
  lemma FirstThree(octets: seq<Octet>, three: seq<Octet>)
    requires octets != [] && three == octets[0..Least(3, |octets|)]
    ensures EncodeGroup(octets) == EncodeGroup(three)
  {
  }

  // ---------------------------------------------------------------------
  // Code points
  // ---------------------------------------------------------------------

  /** The scalar value of a surrogate pair. */
  lemma PairValue(high: CodeUnit, low: CodeUnit)
    requires Utf8.IsHigh(high) && Utf8.IsLow(low)
    ensures Utf8.Combine(high, low) == 0x10000 + (high - 0xD800) * 0x400 + (low - 0xDC00)
  {
  }

  function ValueOfTwo(a: bv32, b: bv32): bv32 {
    (a - 0xC0) * 0x40 + (b - 0x80)
  }

  function ValueOfThree(a: bv32, b: bv32, c: bv32): bv32 {
    ((a - 0xE0) * 0x40 + (b - 0x80)) * 0x40 + (c - 0x80)
  }

  function ValueOfFour(a: bv32, b: bv32, c: bv32, d: bv32): bv32 {
    (((a - 0xF0) * 0x40 + (b - 0x80)) * 0x40 + (c - 0x80)) * 0x40 + (d - 0x80)
  }

  /** What a character's octets stand for: six bits from every octet after the first. */
  lemma PointValue(octets: seq<Octet>, p: Point, n: nat)
    requires octets != [] && DecodeFirst(octets) == Some((p, n))
    ensures 1 <= n <= 4 && n <= |octets|
    ensures n == 1 ==> p == octets[0]
    ensures n == 2 ==> p == ValueOfTwo(octets[0], octets[1])
    ensures n == 3 ==> p == ValueOfThree(octets[0], octets[1], octets[2])
    ensures n == 4 ==> p == ValueOfFour(octets[0], octets[1], octets[2], octets[3])
  {
    LeadLength(octets[0]);
    DecodeByOctet(octets, n);
    PointAtIs(octets, n);
  }

  lemma PointAtIs(octets: seq<Octet>, n: nat)
    requires 1 <= n <= 4 && n <= |octets| && n == Lead(octets[0]).0 && TrailsTo(octets, n)
    ensures n == 1 ==> PointAt(octets, n) == octets[0]
    ensures n == 2 ==> PointAt(octets, n) == ValueOfTwo(octets[0], octets[1])
    ensures n == 3 ==> PointAt(octets, n) == ValueOfThree(octets[0], octets[1], octets[2])
    ensures n == 4 ==> PointAt(octets, n) == ValueOfFour(octets[0], octets[1], octets[2], octets[3])
  {
    LeadIs(octets[0]);
    if n == 2 {
      TwoValue(octets[0], octets[1]);
    } else if n == 3 {
      ThreeValue(octets[0], octets[1], octets[2]);
    } else if n == 4 {
      FourValue(octets[0], octets[1], octets[2], octets[3]);
    }
  }

  lemma LeadIs(a: Octet)
    ensures Lead(a).0 == 1 ==> Lead(a).1 == a
    ensures Lead(a).0 == 2 ==> a & 0xe0 == 0xc0 && Lead(a).1 == a & 0x1f
    ensures Lead(a).0 == 3 ==> a & 0xf0 == 0xe0 && Lead(a).1 == a & 0x0f
    ensures Lead(a).0 == 4 ==> a & 0xf8 == 0xf0 && Lead(a).1 == a & 0x07
  {
  }

  lemma TwoValue(a: Octet, b: Octet)
    requires a & 0xe0 == 0xc0 && IsTrailing(b)
    ensures Shifted(a & 0x1f, b) == ValueOfTwo(a, b)
  {
  }

  lemma ThreeValue(a: Octet, b: Octet, c: Octet)
    requires a & 0xf0 == 0xe0 && IsTrailing(b) && IsTrailing(c)
    ensures Shifted(Shifted(a & 0x0f, b), c) == ValueOfThree(a, b, c)
  {
  }

  lemma FourValue(a: Octet, b: Octet, c: Octet, d: Octet)
    requires a & 0xf8 == 0xf0 && IsTrailing(b) && IsTrailing(c) && IsTrailing(d)
    ensures Shifted(Shifted(Shifted(a & 0x07, b), c), d) == ValueOfFour(a, b, c, d)
  {
  }
}
