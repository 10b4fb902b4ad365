/** One group of the base64 codec (section 4 of RFC 4648): three octets as four characters, with its padding. */
module Base64 {
  import opened Wrappers
  import opened Utf8Points

  type Text = seq<CodeUnit>

  const PAD: CodeUnit := 0x3d

  /** The character of a 6-bit value: A to Z, a to z, 0 to 9, plus and slash. */
  function Alphabet(value: bv32): (c: CodeUnit)
    requires value <= 63
  {
    if value <= 25 then 0x41 + value
    else if value <= 51 then 0x61 + (value - 26)
    else if value <= 61 then 0x30 + (value - 52)
    else if value == 62 then 0x2b else 0x2f
  }

  /** The value of a character, if it is in the alphabet. */
  function IndexOf(c: CodeUnit): (r: Option<bv32>)
    ensures r.Some? ==> r.value <= 63
  {
    if 0x41 <= c <= 0x5a then Some(c - 0x41)
    else if 0x61 <= c <= 0x7a then Some(c - 0x61 + 26)
    else if 0x30 <= c <= 0x39 then Some(c - 0x30 + 52)
    else if c == 0x2b then Some(62) else if c == 0x2f then Some(63) else None
  }

  lemma IndexInverts(c: CodeUnit, value: bv32)
    requires value <= 63
    ensures IndexOf(c) == Some(value) <==> c == Alphabet(value)
    ensures Alphabet(value) != PAD && IndexOf(PAD) == None
  {
  }

  // ---------------------------------------------------------------------
  // Groups of three octets and four characters
  // ---------------------------------------------------------------------

  function Bits(first: bv32, second: bv32, third: bv32): bv32 {
    (first << 16) | (second << 8) | third
  }

  /** Four values as characters; values that no octet feeds show as padding. */
  function Letters(p: bv32, q: bv32, r: bv32, s: bv32, second: bool, third: bool): (group: Text)
    requires p <= 63 && q <= 63 && r <= 63 && s <= 63
    ensures |group| == 4
  {
    [Alphabet(p), Alphabet(q), if second then Alphabet(r) else PAD, if third then Alphabet(s) else PAD]
  }

  lemma SextetsInRange(bits: bv32)
    ensures (bits >> 18) & 63 <= 63 && (bits >> 12) & 63 <= 63 && (bits >> 6) & 63 <= 63 && bits & 63 <= 63
  {
  }

  function GroupOf(first: Octet, second: Octet, third: Octet, hasSecond: bool, hasThird: bool): (group: Text)
    ensures |group| == 4
  {
    var bits := Bits(first, second, third);
    SextetsInRange(bits);
    Letters((bits >> 18) & 63, (bits >> 12) & 63, (bits >> 6) & 63, bits & 63, hasSecond, hasThird)
  }

  /** The group that starts the octets, missing octets counting as zero. */
  function EncodeGroup(octets: seq<Octet>): (group: Text)
    requires octets != []
    ensures |group| == 4
  {
    GroupOf(octets[0], if |octets| > 1 then octets[1] else 0, if |octets| > 2 then octets[2] else 0, |octets| > 1, |octets| > 2)
  }

  function Sextets(first: bv32, second: bv32, third: bv32, fourth: bv32): bv32 {
    (first << 18) | (second << 12) | (third << 6) | fourth
  }

  /** The octets of a group of four characters; `None` for a character outside the alphabet. */
  function DecodeGroup(a: CodeUnit, b: CodeUnit, c: CodeUnit, d: CodeUnit): Option<seq<Octet>> {
    var third := if c == PAD then Some(0) else IndexOf(c);
    var fourth := if d == PAD then Some(0) else IndexOf(d);
    if IndexOf(a) == None || IndexOf(b) == None || third == None || fourth == None then None
    else Some(Octets(Sextets(IndexOf(a).value, IndexOf(b).value, third.value, fourth.value), c != PAD, d != PAD))
  }

  function Octets(bits: bv32, second: bool, third: bool): seq<Octet> {
    [(bits >> 16) & 0xff] + (if second then [(bits >> 8) & 0xff] else []) + (if third then [bits & 0xff] else [])
  }

  // ---------------------------------------------------------------------
  // Bits
  // ---------------------------------------------------------------------

  lemma BackThree(p: bv32, q: bv32, r: bv32, s: bv32, x: bv32, y: bv32, z: bv32)
    requires p <= 63 && q <= 63 && r <= 63 && s <= 63
    requires x == (Sextets(p, q, r, s) >> 16) & 0xff && y == (Sextets(p, q, r, s) >> 8) & 0xff && z == Sextets(p, q, r, s) & 0xff
    ensures (Bits(x, y, z) >> 18) & 63 == p && (Bits(x, y, z) >> 12) & 63 == q
    ensures (Bits(x, y, z) >> 6) & 63 == r && Bits(x, y, z) & 63 == s
  {
  }

  /** One character of padding loses the last two bits of the third value. */
  lemma BackTwo(p: bv32, q: bv32, r: bv32, x: bv32, y: bv32)
    requires p <= 63 && q <= 63 && r <= 63
    requires x == (Sextets(p, q, r, 0) >> 16) & 0xff && y == (Sextets(p, q, r, 0) >> 8) & 0xff
    ensures (Bits(x, y, 0) >> 18) & 63 == p && (Bits(x, y, 0) >> 12) & 63 == q
    ensures (Bits(x, y, 0) >> 6) & 63 == r <==> r & 3 == 0
  {
  }

  /** Two characters of padding lose the last four bits of the second value. */
  lemma BackOne(p: bv32, q: bv32, x: bv32)
    requires p <= 63 && q <= 63 && x == (Sextets(p, q, 0, 0) >> 16) & 0xff
    ensures (Bits(x, 0, 0) >> 18) & 63 == p
    ensures (Bits(x, 0, 0) >> 12) & 63 == q <==> q & 15 == 0
  {
  }

  // ---------------------------------------------------------------------
  // One group
  // ---------------------------------------------------------------------

  function Least(a: nat, b: nat): nat {
    if a <= b then a else b
  }

  /** Letters are the characters of their values, or padding. */
  lemma LettersAre(
    p: bv32, q: bv32, r: bv32, s: bv32, second: bool, third: bool, a: CodeUnit, b: CodeUnit, c: CodeUnit, d: CodeUnit)
    requires p <= 63 && q <= 63 && r <= 63 && s <= 63
    ensures Letters(p, q, r, s, second, third) == [a, b, c, d]
            <==> && IndexOf(a) == Some(p) && IndexOf(b) == Some(q)
                 && (if second then IndexOf(c) == Some(r) else c == PAD)
                 && (if third then IndexOf(d) == Some(s) else d == PAD)
  {
    IndexInverts(a, p);
    IndexInverts(b, q);
    IndexInverts(c, r);
    IndexInverts(d, s);
    var g := Letters(p, q, r, s, second, third);
    assert g == [a, b, c, d] <==> g[0] == a && g[1] == b && g[2] == c && g[3] == d;
  }

  /** A group decodes to the octets of its values. */
  lemma LettersDecode(
    p: bv32, q: bv32, r: bv32, s: bv32, second: bool, third: bool, a: CodeUnit, b: CodeUnit, c: CodeUnit, d: CodeUnit)
    requires IndexOf(a) == Some(p) && IndexOf(b) == Some(q)
    requires if second then IndexOf(c) == Some(r) else c == PAD && r == 0
    requires if third then IndexOf(d) == Some(s) else d == PAD && s == 0
    ensures DecodeGroup(a, b, c, d) == Some(Octets(Sextets(p, q, r, s), second, third))
  {
    IndexInverts(c, 0);
    IndexInverts(d, 0);
  }

  /** The group of one, two or three octets, in letters. */
  lemma GroupLetters(octets: seq<Octet>, x: Octet, y: Octet, z: Octet, p: bv32, q: bv32, r: bv32, s: bv32)
    requires octets != [] && x == octets[0]
    requires y == if |octets| > 1 then octets[1] else 0
    requires z == if |octets| > 2 then octets[2] else 0
    requires p == (Bits(x, y, z) >> 18) & 63 && q == (Bits(x, y, z) >> 12) & 63
    requires r == (Bits(x, y, z) >> 6) & 63 && s == Bits(x, y, z) & 63
    ensures p <= 63 && q <= 63 && r <= 63 && s <= 63
    ensures EncodeGroup(octets) == Letters(p, q, r, s, |octets| > 1, |octets| > 2)
  {
    SextetsInRange(Bits(x, y, z));
  }

  lemma Regroup(x: Octet, y: Octet, z: Octet, p: bv32, q: bv32, r: bv32, s: bv32)
    requires p == (Bits(x, y, z) >> 18) & 63 && q == (Bits(x, y, z) >> 12) & 63
    requires r == (Bits(x, y, z) >> 6) & 63 && s == Bits(x, y, z) & 63
    ensures (Sextets(p, q, r, s) >> 16) & 0xff == x && (Sextets(p, q, r, s) >> 8) & 0xff == y && Sextets(p, q, r, s) & 0xff == z
    ensures z == 0 ==> s == 0
    ensures y == 0 && z == 0 ==> r == 0
  {
  }

  lemma OctetsAre(bits: bv32, x: Octet, y: Octet, z: Octet, second: bool, third: bool)
    requires (bits >> 16) & 0xff == x && (bits >> 8) & 0xff == y && bits & 0xff == z
    ensures Octets(bits, second, third) == [x] + (if second then [y] else []) + (if third then [z] else [])
  {
  }

  /** The values of a group carry its octets. */
  lemma ValuesCarry(x: Octet, y: Octet, z: Octet, p: bv32, q: bv32, r: bv32, s: bv32, second: bool, third: bool)
    requires p == (Bits(x, y, z) >> 18) & 63 && q == (Bits(x, y, z) >> 12) & 63
    requires r == (Bits(x, y, z) >> 6) & 63 && s == Bits(x, y, z) & 63
    ensures Octets(Sextets(p, q, r, s), second, third) == [x] + (if second then [y] else []) + (if third then [z] else [])
  {
    Regroup(x, y, z, p, q, r, s);
    OctetsAre(Sextets(p, q, r, s), x, y, z, second, third);
  }

  /** The values and characters of the group that starts some octets. */
  lemma GroupValues(octets: seq<Octet>) returns (p: bv32, q: bv32, r: bv32, s: bv32)
    requires octets != []
    ensures p <= 63 && q <= 63 && r <= 63 && s <= 63
    ensures EncodeGroup(octets) == Letters(p, q, r, s, |octets| > 1, |octets| > 2)
    ensures |octets| <= 2 ==> s == 0
    ensures |octets| <= 1 ==> r == 0
    ensures Octets(Sextets(p, q, r, s), |octets| > 1, |octets| > 2) == octets[..Least(3, |octets|)]
  {
    var x, y, z := octets[0], if |octets| > 1 then octets[1] else 0, if |octets| > 2 then octets[2] else 0;
    p, q, r, s := (Bits(x, y, z) >> 18) & 63, (Bits(x, y, z) >> 12) & 63, (Bits(x, y, z) >> 6) & 63, Bits(x, y, z) & 63;
    GroupLetters(octets, x, y, z, p, q, r, s);
    assert z == 0 ==> s == 0 by {
      Regroup(x, y, z, p, q, r, s);
    }
    assert y == 0 && z == 0 ==> r == 0 by {
      Regroup(x, y, z, p, q, r, s);
    }
    ValuesCarry(x, y, z, p, q, r, s, |octets| > 1, |octets| > 2);
    FirstOctets(octets);
  }

  lemma FirstOctets(octets: seq<Octet>)
    requires octets != []
    ensures octets[..Least(3, |octets|)]
            == [octets[0]] + (if |octets| > 1 then [octets[1]] else []) + (if |octets| > 2 then [octets[2]] else [])
  {
  }

  /** Decoding the group that starts some octets gives those octets. */
  lemma DecodeEncodedGroup(octets: seq<Octet>)
    requires octets != []
    ensures var g := EncodeGroup(octets);
            DecodeGroup(g[0], g[1], g[2], g[3]) == Some(octets[..Least(3, |octets|)])
  {
    var p, q, r, s := GroupValues(octets);
    LettersRoundTrip(p, q, r, s, |octets| > 1, |octets| > 2);
  }

  lemma LettersRoundTrip(p: bv32, q: bv32, r: bv32, s: bv32, second: bool, third: bool)
    requires p <= 63 && q <= 63 && r <= 63 && s <= 63 && (!second ==> r == 0) && (!third ==> s == 0)
    ensures var g := Letters(p, q, r, s, second, third);
            DecodeGroup(g[0], g[1], g[2], g[3]) == Some(Octets(Sextets(p, q, r, s), second, third))
  {
    var g := Letters(p, q, r, s, second, third);
    assert g == [g[0], g[1], g[2], g[3]];
    LettersAre(p, q, r, s, second, third, g[0], g[1], g[2], g[3]);
    LettersDecode(p, q, r, s, second, third, g[0], g[1], g[2], g[3]);
  }

  // ---------------------------------------------------------------------
  // From characters to octets and back
  // ---------------------------------------------------------------------

  lemma FullBack(p: bv32, q: bv32, r: bv32, s: bv32, x: Octet, y: Octet, z: Octet)
    requires p == (Bits(x, y, z) >> 18) & 63 && q == (Bits(x, y, z) >> 12) & 63
    requires r == (Bits(x, y, z) >> 6) & 63 && s == Bits(x, y, z) & 63
    ensures p <= 63 && q <= 63 && r <= 63 && s <= 63 && EncodeGroup([x, y, z]) == Letters(p, q, r, s, true, true)
  {
    GroupLetters([x, y, z], x, y, z, p, q, r, s);
  }

  lemma PaddedBack(p: bv32, q: bv32, r: bv32, x: Octet, y: Octet)
    requires p == (Bits(x, y, 0) >> 18) & 63 && q == (Bits(x, y, 0) >> 12) & 63 && r == (Bits(x, y, 0) >> 6) & 63
    ensures p <= 63 && q <= 63 && r <= 63 && EncodeGroup([x, y]) == Letters(p, q, r, 0, true, false)
  {
    GroupLetters([x, y], x, y, 0, p, q, r, Bits(x, y, 0) & 63);
  }

  lemma TwicePaddedBack(p: bv32, q: bv32, x: Octet)
    requires p == (Bits(x, 0, 0) >> 18) & 63 && q == (Bits(x, 0, 0) >> 12) & 63
    ensures p <= 63 && q <= 63 && EncodeGroup([x]) == Letters(p, q, 0, 0, false, false)
  {
    GroupLetters([x], x, 0, 0, p, q, (Bits(x, 0, 0) >> 6) & 63, Bits(x, 0, 0) & 63);
  }

  lemma ThreeOctets(bits: bv32) returns (x: Octet, y: Octet, z: Octet)
    ensures x == (bits >> 16) & 0xff && y == (bits >> 8) & 0xff && z == bits & 0xff
    ensures Octets(bits, true, true) == [x, y, z] && Octets(bits, true, false) == [x, y] && Octets(bits, false, false) == [x]
  {
    x, y, z := (bits >> 16) & 0xff, (bits >> 8) & 0xff, bits & 0xff;
  }

  /** A group of the text format: letters, then at most two characters of padding. */
  predicate IsGroup(a: CodeUnit, b: CodeUnit, c: CodeUnit, d: CodeUnit) {
    && IndexOf(a).Some? && IndexOf(b).Some?
    && (IndexOf(c).Some? || c == PAD) && (IndexOf(d).Some? || d == PAD) && (c == PAD ==> d == PAD)
  }

  /** The bits of a group that no octet carries are zero. */
  predicate GroupCanonical(a: CodeUnit, b: CodeUnit, c: CodeUnit, d: CodeUnit) {
    && (c == PAD && IndexOf(b).Some? ==> IndexOf(b).value & 15 == 0)
    && (c != PAD && d == PAD && IndexOf(c).Some? ==> IndexOf(c).value & 3 == 0)
  }

  lemma FullGroup(a: CodeUnit, b: CodeUnit, c: CodeUnit, d: CodeUnit, p: bv32, q: bv32, r: bv32, s: bv32)
    requires IndexOf(a) == Some(p) && IndexOf(b) == Some(q) && IndexOf(c) == Some(r) && IndexOf(d) == Some(s)
    ensures var octets := DecodeGroup(a, b, c, d);
            octets.Some? && |octets.value| == 3 && EncodeGroup(octets.value) == [a, b, c, d]
  {
    LettersDecode(p, q, r, s, true, true, a, b, c, d);
    var x, y, z := ThreeOctets(Sextets(p, q, r, s));
    BackThree(p, q, r, s, x, y, z);
    FullBack(p, q, r, s, x, y, z);
    LettersAre(p, q, r, s, true, true, a, b, c, d);
  }

  lemma PaddedLetters(p: bv32, q: bv32, r: bv32) returns (r': bv32)
    requires p <= 63 && q <= 63 && r <= 63
    ensures r' <= 63 && (r' == r <==> r & 3 == 0)
    ensures var octets := Octets(Sextets(p, q, r, 0), true, false);
            |octets| == 2 && EncodeGroup(octets) == Letters(p, q, r', 0, true, false)
  {
    var x, y, _ := ThreeOctets(Sextets(p, q, r, 0));
    r' := (Bits(x, y, 0) >> 6) & 63;
    BackTwo(p, q, r, x, y);
    PaddedBack(p, q, r', x, y);
  }

  lemma TwicePaddedLetters(p: bv32, q: bv32) returns (q': bv32)
    requires p <= 63 && q <= 63
    ensures q' <= 63 && (q' == q <==> q & 15 == 0)
    ensures var octets := Octets(Sextets(p, q, 0, 0), false, false);
            |octets| == 1 && EncodeGroup(octets) == Letters(p, q', 0, 0, false, false)
  {
    var x, _, _ := ThreeOctets(Sextets(p, q, 0, 0));
    q' := (Bits(x, 0, 0) >> 12) & 63;
    BackOne(p, q, x);
    TwicePaddedBack(p, q', x);
  }

  lemma PaddedGroup(a: CodeUnit, b: CodeUnit, c: CodeUnit, p: bv32, q: bv32, r: bv32)
    requires IndexOf(a) == Some(p) && IndexOf(b) == Some(q) && IndexOf(c) == Some(r)
    ensures var octets := DecodeGroup(a, b, c, PAD);
            octets.Some? && |octets.value| == 2 && (EncodeGroup(octets.value) == [a, b, c, PAD] <==> r & 3 == 0)
  {
    LettersDecode(p, q, r, 0, true, false, a, b, c, PAD);
    var r' := PaddedLetters(p, q, r);
    LettersAre(p, q, r', 0, true, false, a, b, c, PAD);
  }

  lemma TwicePaddedGroup(a: CodeUnit, b: CodeUnit, p: bv32, q: bv32)
    requires IndexOf(a) == Some(p) && IndexOf(b) == Some(q)
    ensures var octets := DecodeGroup(a, b, PAD, PAD);
            octets.Some? && |octets.value| == 1 && (EncodeGroup(octets.value) == [a, b, PAD, PAD] <==> q & 15 == 0)
  {
    LettersDecode(p, q, 0, 0, false, false, a, b, PAD, PAD);
    var q' := TwicePaddedLetters(p, q);
    LettersAre(p, q', 0, 0, false, false, a, b, PAD, PAD);
  }

  /** Decoding and encoding a group gives it back exactly when its unused bits are zero. */
  lemma EncodeDecodedGroup(a: CodeUnit, b: CodeUnit, c: CodeUnit, d: CodeUnit)
    requires IsGroup(a, b, c, d)
    ensures var octets := DecodeGroup(a, b, c, d);
            && octets.Some? && 1 <= |octets.value| <= 3 && (d != PAD ==> |octets.value| == 3)
            && (EncodeGroup(octets.value) == [a, b, c, d] <==> GroupCanonical(a, b, c, d))
  {
    if d != PAD {
      FullGroup(a, b, c, d, IndexOf(a).value, IndexOf(b).value, IndexOf(c).value, IndexOf(d).value);
    } else if c != PAD {
      PaddedGroup(a, b, c, IndexOf(a).value, IndexOf(b).value, IndexOf(c).value);
    } else {
      TwicePaddedGroup(a, b, IndexOf(a).value, IndexOf(b).value);
    }
  }
}
