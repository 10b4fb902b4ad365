/** One code point in UTF-8 (sections 3 and 4 of RFC 3629) and in UTF-16, bit by bit and octet by octet. */
module Utf8Points {
  import opened Wrappers

  /** Numbers under the language's 32-bit operators. */
  type Octet = b: bv32 | b <= 0xff

  type CodeUnit = u: bv32 | u <= 0xffff

  type Point = p: bv32 | p <= 0x10ffff

  predicate IsSurrogate(p: bv32) {
    0xd800 <= p <= 0xdfff
  }

  /** The code points that UTF-8 is defined for. */
  predicate IsScalar(p: bv32) {
    p <= 0x10ffff && !IsSurrogate(p)
  }

  /** The octets of a point; a lone surrogate is encoded like any other point of its size. */
  function EncodePoint(p: Point): (octets: seq<Octet>)
    ensures 1 <= |octets| <= 4
  {
    if p <= 0x7f then [p]
    else if p <= 0x7ff then [0xc0 | (p >> 6), 0x80 | (p & 0x3f)]
    else if p <= 0xffff then [0xe0 | (p >> 12), 0x80 | ((p >> 6) & 0x3f), 0x80 | (p & 0x3f)]
    else [0xf0 | (p >> 18), 0x80 | ((p >> 12) & 0x3f), 0x80 | ((p >> 6) & 0x3f), 0x80 | (p & 0x3f)]
  }

  /** The length that the first octet announces, and the bits it carries; 0 for no first octet. */
  function Lead(first: Octet): (nat, bv32) {
    if first <= 0x7f then (1, first)
    else if first & 0xe0 == 0xc0 then (2, first & 0x1f)
    else if first & 0xf0 == 0xe0 then (3, first & 0x0f)
    else if first & 0xf8 == 0xf0 then (4, first & 0x07)
    else (0, 0)
  }

  predicate IsTrailing(next: Octet) {
    next & 0xc0 == 0x80
  }

  function Shifted(point: bv32, next: Octet): bv32 {
    (point << 6) | (next & 0x3f)
  }

  /** The point gathered from the lead bits and the octets after it. */
  function Gathered(bits: bv32, trailing: seq<Octet>): bv32 {
    if trailing == [] then bits
    else Shifted(Gathered(bits, trailing[..|trailing| - 1]), trailing[|trailing| - 1])
  }

  /** The point is written with the fewest octets, is in range and is no surrogate. */
  predicate Fits(point: bv32, length: nat) {
    && !(length == 2 && point < 0x80) && !(length == 3 && point < 0x800) && !(length == 4 && point < 0x10000)
    && point <= 0x10ffff && !(point >= 0xd800 && point <= 0xdfff)
  }

  predicate AllTrailing(octets: seq<Octet>) {
    forall o :: o in octets ==> IsTrailing(o)
  }

  /** The first point of some octets and its length, when the decoder accepts it. */
  function DecodeFirst(octets: seq<Octet>): (r: Option<(Point, nat)>)
    requires octets != []
    ensures r.Some? ==> 1 <= r.value.1 <= |octets| && IsScalar(r.value.0)
  {
    var (length, bits) := Lead(octets[0]);
    if length == 0 || length > |octets| || !AllTrailing(octets[1..length]) then None
    else
      var point := Gathered(bits, octets[1..length]);
      if Fits(point, length) then Some((point, length)) else None
  }

  // ---------------------------------------------------------------------
  // Bits
  // ---------------------------------------------------------------------

  lemma Two(p: bv32)
    requires 0x7f < p <= 0x7ff
    ensures var a, b := 0xc0 | (p >> 6), 0x80 | (p & 0x3f);
            0x7f < a <= 0xff && b <= 0xff && a & 0xe0 == 0xc0 && b & 0xc0 == 0x80 && ((a & 0x1f) << 6) | (b & 0x3f) == p
  {
  }

  lemma Three(p: bv32)
    requires 0x7ff < p <= 0xffff
    ensures var a, b, c := 0xe0 | (p >> 12), 0x80 | ((p >> 6) & 0x3f), 0x80 | (p & 0x3f);
            && 0x7f < a <= 0xff && b <= 0xff && c <= 0xff && a & 0xe0 != 0xc0 && a & 0xf0 == 0xe0
            && b & 0xc0 == 0x80 && c & 0xc0 == 0x80
  {
  }

  lemma ThreeGather(p: bv32, a: bv32, b: bv32, c: bv32)
    requires 0x7ff < p <= 0xffff && a == 0xe0 | (p >> 12) && b == 0x80 | ((p >> 6) & 0x3f) && c == 0x80 | (p & 0x3f)
    ensures ((((a & 0x0f) << 6) | (b & 0x3f)) << 6) | (c & 0x3f) == p
  {
  }

  lemma Four(p: bv32)
    requires 0xffff < p <= 0x10ffff
    ensures var a, b, c, d := 0xf0 | (p >> 18), 0x80 | ((p >> 12) & 0x3f), 0x80 | ((p >> 6) & 0x3f), 0x80 | (p & 0x3f);
            && 0x7f < a <= 0xff && b <= 0xff && c <= 0xff && d <= 0xff
            && a & 0xe0 != 0xc0 && a & 0xf0 != 0xe0 && a & 0xf8 == 0xf0
            && b & 0xc0 == 0x80 && c & 0xc0 == 0x80 && d & 0xc0 == 0x80
  {
  }

  lemma FourGather(p: bv32, a: bv32, b: bv32, c: bv32, d: bv32)
    requires 0xffff < p <= 0x10ffff && a == 0xf0 | (p >> 18) && b == 0x80 | ((p >> 12) & 0x3f)
    requires c == 0x80 | ((p >> 6) & 0x3f) && d == 0x80 | (p & 0x3f)
    ensures ((((((a & 0x07) << 6) | (b & 0x3f)) << 6) | (c & 0x3f)) << 6) | (d & 0x3f) == p
  {
  }

  lemma BackTwo(a: Octet, b: Octet)
    requires a & 0xe0 == 0xc0 && b & 0xc0 == 0x80
    ensures var p := ((a & 0x1f) << 6) | (b & 0x3f);
            p <= 0x7ff && (0x7f < p ==> 0xc0 | (p >> 6) == a && 0x80 | (p & 0x3f) == b)
  {
  }

  lemma BackThree(a: Octet, b: Octet, c: Octet)
    requires a & 0xf0 == 0xe0 && b & 0xc0 == 0x80 && c & 0xc0 == 0x80
    ensures var p := ((((a & 0x0f) << 6) | (b & 0x3f)) << 6) | (c & 0x3f);
            p <= 0xffff && 0xe0 | (p >> 12) == a && 0x80 | ((p >> 6) & 0x3f) == b && 0x80 | (p & 0x3f) == c
  {
  }

  lemma BackFour(a: Octet, b: Octet, c: Octet, d: Octet)
    requires a & 0xf8 == 0xf0 && b & 0xc0 == 0x80 && c & 0xc0 == 0x80 && d & 0xc0 == 0x80
    ensures var p := ((((((a & 0x07) << 6) | (b & 0x3f)) << 6) | (c & 0x3f)) << 6) | (d & 0x3f);
            && 0xf0 | (p >> 18) == a && 0x80 | ((p >> 12) & 0x3f) == b
            && 0x80 | ((p >> 6) & 0x3f) == c && 0x80 | (p & 0x3f) == d
  {
  }

  // ---------------------------------------------------------------------
  // Round trips of one point
  // ---------------------------------------------------------------------

  lemma GatheredOne(bits: bv32, b: Octet)
    ensures Gathered(bits, [b]) == Shifted(bits, b)
  {
    assert [b][..0] == [];
  }

  lemma GatheredTwo(bits: bv32, b: Octet, c: Octet)
    ensures Gathered(bits, [b, c]) == Shifted(Shifted(bits, b), c)
  {
    GatheredOne(bits, b);
    assert [b, c][..1] == [b];
  }

  lemma GatheredThree(bits: bv32, b: Octet, c: Octet, d: Octet)
    ensures Gathered(bits, [b, c, d]) == Shifted(Shifted(Shifted(bits, b), c), d)
  {
    GatheredTwo(bits, b, c);
    assert [b, c, d][..2] == [b, c];
  }

  /** The octets after the first that belong to the first point. */
  lemma TrailingOctets(octets: seq<Octet>, length: nat)
    requires 1 <= length <= |octets| && length <= 4
    ensures octets[1..length] == if length == 1 then [] else if length == 2 then [octets[1]]
                                 else if length == 3 then [octets[1], octets[2]] else [octets[1], octets[2], octets[3]]
  {
  }

  /** The point that the first octets announce, whatever it is. */
  function PointAt(octets: seq<Octet>, length: nat): bv32
    requires 1 <= length <= |octets| && length <= 4
  {
    var bits := Lead(octets[0]).1;
    if length == 1 then bits
    else if length == 2 then Shifted(bits, octets[1])
    else if length == 3 then Shifted(Shifted(bits, octets[1]), octets[2])
    else Shifted(Shifted(Shifted(bits, octets[1]), octets[2]), octets[3])
  }

  lemma GatheredBits(octets: seq<Octet>, length: nat)
    requires 1 <= length <= |octets| && length <= 4
    ensures Gathered(Lead(octets[0]).1, octets[1..length]) == PointAt(octets, length)
    ensures AllTrailing(octets[1..length]) <==> TrailsTo(octets, length)
  {
    TrailingOctets(octets, length);
    var bits := Lead(octets[0]).1;
    if length == 2 {
      GatheredOne(bits, octets[1]);
    } else if length == 3 {
      GatheredTwo(bits, octets[1], octets[2]);
    } else if length == 4 {
      GatheredThree(bits, octets[1], octets[2], octets[3]);
    }
  }

  predicate TrailsTo(octets: seq<Octet>, length: nat)
    requires 1 <= length <= |octets| && length <= 4
  {
    && (length >= 2 ==> IsTrailing(octets[1]))
    && (length >= 3 ==> IsTrailing(octets[2]))
    && (length >= 4 ==> IsTrailing(octets[3]))
  }

  lemma LeadLength(first: Octet)
    ensures Lead(first).0 <= 4
  {
  }

  /** Decoding, octet by octet. */
  lemma DecodeByOctet(octets: seq<Octet>, length: nat)
    requires octets != [] && length == Lead(octets[0]).0
    ensures length == 0 || length > |octets| ==> DecodeFirst(octets) == None
    ensures 1 <= length <= |octets| ==>
              && length <= 4
              && DecodeFirst(octets) == if TrailsTo(octets, length) && Fits(PointAt(octets, length), length)
                                        then Some((PointAt(octets, length), length)) else None
  {
    LeadLength(octets[0]);
    if 1 <= length <= |octets| {
      GatheredBits(octets, length);
    }
  }

  lemma DecodeTwo(p: Point, rest: seq<Octet>)
    requires 0x7f < p <= 0x7ff
    ensures DecodeFirst(EncodePoint(p) + rest) == Some((p, 2))
  {
    Two(p);
    DecodePair(EncodePoint(p)[0], EncodePoint(p)[1], p, EncodePoint(p) + rest);
  }

  lemma DecodePair(a: Octet, b: Octet, p: Point, octets: seq<Octet>)
    requires |octets| >= 2 && octets[0] == a && octets[1] == b
    requires 0x7f < a && a & 0xe0 == 0xc0 && IsTrailing(b) && Shifted(a & 0x1f, b) == p && 0x7f < p <= 0x7ff
    ensures DecodeFirst(octets) == Some((p, 2))
  {
    DecodeByOctet(octets, 2);
  }

  lemma ThreeLead(p: Point)
    requires 0x7ff < p <= 0xffff
    ensures var o := EncodePoint(p); |o| == 3 && Lead(o[0]) == (3, o[0] & 0x0f)
  {
    Three(p);
  }

  lemma ThreeTrail(p: Point)
    requires 0x7ff < p <= 0xffff
    ensures var o := EncodePoint(p); |o| == 3 && IsTrailing(o[1]) && IsTrailing(o[2])
  {
    Three(p);
  }

  lemma ThreeOctets(p: Point, a: Octet, b: Octet, c: Octet)
    requires 0x7ff < p <= 0xffff && EncodePoint(p) == [a, b, c]
    ensures a == 0xe0 | (p >> 12) && b == 0x80 | ((p >> 6) & 0x3f) && c == 0x80 | (p & 0x3f)
  {
    assert EncodePoint(p)[0] == a && EncodePoint(p)[1] == b && EncodePoint(p)[2] == c;
  }

  lemma ThreePoint(p: Point, a: Octet, b: Octet, c: Octet)
    requires 0x7ff < p <= 0xffff && EncodePoint(p) == [a, b, c]
    ensures Shifted(Shifted(a & 0x0f, b), c) == p
  {
    ThreeOctets(p, a, b, c);
    ThreeGather(p, a, b, c);
  }

  lemma DecodeThree(p: Point, rest: seq<Octet>)
    requires 0x7ff < p <= 0xffff
    ensures DecodeFirst(EncodePoint(p) + rest) == if IsSurrogate(p) then None else Some((p, 3))
  {
    ThreeLead(p);
    ThreeTrail(p);
    var o := EncodePoint(p);
    assert o == [o[0], o[1], o[2]];
    ThreePoint(p, o[0], o[1], o[2]);
    DecodeTriple(o, p, rest);
  }

  lemma DecodeTriple(o: seq<Octet>, p: Point, rest: seq<Octet>)
    requires |o| == 3 && Lead(o[0]) == (3, o[0] & 0x0f) && IsTrailing(o[1]) && IsTrailing(o[2])
    requires Shifted(Shifted(o[0] & 0x0f, o[1]), o[2]) == p && 0x7ff < p <= 0xffff
    ensures DecodeFirst(o + rest) == if IsSurrogate(p) then None else Some((p, 3))
  {
    DecodeByOctet(o + rest, 3);
  }

  lemma FourLead(p: Point)
    requires 0xffff < p
    ensures var o := EncodePoint(p); |o| == 4 && Lead(o[0]) == (4, o[0] & 0x07)
  {
    Four(p);
  }

  lemma FourTrail(p: Point)
    requires 0xffff < p
    ensures var o := EncodePoint(p); |o| == 4 && IsTrailing(o[1]) && IsTrailing(o[2]) && IsTrailing(o[3])
  {
    Four(p);
  }

  lemma FourOctets(p: Point, a: Octet, b: Octet, c: Octet, d: Octet)
    requires 0xffff < p && EncodePoint(p) == [a, b, c, d]
    ensures a == 0xf0 | (p >> 18) && b == 0x80 | ((p >> 12) & 0x3f) && c == 0x80 | ((p >> 6) & 0x3f) && d == 0x80 | (p & 0x3f)
  {
    assert EncodePoint(p)[0] == a && EncodePoint(p)[1] == b && EncodePoint(p)[2] == c && EncodePoint(p)[3] == d;
  }

  lemma FourPoint(p: Point, a: Octet, b: Octet, c: Octet, d: Octet)
    requires 0xffff < p && EncodePoint(p) == [a, b, c, d]
    ensures Shifted(Shifted(Shifted(a & 0x07, b), c), d) == p
  {
    FourOctets(p, a, b, c, d);
    FourGather(p, a, b, c, d);
  }

  lemma DecodeFour(p: Point, rest: seq<Octet>)
    requires 0xffff < p
    ensures DecodeFirst(EncodePoint(p) + rest) == Some((p, 4))
  {
    FourLead(p);
    FourTrail(p);
    var o := EncodePoint(p);
    assert o == [o[0], o[1], o[2], o[3]];
    FourPoint(p, o[0], o[1], o[2], o[3]);
    DecodeQuadruple(o, p, rest);
  }

  lemma DecodeQuadruple(o: seq<Octet>, p: Point, rest: seq<Octet>)
    requires |o| == 4 && Lead(o[0]) == (4, o[0] & 0x07) && IsTrailing(o[1]) && IsTrailing(o[2]) && IsTrailing(o[3])
    requires Shifted(Shifted(Shifted(o[0] & 0x07, o[1]), o[2]), o[3]) == p && 0xffff < p
    ensures DecodeFirst(o + rest) == Some((p, 4))
  {
    DecodeByOctet(o + rest, 4);
  }

  /** The octets of a point decode to it, whatever follows; those of a surrogate are refused. */
  lemma DecodeEncoded(p: Point, rest: seq<Octet>)
    ensures DecodeFirst(EncodePoint(p) + rest) == if IsScalar(p) then Some((p, |EncodePoint(p)|)) else None
  {
    if p <= 0x7f {
      DecodeByOctet(EncodePoint(p) + rest, 1);
    } else if p <= 0x7ff {
      DecodeTwo(p, rest);
    } else if p <= 0xffff {
      DecodeThree(p, rest);
    } else {
      DecodeFour(p, rest);
    }
  }

  /** What is accepted as a point is exactly its encoding. */
  lemma EncodeDecoded(octets: seq<Octet>)
    requires octets != [] && DecodeFirst(octets).Some?
    ensures var (p, n) := DecodeFirst(octets).value; octets[..n] == EncodePoint(p)
  {
    var n := Lead(octets[0]).0;
    DecodeByOctet(octets, n);
    if n == 1 {
      assert octets[..1] == [octets[0]];
      OneIsItself(octets[0]);
    } else if n == 2 {
      assert octets[..2] == [octets[0], octets[1]];
      EncodePair(octets[0], octets[1]);
    } else if n == 3 {
      assert octets[..3] == [octets[0], octets[1], octets[2]];
      EncodeTriple(octets[0], octets[1], octets[2]);
    } else {
      assert octets[..4] == [octets[0], octets[1], octets[2], octets[3]];
      EncodeQuadruple(octets[0], octets[1], octets[2], octets[3]);
    }
  }

  lemma OneIsItself(a: Octet)
    requires Lead(a).0 == 1
    ensures EncodePoint(a) == [a] && Lead(a).1 == a
  {
  }

  lemma EncodePair(a: Octet, b: Octet)
    requires Lead(a).0 == 2 && IsTrailing(b) && Fits(Shifted(Lead(a).1, b), 2)
    ensures EncodePoint(Shifted(Lead(a).1, b)) == [a, b]
  {
    BackTwo(a, b);
  }

  lemma EncodeTriple(a: Octet, b: Octet, c: Octet)
    requires Lead(a).0 == 3 && IsTrailing(b) && IsTrailing(c) && Fits(Shifted(Shifted(Lead(a).1, b), c), 3)
    ensures EncodePoint(Shifted(Shifted(Lead(a).1, b), c)) == [a, b, c]
  {
    BackThree(a, b, c);
  }

  lemma EncodeQuadruple(a: Octet, b: Octet, c: Octet, d: Octet)
    requires Lead(a).0 == 4 && IsTrailing(b) && IsTrailing(c) && IsTrailing(d)
    requires Fits(Shifted(Shifted(Shifted(Lead(a).1, b), c), d), 4)
    ensures EncodePoint(Shifted(Shifted(Shifted(Lead(a).1, b), c), d)) == [a, b, c, d]
  {
    BackFour(a, b, c, d);
  }

  // ---------------------------------------------------------------------
  // The syntax of RFC 3629
  // ---------------------------------------------------------------------

  predicate Tail(o: Octet) {
    0x80 <= o <= 0xbf
  }

  /** The octets start with a character in the syntax of section 4 of RFC 3629. */
  predicate StartsCharacter(o: seq<Octet>) {
    || (|o| >= 1 && o[0] <= 0x7f)
    || (|o| >= 2 && 0xc2 <= o[0] <= 0xdf && Tail(o[1]))
    || (|o| >= 3 && o[0] == 0xe0 && 0xa0 <= o[1] <= 0xbf && Tail(o[2]))
    || (|o| >= 3 && 0xe1 <= o[0] <= 0xec && Tail(o[1]) && Tail(o[2]))
    || (|o| >= 3 && o[0] == 0xed && 0x80 <= o[1] <= 0x9f && Tail(o[2]))
    || (|o| >= 3 && 0xee <= o[0] <= 0xef && Tail(o[1]) && Tail(o[2]))
    || (|o| >= 4 && o[0] == 0xf0 && 0x90 <= o[1] <= 0xbf && Tail(o[2]) && Tail(o[3]))
    || (|o| >= 4 && 0xf1 <= o[0] <= 0xf3 && Tail(o[1]) && Tail(o[2]) && Tail(o[3]))
    || (|o| >= 4 && o[0] == 0xf4 && 0x80 <= o[1] <= 0x8f && Tail(o[2]) && Tail(o[3]))
  }

  lemma TailBits(o: Octet)
    ensures IsTrailing(o) <==> Tail(o)
  {
  }

  lemma TwoFits(a: Octet, b: Octet)
    requires a & 0xe0 == 0xc0 && Tail(b)
    ensures Fits(Shifted(a & 0x1f, b), 2) <==> 0xc2 <= a <= 0xdf
  {
  }

  lemma ThreeFits(a: Octet, b: Octet, c: Octet)
    requires a & 0xf0 == 0xe0 && Tail(b) && Tail(c)
    ensures Fits(Shifted(Shifted(a & 0x0f, b), c), 3)
            <==> (a == 0xe0 && 0xa0 <= b) || 0xe1 <= a <= 0xec || (a == 0xed && b <= 0x9f) || 0xee <= a <= 0xef
  {
  }

  lemma FourFits(a: Octet, b: Octet, c: Octet, d: Octet)
    requires a & 0xf8 == 0xf0 && Tail(b) && Tail(c) && Tail(d)
    ensures Fits(Shifted(Shifted(Shifted(a & 0x07, b), c), d), 4)
            <==> (a == 0xf0 && 0x90 <= b) || 0xf1 <= a <= 0xf3 || (a == 0xf4 && b <= 0x8f)
  {
  }

  lemma LeadRanges(a: Octet)
    ensures Lead(a).0 == 1 <==> a <= 0x7f
    ensures Lead(a).0 == 2 <==> 0xc0 <= a <= 0xdf
    ensures Lead(a).0 == 3 <==> 0xe0 <= a <= 0xef
    ensures Lead(a).0 == 4 <==> 0xf0 <= a <= 0xf7
    ensures Lead(a).0 == 0 || 1 <= Lead(a).0 <= 4
  {
  }

  /** A point is accepted exactly where a character of RFC 3629 stands: no overlong form, no surrogate, nothing above 10FFFF. */
  lemma AcceptsRfcSyntax(octets: seq<Octet>)
    requires octets != []
    ensures DecodeFirst(octets).Some? <==> StartsCharacter(octets)
  {
    var length := Lead(octets[0]).0;
    DecodeByOctet(octets, length);
    LeadRanges(octets[0]);
    if length == 1 {
      OneIsItself(octets[0]);
    } else if length == 2 && |octets| >= 2 {
      AcceptsTwo(octets);
    } else if length == 3 && |octets| >= 3 {
      AcceptsThree(octets);
    } else if length == 4 && |octets| >= 4 {
      AcceptsFour(octets);
    }
  }

  lemma AcceptsTwo(o: seq<Octet>)
    requires |o| >= 2 && Lead(o[0]).0 == 2
    ensures TrailsTo(o, 2) && Fits(PointAt(o, 2), 2) <==> StartsCharacter(o)
  {
    LeadRanges(o[0]);
    TailBits(o[1]);
    if Tail(o[1]) {
      TwoFits(o[0], o[1]);
    }
  }

  lemma AcceptsThree(o: seq<Octet>)
    requires |o| >= 3 && Lead(o[0]).0 == 3
    ensures TrailsTo(o, 3) && Fits(PointAt(o, 3), 3) <==> StartsCharacter(o)
  {
    LeadRanges(o[0]);
    TailBits(o[1]);
    TailBits(o[2]);
    if Tail(o[1]) && Tail(o[2]) {
      ThreeFits(o[0], o[1], o[2]);
    }
  }

  lemma AcceptsFour(o: seq<Octet>)
    requires |o| >= 4 && Lead(o[0]).0 == 4
    ensures TrailsTo(o, 4) && Fits(PointAt(o, 4), 4) <==> StartsCharacter(o)
  {
    LeadRanges(o[0]);
    TailBits(o[1]);
    TailBits(o[2]);
    TailBits(o[3]);
    if Tail(o[1]) && Tail(o[2]) && Tail(o[3]) {
      FourFits(o[0], o[1], o[2], o[3]);
    }
  }
}
