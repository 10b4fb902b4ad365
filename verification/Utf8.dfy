/** The UTF-8 codec: strings of code units to octets. */
module Utf8 {
  import opened Sequences
  import opened Wrappers
  import opened Utf8Points

  type Text = seq<CodeUnit>

  // ---------------------------------------------------------------------
  // Code points of a string
  // ---------------------------------------------------------------------

  predicate IsHigh(u: bv32) {
    0xd800 <= u <= 0xdbff
  }

  predicate IsLow(u: bv32) {
    0xdc00 <= u <= 0xdfff
  }

  function Combine(high: CodeUnit, low: CodeUnit): (p: Point)
    requires IsHigh(high) && IsLow(low)
    ensures 0xffff < p
  {
    PairInRange(high, low);
    0x10000 + ((high - 0xd800) << 10) + (low - 0xdc00)
  }

  lemma PairInRange(high: bv32, low: bv32)
    requires IsHigh(high) && IsLow(low)
    ensures 0xffff < 0x10000 + ((high - 0xd800) << 10) + (low - 0xdc00) <= 0x10ffff
  {
  }

  /** The first code point of a string and how many units it takes; an unpaired surrogate counts as itself. */
  function FirstPoint(text: Text): (r: (Point, nat))
    requires text != []
    ensures 1 <= r.1 <= |text|
  {
    if |text| > 1 && IsHigh(text[0]) && IsLow(text[1]) then (Combine(text[0], text[1]), 2) else (text[0], 1)
  }

  function HighOf(p: Point): (u: CodeUnit)
    requires 0xffff < p
    ensures IsHigh(u)
  {
    0xd800 + ((p - 0x10000) >> 10)
  }

  function LowOf(p: Point): (u: CodeUnit)
    requires 0xffff < p
    ensures IsLow(u)
  {
    0xdc00 + ((p - 0x10000) & 0x3ff)
  }

  /** A code point as a string. */
  function FromCodePoint(p: Point): (units: Text)
    ensures 1 <= |units| <= 2
  {
    if p <= 0xffff then [p] else [HighOf(p), LowOf(p)]
  }

  lemma CombineParts(p: Point)
    requires 0xffff < p
    ensures Combine(HighOf(p), LowOf(p)) == p
  {
  }

  lemma PartsOfPair(high: CodeUnit, low: CodeUnit)
    requires IsHigh(high) && IsLow(low)
    ensures HighOf(Combine(high, low)) == high && LowOf(Combine(high, low)) == low
  {
  }

  lemma FirstPointUnits(text: Text)
    requires text != []
    ensures var (p, n) := FirstPoint(text); text[..n] == FromCodePoint(p)
  {
    if |text| > 1 && IsHigh(text[0]) && IsLow(text[1]) {
      PartsOfPair(text[0], text[1]);
    }
  }

  lemma FirstPointFound(p: Point, rest: Text)
    requires IsScalar(p)
    ensures FirstPoint(FromCodePoint(p) + rest) == (p, |FromCodePoint(p)|)
  {
    if 0xffff < p {
      CombineParts(p);
    }
  }

  /** No surrogate stands alone: every high one is followed by a low one, every low one follows a high one. */
  predicate NoLoneSurrogate(text: Text) {
    forall i: nat {:trigger PairedAt(text, i)} :: i < |text| ==> PairedAt(text, i)
  }

  predicate PairedAt(text: Text, i: nat)
    requires i < |text|
  {
    && (IsHigh(text[i]) ==> i + 1 < |text| && IsLow(text[i + 1]))
    && (IsLow(text[i]) ==> i > 0 && IsHigh(text[i - 1]))
  }

  /** The points of the text, one after another, are all scalar values. */
  predicate AllScalar(text: Text) {
    text == [] || (var (p, n) := FirstPoint(text); IsScalar(p) && AllScalar(text[n..]))
  }

  lemma SurrogateHalves(u: bv32)
    ensures IsSurrogate(u) <==> IsHigh(u) || IsLow(u)
    ensures !(IsHigh(u) && IsLow(u))
  {
  }

  /** A string is made of scalar values exactly when no surrogate stands alone. */
  lemma {:induction false} AllScalarIff(text: Text)
    ensures AllScalar(text) <==> NoLoneSurrogate(text)
    decreases |text|
  {
    if text != [] {
      var n := FirstPoint(text).1;
      var rest := text[n..];
      AllScalarIff(rest);
      SurrogateHalves(text[0]);
      if n == 2 {
        SurrogateHalves(text[1]);
        PairSplits(text);
      } else {
        UnitSplits(text);
      }
    }
  }

  lemma PairSplits(text: Text)
    requires |text| > 1 && IsHigh(text[0]) && IsLow(text[1])
    ensures NoLoneSurrogate(text) <==> NoLoneSurrogate(text[2..])
  {
    var rest := text[2..];
    SurrogateHalves(text[0]);
    SurrogateHalves(text[1]);
    forall i: nat | i < |rest|
      ensures PairedAt(rest, i) <==> PairedAt(text, i + 2)
    {
      SurrogateHalves(text[i + 2]);
    }
    if NoLoneSurrogate(rest) {
      forall i: nat | i < |text|
        ensures PairedAt(text, i)
      {
        if i >= 2 {
          assert PairedAt(rest, i - 2);
        }
      }
    }
  }

  lemma UnitSplits(text: Text)
    requires text != [] && !(|text| > 1 && IsHigh(text[0]) && IsLow(text[1]))
    ensures NoLoneSurrogate(text) <==> !IsSurrogate(text[0]) && NoLoneSurrogate(text[1..])
  {
    var rest := text[1..];
    SurrogateHalves(text[0]);
    if !IsSurrogate(text[0]) {
      forall i: nat | i < |rest|
        ensures PairedAt(rest, i) <==> PairedAt(text, i + 1)
      {
      }
      if NoLoneSurrogate(rest) {
        forall i: nat | i < |text|
          ensures PairedAt(text, i)
        {
          if i >= 1 {
            assert PairedAt(rest, i - 1);
          }
        }
      }
    } else {
      assert !PairedAt(text, 0);
    }
  }

  // ---------------------------------------------------------------------
  // Encoding and decoding
  // ---------------------------------------------------------------------

  function Encoded(text: Text): seq<Octet> {
    if text == [] then [] else var (p, n) := FirstPoint(text); EncodePoint(p) + Encoded(text[n..])
  }

  function Decoded(octets: seq<Octet>): Option<Text> {
    if octets == [] then Some([])
    else
      match DecodeFirst(octets)
      case None => None
      case Some((p, n)) =>
        match Decoded(octets[n..])
        case None => None
        case Some(rest) => Some(FromCodePoint(p) + rest)
  }

  function Prefixed(text: Text, rest: Option<Text>): Option<Text> {
    if rest == None then None else Some(text + rest.value)
  }

  /** Decoding starts by decoding the octets of the first point. */
  lemma DecodeStep(p: Point, rest: seq<Octet>)
    ensures Decoded(EncodePoint(p) + rest) == if IsScalar(p) then Prefixed(FromCodePoint(p), Decoded(rest)) else None
  {
    DecodeEncoded(p, rest);
    DropPrefix(EncodePoint(p), rest);
  }

  /** Encoding and decoding gives the string back, unless a surrogate stands alone; then decoding refuses. */
  lemma {:induction false} DecodeAfterEncode(text: Text)
    ensures Decoded(Encoded(text)) == if AllScalar(text) then Some(text) else None
    decreases |text|
  {
    if text != [] {
      var (p, n) := FirstPoint(text);
      DecodeAfterEncode(text[n..]);
      DecodeStep(p, Encoded(text[n..]));
      FirstPointUnits(text);
      SplitAt(text, n);
    }
  }

  lemma EncodeStep(p: Point, rest: Text)
    requires IsScalar(p)
    ensures Encoded(FromCodePoint(p) + rest) == EncodePoint(p) + Encoded(rest)
    ensures AllScalar(FromCodePoint(p) + rest) <==> AllScalar(rest)
  {
    FirstPointFound(p, rest);
    DropPrefix(FromCodePoint(p), rest);
  }

  /** Accepted octets are the encoding of what they decode to, and that has no lone surrogate. */
  lemma {:induction false} EncodeAfterDecode(octets: seq<Octet>)
    requires Decoded(octets).Some?
    ensures var text := Decoded(octets).value; Encoded(text) == octets && AllScalar(text)
    decreases |octets|
  {
    if octets != [] {
      var (p, n) := DecodeFirst(octets).value;
      var rest := Decoded(octets[n..]).value;
      EncodeAfterDecode(octets[n..]);
      EncodeDecoded(octets);
      EncodeStep(p, rest);
      SplitAt(octets, n);
    }
  }

  /** The codec maps strings without lone surrogates one to one onto the octets that it accepts. */
  lemma CodecIsOneToOne(text: Text, octets: seq<Octet>)
    ensures Decoded(octets) == Some(text) <==> Encoded(text) == octets && NoLoneSurrogate(text)
  {
    AllScalarIff(text);
    DecodeAfterEncode(text);
    if Decoded(octets) == Some(text) {
      EncodeAfterDecode(octets);
    }
  }

  /** A sequence of characters in the syntax of RFC 3629. */
  predicate IsRfcString(octets: seq<Octet>)
    decreases |octets|
  {
    octets == []
    || (StartsCharacter(octets)
        && (var n := CharacterLength(octets[0]); n <= |octets| && IsRfcString(octets[n..])))
  }

  function CharacterLength(first: Octet): nat {
    if first <= 0x7f then 1 else if first <= 0xdf then 2 else if first <= 0xef then 3 else 4
  }

  lemma LengthAnnounced(octets: seq<Octet>)
    requires octets != [] && DecodeFirst(octets).Some?
    ensures DecodeFirst(octets).value.1 == CharacterLength(octets[0])
  {
    LeadRanges(octets[0]);
    DecodeByOctet(octets, Lead(octets[0]).0);
  }

  /** The decoder accepts exactly the octet sequences of RFC 3629. */
  lemma {:induction false} AcceptsExactlyRfcStrings(octets: seq<Octet>)
    ensures Decoded(octets).Some? <==> IsRfcString(octets)
    decreases |octets|
  {
    if octets != [] {
      AcceptsRfcSyntax(octets);
      if DecodeFirst(octets).Some? {
        LengthAnnounced(octets);
        AcceptsExactlyRfcStrings(octets[DecodeFirst(octets).value.1..]);
      }
    }
  }

  // ---------------------------------------------------------------------
  // The loops
  // ---------------------------------------------------------------------

  method Utf8Encode(text: Text) returns (output: seq<Octet>)
    ensures output == Encoded(text)
  {
    output := [];
    var index := 0;
    while index < |text|
      invariant 0 <= index <= |text|
      invariant output + Encoded(text[index..]) == Encoded(text)
    {
      var rest := text[index..];
      var (point, length) := FirstPoint(rest);
      DropTwice(text, index, length);
      AppendAssociates(output, EncodePoint(point), Encoded(rest[length..]));
      output := output + EncodePoint(point);
      index := index + length;
    }
  }

  /** Gathers the octets after the first; `None` when one of them does not belong there. */
  method GatherPoint(octets: seq<Octet>, index: nat, length: nat, bits: bv32) returns (point: Option<bv32>)
    requires index + length <= |octets| && 1 <= length
    ensures point == if AllTrailing(octets[index..][1..length]) then Some(Gathered(bits, octets[index..][1..length])) else None
  {
    var p := bits;
    ghost var here := octets[index..];
    for offset := 1 to length
      invariant AllTrailing(here[1..offset]) && p == Gathered(bits, here[1..offset])
    {
      var next := octets[index + offset];
      assert here[1..offset + 1] == here[1..offset] + [next];
      assert here[1..offset + 1][..offset - 1] == here[1..offset];
      if next & 0xc0 != 0x80 {
        assert next in here[1..length];
        return None;
      }
      p := (p << 6) | (next & 0x3f);
    }
    point := Some(p);
  }

  /** Decodes the point at an index and its length; `None` when it is refused. */
  method PointAtIndex(octets: seq<Octet>, index: nat) returns (r: Option<(Point, nat)>)
    requires index < |octets|
    ensures r == DecodeFirst(octets[index..])
  {
    var (length, bits) := Lead(octets[index]);
    if length == 0 || index + length > |octets| {
      return None;
    }
    var gathered := GatherPoint(octets, index, length, bits);
    if gathered == None {
      return None;
    }
    var point := gathered.value;
    if !Fits(point, length) {
      return None;
    }
    r := Some((point, length));
  }

  lemma DecodedNext(rest: seq<Octet>, point: Point, length: nat)
    requires rest != [] && DecodeFirst(rest) == Some((point, length))
    ensures length <= |rest| && Decoded(rest) == Prefixed(FromCodePoint(point), Decoded(rest[length..]))
  {
  }

  lemma PrefixedTwice(text: Text, more: Text, rest: Option<Text>)
    ensures Prefixed(text, Prefixed(more, rest)) == Prefixed(text + more, rest)
  {
    if rest.Some? {
      AppendAssociates(text, more, rest.value);
    }
  }

  /** What is still to be decoded from an index on completes the text to this result. */
  predicate Completes(octets: seq<Octet>, index: nat, text: Text, result: Option<Text>) {
    index <= |octets| && Prefixed(text, Decoded(octets[index..])) == result
  }

  lemma CompletesFromStart(octets: seq<Octet>)
    ensures Completes(octets, 0, [], Decoded(octets))
  {
    assert octets[0..] == octets;
    if Decoded(octets).Some? {
      assert [] + Decoded(octets).value == Decoded(octets).value;
    }
  }

  lemma CompletesNext(octets: seq<Octet>, index: nat, text: Text, result: Option<Text>, point: Point, length: nat)
    requires index < |octets| && Completes(octets, index, text, result)
    requires DecodeFirst(octets[index..]) == Some((point, length))
    ensures Completes(octets, index + length, text + FromCodePoint(point), result)
  {
    DecodedNext(octets[index..], point, length);
    DropTwice(octets, index, length);
    PrefixedTwice(text, FromCodePoint(point), Decoded(octets[index + length..]));
  }

  lemma CompletesNever(octets: seq<Octet>, index: nat, text: Text, result: Option<Text>)
    requires index < |octets| && Completes(octets, index, text, result) && DecodeFirst(octets[index..]) == None
    ensures result == None
  {
  }

  lemma CompletesAtEnd(octets: seq<Octet>, text: Text, result: Option<Text>)
    requires Completes(octets, |octets|, text, result)
    ensures result == Some(text)
  {
    assert octets[|octets|..] == [] && text + [] == text;
  }

  /** One turn of the loop: adds the point at the index, or refuses the octets. */
  method DecodeNext(octets: seq<Octet>, index: nat, text: Text, ghost result: Option<Text>)
    returns (more: Option<Text>, next: nat)
    requires index < |octets| && Completes(octets, index, text, result)
    ensures more == None ==> result == None
    ensures more.Some? ==> index < next <= |octets| && Completes(octets, next, more.value, result)
  {
    var decoded := PointAtIndex(octets, index);
    if decoded == None {
      CompletesNever(octets, index, text, result);
      return None, index;
    }
    var (point, length) := decoded.value;
    CompletesNext(octets, index, text, result, point, length);
    more, next := Some(text + FromCodePoint(point)), index + length;
  }

  method Utf8Decode(octets: seq<Octet>) returns (result: Option<Text>)
    ensures result == Decoded(octets)
  {
    var text: Text := [];
    var index := 0;
    ghost var goal := Decoded(octets);
    CompletesFromStart(octets);
    while index < |octets|
      invariant 0 <= index <= |octets|
      invariant Completes(octets, index, text, goal)
    {
      var more, next := DecodeNext(octets, index, text, goal);
      if more == None {
        return None;
      }
      text, index := more.value, next;
    }
    CompletesAtEnd(octets, text, goal);
    result := Some(text);
  }
}
