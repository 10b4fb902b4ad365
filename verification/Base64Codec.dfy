/** Whole octet strings and base64 texts, both ways. */
module Base64Codec {
  import opened Sequences
  import opened Wrappers
  import opened Utf8Points
  import opened Base64

  function Encoded(octets: seq<Octet>): Text {
    if octets == [] then [] else EncodeGroup(octets) + Encoded(octets[Least(3, |octets|)..])
  }

  /** Whole groups, one after another; `None` for a character outside the alphabet. */
  function DecodedGroups(text: Text): Option<seq<Octet>> {
    if |text| < 4 then Some([])
    else
      var group := DecodeGroup(text[0], text[1], text[2], text[3]);
      var rest := DecodedGroups(text[4..]);
      if group == None || rest == None then None else Some(group.value + rest.value)
  }

  /** The format check: whole groups of letters, at the end at most two characters of padding. */
  predicate WellFormed(text: Text) {
    |text| % 4 == 0 && exists pads :: 0 <= pads <= 2 && PaddedBy(text, pads)
  }

  predicate PaddedBy(text: Text, pads: int) {
    && 0 <= pads <= |text|
    && forall i :: 0 <= i < |text| ==> if i < |text| - pads then IndexOf(text[i]).Some? else text[i] == PAD
  }

  /** The unused bits of the last group are zero. */
  predicate Canonical(text: Text) {
    var n := |text|;
    n < 4 || GroupCanonical(text[n - 4], text[n - 3], text[n - 2], text[n - 1])
  }

  lemma PadIsNoLetter()
    ensures IndexOf(PAD) == None
  {
  }

  /** A well-formed text is a group and, when more follows, a well-formed rest; only the last group is padded. */
  lemma FirstGroup(text: Text)
    requires WellFormed(text) && text != []
    ensures |text| >= 4 && IsGroup(text[0], text[1], text[2], text[3]) && WellFormed(text[4..])
    ensures |text| > 4 ==> text[2] != PAD && text[3] != PAD
  {
    PadIsNoLetter();
    var pads :| 0 <= pads <= 2 && PaddedBy(text, pads);
    var rest := text[4..];
    if rest == [] {
      assert PaddedBy(rest, 0);
    } else {
      assert PaddedBy(rest, pads);
    }
  }

  /** The negative-index error cannot occur after the format check. */
  lemma {:induction false} WellFormedDecodes(text: Text)
    requires WellFormed(text)
    ensures DecodedGroups(text).Some?
    decreases |text|
  {
    if text != [] {
      FirstGroup(text);
      EncodeDecodedGroup(text[0], text[1], text[2], text[3]);
      WellFormedDecodes(text[4..]);
    }
  }

  lemma {:induction false} EncodedIsWhole(octets: seq<Octet>)
    ensures |Encoded(octets)| % 4 == 0
  {
    if octets != [] {
      EncodedIsWhole(octets[Least(3, |octets|)..]);
    }
  }

  lemma GroupPads(octets: seq<Octet>)
    requires octets != []
    ensures PaddedBy(EncodeGroup(octets), if |octets| == 1 then 2 else if |octets| == 2 then 1 else 0)
  {
    var p, q, r, s := GroupValues(octets);
    LettersPad(p, q, r, s, |octets| > 1, |octets| > 2);
  }

  lemma LettersPad(p: bv32, q: bv32, r: bv32, s: bv32, second: bool, third: bool)
    requires p <= 63 && q <= 63 && r <= 63 && s <= 63 && (third ==> second)
    ensures PaddedBy(Letters(p, q, r, s, second, third), if !second then 2 else if !third then 1 else 0)
  {
    var g := Letters(p, q, r, s, second, third);
    assert g == [g[0], g[1], g[2], g[3]];
    LettersAre(p, q, r, s, second, third, g[0], g[1], g[2], g[3]);
  }

  /** An encoding has the format that the decoder checks. */
  lemma {:induction false} EncodedIsWellFormed(octets: seq<Octet>) returns (pads: nat)
    ensures |Encoded(octets)| % 4 == 0 && pads <= 2 && PaddedBy(Encoded(octets), pads)
  {
    EncodedIsWhole(octets);
    pads := 0;
    if octets != [] {
      var rest := octets[Least(3, |octets|)..];
      GroupPads(octets);
      pads := EncodedIsWellFormed(rest);
      if rest == [] {
        pads := if |octets| == 1 then 2 else if |octets| == 2 then 1 else 0;
        assert EncodeGroup(octets) + [] == EncodeGroup(octets);
      }
    }
  }

  lemma {:induction false} GroupsRoundTrip(octets: seq<Octet>)
    ensures |Encoded(octets)| % 4 == 0 && DecodedGroups(Encoded(octets)) == Some(octets)
  {
    EncodedIsWhole(octets);
    if octets != [] {
      var n := Least(3, |octets|);
      GroupsRoundTrip(octets[n..]);
      DecodeEncodedGroup(octets);
      SplitAt(octets, n);
      GroupThenRest(EncodeGroup(octets), Encoded(octets[n..]));
    }
  }

  lemma GroupThenRest(group: Text, rest: Text)
    requires |group| == 4 && |rest| % 4 == 0
    ensures DecodedGroups(group + rest)
            == var first, more := DecodeGroup(group[0], group[1], group[2], group[3]), DecodedGroups(rest);
               if first == None || more == None then None else Some(first.value + more.value)
  {
    assert (group + rest)[4..] == rest;
  }

  /** The result of the decoder. */
  function Decoded(text: Text): Option<seq<Octet>> {
    if WellFormed(text) then DecodedGroups(text) else None
  }

  /** Decoding an encoding gives the octets back. */
  lemma DecodeAfterEncode(octets: seq<Octet>)
    ensures Decoded(Encoded(octets)) == Some(octets)
  {
    var pads := EncodedIsWellFormed(octets);
    GroupsRoundTrip(octets);
  }

  /** Encoding what was decoded gives the text back exactly when its unused bits are zero. */
  lemma {:induction false} EncodeAfterDecodeIff(text: Text)
    requires WellFormed(text)
    ensures Decoded(text).Some? && (Encoded(Decoded(text).value) == text <==> Canonical(text))
    decreases |text|
  {
    if text != [] {
      FirstGroup(text);
      if |text| == 4 {
        OneGroupBack(text);
      } else {
        EncodeAfterDecodeIff(text[4..]);
        MoreGroupsBack(text);
        WholeRest(text);
      }
    }
  }

  lemma OneGroupBack(text: Text)
    requires WellFormed(text) && |text| == 4
    ensures Decoded(text).Some? && (Encoded(Decoded(text).value) == text <==> Canonical(text))
  {
    FirstGroup(text);
    TextSplits(text);
    EncodeDecodedGroup(text[0], text[1], text[2], text[3]);
    var first := DecodeGroup(text[0], text[1], text[2], text[3]).value;
    assert DecodedGroups(text[4..]) == Some([]) && first + [] == first;
    EncodeShort(first);
  }

  lemma MoreGroupsBack(text: Text)
    requires WellFormed(text) && |text| > 4 && Decoded(text[4..]).Some?
    ensures Decoded(text).Some?
    ensures Encoded(Decoded(text).value) == text <==> Encoded(Decoded(text[4..]).value) == text[4..]
  {
    FirstGroup(text);
    TextSplits(text);
    EncodeDecodedGroup(text[0], text[1], text[2], text[3]);
    var group, first := [text[0], text[1], text[2], text[3]], DecodeGroup(text[0], text[1], text[2], text[3]).value;
    var rest, more := text[4..], Decoded(text[4..]).value;
    assert EncodeGroup(first) == group;
    assert DecodedGroups(text) == Some(first + more);
    assert Encoded(first + more) == group + Encoded(more) by {
      EncodeFull(first, more);
    }
    SameGroups(group, group, rest, Encoded(more));
  }

  lemma WholeRest(text: Text)
    requires |text| > 4 && |text| % 4 == 0
    ensures Canonical(text) <==> Canonical(text[4..])
  {
    var rest, n := text[4..], |text[4..]|;
    assert rest[n - 4] == text[n] && rest[n - 3] == text[n + 1] && rest[n - 2] == text[n + 2] && rest[n - 1] == text[n + 3];
  }

  lemma TextSplits(text: Text)
    requires |text| >= 4
    ensures text == [text[0], text[1], text[2], text[3]] + text[4..]
    ensures |text| == 4 ==> text == [text[0], text[1], text[2], text[3]]
  {
  }

  lemma SameGroups(a: Text, b: Text, rest: Text, more: Text)
    requires |a| == |b|
    ensures b + more == a + rest <==> b == a && more == rest
  {
    assert (a + rest)[..|a|] == a && (a + rest)[|a|..] == rest;
    assert (b + more)[..|b|] == b && (b + more)[|b|..] == more;
  }

  lemma EncodeShort(octets: seq<Octet>)
    requires 1 <= |octets| <= 3
    ensures Encoded(octets) == EncodeGroup(octets)
  {
    assert octets[|octets|..] == [];
    assert EncodeGroup(octets) + [] == EncodeGroup(octets);
  }

  lemma EncodeFull(first: seq<Octet>, more: seq<Octet>)
    requires |first| == 3
    ensures Encoded(first + more) == EncodeGroup(first) + Encoded(more)
  {
    assert (first + more)[3..] == more;
    var all := first + more;
    assert all[0] == first[0] && all[1] == first[1] && all[2] == first[2];
    assert EncodeGroup(all) == GroupOf(first[0], first[1], first[2], true, true);
  }

  // ---------------------------------------------------------------------
  // The loops
  // ---------------------------------------------------------------------

  method Base64Encode(octets: seq<Octet>) returns (result: Text)
    ensures result == Encoded(octets)
  {
    result := [];
    var index := 0;
    ghost var goal := Encoded(octets);
    while index < |octets|
      invariant 0 <= index <= |octets|
      invariant result + Encoded(octets[index..]) == goal
    {
      var group := NextGroup(octets, index);
      ghost var rest := octets[index..];
      DropTwice(octets, index, Least(3, |rest|));
      AppendAssociates(result, group, Encoded(rest[Least(3, |rest|)..]));
      result := result + group;
      index := Least(index + 3, |octets|);
    }
  }

  method NextGroup(octets: seq<Octet>, index: nat) returns (group: Text)
    requires index < |octets|
    ensures group == EncodeGroup(octets[index..])
  {
    var second := if index + 1 < |octets| then octets[index + 1] else 0;
    var third := if index + 2 < |octets| then octets[index + 2] else 0;
    group := GroupOf(octets[index], second, third, index + 1 < |octets|, index + 2 < |octets|);
  }

  /** What a decoder comes to that has `output` and still has to read from `index` on. */
  function DecodedFrom(output: seq<Octet>, text: Text, index: nat): Option<seq<Octet>>
    decreases |text| - index
  {
    if index + 4 > |text| then Some(output)
    else
      match DecodeGroup(text[index], text[index + 1], text[index + 2], text[index + 3])
      case None => None
      case Some(group) => DecodedFrom(output + group, text, index + 4)
  }

  lemma {:induction false} DecodedFromIndex(output: seq<Octet>, text: Text, index: nat)
    requires index <= |text|
    ensures DecodedFrom(output, text, index)
            == var rest := DecodedGroups(text[index..]); if rest == None then None else Some(output + rest.value)
    decreases |text| - index
  {
    if index + 4 > |text| {
      assert output + [] == output;
    } else {
      var group := DecodeGroup(text[index], text[index + 1], text[index + 2], text[index + 3]);
      DropTwice(text, index, 4);
      if group.Some? {
        DecodedFromIndex(output + group.value, text, index + 4);
        var rest := DecodedGroups(text[index + 4..]);
        if rest.Some? {
          AppendAssociates(output, group.value, rest.value);
        }
      }
    }
  }

  lemma DecodedFromStart(text: Text)
    requires WellFormed(text)
    ensures DecodedFrom([], text, 0) == Decoded(text) && Decoded(text).Some?
  {
    WellFormedDecodes(text);
    DecodedFromIndex([], text, 0);
    DropTwice(text, 0, 0);
    assert [] + DecodedGroups(text).value == DecodedGroups(text).value;
  }

  lemma NextIndex(length: nat, index: nat)
    requires length % 4 == 0 && index % 4 == 0 && index < length
    ensures index + 4 <= length && (index + 4) % 4 == 0
  {
  }

  /** Decodes a text; it is refused by the format check or not at all. */
  method Base64Decode(text: Text) returns (result: Option<seq<Octet>>)
    ensures result == Decoded(text)
    ensures result == None <==> !WellFormed(text)
  {
    if !WellFormed(text) {
      return None;
    }
    var output: seq<Octet> := [];
    var index := 0;
    DecodedFromStart(text);
    ghost var goal := Decoded(text);
    while index < |text|
      invariant 0 <= index <= |text| && index % 4 == 0
      invariant DecodedFrom(output, text, index) == goal
    {
      NextIndex(|text|, index);
      var group := DecodeGroup(text[index], text[index + 1], text[index + 2], text[index + 3]);
      if group == None {
        return None;
      }
      output := output + group.value;
      index := index + 4;
    }
    result := Some(output);
  }
}
