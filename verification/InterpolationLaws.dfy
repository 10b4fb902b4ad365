/** What interpolation promises: taint, completeness, escaped literals. */
module InterpolationLaws {
  import opened Sequences
  import opened Wrappers
  import opened CodeUnits
  import opened AliasChains
  import opened Interpolation

  // ---------------------------------------------------------------------
  // Result and errors
  // ---------------------------------------------------------------------

  /** The segment can be rendered: no placeholder, or a valid name whose chain ends in a value. */
  ghost predicate Renders(segment: Segment, variables: Variables) {
    segment.Placeholder? ==> ValidName(segment.name) && HasText(variables, segment.name)
  }

  /** What stands for a segment: for a placeholder the text stored at the end of its chain. */
  ghost function ValueOf(segment: Segment, variables: Variables): Text
    requires Renders(segment, variables)
  {
    match segment
    case Literal(text) => text
    case Escaped => OPENING
    case Placeholder(name) => TextOf(EndOf(variables, name))
  }

  ghost predicate AllRender(segments: seq<Segment>, variables: Variables) {
    forall s :: s in segments ==> Renders(s, variables)
  }

  /** The rendered values one after another. */
  ghost function Values(segments: seq<Segment>, variables: Variables): Text
    requires AllRender(segments, variables)
  {
    if segments == [] then [] else ValueOf(segments[0], variables) + Values(segments[1..], variables)
  }

  function Names(segments: seq<Segment>): seq<Name> {
    if segments == [] then []
    else (if segments[0].Placeholder? then [segments[0].name] else []) + Names(segments[1..])
  }

  /** The segment is a placeholder whose alias chain ends in a secret. */
  predicate IsSecretPlaceholder(segment: Segment, variables: Variables) {
    segment.Placeholder? && Resolve(variables, segment.name).Ok? && Resolve(variables, segment.name).value.secret
  }

  predicate AnySecret(segments: seq<Segment>, variables: Variables) {
    exists s :: s in segments && IsSecretPlaceholder(s, variables)
  }

  lemma AnySecretSplits(first: Segment, rest: seq<Segment>, variables: Variables)
    ensures AnySecret([first] + rest, variables) <==> IsSecretPlaceholder(first, variables) || AnySecret(rest, variables)
    ensures AllRender([first] + rest, variables) <==> Renders(first, variables) && AllRender(rest, variables)
  {
    var all := [first] + rest;
    assert first in all && forall s :: s in rest ==> s in all;
  }

  lemma PutSome(references: seq<SecretReference>, added: seq<SecretReference>)
    ensures PutAll(references, added) != [] <==> references != [] || added != []
  {
  }

  /** The taint agrees with the references collected so far. */
  predicate Consistent(done: Interpolated) {
    done.secret <==> done.references != []
  }

  lemma AddIs(done: Interpolated, segment: Segment, variables: Variables)
    ensures Add(done, segment, variables).Ok? <==> Renders(segment, variables)
    ensures Renders(segment, variables) ==>
              var next := Add(done, segment, variables).value;
              && next.value == done.value + ValueOf(segment, variables)
              && next.names == done.names + (if segment.Placeholder? then [segment.name] else [])
              && next.secret == (done.secret || IsSecretPlaceholder(segment, variables))
              && (Consistent(done) ==> Consistent(next))
  {
    if segment.Placeholder? {
      ResolvesToText(variables, segment.name);
    }
    if Renders(segment, variables) {
      if segment.Placeholder? {
        SecretIffChainEndsInSecret(variables, segment.name);
        PutSome(done.references, Resolve(variables, segment.name).value.references);
      } else {
        assert done.names + [] == done.names;
      }
    }
  }

  /** What rendering the segments adds to what was rendered before. */
  ghost predicate Extends(done: Interpolated, segments: seq<Segment>, variables: Variables, r: Interpolated)
    requires AllRender(segments, variables)
  {
    && r.value == done.value + Values(segments, variables)
    && r.names == done.names + Names(segments)
    && r.secret == (done.secret || AnySecret(segments, variables))
    && (Consistent(done) ==> Consistent(r))
  }

  lemma ExtendsNothing(done: Interpolated, variables: Variables)
    ensures Extends(done, [], variables, done)
  {
    assert done.value + [] == done.value && done.names + [] == done.names;
  }

  lemma ExtendsFirst(done: Interpolated, first: Segment, rest: seq<Segment>, variables: Variables, r: Interpolated)
    requires Renders(first, variables) && AllRender(rest, variables)
    requires Add(done, first, variables).Ok? && Extends(Add(done, first, variables).value, rest, variables, r)
    ensures AllRender([first] + rest, variables) && Extends(done, [first] + rest, variables, r)
  {
    AnySecretSplits(first, rest, variables);
    AddIs(done, first, variables);
    assert ([first] + rest)[1..] == rest;
    AppendAssociates(done.value, ValueOf(first, variables), Values(rest, variables));
    AppendAssociates(done.names, if first.Placeholder? then [first.name] else [], Names(rest));
  }

  /** Rendering succeeds exactly when every segment renders, and puts the values together in order. */
  lemma {:induction false} RenderedIs(done: Interpolated, segments: seq<Segment>, variables: Variables)
    ensures RenderedOnto(done, segments, variables).Ok? <==> AllRender(segments, variables)
    ensures AllRender(segments, variables) ==> Extends(done, segments, variables, RenderedOnto(done, segments, variables).value)
    decreases |segments|
  {
    if segments == [] {
      ExtendsNothing(done, variables);
    } else {
      var first, rest := segments[0], segments[1..];
      assert segments == [first] + rest;
      AnySecretSplits(first, rest, variables);
      AddIs(done, first, variables);
      if Renders(first, variables) {
        var next := Add(done, first, variables).value;
        RenderedIs(next, rest, variables);
        if AllRender(rest, variables) {
          ExtendsFirst(done, first, rest, variables, RenderedOnto(next, rest, variables).value);
        }
      }
    }
  }

  /**
   Interpolation succeeds exactly when every placeholder has a valid name whose alias
   chain ends in a set value or secret; it then yields the literals, escapes and values in
   order, without reading any value again.
   */
  lemma InterpolatesIff(source: Text, variables: Variables)
    ensures var segments, result := Segments(source, 0), Rendered(source, variables);
            && (result.Ok? <==> AllRender(segments, variables))
            && (result.Ok? ==> result.value.value == Values(segments, variables) && result.value.names == Names(segments))
  {
    var segments := Segments(source, 0);
    RenderedIs(NOTHING, segments, variables);
    if AllRender(segments, variables) {
      assert [] + Values(segments, variables) == Values(segments, variables);
      assert [] + Names(segments) == Names(segments);
    }
  }

  /** The first placeholder that does not render decides the error: its name, or what its chain comes to. */
  lemma FirstErrorWins(source: Text, variables: Variables, before: seq<Segment>, failing: Segment, rest: seq<Segment>)
    requires Segments(source, 0) == before + ([failing] + rest) && AllRender(before, variables) && !Renders(failing, variables)
    ensures failing.Placeholder?
    ensures !ValidName(failing.name) ==> Rendered(source, variables) == Err(InvalidPlaceholder(failing.name))
    ensures ValidName(failing.name) ==>
              Resolve(variables, failing.name).Err? && Rendered(source, variables) == Err(Resolve(variables, failing.name).error)
  {
    RenderedIs(NOTHING, before, variables);
    RenderedAppend(NOTHING, before, [failing] + rest, variables);
    var done := RenderedOnto(NOTHING, before, variables).value;
    RenderedNext(done, failing, rest, variables);
    ResolvesToText(variables, failing.name);
  }

  /** The chain of a placeholder ends in a secret. */
  ghost predicate ChainIsSecret(segment: Segment, variables: Variables) {
    segment.Placeholder? && ChainHasSecret(variables, segment.name)
  }

  /**
   The result is secret exactly when some placeholder's alias chain ends in a secret, and
   exactly when it carries secret references.
   */
  lemma SecretIffReferences(source: Text, variables: Variables)
    requires Rendered(source, variables).Ok?
    ensures var r := Rendered(source, variables).value;
            && (r.secret <==> exists s :: s in Segments(source, 0) && ChainIsSecret(s, variables))
            && (r.secret <==> r.references != [])
  {
    var segments := Segments(source, 0);
    RenderedIs(NOTHING, segments, variables);
    forall s | s in segments
      ensures IsSecretPlaceholder(s, variables) <==> ChainIsSecret(s, variables)
    {
      SecretPlaceholderIff(s, variables);
    }
  }

  lemma SecretPlaceholderIff(s: Segment, variables: Variables)
    requires Renders(s, variables)
    ensures IsSecretPlaceholder(s, variables) <==> ChainIsSecret(s, variables)
  {
    if s.Placeholder? {
      ResolvesToText(variables, s.name);
      SecretIffChainEndsInSecret(variables, s.name);
    }
  }

  // ---------------------------------------------------------------------
  // Escaped literals
  // ---------------------------------------------------------------------

  /** The text with every opening doubled, scanned from an index on. */
  function Doubled(text: Text, from: nat): Text
    requires from <= |text|
    decreases |text| - from
  {
    match IndexOf(text, OPENING, from)
    case None => text[from..]
    case Some(o) => text[from..o] + ESCAPE + Doubled(text, o + 2)
  }

  lemma IndexIs(text: Text, part: Text, from: nat, i: nat)
    requires from <= i && StandsAt(text, part, i) && forall k: nat :: from <= k < i ==> !StandsAt(text, part, k)
    ensures IndexOf(text, part, from) == Some(i)
  {
    IndexIsFirst(text, part, from, i);
  }

  /** Two openings at neighbouring units. */
  lemma OpeningStands(text: Text, i: nat)
    ensures StandsAt(text, OPENING, i) <==> i + 2 <= |text| && text[i] == LESS && text[i + 1] == LESS
  {
    assert OPENING[0] == LESS && OPENING[1] == LESS;
    if StandsAt(text, OPENING, i) {
      assert text[i + 0] == OPENING[0] && text[i + 1] == OPENING[1];
    }
  }

  /** The source is a prefix, a part, an escape and a rest. */
  predicate HasPart(source: Text, prefix: nat, part: Text) {
    var at := prefix + |part|;
    && at + 4 <= |source| && StandsAt(source, ESCAPE, at) && source[at] == LESS && source[at + 1] == LESS
    && source[prefix..at] == part
  }

  lemma PartStands(source: Text, start: nat, part: Text, rest: Text)
    requires start <= |source| && source[start..] == part + ESCAPE + rest
    ensures HasPart(source, start, part) && source[start + |part| + 4..] == rest
  {
    var at := start + |part|;
    DropTwice(source, start, |part| + 4);
    DropPrefix(part + ESCAPE, rest);
    forall i | 0 <= i < |part| + 4
      ensures source[start + i] == (part + ESCAPE)[i]
    {
      assert source[start..][i] == source[start + i];
    }
    assert source[start..at] == part;
  }

  /** A text of which a part is doubled shows the same literal, then an escape. */
  lemma DoubledShows(text: Text, from: nat, o: nat, source: Text, start: nat)
    requires from <= |text| && IndexOf(text, OPENING, from) == Some(o) && HasPart(source, start, text[from..o])
    ensures IndexOf(source, OPENING, start) == Some(start + (o - from)) && StandsAt(source, ESCAPE, start + (o - from))
  {
    var at := start + (o - from);
    OpeningStands(source, at);
    forall k: nat | start <= k < at
      ensures !StandsAt(source, OPENING, k)
    {
      NotYetDoubled(text, from, o, source, start, k);
    }
    IndexIs(source, OPENING, start, at);
  }

  /** Before the doubled opening there is none, as there is none before the opening in the text. */
  lemma NotYetDoubled(text: Text, from: nat, o: nat, source: Text, start: nat, k: nat)
    requires from <= |text| && IndexOf(text, OPENING, from) == Some(o) && HasPart(source, start, text[from..o])
    requires start <= k < start + (o - from)
    ensures !StandsAt(source, OPENING, k)
  {
    var j := from + (k - start);
    OpeningStands(source, k);
    OpeningStands(text, j);
    OpeningStands(text, o);
    assert source[k] == source[start..start + (o - from)][k - start] == text[j];
    if j + 1 < o {
      assert source[k + 1] == source[start..start + (o - from)][k + 1 - start] == text[j + 1];
    }
    if StandsAt(text, OPENING, j) {
      IndexIsFirst(text, OPENING, from, j);
    }
  }

  lemma PlainShows(source: Text, start: nat, text: Text, from: nat)
    requires from <= |text| && IndexOf(text, OPENING, from) == None && start <= |source| && source[start..] == text[from..]
    ensures IndexOf(source, OPENING, start) == None
  {
    var found := IndexOf(source, OPENING, start);
    if found.Some? {
      var k := found.value - start;
      OpeningStands(source, found.value);
      OpeningStands(text, from + k);
      assert source[start..][k] == text[from..][k] && source[start..][k + 1] == text[from..][k + 1];
      IndexIsFirst(text, OPENING, from, from + k);
    }
  }

  /** The segments of a text without an opening: itself, unless it is empty. */
  lemma PlainSegments(source: Text, start: nat, text: Text, from: nat)
    requires from <= |text| && IndexOf(text, OPENING, from) == None && start <= |source| && source[start..] == text[from..]
    ensures Segments(source, start) == if from == |text| then [] else [Literal(text[from..])]
  {
    PlainShows(source, start, text, from);
    if from < |text| {
      assert Segments(source, |source|) == [];
    }
  }

  lemma PlainRenders(done: Interpolated, text: Text, from: nat, segments: seq<Segment>, variables: Variables)
    requires from <= |text| && segments == if from == |text| then [] else [Literal(text[from..])]
    ensures RenderedOnto(done, segments, variables) == Ok(done.(value := done.value + text[from..]))
  {
    if from == |text| {
      assert text[from..] == [] && done.value + [] == done.value;
    } else {
      OneRendered(done, Literal(text[from..]), variables);
    }
  }

  lemma EscapePiece(source: Text, start: nat, at: nat, part: Text)
    requires IndexOf(source, OPENING, start) == Some(at) && StandsAt(source, ESCAPE, at) && source[start..at] == part
    ensures start < |source| && Piece(source, start) == ([Literal(part), Escaped], at + 4)
  {
  }

  lemma SegmentsNext(source: Text, start: nat, piece: seq<Segment>, next: nat, after: seq<Segment>)
    requires start < |source| && Piece(source, start) == (piece, next) && after == Segments(source, next)
    ensures Segments(source, start) == piece + after
  {
  }

  /** A literal and an escape render as the literal and an opening. */
  lemma EscapeRenders(done: Interpolated, part: Text, segments: seq<Segment>, rest: seq<Segment>, variables: Variables)
    requires segments == [Literal(part), Escaped] + rest
    ensures RenderedOnto(done, segments, variables) == RenderedOnto(done.(value := done.value + part + OPENING), rest, variables)
  {
    TwoRendered(done, Literal(part), Escaped, variables);
    RenderedAppend(done, [Literal(part), Escaped], rest, variables);
  }

  /** Where a doubled part stands, the source shows the part and an escape. */
  lemma DoubledPartShows(text: Text, from: nat, o: nat, source: Text, start: nat, part: Text, at: nat)
    requires from <= |text| && IndexOf(text, OPENING, from) == Some(o) && part == text[from..o]
    requires HasPart(source, start, part) && at == start + |part|
    ensures start < |source| && Piece(source, start) == ([Literal(part), Escaped], at + 4)
  {
    assert IndexOf(source, OPENING, start) == Some(at) by {
      DoubledShows(text, from, o, source, start);
    }
    EscapePiece(source, start, at, part);
  }

  /** The segments of a doubled text. */
  function DoubledSegments(text: Text, from: nat): seq<Segment>
    requires from <= |text|
    decreases |text| - from
  {
    match IndexOf(text, OPENING, from)
    case None => if from == |text| then [] else [Literal(text[from..])]
    case Some(o) => [Literal(text[from..o]), Escaped] + DoubledSegments(text, o + 2)
  }

  lemma DoubledSegmentsNext(text: Text, from: nat, o: nat, piece: seq<Segment>, after: seq<Segment>)
    requires from <= |text| && IndexOf(text, OPENING, from) == Some(o) && piece == [Literal(text[from..o]), Escaped]
    requires after == DoubledSegments(text, o + 2)
    ensures DoubledSegments(text, from) == piece + after
  {
  }

  lemma DoubledStep(source: Text, start: nat, text: Text, from: nat, o: nat, part: Text, rest: Text, next: nat)
    requires from <= |text| && IndexOf(text, OPENING, from) == Some(o) && part == text[from..o]
    requires start <= |source| && source[start..] == part + ESCAPE + rest && next == start + |part| + 4
    ensures next <= |source| && source[next..] == rest
    ensures start < |source| && Piece(source, start) == ([Literal(part), Escaped], next)
  {
    PartStands(source, start, part, rest);
    DoubledPartShows(text, from, o, source, start, part, start + |part|);
  }

  /** From an index on the source is the doubled text. */
  predicate IsDoubled(source: Text, start: nat, text: Text, from: nat) {
    from <= |text| && start <= |source| && source[start..] == Doubled(text, from)
  }

  /** A doubled text falls apart into its own pieces and escapes. */
  lemma {:induction false} DoubledFallsApart(
    source: Text, start: nat, text: Text, from: nat, segments: seq<Segment>, doubled: seq<Segment>)
    requires IsDoubled(source, start, text, from)
    requires segments == Segments(source, start) && doubled == DoubledSegments(text, from)
    ensures segments == doubled
    decreases |text| - from, 1
  {
    var opening := IndexOf(text, OPENING, from);
    if opening == None {
      DoubledPlain(source, start, text, from);
    } else {
      var o := opening.value;
      var piece, next := [Literal(text[from..o]), Escaped], start + (o - from) + 4;
      DoubledPasses(source, start, text, from, o, piece, next);
      DoubledRestFallsApart(source, next, text, o + 2, Segments(source, next), DoubledSegments(text, o + 2), |text| - from);
      DoubledJoins(source, start, text, from, o, piece, next, Segments(source, next));
    }
  }

  lemma {:induction false} DoubledRestFallsApart(
    source: Text, start: nat, text: Text, from: nat, segments: seq<Segment>, doubled: seq<Segment>, left: nat)
    requires IsDoubled(source, start, text, from) && |text| - from < left
    requires segments == Segments(source, start) && doubled == DoubledSegments(text, from)
    ensures segments == doubled
    decreases left, 0
  {
    DoubledFallsApart(source, start, text, from, segments, doubled);
  }

  lemma DoubledPlain(source: Text, start: nat, text: Text, from: nat)
    requires IsDoubled(source, start, text, from)
    requires IndexOf(text, OPENING, from) == None
    ensures Segments(source, start) == DoubledSegments(text, from)
  {
    PlainSegments(source, start, text, from);
  }

  lemma DoubledPasses(source: Text, start: nat, text: Text, from: nat, o: nat, piece: seq<Segment>, next: nat)
    requires IsDoubled(source, start, text, from)
    requires IndexOf(text, OPENING, from) == Some(o) && piece == [Literal(text[from..o]), Escaped] && next == start + (o - from) + 4
    ensures IsDoubled(source, next, text, o + 2)
    ensures start < |source| && Piece(source, start) == (piece, next)
  {
    DoubledNext(text, from, o);
    DoubledStep(source, start, text, from, o, text[from..o], Doubled(text, o + 2), next);
  }

  lemma DoubledNext(text: Text, from: nat, o: nat)
    requires from <= |text| && IndexOf(text, OPENING, from) == Some(o)
    ensures Doubled(text, from) == text[from..o] + ESCAPE + Doubled(text, o + 2)
  {
  }

  lemma DoubledJoins(source: Text, start: nat, text: Text, from: nat, o: nat, piece: seq<Segment>, next: nat, after: seq<Segment>)
    requires from <= |text| && IndexOf(text, OPENING, from) == Some(o) && piece == [Literal(text[from..o]), Escaped]
    requires start < |source| && Piece(source, start) == (piece, next)
    requires after == Segments(source, next) && after == DoubledSegments(text, o + 2)
    ensures Segments(source, start) == DoubledSegments(text, from)
  {
    SegmentsNext(source, start, piece, next, after);
    DoubledSegmentsNext(text, from, o, piece, after);
  }

  /** The pieces and escapes of a doubled text render as the text. */
  lemma {:induction false} DoubledRenders(text: Text, from: nat, done: Interpolated, variables: Variables)
    requires from <= |text|
    ensures RenderedOnto(done, DoubledSegments(text, from), variables) == Ok(done.(value := done.value + text[from..]))
    decreases |text| - from
  {
    var opening := IndexOf(text, OPENING, from);
    if opening == None {
      PlainRenders(done, text, from, DoubledSegments(text, from), variables);
    } else {
      var o := opening.value;
      var part := text[from..o];
      EscapeRenders(done, part, DoubledSegments(text, from), DoubledSegments(text, o + 2), variables);
      DoubledRenders(text, o + 2, done.(value := done.value + part + OPENING), variables);
      LiteralJoins(done.value, text, from, o);
    }
  }

  lemma LiteralJoins(before: Text, text: Text, from: nat, o: nat)
    requires from <= o && StandsAt(text, OPENING, o)
    ensures before + text[from..o] + OPENING + text[o + 2..] == before + text[from..]
  {
    StandingSlice(text, OPENING, o);
    SliceSplits(text, from, o, |text|);
    SliceSplits(text, o, o + 2, |text|);
  }

  /** Doubling every opening of any literal makes it interpolate to itself, whatever the variables. */
  lemma EscapedLiteralIsItself(literal: Text, variables: Variables)
    ensures Rendered(Doubled(literal, 0), variables) == Ok(Interpolated(literal, false, [], []))
  {
    DropTwice(Doubled(literal, 0), 0, 0);
    DoubledFallsApart(Doubled(literal, 0), 0, literal, 0, Segments(Doubled(literal, 0), 0), DoubledSegments(literal, 0));
    DoubledRenders(literal, 0, NOTHING, variables);
    assert [] + literal[0..] == literal;
  }
}
