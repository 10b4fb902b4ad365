/** Placeholders in text: one pass, escapes and the taint of secrets. */
module Interpolation {
  import opened Sequences
  import opened Wrappers
  import opened CodeUnits
  import opened AliasChains

  const LESS: Unit := 0x3C
  const GREATER: Unit := 0x3E
  const OPENING: Text := [LESS, LESS]
  const CLOSING: Text := [GREATER, GREATER]
  const ESCAPE: Text := [LESS, LESS, LESS, LESS]

  predicate StandsAt(text: Text, part: Text, i: nat) {
    i + |part| <= |text| && forall k {:trigger part[k]} :: 0 <= k < |part| ==> text[i + k] == part[k]
  }

  lemma StandingSlice(text: Text, part: Text, i: nat)
    requires i + |part| <= |text|
    ensures StandsAt(text, part, i) <==> text[i..i + |part|] == part
  {
    if text[i..i + |part|] == part {
      forall k | 0 <= k < |part|
        ensures text[i + k] == part[k]
      {
        assert text[i..i + |part|][k] == part[k];
      }
    }
  }

  /** The first place of a part from an index on. */
  function IndexOf(text: Text, part: Text, from: nat): (i: Option<nat>)
    ensures i.Some? ==> from <= i.value && StandsAt(text, part, i.value)
    decreases |text| - from
  {
    if from + |part| > |text| then None
    else if StandsAt(text, part, from) then Some(from)
    else IndexOf(text, part, from + 1)
  }

  lemma {:induction false} IndexIsFirst(text: Text, part: Text, from: nat, i: nat)
    requires from <= i && StandsAt(text, part, i)
    ensures IndexOf(text, part, from).Some? && IndexOf(text, part, from).value <= i
    decreases i - from
  {
    if !StandsAt(text, part, from) {
      IndexIsFirst(text, part, from + 1, i);
    }
  }

  /** A letter or underscore, then letters, digits, underscores, dots and hyphens. */
  predicate ValidName(name: Name) {
    && name != []
    && (IsLetter(name[0]) || name[0] == 0x5F)
    && forall u :: u in name ==> IsLetter(u) || 0x30 <= u <= 0x39 || u == 0x5F || u == 0x2E || u == 0x2D
  }

  predicate IsLetter(u: Unit) {
    0x41 <= u <= 0x5A || 0x61 <= u <= 0x7A
  }

  // ---------------------------------------------------------------------
  // Segments of a source
  // ---------------------------------------------------------------------

  datatype Segment = Literal(text: Text) | Escaped | Placeholder(name: Name)

  /** After literal text, an opening that is no escape: a placeholder, or an unclosed rest. */
  function PlaceholderPiece(source: Text, cursor: nat, opening: nat): (piece: (seq<Segment>, nat))
    requires cursor <= opening && StandsAt(source, OPENING, opening)
    ensures cursor < piece.1 <= |source|
  {
    var before := Literal(source[cursor..opening]);
    match IndexOf(source, CLOSING, opening + 2)
    case None => ([before, Literal(source[opening..])], |source|)
    case Some(closing) => ([before, Placeholder(source[opening + 2..closing])], closing + 2)
  }

  /** What a source shows at an index: literal text, then an escape, a placeholder or an unclosed rest; and where it ends. */
  function Piece(source: Text, cursor: nat): (piece: (seq<Segment>, nat))
    requires cursor < |source|
    ensures cursor < piece.1 <= |source|
  {
    match IndexOf(source, OPENING, cursor)
    case None => ([Literal(source[cursor..])], |source|)
    case Some(opening) =>
      if StandsAt(source, ESCAPE, opening) then ([Literal(source[cursor..opening]), Escaped], opening + 4)
      else PlaceholderPiece(source, cursor, opening)
  }

  /** The segments of a source from an index on; they do not depend on any variable. */
  function Segments(source: Text, cursor: nat): seq<Segment>
    requires cursor <= |source|
    decreases |source| - cursor
  {
    if cursor == |source| then [] else var (segments, next) := Piece(source, cursor); segments + Segments(source, next)
  }

  /** The source text of segments. */
  function Written(segments: seq<Segment>): Text {
    Concat(WrittenOne, segments)
  }

  function WrittenOne(segment: Segment): Text {
    match segment
    case Literal(text) => text
    case Escaped => ESCAPE
    case Placeholder(name) => OPENING + name + CLOSING
  }

  /** The segments of the piece are written as this slice of the source. */
  predicate Spells(segments: seq<Segment>, source: Text, cursor: nat, next: nat) {
    cursor <= next <= |source| && Written(segments) == source[cursor..next]
  }

  lemma PieceSpellsSource(source: Text, cursor: nat)
    requires cursor < |source|
    ensures Spells(Piece(source, cursor).0, source, cursor, Piece(source, cursor).1)
  {
    var opening := IndexOf(source, OPENING, cursor);
    if opening == None {
      RestSpelled(source, cursor);
    } else if StandsAt(source, ESCAPE, opening.value) {
      EscapeSpelled(source, cursor, opening.value);
    } else {
      PlaceholderPieceSpelled(source, cursor, opening.value);
    }
  }

  lemma PlaceholderPieceSpelled(source: Text, cursor: nat, opening: nat)
    requires cursor <= opening && StandsAt(source, OPENING, opening)
    ensures var (segments, next) := PlaceholderPiece(source, cursor, opening); Spells(segments, source, cursor, next)
  {
    match IndexOf(source, CLOSING, opening + 2)
    case None => UnclosedSpelled(source, cursor, opening);
    case Some(closing) => PlaceholderSpelled(source, cursor, opening, closing);
  }

  lemma RestSpelled(source: Text, cursor: nat)
    requires cursor <= |source|
    ensures Spells([Literal(source[cursor..])], source, cursor, |source|)
  {
    SliceSplits(source, cursor, cursor, |source|);
    ConcatFew(WrittenOne, Literal(source[cursor..]), Escaped);
  }

  lemma EscapeSpelled(source: Text, cursor: nat, opening: nat)
    requires cursor <= opening && StandsAt(source, ESCAPE, opening)
    ensures Spells([Literal(source[cursor..opening]), Escaped], source, cursor, opening + 4)
  {
    StandingSlice(source, ESCAPE, opening);
    SliceSplits(source, cursor, opening, opening + 4);
    ConcatFew(WrittenOne, Literal(source[cursor..opening]), Escaped);
  }

  lemma UnclosedSpelled(source: Text, cursor: nat, opening: nat)
    requires cursor <= opening <= |source|
    ensures Spells([Literal(source[cursor..opening]), Literal(source[opening..])], source, cursor, |source|)
  {
    SliceSplits(source, cursor, opening, |source|);
    ConcatFew(WrittenOne, Literal(source[cursor..opening]), Literal(source[opening..]));
  }

  lemma PlaceholderSpelled(source: Text, cursor: nat, opening: nat, closing: nat)
    requires cursor <= opening && opening + 2 <= closing && StandsAt(source, OPENING, opening) && StandsAt(source, CLOSING, closing)
    ensures Spells([Literal(source[cursor..opening]), Placeholder(source[opening + 2..closing])], source, cursor, closing + 2)
  {
    PlaceholderStands(source, cursor, opening, closing);
    ConcatFew(WrittenOne, Literal(source[cursor..opening]), Placeholder(source[opening + 2..closing]));
  }

  lemma PlaceholderStands(source: Text, cursor: nat, opening: nat, closing: nat)
    requires cursor <= opening && opening + 2 <= closing && StandsAt(source, OPENING, opening) && StandsAt(source, CLOSING, closing)
    ensures source[cursor..closing + 2] == source[cursor..opening] + (OPENING + source[opening + 2..closing] + CLOSING)
  {
    StandingSlice(source, OPENING, opening);
    StandingSlice(source, CLOSING, closing);
    SliceSplits(source, opening + 2, closing, closing + 2);
    SliceSplits(source, opening, opening + 2, closing + 2);
    SliceSplits(source, cursor, opening, closing + 2);
    AppendAssociates(OPENING, source[opening + 2..closing], CLOSING);
  }

  /** The segments spell the source, character by character. */
  lemma {:induction false} SegmentsSpellSource(source: Text, cursor: nat)
    requires cursor <= |source|
    ensures Written(Segments(source, cursor)) == source[cursor..]
    decreases |source| - cursor
  {
    if cursor < |source| {
      var (segments, next) := Piece(source, cursor);
      PieceSpellsSource(source, cursor);
      SegmentsSpellSource(source, next);
      ConcatAppend(WrittenOne, segments, Segments(source, next));
      SliceSplits(source, cursor, next, |source|);
      SliceSplits(source, cursor, cursor, |source|);
    }
  }

  // ---------------------------------------------------------------------
  // Rendering
  // ---------------------------------------------------------------------

  datatype Interpolated = Interpolated(value: Text, secret: bool, references: seq<SecretReference>, names: seq<Name>)

  /** Sets the reference of its variable: in place when there is one, else at the end. */
  function PutReference(references: seq<SecretReference>, reference: SecretReference): (put: seq<SecretReference>)
    ensures put != []
  {
    if references == [] then [reference]
    else if references[0].variableId == reference.variableId then [reference] + references[1..]
    else [references[0]] + PutReference(references[1..], reference)
  }

  function PutAll(references: seq<SecretReference>, added: seq<SecretReference>): seq<SecretReference> {
    if added == [] then references else PutReference(PutAll(references, added[..|added| - 1]), added[|added| - 1])
  }

  /** One segment after what was rendered so far. */
  function Add(done: Interpolated, segment: Segment, variables: Variables): Result<Interpolated, ResolutionError> {
    match segment
    case Literal(text) => Ok(done.(value := done.value + text))
    case Escaped => Ok(done.(value := done.value + OPENING))
    case Placeholder(name) =>
      if !ValidName(name) then Err(InvalidPlaceholder(name))
      else
        match Resolve(variables, name)
        case Err(e) => Err(e)
        case Ok(r) =>
          Ok(Interpolated(done.value + r.value, done.secret || r.secret, PutAll(done.references, r.references), done.names + [name]))
  }

  const NOTHING := Interpolated([], false, [], [])

  /** The segments in order, after what was rendered before; the first error wins. */
  function RenderedOnto(done: Interpolated, segments: seq<Segment>, variables: Variables): Result<Interpolated, ResolutionError>
    decreases |segments|
  {
    if segments == [] then Ok(done)
    else
      var next := Add(done, segments[0], variables);
      if next.Err? then next else RenderedOnto(next.value, segments[1..], variables)
  }

  function RenderedAfter(done: Result<Interpolated, ResolutionError>, segments: seq<Segment>, variables: Variables)
    : Result<Interpolated, ResolutionError>
  {
    if done.Err? then done else RenderedOnto(done.value, segments, variables)
  }

  function Rendered(source: Text, variables: Variables): Result<Interpolated, ResolutionError> {
    RenderedOnto(NOTHING, Segments(source, 0), variables)
  }

  lemma RenderedNext(done: Interpolated, first: Segment, rest: seq<Segment>, variables: Variables)
    ensures RenderedOnto(done, [first] + rest, variables)
            == RenderedAfter(Add(done, first, variables), rest, variables)
  {
    assert ([first] + rest)[1..] == rest;
  }

  /** Renders what the source shows at the cursor. */
  method RenderPiece(source: Text, cursor: nat, done0: Interpolated, variables: Variables)
    returns (result: Result<Interpolated, ResolutionError>, next: nat)
    requires cursor < |source|
    ensures next == Piece(source, cursor).1 && result == RenderedOnto(done0, Piece(source, cursor).0, variables)
  {
    var opening := IndexOf(source, OPENING, cursor);
    if opening == None {
      var rest := Literal(source[cursor..]);
      OneRendered(done0, rest, variables);
      return Ok(done0.(value := done0.value + source[cursor..])), |source|;
    }
    var at := opening.value;
    var done := done0.(value := done0.value + source[cursor..at]);
    ghost var before := Literal(source[cursor..at]);
    if StandsAt(source, ESCAPE, at) {
      TwoRendered(done0, before, Escaped, variables);
      return Ok(done.(value := done.value + OPENING)), at + 4;
    }
    var closing := IndexOf(source, CLOSING, at + 2);
    if closing == None {
      TwoRendered(done0, before, Literal(source[at..]), variables);
      return Ok(done.(value := done.value + source[at..])), |source|;
    }
    var name := source[at + 2..closing.value];
    TwoRendered(done0, before, Placeholder(name), variables);
    next := closing.value + 2;
    if !ValidName(name) {
      return Err(InvalidPlaceholder(name)), next;
    }
    var resolved := Resolve(variables, name);
    if resolved.Err? {
      return Err(resolved.error), next;
    }
    var r := resolved.value;
    result := Ok(Interpolated(done.value + r.value, done.secret || r.secret, PutAll(done.references, r.references), done.names + [name]));
  }

  lemma OneRendered(done: Interpolated, a: Segment, variables: Variables)
    ensures RenderedOnto(done, [a], variables) == Add(done, a, variables)
  {
    RenderedNext(done, a, [], variables);
    assert [a] + [] == [a];
  }

  lemma TwoRendered(done: Interpolated, a: Segment, b: Segment, variables: Variables)
    requires Add(done, a, variables).Ok?
    ensures RenderedOnto(done, [a, b], variables) == Add(Add(done, a, variables).value, b, variables)
  {
    RenderedNext(done, a, [b], variables);
    OneRendered(Add(done, a, variables).value, b, variables);
    assert [a] + [b] == [a, b];
  }

  lemma {:induction false} RenderedAppend(done: Interpolated, first: seq<Segment>, more: seq<Segment>, variables: Variables)
    ensures RenderedOnto(done, first + more, variables)
            == RenderedAfter(RenderedOnto(done, first, variables), more, variables)
    decreases |first|
  {
    if first == [] {
      assert first + more == more;
    } else {
      assert (first + more)[1..] == first[1..] + more;
      if Add(done, first[0], variables).Ok? {
        RenderedAppend(Add(done, first[0], variables).value, first[1..], more, variables);
      }
    }
  }

  /** Interpolates one text in a single pass: values that are put in are not read again. */
  method Interpolate(source: Text, variables: Variables) returns (result: Result<Interpolated, ResolutionError>)
    ensures result == Rendered(source, variables)
  {
    var done := NOTHING;
    var cursor := 0;
    ghost var goal := Rendered(source, variables);
    while cursor < |source|
      invariant 0 <= cursor <= |source| && RenderedOnto(done, Segments(source, cursor), variables) == goal
      decreases |source| - cursor
    {
      RenderedAppend(done, Piece(source, cursor).0, Segments(source, Piece(source, cursor).1), variables);
      var rendered, next := RenderPiece(source, cursor, done, variables);
      if rendered.Err? {
        return rendered;
      }
      done := rendered.value;
      cursor := next;
    }
    result := Ok(done);
  }
}
