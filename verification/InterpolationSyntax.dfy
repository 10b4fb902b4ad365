/** What counts as a placeholder, an escape or plain text. */
module InterpolationSyntax {
  import opened Alphabets
  import opened Wrappers
  import opened CodeUnits
  import opened Interpolation
  import opened InterpolationLaws

  /** The unit stands twice at an index: 0x3C opens and 0x3E closes. */
  predicate TwiceAt(source: Text, u: Unit, i: nat) {
    i + 1 < |source| && source[i] == u && source[i + 1] == u
  }

  ghost predicate NeverTwice(source: Text, u: Unit, from: nat) {
    forall i: nat {:trigger TwiceAt(source, u, i)} :: from <= i ==> !TwiceAt(source, u, i)
  }

  /** The first place from an index on where the unit stands twice. */
  predicate FirstTwice(source: Text, u: Unit, from: nat, at: nat) {
    from <= at && TwiceAt(source, u, at) && forall i: nat {:trigger TwiceAt(source, u, i)} :: from <= i < at ==> !TwiceAt(source, u, i)
  }

  lemma StandsTwice(source: Text, part: Text, u: Unit, i: nat)
    requires part == [u, u]
    ensures StandsAt(source, part, i) <==> TwiceAt(source, u, i)
  {
    assert part[0] == u && part[1] == u;
    if StandsAt(source, part, i) {
      assert source[i + 0] == part[0] && source[i + 1] == part[1];
    }
  }

  lemma NowhereIs(source: Text, part: Text, u: Unit, from: nat)
    requires part == [u, u] && NeverTwice(source, u, from)
    ensures IndexOf(source, part, from) == None
  {
    if IndexOf(source, part, from).Some? {
      StandsTwice(source, part, u, IndexOf(source, part, from).value);
    }
  }

  lemma FirstIs(source: Text, part: Text, u: Unit, from: nat, at: nat)
    requires part == [u, u] && FirstTwice(source, u, from, at)
    ensures IndexOf(source, part, from) == Some(at)
  {
    StandsTwice(source, part, u, at);
    IndexIsFirst(source, part, from, at);
    var first := IndexOf(source, part, from).value;
    StandsTwice(source, part, u, first);
  }

  lemma EscapeIs(source: Text, i: nat)
    ensures StandsAt(source, ESCAPE, i) <==> TwiceAt(source, 0x3C, i) && TwiceAt(source, 0x3C, i + 2)
  {
    assert ESCAPE[0] == ESCAPE[1] == ESCAPE[2] == ESCAPE[3] == 0x3C;
    if StandsAt(source, ESCAPE, i) {
      assert source[i + 0] == ESCAPE[0] && source[i + 1] == ESCAPE[1] && source[i + 2] == ESCAPE[2] && source[i + 3] == ESCAPE[3];
    }
  }

  /** Without a further opening the rest is plain text. */
  lemma RestIsPlain(source: Text, cursor: nat)
    requires cursor < |source| && NeverTwice(source, 0x3C, cursor)
    ensures Segments(source, cursor) == [Literal(source[cursor..])]
  {
    NowhereIs(source, OPENING, 0x3C, cursor);
    assert Segments(source, |source|) == [];
  }

  /** The first opening, if doubled, is an escape. */
  lemma DoubledOpeningIsEscape(source: Text, cursor: nat, opening: nat)
    requires cursor < |source| && FirstTwice(source, 0x3C, cursor, opening) && TwiceAt(source, 0x3C, opening + 2)
    ensures Segments(source, cursor) == [Literal(source[cursor..opening]), Escaped] + Segments(source, opening + 4)
  {
    FirstIs(source, OPENING, 0x3C, cursor, opening);
    EscapeIs(source, opening);
    EscapePiece(source, cursor, opening, source[cursor..opening]);
    SegmentsNext(source, cursor, [Literal(source[cursor..opening]), Escaped], opening + 4, Segments(source, opening + 4));
  }

  /** The first opening, if single, and the first closing after it make a placeholder of what is between. */
  lemma OpeningToClosingIsPlaceholder(source: Text, cursor: nat, opening: nat, closing: nat)
    requires cursor < |source| && FirstTwice(source, 0x3C, cursor, opening) && !TwiceAt(source, 0x3C, opening + 2)
    requires FirstTwice(source, 0x3E, opening + 2, closing)
    ensures Segments(source, cursor)
            == [Literal(source[cursor..opening]), Placeholder(source[opening + 2..closing])] + Segments(source, closing + 2)
  {
    FirstIs(source, OPENING, 0x3C, cursor, opening);
    FirstIs(source, CLOSING, 0x3E, opening + 2, closing);
    EscapeIs(source, opening);
    var piece := [Literal(source[cursor..opening]), Placeholder(source[opening + 2..closing])];
    PlaceholderShown(source, cursor, opening, closing, piece);
    SegmentsNext(source, cursor, piece, closing + 2, Segments(source, closing + 2));
  }

  lemma PlaceholderShown(source: Text, cursor: nat, opening: nat, closing: nat, piece: seq<Segment>)
    requires cursor < |source| && IndexOf(source, OPENING, cursor) == Some(opening) && !StandsAt(source, ESCAPE, opening)
    requires IndexOf(source, CLOSING, opening + 2) == Some(closing)
    requires piece == [Literal(source[cursor..opening]), Placeholder(source[opening + 2..closing])]
    ensures Piece(source, cursor) == (piece, closing + 2)
  {
  }

  /** A single opening that is never closed is plain text with all that follows. */
  lemma UnclosedIsPlain(source: Text, cursor: nat, opening: nat)
    requires cursor < |source| && FirstTwice(source, 0x3C, cursor, opening) && !TwiceAt(source, 0x3C, opening + 2)
    requires NeverTwice(source, 0x3E, opening + 2)
    ensures Segments(source, cursor) == [Literal(source[cursor..opening]), Literal(source[opening..])]
  {
    FirstIs(source, OPENING, 0x3C, cursor, opening);
    NowhereIs(source, CLOSING, 0x3E, opening + 2);
    EscapeIs(source, opening);
    assert Segments(source, |source|) == [];
  }

  // ---------------------------------------------------------------------
  // Names
  // ---------------------------------------------------------------------

  /** The unit is one of the characters. */
  predicate UnitOf(u: Unit, chars: string) {
    exists i :: 0 <= i < |chars| && chars[i] as int == u
  }

  predicate LetterOrDigit(u: Unit) {
    UnitOf(u, UPPER) || UnitOf(u, LOWER) || UnitOf(u, DIGITS)
  }

  lemma UpperIs(u: Unit)
    ensures UnitOf(u, UPPER) <==> 0x41 <= u <= 0x5A
  {
    if i :| 0 <= i < |UPPER| && UPPER[i] as int == u {
      UpperAt(i);
    }
    if 0x41 <= u <= 0x5A {
      UpperAt(u - 0x41);
    }
  }

  lemma LowerIs(u: Unit)
    ensures UnitOf(u, LOWER) <==> 0x61 <= u <= 0x7A
  {
    if i :| 0 <= i < |LOWER| && LOWER[i] as int == u {
      LowerAt(i);
    }
    if 0x61 <= u <= 0x7A {
      LowerAt(u - 0x61);
    }
  }

  lemma DigitIs(u: Unit)
    ensures UnitOf(u, DIGITS) <==> 0x30 <= u <= 0x39
  {
    if i :| 0 <= i < |DIGITS| && DIGITS[i] as int == u {
      DigitAt(i);
    }
    if 0x30 <= u <= 0x39 {
      DigitAt(u - 0x30);
    }
  }

  /** Letters and underscores may begin a name; digits, dots and hyphens may follow. */
  lemma NamesAre(name: Text)
    ensures ValidName(name)
            <==> && name != [] && (UnitOf(name[0], UPPER) || UnitOf(name[0], LOWER) || name[0] == '_' as int)
                 && forall u :: u in name ==> LetterOrDigit(u) || u == '_' as int || u == '.' as int || u == '-' as int
  {
    forall u: Unit
      ensures UnitOf(u, UPPER) <==> 0x41 <= u <= 0x5A
      ensures UnitOf(u, LOWER) <==> 0x61 <= u <= 0x7A
      ensures UnitOf(u, DIGITS) <==> 0x30 <= u <= 0x39
    {
      UpperIs(u);
      LowerIs(u);
      DigitIs(u);
    }
  }
}
