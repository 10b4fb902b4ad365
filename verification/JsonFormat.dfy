/** The JSON white-space formatter. */
module JsonFormat {
  // A single pass over any text that computes the layout of the text stripped of white space.

  import opened Sequences
  import opened Wrappers
  import opened CodeUnits
  import opened JsonLayout

  // ---------------------------------------------------------------------
  // Neighbours
  // ---------------------------------------------------------------------

  function FirstSolid(text: Text): Option<Unit> {
    if text == [] then None else if !IsSpace(text[0]) then Some(text[0]) else FirstSolid(text[1..])
  }

  function LastSolid(text: Text): Option<Unit> {
    if text == [] then None
    else if !IsSpace(text[|text| - 1]) then Some(text[|text| - 1])
    else LastSolid(text[..|text| - 1])
  }

  /** The next character that is no white space, from a position on. */
  method NextNonWhitespace(source: Text, from: nat) returns (c: Option<Unit>)
    requires from <= |source|
    ensures c == FirstSolid(source[from..])
  {
    var index := from;
    while index < |source|
      invariant from <= index <= |source| && FirstSolid(source[from..]) == FirstSolid(source[index..])
    {
      assert source[index..][1..] == source[index + 1..];
      if !IsSpace(source[index]) {
        return Some(source[index]);
      }
      index := index + 1;
    }
    c := None;
  }

  /** The last character that is no white space, up to a position. */
  method PreviousNonWhitespace(source: Text, from: int) returns (c: Option<Unit>)
    requires -1 <= from < |source|
    ensures c == LastSolid(source[..from + 1])
  {
    var index := from;
    while index >= 0
      invariant -1 <= index <= from && LastSolid(source[..from + 1]) == LastSolid(source[..index + 1])
    {
      assert source[..index + 1][..index] == source[..index];
      if !IsSpace(source[index]) {
        return Some(source[index]);
      }
      index := index - 1;
    }
    c := None;
  }

  /** Outside literals, the neighbour before is the last character that stripping keeps. */
  lemma {:induction false} LastSolidIsLast(text: Text)
    requires ModeAfter(text) == Outside
    ensures LastSolid(text) == if Strip(text) == [] then None else Some(Strip(text)[|Strip(text)| - 1])
  {
    if text != [] && ModeAfter(text[..|text| - 1]) == Outside && IsSpace(text[|text| - 1]) {
      LastSolidIsLast(text[..|text| - 1]);
    }
  }

  lemma {:induction false} StripGrows(text: Text, more: Text)
    ensures Strip(text) <= Strip(text + more)
  {
    if more == [] {
      assert text + more == text;
    } else {
      var init, c := more[..|more| - 1], more[|more| - 1];
      StripGrows(text, init);
      assert text + more == text + init + [c];
      AppendOne(text + init, c);
    }
  }

  /** Outside literals, the neighbour after is the next character that stripping keeps. */
  lemma {:induction false} FirstSolidIsNext(text: Text, rest: Text)
    requires ModeAfter(text) == Outside
    ensures |Strip(text)| <= |Strip(text + rest)|
    ensures var k, all := |Strip(text)|, Strip(text + rest);
            FirstSolid(rest) == if k < |all| then Some(all[k]) else None
    decreases |rest|
  {
    StripGrows(text, rest);
    if rest == [] {
      assert text + rest == text;
    } else {
      var c := rest[0];
      AppendOne(text, c);
      assert text + rest == text + [c] + rest[1..];
      if IsSpace(c) {
        FirstSolidIsNext(text + [c], rest[1..]);
      } else {
        StripGrows(text + [c], rest[1..]);
      }
    }
  }

  // ---------------------------------------------------------------------
  // The pass
  // ---------------------------------------------------------------------

  /** The scanner stands before character `i` of the source and before character `k` of the stripped text. */
  ghost predicate At(source: Text, i: nat, k: nat) {
    && i <= |source| && k <= |Strip(source)|
    && Strip(source[..i]) == Strip(source)[..k]
    && ModeAfter(source[..i]) == ModeAfter(Strip(source)[..k])
  }

  lemma Scanned(source: Text, i: nat)
    requires i <= |source|
    ensures At(source, i, |Strip(source[..i])|)
  {
    assert source == source[..i] + source[i..];
    StripGrows(source[..i], source[i..]);
    StripKeepsMode(source[..i]);
  }

  lemma Moves(source: Text, i: nat, k: nat)
    requires At(source, i, k) && i < |source|
    ensures ModeAfter(source[..i + 1]) == NextMode(ModeAfter(source[..i]), source[i])
    ensures ModeAfter(source[..i]) == Outside && IsSpace(source[i]) ==> At(source, i + 1, k)
    ensures !(ModeAfter(source[..i]) == Outside && IsSpace(source[i])) ==>
              At(source, i + 1, k + 1) && k < |Strip(source)| && Strip(source)[k] == source[i]
  {
    Scanned(source, i + 1);
    TakeNext(source, i);
    AppendOne(source[..i], source[i]);
  }

  lemma Neighbours(source: Text, i: nat, k: nat)
    requires At(source, i, k) && i < |source| && ModeAfter(source[..i]) == Outside && !IsSpace(source[i])
    ensures k < |Strip(source)| && Strip(source)[k] == source[i] && OutsideAt(Strip(source), k)
    ensures LastSolid(source[..i]) == if k == 0 then None else Some(Strip(source)[k - 1])
    ensures source[i] != QUOTE ==>
              FirstSolid(source[i + 1..]) == if k + 1 < |Strip(source)| then Some(Strip(source)[k + 1]) else None
  {
    Moves(source, i, k);
    LastSolidIsLast(source[..i]);
    if source[i] != QUOTE {
      SplitAt(source, i + 1);
      FirstSolidIsNext(source[..i + 1], source[i + 1..]);
    }
  }

  /** What the pass writes around a character outside literals, and the new indentation. */
  method Place(source: Text, index: nat, indentation: nat, ghost k: nat) returns (before: Text, after: Text, indented: nat)
    requires At(source, index, k) && index < |source| && ModeAfter(source[..index]) == Outside
    requires !IsSpace(source[index]) && source[index] != QUOTE && indentation == Indent(Strip(source), k)
    ensures k < |Strip(source)| && Strip(source)[k] == source[index]
    ensures before == Before(Strip(source), k) && after == After(Strip(source), k) && indented == Indent(Strip(source), k + 1)
  {
    Neighbours(source, index, k);
    before, after, indented := [], [], indentation;
    var character := source[index];
    if character == OPEN_BRACE || character == OPEN_BRACKET {
      var next := NextNonWhitespace(source, index + 1);
      if next != Some(if character == OPEN_BRACE then CLOSE_BRACE else CLOSE_BRACKET) {
        indented := indentation + 1;
        after := Break(indented);
      }
    } else if character == CLOSE_BRACE || character == CLOSE_BRACKET {
      var previous := PreviousNonWhitespace(source, index - 1);
      if previous != Some(if character == CLOSE_BRACE then OPEN_BRACE else OPEN_BRACKET) {
        indented := if indentation - 1 > 0 then indentation - 1 else 0;
        before := Break(indented);
      }
    } else if character == COMMA {
      after := Break(indentation);
    } else if character == COLON {
      after := [SPACE];
    }
  }

  function ModeOf(inString: bool, escaped: bool): Mode {
    if !inString then Outside else if escaped then Escaped else Inside
  }

  lemma LiteralIsCopied(text: Text, k: nat)
    requires k < |text| && (ModeAfter(text[..k]) != Outside || text[k] == QUOTE)
    ensures LayoutTo(text, k + 1) == LayoutTo(text, k) + [text[k]] && Indent(text, k + 1) == Indent(text, k)
  {
    assert Before(text, k) == [] && After(text, k) == [];
  }

  /** Inserts the conventional white space in one pass; the result is the layout of the stripped source. */
  method FormatWhitespace(source: Text) returns (result: Text)
    ensures result == Layout(Strip(source))
  {
    result := [];
    var indentation: nat := 0;
    var inString, escaped := false, false;
    ghost var k: nat := 0;
    ghost var text := Strip(source);
    for index := 0 to |source|
      invariant At(source, index, k)
      invariant ModeAfter(source[..index]) == ModeOf(inString, escaped) && (escaped ==> inString)
      invariant result == LayoutTo(text, k) && indentation == Indent(text, k)
    {
      var character := source[index];
      Moves(source, index, k);
      if inString || character == QUOTE {
        LiteralIsCopied(text, k);
        result := result + [character];
        k := k + 1;
        if !inString {
          inString := true;
        } else if escaped {
          escaped := false;
        } else if character == BACKSLASH {
          escaped := true;
        } else if character == QUOTE {
          inString := false;
        }
      } else if !IsSpace(character) {
        var before, after, indented := Place(source, index, indentation, k);
        result := result + before + [character] + after;
        indentation := indented;
        k := k + 1;
      }
    }
    assert source[..|source|] == source;
  }

  // ---------------------------------------------------------------------
  // What the formatter guarantees
  // ---------------------------------------------------------------------

  /** The result of the formatter. */
  function Formatted(source: Text): Text {
    Layout(Strip(source))
  }

  /** Formatting changes nothing but white space outside string literals. */
  lemma OnlyOuterSpaceChanges(source: Text)
    ensures Strip(Formatted(source)) == Strip(source)
  {
    StripKeepsMode(source);
    StripLayout(Strip(source));
  }

  /** Two texts are formatted alike exactly when they differ only in white space outside string literals. */
  lemma FormattedAlikeIff(a: Text, b: Text)
    ensures Formatted(a) == Formatted(b) <==> Strip(a) == Strip(b)
  {
    OnlyOuterSpaceChanges(a);
    OnlyOuterSpaceChanges(b);
  }

  /** Formatting twice is formatting once. */
  lemma FormattingIsIdempotent(source: Text)
    ensures Formatted(Formatted(source)) == Formatted(source)
  {
    OnlyOuterSpaceChanges(source);
  }
}
