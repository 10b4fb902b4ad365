/** The layout of JSON text without white space outside strings. */
module JsonLayout {
  import opened Sequences
  import opened CodeUnits

  const QUOTE: Unit := 0x22
  const COMMA: Unit := 0x2C
  const COLON: Unit := 0x3A
  const OPEN_BRACKET: Unit := 0x5B
  const BACKSLASH: Unit := 0x5C
  const CLOSE_BRACKET: Unit := 0x5D
  const OPEN_BRACE: Unit := 0x7B
  const CLOSE_BRACE: Unit := 0x7D
  const NEWLINE: Unit := 0x0A
  const SPACE: Unit := 0x20

  /** Where a character stands: outside a string literal, in one, or after a backslash in one. */
  datatype Mode = Outside | Inside | Escaped

  function NextMode(mode: Mode, c: Unit): Mode {
    match mode
    case Outside => if c == QUOTE then Inside else Outside
    case Inside => if c == BACKSLASH then Escaped else if c == QUOTE then Outside else Inside
    case Escaped => Inside
  }

  function ModeAfter(text: Text): Mode {
    if text == [] then Outside else NextMode(ModeAfter(text[..|text| - 1]), text[|text| - 1])
  }

  /** The text without the white space outside its string literals. */
  function Strip(text: Text): Text {
    if text == [] then []
    else
      var init, c := text[..|text| - 1], text[|text| - 1];
      Strip(init) + if ModeAfter(init) == Outside && IsSpace(c) then [] else [c]
  }

  predicate IsOpen(c: Unit) {
    c == OPEN_BRACE || c == OPEN_BRACKET
  }

  predicate IsClose(c: Unit) {
    c == CLOSE_BRACE || c == CLOSE_BRACKET
  }

  function Closer(c: Unit): Unit {
    if c == OPEN_BRACE then CLOSE_BRACE else CLOSE_BRACKET
  }

  function Opener(c: Unit): Unit {
    if c == CLOSE_BRACE then OPEN_BRACE else OPEN_BRACKET
  }

  predicate OutsideAt(text: Text, k: nat)
    requires k < |text|
  {
    ModeAfter(text[..k]) == Outside
  }

  /** Character `k` opens a block: a bracket that is not closed at once. */
  predicate Opens(text: Text, k: nat)
    requires k < |text|
  {
    OutsideAt(text, k) && IsOpen(text[k]) && !(k + 1 < |text| && text[k + 1] == Closer(text[k]))
  }

  /** Character `k` closes a block. */
  predicate Closes(text: Text, k: nat)
    requires k < |text|
  {
    OutsideAt(text, k) && IsClose(text[k]) && !(k > 0 && text[k - 1] == Opener(text[k]))
  }

  /** The indentation after the first `k` characters; it never drops below the margin. */
  function Indent(text: Text, k: nat): nat
    requires k <= |text|
  {
    if k == 0 then 0
    else
      var before := Indent(text, k - 1);
      if Opens(text, k - 1) then before + 1
      else if Closes(text, k - 1) then (if before == 0 then 0 else before - 1)
      else before
  }

  predicate AllSpace(text: Text) {
    forall c :: c in text ==> IsSpace(c)
  }

  function Margin(levels: nat): Text {
    if levels == 0 then [] else Margin(levels - 1) + [SPACE, SPACE]
  }

  function Break(levels: nat): Text {
    [NEWLINE] + Margin(levels)
  }

  lemma {:induction false} BreakIsSpace(levels: nat)
    ensures AllSpace(Margin(levels)) && AllSpace(Break(levels))
  {
    if levels > 0 {
      BreakIsSpace(levels - 1);
    }
  }

  /** White space before and after character `k`. */
  function Before(text: Text, k: nat): Text
    requires k < |text|
  {
    if Closes(text, k) then Break(Indent(text, k + 1)) else []
  }

  function After(text: Text, k: nat): Text
    requires k < |text|
  {
    if !OutsideAt(text, k) then []
    else if Opens(text, k) || text[k] == COMMA then Break(Indent(text, k + 1))
    else if text[k] == COLON then [SPACE]
    else []
  }

  function LayoutTo(text: Text, k: nat): Text
    requires k <= |text|
  {
    if k == 0 then [] else LayoutTo(text, k - 1) + Before(text, k - 1) + [text[k - 1]] + After(text, k - 1)
  }

  function Layout(text: Text): Text {
    LayoutTo(text, |text|)
  }

  // ---------------------------------------------------------------------
  // Layout and stripping
  // ---------------------------------------------------------------------

  lemma AppendOne(text: Text, c: Unit)
    ensures ModeAfter(text + [c]) == NextMode(ModeAfter(text), c)
    ensures Strip(text + [c]) == if ModeAfter(text) == Outside && IsSpace(c) then Strip(text) else Strip(text) + [c]
  {
    assert (text + [c])[..|text|] == text;
    assert Strip(text) + [] == Strip(text);
  }

  /** White space outside literals is invisible to what follows. */
  lemma {:induction false} AppendSpace(text: Text, spaces: Text)
    requires ModeAfter(text) == Outside && AllSpace(spaces)
    ensures ModeAfter(text + spaces) == Outside && Strip(text + spaces) == Strip(text)
  {
    if spaces == [] {
      assert text + spaces == text;
    } else {
      var init, c := spaces[..|spaces| - 1], spaces[|spaces| - 1];
      AppendSpace(text, init);
      assert text + spaces == text + init + [c];
      AppendOne(text + init, c);
    }
  }

  lemma {:induction false} StripKeepsMode(text: Text)
    ensures ModeAfter(Strip(text)) == ModeAfter(text)
    ensures Strip(Strip(text)) == Strip(text)
  {
    if text != [] {
      var init, c := text[..|text| - 1], text[|text| - 1];
      StripKeepsMode(init);
      AppendOne(Strip(init), c);
      assert Strip(init) + [] == Strip(init);
    }
  }

  /** Stripped text has no white space outside its literals. */
  lemma {:induction false} NoOuterSpace(text: Text, k: nat)
    requires Strip(text) == text && k < |text|
    ensures OutsideAt(text, k) ==> !IsSpace(text[k])
    decreases |text|
  {
    var n := |text| - 1;
    StripIsShorter(text[..n]);
    assert text == text[..n] + [text[n]];
    if k < n {
      assert text[..n][..k] == text[..k];
      NoOuterSpace(text[..n], k);
    }
  }

  lemma {:induction false} StripIsShorter(text: Text)
    ensures |Strip(text)| <= |text|
  {
    if text != [] {
      StripIsShorter(text[..|text| - 1]);
    }
  }

  /** One character with the white space a layout puts around it. */
  lemma AppendPiece(done: Text, before: Text, c: Unit, after: Text)
    requires AllSpace(before) && AllSpace(after)
    requires before != [] ==> ModeAfter(done) == Outside
    requires ModeAfter(done) == Outside ==> !IsSpace(c)
    requires after != [] ==> NextMode(ModeAfter(done), c) == Outside
    ensures ModeAfter(done + before + [c] + after) == NextMode(ModeAfter(done), c)
    ensures Strip(done + before + [c] + after) == Strip(done) + [c]
  {
    if before == [] {
      assert done + before == done;
    } else {
      AppendSpace(done, before);
    }
    var here := done + before + [c];
    AppendOne(done + before, c);
    if after == [] {
      assert here + after == here;
    } else {
      AppendSpace(here, after);
    }
  }

  /** The layout puts white space only outside literals. */
  lemma PieceIsOutside(text: Text, k: nat)
    requires Strip(text) == text && k < |text|
    ensures AllSpace(Before(text, k)) && AllSpace(After(text, k))
    ensures Before(text, k) != [] ==> ModeAfter(text[..k]) == Outside
    ensures ModeAfter(text[..k]) == Outside ==> !IsSpace(text[k])
    ensures After(text, k) != [] ==> NextMode(ModeAfter(text[..k]), text[k]) == Outside
  {
    NoOuterSpace(text, k);
    BreakIsSpace(Indent(text, k + 1));
  }

  lemma LayoutNext(text: Text, k: nat)
    requires Strip(text) == text && k < |text|
    requires ModeAfter(LayoutTo(text, k)) == ModeAfter(text[..k]) && Strip(LayoutTo(text, k)) == text[..k]
    ensures ModeAfter(LayoutTo(text, k + 1)) == ModeAfter(text[..k + 1]) && Strip(LayoutTo(text, k + 1)) == text[..k + 1]
  {
    PieceIsOutside(text, k);
    var done, before, after := LayoutTo(text, k), Before(text, k), After(text, k);
    AppendPiece(done, before, text[k], after);
    AppendOne(text[..k], text[k]);
    TakeNext(text, k);
    assert LayoutTo(text, k + 1) == done + before + [text[k]] + after;
  }

  lemma {:induction false} LayoutStrips(text: Text, k: nat)
    requires Strip(text) == text && k <= |text|
    ensures ModeAfter(LayoutTo(text, k)) == ModeAfter(text[..k]) && Strip(LayoutTo(text, k)) == text[..k]
  {
    if k > 0 {
      LayoutStrips(text, k - 1);
      LayoutNext(text, k - 1);
    }
  }

  /** Stripping takes away exactly what the layout added. */
  lemma StripLayout(text: Text)
    requires Strip(text) == text
    ensures Strip(Layout(text)) == text
  {
    LayoutStrips(text, |text|);
    assert text[..|text|] == text;
  }

  // ---------------------------------------------------------------------
  // Brackets
  // ---------------------------------------------------------------------

  /** Brackets opened minus brackets closed, outside literals, in the first `k` characters. */
  function Depth(text: Text, k: nat): int
    requires k <= |text|
  {
    if k == 0 then 0
    else
      Depth(text, k - 1)
      + if !OutsideAt(text, k - 1) then 0 else if IsOpen(text[k - 1]) then 1 else if IsClose(text[k - 1]) then -1 else 0
  }

  /** Character `k` would pull the indentation below the margin. */
  predicate ClampActs(text: Text, k: nat)
    requires k < |text|
  {
    Closes(text, k) && Indent(text, k) == 0
  }

  /** The pair around position `k` stays on one line, without indentation. */
  predicate EmptyPairAt(text: Text, k: nat)
    requires k <= |text|
  {
    0 < k < |text| && OutsideAt(text, k - 1) && IsOpen(text[k - 1]) && text[k] == Closer(text[k - 1])
  }

  /** Brackets do not change whether the text is outside a literal. */
  lemma BracketKeepsMode(text: Text, k: nat)
    requires 0 < k < |text| && OutsideAt(text, k - 1) && text[k - 1] != QUOTE
    ensures OutsideAt(text, k)
  {
    assert text[..k] == text[..k - 1] + [text[k - 1]];
    AppendOne(text[..k - 1], text[k - 1]);
  }

  /** A closing bracket next to its opener has that opener outside a literal. */
  lemma OpenerIsOutside(text: Text, k: nat)
    requires 0 < k < |text| && OutsideAt(text, k) && text[k - 1] != QUOTE
    ensures OutsideAt(text, k - 1)
  {
    assert text[..k] == text[..k - 1] + [text[k - 1]];
    AppendOne(text[..k - 1], text[k - 1]);
  }

  /** As long as no prefix closes more than it opens, the indentation is the depth, but for an empty pair. */
  lemma {:induction false} IndentIsDepth(text: Text, k: nat)
    requires k <= |text| && forall i: nat :: i <= k ==> Depth(text, i) >= 0
    ensures Indent(text, k) == Depth(text, k) - if EmptyPairAt(text, k) then 1 else 0
    ensures forall i: nat :: i < k ==> !ClampActs(text, i)
  {
    if k > 0 {
      var i := k - 1;
      IndentIsDepth(text, i);
      if i > 0 && OutsideAt(text, i) && text[i - 1] != QUOTE {
        OpenerIsOutside(text, i);
      }
      if i > 0 && OutsideAt(text, i - 1) && text[i - 1] != QUOTE {
        BracketKeepsMode(text, i);
      }
    }
  }

  /** The clamp acts on some character exactly when some prefix closes more brackets than it opens. */
  lemma ClampActsIff(text: Text)
    ensures (exists k: nat :: k < |text| && ClampActs(text, k)) <==> (exists k: nat :: k <= |text| && Depth(text, k) < 0)
  {
    if k: nat :| k <= |text| && Depth(text, k) < 0 {
      var first := FirstNegative(text, k);
      FirstNegativeClamps(text, first);
    } else {
      IndentIsDepth(text, |text|);
    }
  }

  lemma FirstNegativeClamps(text: Text, first: nat)
    requires 0 < first <= |text| && Depth(text, first) < 0 && forall i: nat :: i < first ==> Depth(text, i) >= 0
    ensures ClampActs(text, first - 1)
  {
    var k := first - 1;
    IndentIsDepth(text, k);
    if k > 0 && text[k - 1] != QUOTE {
      OpenerIsOutside(text, k);
    }
  }

  lemma {:induction false} FirstNegative(text: Text, k: nat) returns (first: nat)
    requires k <= |text| && Depth(text, k) < 0
    ensures 0 < first <= k && Depth(text, first) < 0 && forall i: nat :: i < first ==> Depth(text, i) >= 0
  {
    first := k;
    if i: nat :| i < k && Depth(text, i) < 0 {
      first := FirstNegative(text, i);
    }
  }

  /** Balanced brackets bring the indentation back to the margin without the clamp. */
  lemma BalancedEndsAtMargin(text: Text)
    requires (forall k: nat :: k <= |text| ==> Depth(text, k) >= 0) && Depth(text, |text|) == 0
    ensures Indent(text, |text|) == 0
    ensures forall k: nat :: k < |text| ==> !ClampActs(text, k)
  {
    IndentIsDepth(text, |text|);
  }
}
