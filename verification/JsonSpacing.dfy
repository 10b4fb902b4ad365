/** Where formatted JSON has line breaks, indentation and spaces, and what counts as a string literal. */
module JsonSpacing {
  import opened Sequences
  import opened CodeUnits
  import opened JsonLayout

  // ---------------------------------------------------------------------
  // Gaps
  // ---------------------------------------------------------------------

  /** One line feed and two spaces for every level. */
  predicate IsLineBreak(gap: Text, levels: nat) {
    && |gap| == 1 + 2 * levels && gap[0] == 0x0A
    && forall i :: 1 <= i < |gap| ==> gap[i] == 0x20
  }

  lemma {:induction false} MarginIs(levels: nat)
    ensures |Margin(levels)| == 2 * levels && forall i :: 0 <= i < 2 * levels ==> Margin(levels)[i] == 0x20
  {
    if levels > 0 {
      MarginIs(levels - 1);
    }
  }

  lemma BreakIs(levels: nat)
    ensures IsLineBreak(Break(levels), levels)
  {
    MarginIs(levels);
  }

  predicate IsPair(a: Unit, b: Unit) {
    (a == 0x7B && b == 0x7D) || (a == 0x5B && b == 0x5D)
  }

  /** Bracket `k` opens a block, unless it is closed at once. */
  predicate OpensBlock(text: Text, k: nat)
    requires k < |text|
  {
    OutsideAt(text, k) && (text[k] == 0x7B || text[k] == 0x5B) && !(k + 1 < |text| && IsPair(text[k], text[k + 1]))
  }

  /** Bracket `k` closes a block, unless it was opened just before. */
  predicate ClosesBlock(text: Text, k: nat)
    requires k < |text|
  {
    OutsideAt(text, k) && (text[k] == 0x7D || text[k] == 0x5D) && !(k > 0 && IsPair(text[k - 1], text[k]))
  }

  /** What stands after character `k`: a line break after a comma or an opened block, one space after a colon. */
  predicate IsAfter(text: Text, k: nat, gap: Text)
    requires k < |text|
  {
    if OpensBlock(text, k) || (OutsideAt(text, k) && text[k] == 0x2C) then IsLineBreak(gap, Indent(text, k + 1))
    else if OutsideAt(text, k) && text[k] == 0x3A then gap == [0x20]
    else gap == []
  }

  /** What stands before character `k`: a line break before the end of a block. */
  predicate IsBefore(text: Text, k: nat, gap: Text)
    requires k < |text|
  {
    if ClosesBlock(text, k) then IsLineBreak(gap, Indent(text, k + 1)) else gap == []
  }

  lemma AroundIs(text: Text, k: nat)
    requires k < |text|
    ensures IsBefore(text, k, Before(text, k)) && IsAfter(text, k, After(text, k))
  {
    BreakIs(Indent(text, k + 1));
  }

  /** A character's place in the layout. */
  function PlaceOf(text: Text, k: nat): nat
    requires k < |text|
  {
    |LayoutTo(text, k)| + |Before(text, k)|
  }

  lemma LayoutGrows(text: Text, k: nat, now: Text, next: Text)
    requires k < |text| && now == LayoutTo(text, k) && next == LayoutTo(text, k + 1)
    ensures now <= next
  {
    LayoutUnfolds(text, k, now, Before(text, k), After(text, k), next);
    AddsBehind(now, Before(text, k), text[k], After(text, k), next);
  }

  lemma LayoutUnfolds(text: Text, k: nat, now: Text, before: Text, after: Text, next: Text)
    requires k < |text| && now == LayoutTo(text, k) && next == LayoutTo(text, k + 1)
    requires before == Before(text, k) && after == After(text, k)
    ensures next == now + before + [text[k]] + after
  {
  }

  lemma AddsBehind(now: Text, before: Text, c: Unit, after: Text, next: Text)
    requires next == now + before + [c] + after
    ensures now <= next
  {
  }

  /** The layouts of all beginnings of the text. */
  function Stages(text: Text): (stages: seq<Text>)
    ensures |stages| == |text| + 1
  {
    seq(|text| + 1, i requires 0 <= i <= |text| => LayoutTo(text, i))
  }

  lemma StageGrows(text: Text, k: nat, stages: seq<Text>)
    requires k < |text| && stages == Stages(text)
    ensures stages[k] <= stages[k + 1]
  {
    LayoutGrows(text, k, stages[k], stages[k + 1]);
  }

  lemma StagesRise(text: Text, stages: seq<Text>)
    requires stages == Stages(text)
    ensures Rises(stages)
  {
    forall i: nat | i + 1 < |stages|
      ensures RisesAt(stages, i)
    {
      StageGrows(text, i, stages);
    }
  }

  lemma LayoutPrefix(text: Text, k: nat, now: Text, out: Text)
    requires k <= |text| && now == LayoutTo(text, k) && out == Layout(text)
    ensures now <= out
  {
    var stages := Stages(text);
    StagesRise(text, stages);
    PrefixOfLater(stages, k, |text|);
  }

  lemma PieceStands(text: Text, k: nat)
    requires k < |text|
    ensures var out, p, end := Layout(text), PlaceOf(text, k), |LayoutTo(text, k + 1)|;
            && |LayoutTo(text, k)| <= p < end <= |out|
            && out[|LayoutTo(text, k)|..p] == Before(text, k) && out[p] == text[k] && out[p + 1..end] == After(text, k)
  {
    var done, before, after := LayoutTo(text, k), Before(text, k), After(text, k);
    var next, p := LayoutTo(text, k + 1), PlaceOf(text, k);
    assert next == done + before + [text[k]] + after;
    LayoutPrefix(text, k + 1, next, Layout(text));
    var out := Layout(text);
    assert out[..|next|] == next;
    assert next[|done|..p] == before && next[p] == text[k] && next[p + 1..] == after;
    assert out[|done|..p] == next[|done|..p] && out[p + 1..|next|] == next[p + 1..];
  }

  /**
   In the layout the characters stand in order, and between neighbours there is what
   belongs after the first and then what belongs before the second, nothing else.
   */
  lemma GapsAre(text: Text, k: nat) returns (middle: nat)
    requires k + 1 < |text|
    ensures var out, p, q := Layout(text), PlaceOf(text, k), PlaceOf(text, k + 1);
            && p < middle <= q < |out| && out[p] == text[k] && out[q] == text[k + 1]
            && IsAfter(text, k, out[p + 1..middle]) && IsBefore(text, k + 1, out[middle..q])
  {
    PieceStands(text, k);
    PieceStands(text, k + 1);
    AroundIs(text, k);
    AroundIs(text, k + 1);
    middle := |LayoutTo(text, k + 1)|;
  }

  /** The layout begins with what belongs before the first character. */
  lemma StartIs(text: Text)
    requires text != []
    ensures var out, p := Layout(text), PlaceOf(text, 0);
            p < |out| && out[p] == text[0] && IsBefore(text, 0, out[..p])
  {
    PieceStands(text, 0);
    AroundIs(text, 0);
    assert Layout(text)[0..PlaceOf(text, 0)] == Layout(text)[..PlaceOf(text, 0)];
  }

  /** The layout ends with what belongs after the last character. */
  lemma FinishIs(text: Text)
    requires text != []
    ensures var out, q := Layout(text), PlaceOf(text, |text| - 1);
            q < |out| && out[q] == text[|text| - 1] && IsAfter(text, |text| - 1, out[q + 1..])
  {
    var n := |text| - 1;
    PieceStands(text, n);
    AroundIs(text, n);
    assert Layout(text)[PlaceOf(text, n) + 1..|Layout(text)|] == Layout(text)[PlaceOf(text, n) + 1..];
  }

  /** While no prefix closes more than it opens, a level is open for each bracket that is, but not for an empty pair. */
  lemma LevelsAreDepth(text: Text, k: nat)
    requires k <= |text| && forall i: nat :: i <= k ==> Depth(text, i) >= 0
    ensures Indent(text, k)
            == Depth(text, k) - if 0 < k < |text| && OutsideAt(text, k - 1) && IsPair(text[k - 1], text[k]) then 1 else 0
  {
    IndentIsDepth(text, k);
  }

  /** What counts as white space: the class that ECMAScript gives to its regular expressions. */
  lemma SpacesAre(u: Unit)
    ensures IsSpace(u)
            <==> u in {0x09, 0x0A, 0x0B, 0x0C, 0x0D, 0x20, 0xA0, 0x1680, 0x2000, 0x2001, 0x2002, 0x2003, 0x2004, 0x2005, 0x2006,
                       0x2007, 0x2008, 0x2009, 0x200A, 0x2028, 0x2029, 0x202F, 0x205F, 0x3000, 0xFEFF}
  {
  }

  // ---------------------------------------------------------------------
  // Literals
  // ---------------------------------------------------------------------

  /** How many backslashes stand directly before a position, from a start on. */
  function Backslashes(text: Text, from: nat, to: nat): nat
    requires to <= |text|
  {
    if from < to && text[to - 1] == 0x5C then 1 + Backslashes(text, from, to - 1) else 0
  }

  /** The quote ends a literal whose first character has this index. */
  predicate Closing(text: Text, from: nat, at: nat)
    requires at < |text|
  {
    text[at] == 0x22 && Backslashes(text, from, at) % 2 == 0
  }

  lemma {:induction false} InsideLiteral(text: Text, from: nat, k: nat)
    requires 0 < from <= k <= |text| && OutsideAt(text, from - 1) && text[from - 1] == 0x22
    requires forall j: nat {:trigger Closing(text, from, j)} :: from <= j < k ==> !Closing(text, from, j)
    ensures ModeAfter(text[..k]) == if Backslashes(text, from, k) % 2 == 1 then Escaped else Inside
    decreases k
  {
    assert text[..k][..k - 1] == text[..k - 1];
    if from < k {
      InsideLiteral(text, from, k - 1);
      assert !Closing(text, from, k - 1);
    }
  }

  /** A literal ends at the first quote with an even number of backslashes directly before it, and all before that is inside. */
  lemma LiteralEnds(text: Text, start: nat, end: nat, k: nat)
    requires start < end < |text| && OutsideAt(text, start) && text[start] == 0x22 && Closing(text, start + 1, end)
    requires forall j: nat {:trigger Closing(text, start + 1, j)} :: start < j < end ==> !Closing(text, start + 1, j)
    requires start < k <= end
    ensures !OutsideAt(text, k) && ModeAfter(text[..end + 1]) == Outside
  {
    InsideLiteral(text, start + 1, k);
    InsideLiteral(text, start + 1, end);
    assert text[..end + 1][..end] == text[..end];
  }

  /** A literal that is never closed takes all that follows. */
  lemma UnclosedLiteral(text: Text, start: nat, k: nat)
    requires start < k < |text| && OutsideAt(text, start) && text[start] == 0x22
    requires forall j: nat {:trigger Closing(text, start + 1, j)} :: start < j < |text| ==> !Closing(text, start + 1, j)
    ensures !OutsideAt(text, k)
  {
    InsideLiteral(text, start + 1, k);
  }

  /** Text begins outside a literal, and only a quote leads into one. */
  lemma OutsideUntilQuote(text: Text, k: nat)
    ensures text != [] ==> OutsideAt(text, 0)
    ensures k + 1 < |text| && OutsideAt(text, k) ==> (OutsideAt(text, k + 1) <==> text[k] != 0x22)
  {
    if k + 1 < |text| {
      assert text[..k + 1][..k] == text[..k];
    }
  }

  // ---------------------------------------------------------------------
  // Levels of any text
  // ---------------------------------------------------------------------

  /** Blocks opened minus blocks closed in the first `k` characters. */
  function Net(text: Text, k: nat): int
    requires k <= |text|
  {
    if k == 0 then 0
    else Net(text, k - 1) + if OpensBlock(text, k - 1) then 1 else if ClosesBlock(text, k - 1) then -1 else 0
  }

  /** The level is how far the count of blocks has risen above its lowest point so far. */
  lemma {:induction false} LevelIsRise(text: Text, k: nat) returns (low: nat)
    requires k <= |text|
    ensures low <= k && Indent(text, k) == Net(text, k) - Net(text, low)
    ensures forall i: nat {:trigger Net(text, i)} :: i <= k ==> Net(text, low) <= Net(text, i)
  {
    low := 0;
    if k > 0 {
      low := LevelIsRise(text, k - 1);
      if Net(text, k) < Net(text, low) {
        low := k;
      }
    }
  }
}
