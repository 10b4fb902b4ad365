/** Targets made of components. */
module TargetJoining {
  import opened Sequences

  /** The components that are joined to a target: empty ones count for nothing. */
  function NonEmpty(components: seq<string>): seq<string> {
    if components == [] then []
    else
      var last := components[|components| - 1];
      NonEmpty(components[..|components| - 1]) + if last == "" then [] else [last]
  }

  lemma NonEmptyLast(components: seq<string>, last: string)
    ensures NonEmpty(components + [last]) == NonEmpty(components) + if last == "" then [] else [last]
  {
    assert (components + [last])[..|components|] == components;
  }

  lemma NonEmptyOne(x: string)
    ensures NonEmpty([x]) == if x == "" then [] else [x]
  {
    NonEmptyLast([], x);
    assert [] + [x] == [x];
  }

  /** An empty component in front counts for nothing. */
  lemma EmptyFirst(x: string)
    ensures NonEmpty(["", x]) == NonEmpty([x])
  {
    NonEmptyOne("");
    NonEmptyOne(x);
    NonEmptyLast([""], x);
    assert [""] + [x] == ["", x];
  }

  /** An empty component at the end counts for nothing. */
  lemma EmptyLast(x: string)
    ensures NonEmpty([x, ""]) == NonEmpty([x])
  {
    NonEmptyLast([x], "");
    assert [x] + [""] == [x, ""];
  }

  lemma EmptyTwice(x: string)
    ensures NonEmpty(["", "", x]) == NonEmpty([x])
  {
    NonEmptyOne(x);
    NonEmptyOne("");
    EmptyFirst("");
    NonEmptyLast(["", ""], x);
    assert ["", ""] + [x] == ["", "", x];
  }

  predicate IsSlash(c: char) {
    c == '/'
  }

  function WithoutLeadingSlashes(s: string): (r: string)
    ensures r != "" ==> !IsSlash(r[0])
  {
    if s != "" && IsSlash(s[0]) then WithoutLeadingSlashes(s[1..]) else s
  }

  function WithoutTrailingSlashes(s: string): (r: string)
    ensures r != "" ==> !IsSlash(r[|r| - 1])
  {
    if s != "" && IsSlash(s[|s| - 1]) then WithoutTrailingSlashes(s[..|s| - 1]) else s
  }

  /** Non-empty components from left to right, each boundary made one slash. */
  function Reduced(components: seq<string>): string {
    if components == [] then ""
    else if |components| == 1 then components[0]
    else WithoutTrailingSlashes(Reduced(components[..|components| - 1])) + "/" + WithoutLeadingSlashes(components[|components| - 1])
  }

  function JoinTarget(components: seq<string>): string {
    Reduced(NonEmpty(components))
  }

  lemma ReducedNext(components: seq<string>, k: nat)
    requires k < |components|
    ensures Reduced(components[..k + 1]) == if k == 0 then components[0]
                                            else WithoutTrailingSlashes(Reduced(components[..k])) + "/" + WithoutLeadingSlashes(components[k])
  {
    assert components[..k + 1][..k] == components[..k];
  }

  method JoinTargetComponents(components: seq<string>) returns (joined: string)
    ensures joined == JoinTarget(components)
  {
    var nonEmpty: seq<string> := [];
    for i := 0 to |components|
      invariant nonEmpty == NonEmpty(components[..i])
    {
      assert components[..i + 1] == components[..i] + [components[i]];
      NonEmptyLast(components[..i], components[i]);
      if components[i] != "" {
        nonEmpty := nonEmpty + [components[i]];
      }
    }
    assert components[..|components|] == components;
    joined := "";
    for index := 0 to |nonEmpty|
      invariant joined == Reduced(nonEmpty[..index])
    {
      ReducedNext(nonEmpty, index);
      joined := if index == 0 then nonEmpty[0]
                else WithoutTrailingSlashes(joined) + "/" + WithoutLeadingSlashes(nonEmpty[index]);
    }
    assert nonEmpty[..|nonEmpty|] == nonEmpty;
  }

  // ---------------------------------------------------------------------
  // Targets that lead alike
  // ---------------------------------------------------------------------

  predicate OnlySlashes(s: string) {
    forall c :: c in s ==> IsSlash(c)
  }

  /** Only slashes are taken off a front, and all of them. */
  lemma {:induction false} LeadingSlashesGo(s: string) returns (n: nat)
    ensures n <= |s| && OnlySlashes(s[..n]) && WithoutLeadingSlashes(s) == s[n..]
    ensures n < |s| ==> s[n] != '/'
  {
    n := 0;
    if s != "" && IsSlash(s[0]) {
      var m := LeadingSlashesGo(s[1..]);
      assert s[..m + 1] == [s[0]] + s[1..][..m];
      n := m + 1;
    }
  }

  /** Only slashes are taken off an end, and all of them. */
  lemma {:induction false} TrailingSlashesGo(s: string) returns (n: nat)
    ensures n <= |s| && OnlySlashes(s[n..]) && WithoutTrailingSlashes(s) == s[..n]
    ensures n > 0 ==> s[n - 1] != '/'
  {
    n := |s|;
    if s != "" && IsSlash(s[n - 1]) {
      var m := TrailingSlashesGo(s[..n - 1]);
      assert s[m..] == s[..n - 1][m..] + [s[n - 1]];
      n := m;
    }
  }

  lemma {:induction false} NothingButEmpty(components: seq<string>)
    ensures NonEmpty(components) == [] <==> forall c :: c in components ==> c == ""
  {
    if components != [] {
      var init, last := components[..|components| - 1], components[|components| - 1];
      NothingButEmpty(init);
      assert components == init + [last];
      assert last in components && forall c :: c in init ==> c in components;
    }
  }

  /** One more component: left out when empty, alone when it is the first, else after one slash. */
  lemma JoinedNext(components: seq<string>, last: string)
    ensures JoinTarget(components + [last])
            == if last == "" then JoinTarget(components)
               else if forall c :: c in components ==> c == "" then last
               else WithoutTrailingSlashes(JoinTarget(components)) + "/" + WithoutLeadingSlashes(last)
  {
    NonEmptyLast(components, last);
    NothingButEmpty(components);
    var before := NonEmpty(components);
    if last == "" {
      assert before + [] == before;
    } else {
      ReducedLast(before, last);
    }
  }

  lemma ReducedLast(before: seq<string>, last: string)
    ensures Reduced(before + [last])
            == if before == [] then last else WithoutTrailingSlashes(Reduced(before)) + "/" + WithoutLeadingSlashes(last)
  {
    assert (before + [last])[..|before|] == before;
  }

  /**
   Two targets lead to the same joined target from a base: they differ in leading slashes
   at most, or one is empty, the other only slashes, and the base ends in one slash.
   */
  predicate LeadAlike(base: string, a: string, b: string) {
    || a == b
    || (base != "" && a != "" && b != "" && WithoutLeadingSlashes(a) == WithoutLeadingSlashes(b))
    || (base != "" && (a == "" || b == "") && OnlySlashes(a) && OnlySlashes(b) && base == WithoutTrailingSlashes(base) + "/")
  }

  lemma JoinedTwo(base: string, target: string)
    ensures JoinTarget([base, target]) == if base == "" then target else if target == "" then base
                                          else WithoutTrailingSlashes(base) + "/" + WithoutLeadingSlashes(target)
  {
    assert [base] + [target] == [base, target];
    NonEmptyOne(base);
    NonEmptyLast([base], target);
    if base != "" && target != "" {
      ReducedNext([base, target], 1);
      assert [base, target][..1] == [base] && [base, target][..2] == [base, target];
    }
  }

  lemma {:induction false} NothingLeftIff(s: string)
    ensures WithoutLeadingSlashes(s) == "" <==> OnlySlashes(s)
  {
    if s != "" {
      assert s == [s[0]] + s[1..];
      NothingLeftIff(s[1..]);
    }
  }

  /** The base is what is left of it and some slashes. */
  lemma {:induction false} TrailingSlashes(base: string) returns (slashes: string)
    ensures base == WithoutTrailingSlashes(base) + slashes && OnlySlashes(slashes)
  {
    if base != "" && IsSlash(base[|base| - 1]) {
      var before := TrailingSlashes(base[..|base| - 1]);
      slashes := before + "/";
    } else {
      slashes := "";
    }
  }

  /** A target adds nothing to a base exactly when it is only slashes and the base ends in one. */
  lemma AddsNothingIff(base: string, target: string)
    ensures base == WithoutTrailingSlashes(base) + "/" + WithoutLeadingSlashes(target)
            <==> OnlySlashes(target) && base == WithoutTrailingSlashes(base) + "/"
  {
    NothingLeftIff(target);
    var slashes := TrailingSlashes(base);
    var kept, rest := WithoutTrailingSlashes(base), WithoutLeadingSlashes(target);
    if base == kept + "/" + rest {
      assert base[|kept|..] == slashes && base[|kept|..] == "/" + rest;
      assert forall c :: c in rest ==> c in slashes;
      NothingLeftIff(rest);
      assert WithoutLeadingSlashes(rest) == rest;
      assert kept + "/" + rest == kept + "/";
    } else if rest == "" {
      assert kept + "/" + rest == kept + "/";
    }
  }

  lemma JoinedAlikeIff(base: string, a: string, b: string)
    ensures JoinTarget([base, a]) == JoinTarget([base, b]) <==> LeadAlike(base, a, b)
  {
    JoinedTwo(base, a);
    JoinedTwo(base, b);
    if base != "" {
      if a == "" || b == "" {
        AddsNothingIff(base, a);
        AddsNothingIff(base, b);
      } else {
        SameEnd(WithoutTrailingSlashes(base) + "/", WithoutLeadingSlashes(a), WithoutLeadingSlashes(b));
      }
    }
  }

  lemma SameEnd(front: string, a: string, b: string)
    ensures front + a == front + b <==> a == b
  {
    DropPrefix(front, a);
    DropPrefix(front, b);
  }
}
