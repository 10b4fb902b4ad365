/** Facts about slices and concatenations of sequences, for any type of elements, used throughout. */
module Sequences {
  lemma SplitAt<T>(s: seq<T>, n: nat)
    requires n <= |s|
    ensures s[..n] + s[n..] == s
  {
  }

  lemma SliceSplits<T>(s: seq<T>, a: nat, b: nat, c: nat)
    requires a <= b <= c <= |s|
    ensures s[a..c] == s[a..b] + s[b..c]
    ensures c == |s| ==> s[b..c] == s[b..]
  {
  }

  lemma TakeNext<T>(s: seq<T>, n: nat)
    requires n < |s|
    ensures s[..n + 1] == s[..n] + [s[n]]
  {
  }

  lemma DropPrefix<T>(prefix: seq<T>, rest: seq<T>)
    ensures (prefix + rest)[|prefix|..] == rest
  {
  }

  lemma DropTwice<T>(s: seq<T>, i: nat, n: nat)
    requires i + n <= |s|
    ensures s[i..][n..] == s[i + n..]
  {
  }

  predicate RisesAt<T(==)>(stages: seq<seq<T>>, i: nat)
    requires i + 1 < |stages|
  {
    stages[i] <= stages[i + 1]
  }

  /** Each of the sequences begins with the one before. */
  ghost predicate Rises<T>(stages: seq<seq<T>>) {
    forall i: nat {:trigger RisesAt(stages, i)} :: i + 1 < |stages| ==> RisesAt(stages, i)
  }

  lemma {:induction false} PrefixOfLater<T>(stages: seq<seq<T>>, k: nat, n: nat)
    requires k <= n < |stages| && Rises(stages)
    ensures stages[k] <= stages[n]
    decreases n
  {
    if k < n {
      PrefixOfLater(stages, k, n - 1);
      assert RisesAt(stages, n - 1);
      PrefixOfPrefix(stages[k], stages[n - 1], stages[n]);
    }
  }

  lemma PrefixOfPrefix<T>(a: seq<T>, b: seq<T>, c: seq<T>)
    requires a <= b && b <= c
    ensures a <= c
  {
    assert c[..|b|][..|a|] == c[..|a|];
  }

  lemma AppendAssociates<T>(a: seq<T>, b: seq<T>, c: seq<T>)
    ensures a + (b + c) == a + b + c
  {
  }

  /** The images of the elements one after another. */
  function Concat<T, U>(f: T -> seq<U>, s: seq<T>): seq<U> {
    if s == [] then [] else f(s[0]) + Concat(f, s[1..])
  }

  lemma {:induction false} ConcatAppend<T, U>(f: T -> seq<U>, first: seq<T>, more: seq<T>)
    ensures Concat(f, first + more) == Concat(f, first) + Concat(f, more)
  {
    if first == [] {
      assert first + more == more;
    } else {
      ConcatAppend(f, first[1..], more);
      assert (first + more)[1..] == first[1..] + more;
      AppendAssociates(f(first[0]), Concat(f, first[1..]), Concat(f, more));
    }
  }

  lemma ConcatFew<T, U>(f: T -> seq<U>, a: T, b: T)
    ensures Concat(f, [a]) == f(a) && Concat(f, [a, b]) == f(a) + f(b)
  {
    assert [a][1..] == [] && [b][1..] == [] && [a, b][1..] == [b];
    assert f(a) + [] == f(a) && f(b) + [] == f(b);
  }

  /** Some beginning of the sequence holds `x` but not `y`. */
  ghost predicate SeenBefore<T(!new)>(uses: seq<T>, x: T, y: T) {
    exists k :: 0 <= k <= |uses| && x in uses[..k] && y !in uses[..k]
  }

  /** The sequence names what is used, each once, in the order of first uses. */
  ghost predicate InFirstSeenOrder<T(!new)>(names: seq<T>, uses: seq<T>) {
    && (forall x :: x in names <==> x in uses)
    && forall i, j {:trigger SeenBefore(uses, names[i], names[j])} :: 0 <= i < j < |names| ==> SeenBefore(uses, names[i], names[j])
  }

  lemma SeenBeforeStays<T(!new)>(uses: seq<T>, more: seq<T>, x: T, y: T)
    requires SeenBefore(uses, x, y)
    ensures SeenBefore(uses + more, x, y)
  {
    var k :| 0 <= k <= |uses| && x in uses[..k] && y !in uses[..k];
    assert (uses + more)[..k] == uses[..k];
  }

  /** One more use adds its name if that is new. */
  lemma FirstSeenNext<T(!new)>(names: seq<T>, uses: seq<T>, x: T, names': seq<T>, uses': seq<T>)
    requires InFirstSeenOrder(names, uses)
    requires names' == (if x in names then names else names + [x]) && uses' == uses + [x]
    ensures InFirstSeenOrder(names', uses')
  {
    forall i, j | 0 <= i < j < |names'|
      ensures SeenBefore(uses', names'[i], names'[j])
    {
      if j < |names| {
        SeenBeforeStays(uses, [x], names'[i], names'[j]);
      } else {
        assert uses'[..|uses|] == uses;
      }
    }
  }

  /** The chosen elements are those at the given positions, in their order. */
  predicate Picks<T(==)>(all: seq<T>, chosen: seq<T>, at: seq<nat>) {
    && |at| == |chosen|
    && (forall i, j :: 0 <= i < j < |at| ==> at[i] < at[j])
    && forall i :: 0 <= i < |at| ==> at[i] < |all| && chosen[i] == all[at[i]]
  }

  /** One more element, chosen or not. */
  lemma PickNext<T>(all: seq<T>, chosen: seq<T>, at: seq<nat>, x: T, take: bool, all': seq<T>, chosen': seq<T>, at': seq<nat>)
    requires Picks(all, chosen, at) && all' == all + [x]
    requires chosen' == (if take then chosen + [x] else chosen) && at' == if take then at + [|all|] else at
    ensures Picks(all', chosen', at')
    ensures forall j: nat {:trigger j in at'} :: j in at' <==> j in at || (take && j == |all|)
    ensures |all| !in at
  {
    assert forall i :: 0 <= i < |at| ==> all'[at[i]] == all[at[i]];
    if take {
      assert at'[|at|] == |all|;
      assert forall i :: 0 <= i < |at| ==> at'[i] == at[i];
    }
  }
}
