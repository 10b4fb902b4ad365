/** What holds along redirect chains. */
module RedirectChains {
  import opened RedirectNames
  import opened RedirectRequest
  import opened Sequences
  import opened Wrappers

  /** One request of a chain with its script view. */
  datatype Hop = Hop(request: Request, script: ScriptRequest)

  /** Some response makes the redirect from one hop to the next. */
  ghost predicate Follows(a: Hop, b: Hop) {
    exists step {:trigger FollowsBy(a, b, step)} :: FollowsBy(a, b, step)
  }

  datatype Step = Step(status: nat, headers: seq<ResponseHeader>, policy: Policy, followed: nat, resolve: Resolver)

  ghost predicate FollowsBy(a: Hop, b: Hop, step: Step) {
    var d := DecisionFor(step.status, step.headers, a.request, a.script, step.policy, step.followed, step.resolve);
    d.Follow? && d.request == b.request && d.script == b.script
  }

  ghost predicate IsChain(hops: seq<Hop>) {
    forall i: nat {:trigger LinkedAt(hops, i)} :: i + 1 < |hops| ==> LinkedAt(hops, i)
  }

  ghost predicate LinkedAt(hops: seq<Hop>, i: nat)
    requires i + 1 < |hops|
  {
    Follows(hops[i], hops[i + 1])
  }

  predicate CrossOrigin(a: Hop, b: Hop) {
    a.request.target.origin != b.request.target.origin
  }

  // ---------------------------------------------------------------------
  // One step
  // ---------------------------------------------------------------------

  /** The first list is what is left of the second after dropping elements. */
  predicate IsSubsequence<T(==)>(a: seq<T>, b: seq<T>) {
    if a == [] then true
    else if b == [] then false
    else if a[|a| - 1] == b[|b| - 1] then IsSubsequence(a[..|a| - 1], b[..|b| - 1])
    else IsSubsequence(a, b[..|b| - 1])
  }

  lemma {:induction false} SubsequenceOfLonger<T>(a: seq<T>, b: seq<T>, last: T)
    requires IsSubsequence(a, b)
    ensures IsSubsequence(a, b + [last])
    decreases |b|
  {
    assert (b + [last])[..|b|] == b;
    if a != [] && a[|a| - 1] == last {
      if a[|a| - 1] == b[|b| - 1] {
        SubsequenceOfLonger(a[..|a| - 1], b[..|b| - 1], b[|b| - 1]);
        assert b[..|b| - 1] + [b[|b| - 1]] == b;
      } else {
        ShorterSubsequence(a, b[..|b| - 1]);
        SubsequenceOfLonger(a[..|a| - 1], b[..|b| - 1], b[|b| - 1]);
        assert b[..|b| - 1] + [b[|b| - 1]] == b;
      }
    }
  }

  lemma {:induction false} ShorterSubsequence<T>(a: seq<T>, b: seq<T>)
    requires IsSubsequence(a, b) && a != []
    ensures IsSubsequence(a[..|a| - 1], b)
    decreases |b|
  {
    if a[|a| - 1] == b[|b| - 1] {
      SubsequenceOfLonger(a[..|a| - 1], b[..|b| - 1], b[|b| - 1]);
      assert b[..|b| - 1] + [b[|b| - 1]] == b;
    } else {
      ShorterSubsequence(a, b[..|b| - 1]);
      SubsequenceOfLonger(a[..|a| - 1], b[..|b| - 1], b[|b| - 1]);
      assert b[..|b| - 1] + [b[|b| - 1]] == b;
    }
  }

  lemma {:induction false} SubsequenceTransitive<T>(a: seq<T>, b: seq<T>, c: seq<T>)
    requires IsSubsequence(a, b) && IsSubsequence(b, c)
    ensures IsSubsequence(a, c)
    decreases |c|
  {
    if a != [] {
      if b[|b| - 1] != c[|c| - 1] {
        SubsequenceTransitive(a, b, c[..|c| - 1]);
        SubsequenceOfLonger(a, c[..|c| - 1], c[|c| - 1]);
        assert c[..|c| - 1] + [c[|c| - 1]] == c;
      } else if a[|a| - 1] == b[|b| - 1] {
        SubsequenceTransitive(a[..|a| - 1], b[..|b| - 1], c[..|c| - 1]);
      } else {
        SubsequenceTransitive(a, b[..|b| - 1], c[..|c| - 1]);
        SubsequenceOfLonger(a, c[..|c| - 1], c[|c| - 1]);
        assert c[..|c| - 1] + [c[|c| - 1]] == c;
      }
    }
  }

  lemma {:induction false} SubsequenceMembers<T>(a: seq<T>, b: seq<T>)
    requires IsSubsequence(a, b)
    ensures forall x :: x in a ==> x in b
    decreases |b|
  {
    if a != [] {
      if a[|a| - 1] == b[|b| - 1] {
        SubsequenceMembers(a[..|a| - 1], b[..|b| - 1]);
        assert a == a[..|a| - 1] + [a[|a| - 1]];
      } else {
        SubsequenceMembers(a, b[..|b| - 1]);
      }
    }
  }

  /** Headers with their script views; without one a header shows itself and is not sensitive. */
  function Pairs(headers: seq<Header>, script: seq<ScriptHeader>): (pairs: seq<(Header, ScriptHeader)>)
    ensures |pairs| == |headers|
  {
    seq(|headers|, i requires 0 <= i < |headers| =>
      (headers[i], if i < |script| then script[i] else ScriptHeader(headers[i].name, Some(headers[i].value), true, false)))
  }

  lemma PairsAppend(headers: seq<Header>, views: seq<ScriptHeader>, h: Header, safe: ScriptHeader)
    requires |headers| == |views|
    ensures Pairs(headers + [h], views + [safe]) == Pairs(headers, views) + [(h, safe)]
  {
  }

  lemma SubsequenceBoth<T>(a: seq<T>, b: seq<T>, last: T)
    requires IsSubsequence(a, b)
    ensures IsSubsequence(a + [last], b + [last])
  {
    assert (a + [last])[..|a|] == a && (b + [last])[..|b|] == b;
  }

  /** What goes along are some of the headers, each still with its own view, and none that must go. */
  lemma {:induction false} RetainedPairs(headers: seq<Header>, script: seq<ScriptHeader>, k: nat, dropBody: bool, sameOrigin: bool)
    requires k <= |headers|
    ensures var (kept, views) := Retained(headers, script, k, dropBody, sameOrigin);
            && |kept| == |views| && IsSubsequence(Pairs(kept, views), Pairs(headers, script)[..k])
            && forall i :: 0 <= i < |kept| ==> !Removed(headers, kept[i], views[i], dropBody, sameOrigin)
  {
    if k > 0 {
      var (before, beforeViews) := Retained(headers, script, k - 1, dropBody, sameOrigin);
      var h, safe := headers[k - 1], SafeOf(script, k - 1, headers[k - 1]);
      var pairs := Pairs(headers, script);
      RetainedPairs(headers, script, k - 1, dropBody, sameOrigin);
      assert pairs[..k] == pairs[..k - 1] + [(h, safe)];
      if Removed(headers, h, safe, dropBody, sameOrigin) {
        SubsequenceOfLonger(Pairs(before, beforeViews), pairs[..k - 1], (h, safe));
      } else {
        PairsAppend(before, beforeViews, h, safe);
        SubsequenceBoth(Pairs(before, beforeViews), pairs[..k - 1], (h, safe));
      }
    }
  }

  /** The headers of a hop with their script views. */
  function HeadersOf(hop: Hop): seq<(Header, ScriptHeader)> {
    Pairs(hop.request.headers, hop.script.headers)
  }

  /** What one redirect does to a request. */
  ghost predicate StepKeeps(a: Hop, b: Hop) {
    && |b.request.headers| == |b.script.headers|
    && IsSubsequence(HeadersOf(b), HeadersOf(a))
    && (forall x {:trigger x in HeadersOf(b)} :: x in HeadersOf(b) ==>
          && Lower(x.0.name) !in ALWAYS_REGENERATED && !Nominated(a.request.headers, Lower(x.0.name))
          && (CrossOrigin(a, b) ==> Lower(x.0.name) !in CREDENTIALS && !x.1.sensitive))
    && (a.request.target.scheme == Https ==> b.request.target.scheme == Https)
    && (a.request.verb == HEAD ==> b.request.verb == HEAD && b.request.body == a.request.body)
    && (a.request.verb == GET ==> b.request.verb == GET)
    && (b.request.body == a.request.body || b.request.body == NO_BODY)
    && (b.request.verb == a.request.verb || (b.request.verb == GET && b.request.body == NO_BODY))
    && b.script.verb == b.request.verb
  }

  lemma FollowedStep(a: Hop, b: Hop)
    requires Follows(a, b)
    ensures StepKeeps(a, b)
  {
    var step :| FollowsBy(a, b, step);
    var target := b.request.target;
    var headers, n := a.request.headers, |a.request.headers|;
    var dropBody, sameOrigin := RedirectMethod(step.status, a.request.verb).1, a.request.target.origin == target.origin;
    RetainedPairs(headers, a.script.headers, n, dropBody, sameOrigin);
    assert HeadersOf(a)[..n] == HeadersOf(a);
    var (kept, views) := Retained(headers, a.script.headers, n, dropBody, sameOrigin);
    forall x | x in HeadersOf(b)
      ensures !Removed(headers, x.0, x.1, dropBody, sameOrigin)
    {
      var i :| 0 <= i < |kept| && HeadersOf(b)[i] == x;
    }
  }

  lemma StepAt(hops: seq<Hop>, k: nat)
    requires IsChain(hops) && k + 1 < |hops|
    ensures StepKeeps(hops[k], hops[k + 1])
  {
    assert LinkedAt(hops, k);
    FollowedStep(hops[k], hops[k + 1]);
  }

  /** The headers that go along, each with its own view, are those that need not go, in their order. */
  lemma {:induction false} RetainedPicks(headers: seq<Header>, script: seq<ScriptHeader>, k: nat, dropBody: bool, sameOrigin: bool)
    returns (at: seq<nat>)
    requires k <= |headers|
    ensures var (kept, views) := Retained(headers, script, k, dropBody, sameOrigin);
            |kept| == |views| && Picks(Pairs(headers, script), Pairs(kept, views), at)
    ensures forall i {:trigger i in at} :: i in at <==>
              0 <= i < k && !Removed(headers, headers[i], SafeOf(script, i, headers[i]), dropBody, sameOrigin)
  {
    at := [];
    if k > 0 {
      var (before, beforeViews) := Retained(headers, script, k - 1, dropBody, sameOrigin);
      var h, safe := headers[k - 1], SafeOf(script, k - 1, headers[k - 1]);
      at := RetainedPicks(headers, script, k - 1, dropBody, sameOrigin);
      assert forall p :: 0 <= p < |at| ==> at[p] in at;
      if !Removed(headers, h, safe, dropBody, sameOrigin) {
        PairsAppend(before, beforeViews, h, safe);
        at := at + [k - 1];
      }
    }
  }

  /** The body is dropped: 303 rewrites all but HEAD, 301 and 302 rewrite POST. */
  predicate DropsBody(status: nat, verb: HttpMethod) {
    (status == 303 && verb != HEAD) || ((status == 301 || status == 302) && verb == POST)
  }

  /** The header may not go along from hop `a` to hop `b`. */
  predicate MustGo(a: Hop, b: Hop, status: nat, x: (Header, ScriptHeader)) {
    || OneOf(x.0.name, REGENERATED)
    || SomeLists(a.request.headers, x.0.name)
    || (DropsBody(status, a.request.verb) && OneOf(x.0.name, ABOUT_BODY))
    || (CrossOrigin(a, b) && (OneOf(x.0.name, SECRETS) || x.1.sensitive))
  }

  /**
   A redirect keeps, in their order and with their views, exactly the headers that may go
   along: none that is hop-by-hop, nominated, about a dropped body, or secret across origins.
   */
  lemma KeepsExactly(a: Hop, b: Hop, step: Step) returns (at: seq<nat>)
    requires FollowsBy(a, b, step)
    ensures Picks(HeadersOf(a), HeadersOf(b), at)
    ensures forall i {:trigger i in at} :: i in at <==> 0 <= i < |HeadersOf(a)| && !MustGo(a, b, step.status, HeadersOf(a)[i])
  {
    var headers, script, n := a.request.headers, a.script.headers, |a.request.headers|;
    var dropBody, sameOrigin := DropsBody(step.status, a.request.verb), !CrossOrigin(a, b);
    at := RetainedPicks(headers, script, n, dropBody, sameOrigin);
    forall i | 0 <= i < n
      ensures Removed(headers, headers[i], SafeOf(script, i, headers[i]), dropBody, sameOrigin)
              <==> MustGo(a, b, step.status, HeadersOf(a)[i])
    {
      MustGoIffRemoved(a, b, step.status, HeadersOf(a)[i]);
    }
  }

  lemma MustGoIffRemoved(a: Hop, b: Hop, status: nat, x: (Header, ScriptHeader))
    ensures MustGo(a, b, status, x)
            <==> Removed(a.request.headers, x.0, x.1, DropsBody(status, a.request.verb), !CrossOrigin(a, b))
  {
    RegeneratedAre(x.0.name);
    CredentialsAre(x.0.name);
    BodyNamesAre(x.0.name);
    NominatedIs(a.request.headers, x.0.name);
  }

  // ---------------------------------------------------------------------
  // Whole chains
  // ---------------------------------------------------------------------

  /** Headers, with their views, are only ever dropped. */
  lemma {:induction false} HeadersOnlyShrink(hops: seq<Hop>, i: nat, j: nat)
    requires IsChain(hops) && i <= j < |hops|
    ensures IsSubsequence(HeadersOf(hops[j]), HeadersOf(hops[i]))
    decreases j
  {
    if i == j {
      SubsequenceReflexive(HeadersOf(hops[i]));
    } else {
      HeadersOnlyShrink(hops, i, j - 1);
      StepAt(hops, j - 1);
      SubsequenceTransitive(HeadersOf(hops[j]), HeadersOf(hops[j - 1]), HeadersOf(hops[i]));
    }
  }

  lemma {:induction false} SubsequenceReflexive<T>(a: seq<T>)
    ensures IsSubsequence(a, a)
  {
    if a != [] {
      SubsequenceReflexive(a[..|a| - 1]);
    }
  }

  /** After a redirect to another origin no credential and no sensitive header is sent again, not even at the first origin. */
  lemma CredentialsStayGone(hops: seq<Hop>, i: nat, j: nat)
    requires IsChain(hops) && i < j < |hops| && CrossOrigin(hops[i], hops[i + 1])
    ensures forall x {:trigger x in HeadersOf(hops[j])} :: x in HeadersOf(hops[j]) ==> !OneOf(x.0.name, SECRETS) && !x.1.sensitive
  {
    StepAt(hops, i);
    HeadersOnlyShrink(hops, i + 1, j);
    SubsequenceMembers(HeadersOf(hops[j]), HeadersOf(hops[i + 1]));
    forall x | x in HeadersOf(hops[j])
      ensures !OneOf(x.0.name, SECRETS)
    {
      CredentialsAre(x.0.name);
    }
  }

  /** No redirected request carries a hop-by-hop header, nor one that its predecessor's Connection field named. */
  lemma HopByHopHeadersGone(hops: seq<Hop>, j: nat)
    requires IsChain(hops) && 0 < j < |hops|
    ensures forall x {:trigger x in HeadersOf(hops[j])} :: x in HeadersOf(hops[j]) ==>
              !OneOf(x.0.name, REGENERATED) && !SomeLists(hops[j - 1].request.headers, x.0.name)
  {
    StepAt(hops, j - 1);
    forall x | x in HeadersOf(hops[j])
      ensures !OneOf(x.0.name, REGENERATED) && !SomeLists(hops[j - 1].request.headers, x.0.name)
    {
      RegeneratedAre(x.0.name);
      NominatedIs(hops[j - 1].request.headers, x.0.name);
    }
  }

  /** A secure request is only ever followed by secure requests. */
  lemma {:induction false} SecureStaysSecure(hops: seq<Hop>, i: nat, j: nat)
    requires IsChain(hops) && i <= j < |hops| && hops[i].request.target.scheme == Https
    ensures hops[j].request.target.scheme == Https
    decreases j
  {
    if i < j {
      SecureStaysSecure(hops, i, j - 1);
      StepAt(hops, j - 1);
    }
  }

  /** A body is kept as it is or dropped for good; a method is kept or becomes GET for good, then without a body. */
  lemma {:induction false} BodyKeptOrGone(hops: seq<Hop>, i: nat, j: nat)
    requires IsChain(hops) && i <= j < |hops|
    ensures hops[j].request.body == hops[i].request.body || hops[j].request.body == NO_BODY
    ensures hops[j].request.verb == hops[i].request.verb || (hops[j].request.verb == GET && hops[j].request.body == NO_BODY)
    decreases j
  {
    if i < j {
      BodyKeptOrGone(hops, i, j - 1);
      StepAt(hops, j - 1);
    }
  }

  /** A HEAD request stays a HEAD request with the body it has. */
  lemma {:induction false} HeadIsNeverRewritten(hops: seq<Hop>, i: nat, j: nat)
    requires IsChain(hops) && i <= j < |hops| && hops[i].request.verb == HEAD
    ensures hops[j].request.verb == HEAD && hops[j].request.body == hops[i].request.body
    decreases j
  {
    if i < j {
      HeadIsNeverRewritten(hops, i, j - 1);
      StepAt(hops, j - 1);
    }
  }

  /** Every header view is the view of the header at the same place. */
  predicate Aligned(hop: Hop) {
    forall x :: x in HeadersOf(hop) ==> x.1.name == x.0.name
  }

  /** The script view keeps one view per header, each still that of its own header. */
  lemma ScriptViewStaysAligned(hops: seq<Hop>, j: nat)
    requires IsChain(hops) && j < |hops| && Aligned(hops[0])
    ensures Aligned(hops[j])
    ensures j > 0 ==>
              var hop := hops[j];
              && |hop.script.headers| == |hop.request.headers| && hop.script.verb == hop.request.verb
              && forall k :: 0 <= k < |hop.script.headers| ==> hop.script.headers[k].name == hop.request.headers[k].name
  {
    HeadersOnlyShrink(hops, 0, j);
    SubsequenceMembers(HeadersOf(hops[j]), HeadersOf(hops[0]));
    if j > 0 {
      StepAt(hops, j - 1);
      var hop := hops[j];
      forall k | 0 <= k < |hop.script.headers|
        ensures hop.script.headers[k].name == hop.request.headers[k].name
      {
        assert HeadersOf(hop)[k] in HeadersOf(hop);
      }
    }
  }
}
