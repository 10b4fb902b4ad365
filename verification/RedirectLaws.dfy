/** What a response makes of a request, told by its status and its Location field. */
module RedirectLaws {
  import opened Wrappers
  import opened RedirectNames
  import opened RedirectRequest
  import opened RedirectChains

  predicate IsLocation(h: ResponseHeader) {
    SameIgnoringCase(h.name, "location")
  }

  predicate NoLocation(headers: seq<ResponseHeader>) {
    forall i :: 0 <= i < |headers| ==> !IsLocation(headers[i])
  }

  /** Header `i` is the only Location field. */
  predicate OnlyLocation(headers: seq<ResponseHeader>, i: nat) {
    i < |headers| && IsLocation(headers[i]) && forall j :: 0 <= j < |headers| && j != i ==> !IsLocation(headers[j])
  }

  /** The Location values are those of the Location fields, in order. */
  lemma {:induction false} LocationsPicked(headers: seq<ResponseHeader>) returns (at: seq<nat>)
    ensures |at| == |Locations(headers)| && forall p, q :: 0 <= p < q < |at| ==> at[p] < at[q]
    ensures forall p :: 0 <= p < |at| ==> at[p] < |headers| && Locations(headers)[p] == headers[at[p]].value
    ensures forall i {:trigger IsLocation(headers[i])} :: 0 <= i < |headers| ==> (IsLocation(headers[i]) <==> i in at)
  {
    at := [];
    if headers != [] {
      var n := |headers| - 1;
      var before := LocationsPicked(headers[..n]);
      IsName(headers[n].name, "location");
      assert forall i :: 0 <= i < n ==> headers[..n][i] == headers[i];
      PickedNext(headers, before);
      at := before + if IsLocation(headers[n]) then [n] else [];
    }
  }

  lemma PickedNext(headers: seq<ResponseHeader>, before: seq<nat>)
    requires headers != [] && forall p :: 0 <= p < |before| ==> before[p] < |headers| - 1
    requires forall i {:trigger IsLocation(headers[..|headers| - 1][i])} :: 0 <= i < |headers| - 1 ==>
               (IsLocation(headers[..|headers| - 1][i]) <==> i in before)
    ensures var at := before + if IsLocation(headers[|headers| - 1]) then [|headers| - 1] else [];
            forall i {:trigger IsLocation(headers[i])} :: 0 <= i < |headers| ==> (IsLocation(headers[i]) <==> i in at)
  {
    var n := |headers| - 1;
    forall i | 0 <= i < n
      ensures IsLocation(headers[i]) <==> i in before
    {
      assert headers[..n][i] == headers[i];
    }
    assert n !in before;
  }

  lemma LocationsAre(headers: seq<ResponseHeader>)
    ensures Locations(headers) == [] <==> NoLocation(headers)
    ensures forall i: nat :: OnlyLocation(headers, i) ==> Locations(headers) == [headers[i].value]
    ensures |Locations(headers)| == 1 ==> exists i: nat :: OnlyLocation(headers, i)
  {
    var at := LocationsPicked(headers);
    if at != [] {
      assert at[0] in at && IsLocation(headers[at[0]]);
      if |at| == 1 {
        assert OnlyLocation(headers, at[0]);
      }
    }
    forall i: nat | OnlyLocation(headers, i)
      ensures Locations(headers) == [headers[i].value]
    {
      assert forall p :: 0 <= p < |at| ==> at[p] in at;
      assert at[0] == i && at[|at| - 1] == i;
    }
  }

  /** A response with one of the five statuses and some Location field. */
  predicate Redirecting(status: nat, headers: seq<ResponseHeader>) {
    (status == 301 || status == 302 || status == 303 || status == 307 || status == 308) && !NoLocation(headers)
  }

  /** Field `i` is the one Location, and it leads to the located target. */
  predicate LeadsTo(status: nat, headers: seq<ResponseHeader>, base: Url, resolve: Resolver, i: nat, located: Located) {
    Redirecting(status, headers) && OnlyLocation(headers, i) && resolve(headers[i].value, base) == Some(located)
  }

  /** The target may be requested after the one before. */
  predicate Allowed(base: Url, located: Located) {
    && !located.credentials
    && (located.url.scheme == Https || (located.url.scheme == Http && base.scheme != Https))
  }

  /** A response is terminal exactly unless it has one of the five statuses and a Location. */
  lemma TerminalIff(
    status: nat, headers: seq<ResponseHeader>, request: Request, script: ScriptRequest, policy: Policy, followed: nat, resolve: Resolver)
    ensures DecisionFor(status, headers, request, script, policy, followed, resolve) == Terminal <==> !Redirecting(status, headers)
  {
    LocationsAre(headers);
  }

  lemma InvalidByValues(
    status: nat, headers: seq<ResponseHeader>, request: Request, script: ScriptRequest, policy: Policy, followed: nat, resolve: Resolver)
    ensures var values := Locations(headers);
            DecisionFor(status, headers, request, script, policy, followed, resolve) == Failed(InvalidLocation)
            <==> status in REDIRECT_STATUSES && values != [] && (|values| != 1 || resolve(values[0], request.target) == None)
  {
  }

  /** A Location is invalid exactly if there are several or the one does not resolve against the target. */
  lemma InvalidLocationIff(
    status: nat, headers: seq<ResponseHeader>, request: Request, script: ScriptRequest, policy: Policy, followed: nat, resolve: Resolver)
    ensures DecisionFor(status, headers, request, script, policy, followed, resolve) == Failed(InvalidLocation)
            <==> && Redirecting(status, headers)
                 && forall i: nat :: OnlyLocation(headers, i) ==> resolve(headers[i].value, request.target) == None
  {
    InvalidByValues(status, headers, request, script, policy, followed, resolve);
    LocationsAre(headers);
    if |Locations(headers)| == 1 {
      var i: nat :| OnlyLocation(headers, i);
      assert Locations(headers) == [headers[i].value];
    }
  }

  /** What each target leads to: credentials, other schemes and downgrades fail, then the policy decides, then the limit. */
  lemma TargetDecides(
    status: nat, headers: seq<ResponseHeader>, request: Request, script: ScriptRequest, policy: Policy, followed: nat, resolve: Resolver,
    i: nat, located: Located)
    requires LeadsTo(status, headers, request.target, resolve, i, located)
    ensures var d := DecisionFor(status, headers, request, script, policy, followed, resolve);
            var web := located.url.scheme == Http || located.url.scheme == Https;
            && (d == Failed(CredentialsNotAllowed) <==> located.credentials)
            && (d == Failed(UnsupportedScheme) <==> !located.credentials && !web)
            && (d == Failed(InsecureDowngrade) <==> !located.credentials && web && !Allowed(request.target, located))
            && (d == NotFollowed <==> Allowed(request.target, located) && !policy.follow)
            && (d == Failed(LimitExceeded) <==> Allowed(request.target, located) && policy.follow && policy.maxRedirects <= followed)
            && (d.Follow? <==> Allowed(request.target, located) && policy.follow && followed < policy.maxRedirects)
  {
    LocationsAre(headers);
  }

  /** What a script may see of a target. */
  function Visible(target: Url, sensitive: bool): ScriptText {
    if sensitive then ScriptText(None, false, true) else ScriptText(Some(target.text), true, false)
  }

  /** A followed redirect requests the target that the one Location leads to, with the method and body for its status. */
  lemma FollowedLands(a: Hop, b: Hop, step: Step) returns (i: nat, located: Located)
    requires FollowsBy(a, b, step)
    ensures LeadsTo(step.status, step.headers, a.request.target, step.resolve, i, located)
    ensures Allowed(a.request.target, located) && step.policy.follow && step.followed < step.policy.maxRedirects
    ensures b.request.target == located.url
    ensures b.script.url == Visible(located.url, a.script.url.sensitive)
    ensures var rewritten := DropsBody(step.status, a.request.verb);
            && b.request.verb == (if rewritten then GET else a.request.verb)
            && b.request.body == (if rewritten then Body("", None, false) else a.request.body)
            && b.script.verb == b.request.verb && b.script.bodyPresent == (a.script.bodyPresent && !rewritten)
  {
    LocationsAre(step.headers);
    i :| OnlyLocation(step.headers, i);
    located := step.resolve(step.headers[i].value, a.request.target).value;
  }

  /** The names reported as removed are those of the headers that did not go along. */
  lemma RemovedAreNamed(
    status: nat, headers: seq<ResponseHeader>, request: Request, script: ScriptRequest, policy: Policy, followed: nat, resolve: Resolver)
    returns (at: seq<nat>)
    requires DecisionFor(status, headers, request, script, policy, followed, resolve).Follow?
    ensures var d := DecisionFor(status, headers, request, script, policy, followed, resolve);
            NamesDropped(request.headers, script.headers, |request.headers|, DropsBody(status, request.verb),
                         request.target.origin == d.request.target.origin, d.removed, at)
  {
    var d := DecisionFor(status, headers, request, script, policy, followed, resolve);
    at := RemovedNamesAre(
      request.headers, script.headers, |request.headers|, DropsBody(status, request.verb),
      request.target.origin == d.request.target.origin);
  }

  /** Once a target is hidden from scripts, so are all later ones; until then each is shown as it is. */
  lemma {:induction false} TargetVisibility(hops: seq<Hop>, i: nat, j: nat)
    requires IsChain(hops) && i < j < |hops|
    ensures hops[j].script.url == Visible(hops[j].request.target, hops[i].script.url.sensitive)
    decreases j
  {
    assert LinkedAt(hops, j - 1);
    var step :| FollowsBy(hops[j - 1], hops[j], step);
    var k, located := FollowedLands(hops[j - 1], hops[j], step);
    if i < j - 1 {
      TargetVisibility(hops, i, j - 1);
    }
  }
}
