/** What a scope lifts: for every name the most frequent declaration. */
module ImportLifting {
  import opened ImportPlans
  import opened Sequences

  /** What two declarations must share to count as the same. */
  datatype Signature =
    | ValueSigned(text: string)
    | AliasSigned(target: string)
    | SecretSigned(supplied: bool, text: string, clear: bool)
    | UnsetSigned

  function VariableSignature(variable: Variable): Signature {
    match variable.content
    case Value(text) => ValueSigned(text)
    case Alias(target) => AliasSigned(target)
    case Secret(supplied, clear) => SecretSigned(supplied.Some?, supplied.GetOr(""), clear.GetOr(false))
    case Unset => UnsetSigned
  }

  /** Signatures are equal exactly for declarations of the same content. */
  lemma SignatureIsContent(a: Variable, b: Variable)
    ensures VariableSignature(a) == VariableSignature(b) <==> SameContent(a, b)
  {
    assert a.content.Secret? && b.content.Secret? && a.content.supplied != b.content.supplied ==>
        VariableSignature(a) != VariableSignature(b);
  }

  function Votes(declared: seq<Variable>, name: string, signature: Signature): nat {
    if declared == [] then 0
    else
      var last := declared[|declared| - 1];
      Votes(declared[..|declared| - 1], name, signature)
      + if last.name == name && VariableSignature(last) == signature then 1 else 0
  }

  /** The declarations with the name and the content of declaration `i`. */
  function Alike(declared: seq<Variable>, i: nat): set<nat>
    requires i < |declared|
  {
    set j: nat | j < |declared| && declared[j].name == declared[i].name && SameContent(declared[j], declared[i])
  }

  /** The votes of a declaration are the declarations with its name and content. */
  lemma VotesAreAlike(declared: seq<Variable>, i: nat)
    requires i < |declared|
    ensures Votes(declared, declared[i].name, VariableSignature(declared[i])) == |Alike(declared, i)|
  {
    assert declared[..|declared|] == declared;
    VotesCount(declared, i, |declared|);
    assert AlikeBefore(declared, i, |declared|) == Alike(declared, i);
  }

  predicate IsAlike(a: Variable, b: Variable) {
    a.name == b.name && SameContent(a, b)
  }

  function AlikeBefore(declared: seq<Variable>, i: nat, n: nat): set<nat>
    requires i < |declared| && n <= |declared|
  {
    set j: nat | j < n && IsAlike(declared[j], declared[i])
  }

  lemma {:induction false} VotesCount(declared: seq<Variable>, i: nat, n: nat)
    requires i < |declared| && n <= |declared|
    ensures Votes(declared[..n], declared[i].name, VariableSignature(declared[i])) == |AlikeBefore(declared, i, n)|
  {
    if n > 0 {
      VotesCount(declared, i, n - 1);
      assert declared[..n][..n - 1] == declared[..n - 1];
      SignatureIsContent(declared[n - 1], declared[i]);
      AlikeNext(declared, i, n - 1);
    }
  }

  lemma AlikeNext(declared: seq<Variable>, i: nat, n: nat)
    requires i < |declared| && n < |declared|
    ensures |AlikeBefore(declared, i, n + 1)| == |AlikeBefore(declared, i, n)| + if IsAlike(declared[n], declared[i]) then 1 else 0
  {
    var before := AlikeBefore(declared, i, n);
    assert n !in before;
    assert AlikeBefore(declared, i, n + 1) == if IsAlike(declared[n], declared[i]) then before + {n} else before;
  }

  /** More declarations are like declaration `i` than like declaration `j`, or as many and `i` stands no later. */
  predicate Beats(declared: seq<Variable>, i: nat, j: nat)
    requires i < |declared| && j < |declared|
  {
    |Alike(declared, j)| < |Alike(declared, i)| || (|Alike(declared, j)| == |Alike(declared, i)| && i <= j)
  }

  /** Declaration `i` wins among all of its name. */
  predicate IsBaseline(declared: seq<Variable>, name: string, i: nat) {
    && i < |declared| && declared[i].name == name
    && forall j: nat {:trigger declared[j]} :: j < |declared| && declared[j].name == name ==> Beats(declared, i, j)
  }

  lemma {:induction false} BestOfFirst(declared: seq<Variable>, name: string, k: nat) returns (i: nat)
    requires k <= |declared| && Declares(declared[..k], name)
    ensures i < k && declared[i].name == name
    ensures forall j: nat {:trigger declared[j]} :: j < k && declared[j].name == name ==> Beats(declared, i, j)
  {
    if Declares(declared[..k - 1], name) {
      i := BestOfFirst(declared, name, k - 1);
      if declared[k - 1].name == name && !Beats(declared, i, k - 1) {
        i := k - 1;
      }
    } else {
      var v :| v in declared[..k] && v.name == name;
      i :| 0 <= i < k && declared[i] == v;
      assert forall j: nat {:trigger declared[j]} :: j < k - 1 ==> declared[j] in declared[..k - 1];
    }
  }

  lemma BaselineExists(declared: seq<Variable>, name: string)
    requires Declares(declared, name)
    ensures exists i: nat :: IsBaseline(declared, name, i)
  {
    assert declared[..|declared|] == declared;
    var i := BestOfFirst(declared, name, |declared|);
    assert IsBaseline(declared, name, i);
  }

  ghost function BaselineIndex(declared: seq<Variable>, name: string): (i: nat)
    requires Declares(declared, name)
    ensures IsBaseline(declared, name, i)
  {
    BaselineExists(declared, name);
    var i: nat :| IsBaseline(declared, name, i);
    i
  }

  ghost function Baseline(declared: seq<Variable>, name: string): (v: Variable)
    requires Declares(declared, name)
    ensures v in declared && v.name == name
  {
    declared[BaselineIndex(declared, name)]
  }

  lemma BaselineIs(declared: seq<Variable>, name: string, i: nat)
    requires IsBaseline(declared, name, i)
    ensures declared[i] in declared && Baseline(declared, name) == declared[i]
  {
    assert declared[i] in declared;
    var j := BaselineIndex(declared, name);
    assert Beats(declared, i, j) && Beats(declared, j, i);
  }

  /** The declared names, in the order in which they are first seen. */
  function NamesOf(declared: seq<Variable>): seq<string> {
    if declared == [] then []
    else
      var last := declared[|declared| - 1].name;
      var before := NamesOf(declared[..|declared| - 1]);
      if last in before then before else before + [last]
  }

  lemma {:induction false} NamesAreDeclared(declared: seq<Variable>)
    ensures forall name :: name in NamesOf(declared) <==> Declares(declared, name)
  {
    if declared != [] {
      var init, last := declared[..|declared| - 1], declared[|declared| - 1];
      NamesAreDeclared(init);
      assert declared == init + [last];
      forall name
        ensures name in NamesOf(declared) <==> Declares(declared, name)
      {
        DeclaresLast(init, last, name);
      }
    }
  }

  function NameEach(declared: seq<Variable>): (names: seq<string>)
    ensures |names| == |declared|
  {
    seq(|declared|, i requires 0 <= i < |declared| => declared[i].name)
  }

  lemma {:induction false} NamesFirstSeen(declared: seq<Variable>)
    ensures InFirstSeenOrder(NamesOf(declared), NameEach(declared))
  {
    if declared != [] {
      var n := |declared| - 1;
      NamesFirstSeen(declared[..n]);
      assert NameEach(declared) == NameEach(declared[..n]) + [declared[n].name];
      FirstSeenNext(NamesOf(declared[..n]), NameEach(declared[..n]), declared[n].name, NamesOf(declared), NameEach(declared));
    }
  }

  lemma {:induction false} NamesDistinct(declared: seq<Variable>)
    ensures forall i, j :: 0 <= i < j < |NamesOf(declared)| ==> NamesOf(declared)[i] != NamesOf(declared)[j]
  {
    if declared != [] {
      NamesDistinct(declared[..|declared| - 1]);
    }
  }

  /** A scope lifts a name it does not declare itself, unless it inherits the same declaration. */
  ghost predicate Lifts(declared: seq<Variable>, local: seq<Variable>, inherited: Bindings, name: string) {
    && Declares(declared, name) && !Declares(local, name)
    && (name in inherited ==> !SameContent(inherited[name], Baseline(declared, name)))
  }

  ghost function Lifted(declared: seq<Variable>, names: seq<string>, local: seq<Variable>, inherited: Bindings): seq<Variable> {
    if names == [] then []
    else
      var last := names[|names| - 1];
      Lifted(declared, names[..|names| - 1], local, inherited)
      + if Lifts(declared, local, inherited, last) then [Baseline(declared, last)] else []
  }

  ghost function Additions(declared: seq<Variable>, local: seq<Variable>, inherited: Bindings): seq<Variable> {
    Lifted(declared, NamesOf(declared), local, inherited)
  }

  lemma {:induction false} LiftedDeclares(
    declared: seq<Variable>, names: seq<string>, local: seq<Variable>, inherited: Bindings, name: string)
    ensures Declares(Lifted(declared, names, local, inherited), name) <==> name in names && Lifts(declared, local, inherited, name)
  {
    if names != [] {
      var init, last := names[..|names| - 1], names[|names| - 1];
      assert names == init + [last];
      LiftedDeclares(declared, init, local, inherited, name);
      if Lifts(declared, local, inherited, last) {
        DeclaresLast(Lifted(declared, init, local, inherited), Baseline(declared, last), name);
      }
    }
  }

  /** A scope receives exactly the names it lifts. */
  lemma AdditionsDeclare(declared: seq<Variable>, local: seq<Variable>, inherited: Bindings, name: string)
    ensures Declares(Additions(declared, local, inherited), name) <==> Lifts(declared, local, inherited, name)
  {
    NamesAreDeclared(declared);
    LiftedDeclares(declared, NamesOf(declared), local, inherited, name);
  }

  // ---------------------------------------------------------------------
  // Counting
  // ---------------------------------------------------------------------

  datatype Candidate = Candidate(variable: Variable, signature: Signature, count: nat, order: nat)

  /** The candidate counts the votes of the signature first declared at its `order`. */
  predicate IsCandidate(declared: seq<Variable>, name: string, c: Candidate) {
    && c.order < |declared| && declared[c.order] == c.variable && c.variable.name == name
    && c.signature == VariableSignature(c.variable) && c.count == Votes(declared, name, c.signature)
    && forall i: nat {:trigger declared[i]} :: i < c.order && declared[i].name == name ==> VariableSignature(declared[i]) != c.signature
  }

  /** One candidate for every signature declared under the name. */
  ghost predicate Tally(declared: seq<Variable>, name: string, named: seq<Candidate>) {
    && (forall c :: c in named ==> IsCandidate(declared, name, c))
    && (forall v :: v in declared && v.name == name ==> HasSignature(named, VariableSignature(v)))
  }

  predicate HasSignature(named: seq<Candidate>, signature: Signature) {
    exists c :: c in named && c.signature == signature
  }

  lemma VotesGrow(declared: seq<Variable>, v: Variable, name: string, signature: Signature)
    ensures Votes(declared + [v], name, signature)
            == Votes(declared, name, signature) + if v.name == name && VariableSignature(v) == signature then 1 else 0
  {
    assert (declared + [v])[..|declared|] == declared;
  }

  lemma {:induction false} NoVotes(declared: seq<Variable>, name: string, signature: Signature)
    requires forall v :: v in declared ==> v.name != name || VariableSignature(v) != signature
    ensures Votes(declared, name, signature) == 0
  {
    if declared != [] {
      assert forall v :: v in declared[..|declared| - 1] ==> v in declared;
      NoVotes(declared[..|declared| - 1], name, signature);
    }
  }

  lemma CandidateStays(declared: seq<Variable>, v: Variable, name: string, c: Candidate)
    requires IsCandidate(declared, name, c)
    ensures var hit := v.name == name && VariableSignature(v) == c.signature;
            IsCandidate(declared + [v], name, if hit then c.(count := c.count + 1) else c)
  {
    VotesGrow(declared, v, name, c.signature);
  }

  lemma OtherTallyStays(declared: seq<Variable>, v: Variable, name: string, named: seq<Candidate>)
    requires Tally(declared, name, named) && v.name != name
    ensures Tally(declared + [v], name, named)
  {
    forall c | c in named
      ensures IsCandidate(declared + [v], name, c)
    {
      CandidateStays(declared, v, name, c);
    }
  }

  /** Counts one more declaration: a vote for its signature, or a new candidate. */
  method AddCandidate(named: seq<Candidate>, variable: Variable, ghost declared: seq<Variable>, order: nat)
    returns (more: seq<Candidate>)
    requires Tally(declared, variable.name, named) && order == |declared|
    ensures Tally(declared + [variable], variable.name, more)
  {
    var signature := VariableSignature(variable);
    ghost var now := declared + [variable];
    more := [];
    var found := false;
    for i := 0 to |named|
      invariant forall c :: c in more ==> IsCandidate(now, variable.name, c)
      invariant forall c :: c in named[..i] ==> HasSignature(more, c.signature)
      invariant found <==> HasSignature(named[..i], signature)
    {
      var c := named[i];
      CandidateStays(declared, variable, variable.name, c);
      var updated := if c.signature == signature then c.(count := c.count + 1) else c;
      assert named[..i + 1] == named[..i] + [c];
      assert forall s :: HasSignature(more, s) ==> HasSignature(more + [updated], s);
      assert updated in more + [updated];
      more := more + [updated];
      found := found || c.signature == signature;
    }
    assert named[..|named|] == named;
    if !found {
      NoVotes(declared, variable.name, signature);
      VotesGrow(declared, variable, variable.name, signature);
      assert forall s :: HasSignature(more, s) ==> HasSignature(more + [Candidate(variable, signature, 1, order)], s);
      more := more + [Candidate(variable, signature, 1, order)];
      assert HasSignature(more, signature);
    }
  }

  /** The candidate with the most votes, the earliest on a tie, is the baseline. */
  method SelectCandidate(named: seq<Candidate>, ghost declared: seq<Variable>, ghost name: string) returns (selected: Variable)
    requires named != [] && Tally(declared, name, named)
    ensures Declares(declared, name) && selected == Baseline(declared, name)
  {
    var best := named[0];
    for i := 1 to |named|
      invariant best in named
      invariant forall k :: 0 <= k < i ==> named[k].count < best.count || (named[k].count == best.count && best.order <= named[k].order)
    {
      if named[i].count > best.count || (named[i].count == best.count && named[i].order < best.order) {
        best := named[i];
      }
    }
    BestIsBaseline(declared, name, named, best);
    selected := best.variable;
  }

  lemma BestIsBaseline(declared: seq<Variable>, name: string, named: seq<Candidate>, best: Candidate)
    requires Tally(declared, name, named) && best in named
    requires forall c :: c in named ==> c.count < best.count || (c.count == best.count && best.order <= c.order)
    ensures Declares(declared, name) && best.variable == Baseline(declared, name)
  {
    assert IsCandidate(declared, name, best);
    forall j: nat | j < |declared| && declared[j].name == name
      ensures Beats(declared, best.order, j)
    {
      var c :| c in named && c.signature == VariableSignature(declared[j]);
      VotesAreAlike(declared, best.order);
      VotesAreAlike(declared, j);
      assert IsCandidate(declared, name, c);
      assert c.order <= j;
    }
    assert declared[best.order] in declared;
    BaselineIs(declared, name, best.order);
  }
}
