/** Lazy resolution of variables by alias chains. */
module AliasChains {
  import opened Wrappers
  import opened CodeUnits

  type Name = Text

  datatype Kind = KindUnset | KindValue | KindSecret | KindAlias

  /** An effective variable as the profile store delivers it; which columns are set depends on the kind. */
  datatype Variable = Variable(
    variableId: string, kind: Kind, value: Option<Text>, secretVersion: Option<nat>, aliasTarget: Option<Name>)

  type Variables = map<Name, Variable>

  datatype SecretReference = SecretReference(variableId: string, version: nat)

  datatype Resolved = Resolved(value: Text, secret: bool, references: seq<SecretReference>)

  datatype ResolutionError =
    | AliasCycle(path: seq<Name>)
    | Missing(name: Name)
    | IsUnset(name: Name)
    | NoSecretValue(name: Name)
    | NoAliasTarget(name: Name)
    | InvalidPlaceholder(name: Name)

  // ---------------------------------------------------------------------
  // Chains
  // ---------------------------------------------------------------------

  /** What a variable that is no alias resolves to, or why it does not. */
  function Direct(variables: Variables, name: Name): Result<Resolved, ResolutionError> {
    if name !in variables then Err(Missing(name))
    else
      var v := variables[name];
      match v.kind
      case KindUnset => Err(IsUnset(name))
      case KindValue => Ok(Resolved(v.value.GetOr([]), false, []))
      case KindSecret =>
        if v.value == None || v.secretVersion == None then Err(NoSecretValue(name))
        else Ok(Resolved(v.value.value, true, [SecretReference(v.variableId, v.secretVersion.value)]))
      case KindAlias => Err(NoAliasTarget(name))
  }

  /** The target of an alias. */
  function Target(variables: Variables, name: Name): Option<Name> {
    if name in variables && variables[name].kind == KindAlias then variables[name].aliasTarget else None
  }

  /** The name that the chain reaches after `n` aliases, unless it ended before. */
  function After(variables: Variables, name: Name, n: nat): Option<Name> {
    if n == 0 then Some(name)
    else
      var before := After(variables, name, n - 1);
      if before == None then None else Target(variables, before.value)
  }

  predicate EndsAt(variables: Variables, name: Name, n: nat, result: Result<Resolved, ResolutionError>) {
    var last := After(variables, name, n);
    last.Some? && Target(variables, last.value) == None && Direct(variables, last.value) == result
  }

  /** The chain of the name ends, and there it resolves like this. */
  ghost predicate EndsIn(variables: Variables, name: Name, result: Result<Resolved, ResolutionError>) {
    exists n: nat :: EndsAt(variables, name, n, result)
  }

  predicate Returns(variables: Variables, name: Name, i: nat, j: nat) {
    i < j && After(variables, name, j).Some? && After(variables, name, i) == After(variables, name, j)
  }

  /** The chain of the name comes back to a name that it passed. */
  ghost predicate Loops(variables: Variables, name: Name) {
    exists i: nat, j: nat :: Returns(variables, name, i, j)
  }

  // ---------------------------------------------------------------------
  // Resolution
  // ---------------------------------------------------------------------

  predicate Distinct(path: seq<Name>) {
    forall i, j :: 0 <= i < j < |path| ==> path[i] != path[j]
  }

  function Elements(path: seq<Name>): set<Name> {
    set n | n in path
  }

  lemma PathGrows(variables: Variables, path: seq<Name>, name: Name)
    requires name in variables && name !in path
    ensures |variables.Keys - Elements(path + [name])| < |variables.Keys - Elements(path)|
  {
    assert Elements(path + [name]) == Elements(path) + {name};
    assert variables.Keys - Elements(path) == (variables.Keys - Elements(path + [name])) + {name};
  }

  /** Walks the chain; the path holds the names passed so far. */
  function ResolveFrom(variables: Variables, name: Name, path: seq<Name>): Result<Resolved, ResolutionError>
    decreases |variables.Keys - Elements(path)|
  {
    if name in path then Err(AliasCycle(path + [name]))
    else
      match Target(variables, name)
      case None => Direct(variables, name)
      case Some(target) =>
        PathGrows(variables, path, name);
        ResolveFrom(variables, target, path + [name])
  }

  function Resolve(variables: Variables, name: Name): Result<Resolved, ResolutionError> {
    ResolveFrom(variables, name, [])
  }

  lemma {:induction false} NothingAfterEnd(variables: Variables, name: Name, n: nat, m: nat)
    requires n <= m && After(variables, name, n) == None
    ensures After(variables, name, m) == None
    decreases m
  {
    if n < m {
      NothingAfterEnd(variables, name, n, m - 1);
    }
  }

  /** From two equal names on the chain continues alike. */
  lemma {:induction false} SameTail(variables: Variables, name: Name, i: nat, j: nat, k: nat)
    requires After(variables, name, i) == After(variables, name, j)
    ensures After(variables, name, i + k) == After(variables, name, j + k)
    decreases k
  {
    if k > 0 {
      SameTail(variables, name, i, j, k - 1);
    }
  }

  /** A chain that ends is nowhere else at its end, and does not come back. */
  lemma EndsOnce(variables: Variables, name: Name, n: nat, result: Result<Resolved, ResolutionError>)
    requires EndsAt(variables, name, n, result)
    ensures forall m: nat, other :: EndsAt(variables, name, m, other) ==> m == n && other == result
    ensures !Loops(variables, name)
  {
    assert After(variables, name, n + 1) == None;
    forall m: nat, other | EndsAt(variables, name, m, other)
      ensures m == n && other == result
    {
      assert After(variables, name, m + 1) == None;
      if m < n {
        NothingAfterEnd(variables, name, m + 1, n);
      } else if n < m {
        NothingAfterEnd(variables, name, n + 1, m);
      }
    }
    forall i: nat, j: nat
      ensures !Returns(variables, name, i, j)
    {
      if Returns(variables, name, i, j) {
        if j > n {
          NothingAfterEnd(variables, name, n + 1, j);
        } else {
          SameTail(variables, name, i, j, n + 1 - j);
          NothingAfterEnd(variables, name, i + (n + 1 - j), n);
        }
      }
    }
  }

  /** The path holds the names passed on the way to the current one. */
  predicate Passed(variables: Variables, start: Name, name: Name, path: seq<Name>) {
    && After(variables, start, |path|) == Some(name)
    && forall i: nat {:trigger path[i]} :: i < |path| ==> After(variables, start, i) == Some(path[i])
  }

  predicate IsCycle(result: Result<Resolved, ResolutionError>) {
    result.Err? && result.error.AliasCycle?
  }

  lemma {:induction false} WalkFollowsChain(variables: Variables, start: Name, name: Name, path: seq<Name>)
    requires Passed(variables, start, name, path)
    ensures var result := ResolveFrom(variables, name, path);
            if IsCycle(result) then Loops(variables, start) else EndsIn(variables, start, result)
    decreases |variables.Keys - Elements(path)|
  {
    if name in path {
      var i: nat :| i < |path| && path[i] == name;
      assert Returns(variables, start, i, |path|);
    } else if Target(variables, name).Some? {
      PathGrows(variables, path, name);
      WalkFollowsChain(variables, start, Target(variables, name).value, path + [name]);
    } else {
      assert EndsAt(variables, start, |path|, Direct(variables, name));
    }
  }

  /**
   Resolution always ends. It gives exactly what the end of the alias chain gives when
   the chain ends, and the cycle error exactly when the chain comes back to itself.
   */
  lemma ResolvesChain(variables: Variables, name: Name)
    ensures IsCycle(Resolve(variables, name)) <==> Loops(variables, name)
    ensures forall result :: EndsIn(variables, name, result) <==> Resolve(variables, name) == result && !Loops(variables, name)
  {
    WalkFollowsChain(variables, name, name, []);
    forall result | EndsIn(variables, name, result)
      ensures Resolve(variables, name) == result && !Loops(variables, name)
    {
      var n: nat :| EndsAt(variables, name, n, result);
      EndsOnce(variables, name, n, result);
    }
  }

  /** A name resolves exactly when its chain ends in a set value or in a secret that has a value and a version. */
  lemma ResolvesIff(variables: Variables, name: Name)
    ensures Resolve(variables, name).Ok? <==>
              exists n: nat :: EndsInValue(variables, After(variables, name, n))
  {
    ResolvesChain(variables, name);
    if Resolve(variables, name).Ok? {
      assert EndsIn(variables, name, Resolve(variables, name));
      var n: nat :| EndsAt(variables, name, n, Resolve(variables, name));
      assert EndsInValue(variables, After(variables, name, n));
    }
    if n: nat :| EndsInValue(variables, After(variables, name, n)) {
      assert EndsAt(variables, name, n, Direct(variables, After(variables, name, n).value));
      assert EndsIn(variables, name, Direct(variables, After(variables, name, n).value));
    }
  }

  /** The name stands for a value, or for a secret that has a value and a version. */
  predicate EndsInValue(variables: Variables, name: Option<Name>) {
    && name.Some? && name.value in variables
    && var v := variables[name.value];
       v.kind == KindValue || (v.kind == KindSecret && v.value.Some? && v.secretVersion.Some?)
  }

  /** A resolved name is secret exactly when its chain ends in a secret, which is then its one reference. */
  lemma SecretIffChainEndsInSecret(variables: Variables, name: Name)
    requires Resolve(variables, name).Ok?
    ensures var r := Resolve(variables, name).value;
            && (r.secret <==> ChainHasSecret(variables, name))
            && (r.secret <==> r.references != []) && |r.references| <= 1
  {
    ResolvesChain(variables, name);
    assert EndsIn(variables, name, Resolve(variables, name));
    var end: nat :| EndsAt(variables, name, end, Resolve(variables, name));
    if n: nat :| SecretAfter(variables, name, n) {
      assert EndsAt(variables, name, n, Direct(variables, After(variables, name, n).value));
      EndsOnce(variables, name, end, Resolve(variables, name));
    }
    if Resolve(variables, name).value.secret {
      assert SecretAfter(variables, name, end);
    }
  }

  /** The chain is at a secret after `n` aliases. */
  predicate SecretAfter(variables: Variables, name: Name, n: nat) {
    var at := After(variables, name, n);
    at.Some? && at.value in variables && variables[at.value].kind == KindSecret
  }

  /** The alias chain of the name comes to a secret. */
  ghost predicate ChainHasSecret(variables: Variables, name: Name) {
    exists n: nat :: SecretAfter(variables, name, n)
  }

  // ---------------------------------------------------------------------
  // What the end of a chain gives
  // ---------------------------------------------------------------------

  predicate AliasTo(variables: Variables, name: Name, target: Name) {
    name in variables && variables[name].kind == KindAlias && variables[name].aliasTarget == Some(target)
  }

  predicate HasTarget(variables: Variables, name: Name) {
    name in variables && variables[name].kind == KindAlias && variables[name].aliasTarget.Some?
  }

  /** Names of which each but the last is an alias of the next. */
  predicate IsAliasPath(variables: Variables, path: seq<Name>) {
    path != [] && forall i {:trigger path[i]} :: 0 <= i < |path| - 1 ==> AliasTo(variables, path[i], path[i + 1])
  }

  lemma {:induction false} PathIsChain(variables: Variables, path: seq<Name>, n: nat)
    requires IsAliasPath(variables, path) && n < |path|
    ensures After(variables, path[0], n) == Some(path[n])
  {
    if n > 0 {
      PathIsChain(variables, path, n - 1);
      assert AliasTo(variables, path[n - 1], path[n]);
    }
  }

  /** What a name at the end of the aliases gives: the stored text, with the reference of a secret, or the error. */
  predicate GivenAt(variables: Variables, last: Name, r: Result<Resolved, ResolutionError>) {
    if last !in variables then r == Err(Missing(last))
    else
      var v := variables[last];
      && (v.kind == KindUnset ==> r == Err(IsUnset(last)))
      && (v.kind == KindValue ==> r == Ok(Resolved(TextOf(v), false, [])))
      && (v.kind == KindSecret && (v.value == None || v.secretVersion == None) ==> r == Err(NoSecretValue(last)))
      && (v.kind == KindSecret && v.value.Some? && v.secretVersion.Some? ==>
            r == Ok(Resolved(TextOf(v), true, [SecretReference(v.variableId, v.secretVersion.value)])))
      && (v.kind == KindAlias && v.aliasTarget == None ==> r == Err(NoAliasTarget(last)))
  }

  /** The text a variable stores, empty if it stores none. */
  function TextOf(v: Variable): Text {
    if v.value.Some? then v.value.value else []
  }

  /** A name resolves to what its alias chain ends in. */
  lemma EndDecides(variables: Variables, path: seq<Name>)
    requires IsAliasPath(variables, path) && !HasTarget(variables, path[|path| - 1])
    ensures GivenAt(variables, path[|path| - 1], Resolve(variables, path[0]))
  {
    var n := |path| - 1;
    PathIsChain(variables, path, n);
    var result := Direct(variables, path[n]);
    assert EndsAt(variables, path[0], n, result);
    assert EndsIn(variables, path[0], result);
    ResolvesChain(variables, path[0]);
  }

  lemma {:induction false} WalksPath(variables: Variables, path: seq<Name>, n: nat)
    requires IsAliasPath(variables, path) && n < |path| && Distinct(path[..|path| - 1])
    ensures Resolve(variables, path[0]) == ResolveFrom(variables, path[n], path[..n])
  {
    if n == 0 {
      assert path[..0] == [];
    } else {
      WalksPath(variables, path, n - 1);
      assert AliasTo(variables, path[n - 1], path[n]);
      assert path[..n] == path[..n - 1] + [path[n - 1]];
      assert path[n - 1] !in path[..n - 1] by {
        assert forall i :: 0 <= i < |path| - 1 ==> path[..|path| - 1][i] == path[i];
      }
    }
  }

  /** A chain that comes back is reported with all its names, the repeated one first and last of the cycle. */
  lemma CycleIsReported(variables: Variables, path: seq<Name>)
    requires IsAliasPath(variables, path) && Distinct(path[..|path| - 1]) && path[|path| - 1] in path[..|path| - 1]
    ensures Resolve(variables, path[0]) == Err(AliasCycle(path))
  {
    var n := |path| - 1;
    WalksPath(variables, path, n);
    assert path[..n] + [path[n]] == path;
  }

  /** The alias chain of the name ends in a value or in a secret that has a value and a version. */
  ghost predicate HasText(variables: Variables, name: Name) {
    exists n: nat {:trigger After(variables, name, n)} :: EndsInValue(variables, After(variables, name, n))
  }

  /** The variable at the end of the chain. */
  ghost function EndOf(variables: Variables, name: Name): (v: Variable)
    requires HasText(variables, name)
  {
    var n: nat :| EndsInValue(variables, After(variables, name, n));
    variables[After(variables, name, n).value]
  }

  /** A name that has a text resolves to the text stored at the end of its chain, and no other name resolves. */
  lemma ResolvesToText(variables: Variables, name: Name)
    ensures Resolve(variables, name).Ok? <==> HasText(variables, name)
    ensures HasText(variables, name) ==>
              var v := EndOf(variables, name);
              Resolve(variables, name)
              == Ok(Resolved(TextOf(v), v.kind == KindSecret,
                             if v.kind == KindSecret then [SecretReference(v.variableId, v.secretVersion.value)] else []))
  {
    ResolvesIff(variables, name);
    if HasText(variables, name) {
      var n: nat :| EndsInValue(variables, After(variables, name, n))
          && EndOf(variables, name) == variables[After(variables, name, n).value];
      var result := Direct(variables, After(variables, name, n).value);
      assert EndsAt(variables, name, n, result);
      assert EndsIn(variables, name, result);
      ResolvesChain(variables, name);
    }
  }
}
