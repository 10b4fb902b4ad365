/** Whether a response changed the jar. */
module CookieChanges {
  // The stored rows against the cookies left in memory: when they count as equal, and which
  // identities the audit record lists.


  /** The identity columns with the two compared ones. The same shape serves a row and a cookie in memory. */
  datatype Cookie = Cookie(name: string, domain: string, path: string, payload: string, metadata: string)

  const NUL: char := '\0'

  function IdentityOf(name: string, domain: string, path: string): string {
    name + [NUL] + domain + [NUL] + path
  }

  function Identity(c: Cookie): string {
    IdentityOf(c.name, c.domain, c.path)
  }

  /** A map keyed by identity; a later cookie replaces an earlier one. */
  function ByIdentity(cookies: seq<Cookie>): (m: map<string, Cookie>)
    ensures forall i :: 0 <= i < |cookies| ==> Identity(cookies[i]) in m
    ensures forall k :: k in m ==> Identity(m[k]) == k && m[k] in cookies
  {
    if cookies == [] then map[]
    else
      var last := cookies[|cookies| - 1];
      ByIdentity(cookies[..|cookies| - 1])[Identity(last) := last]
  }

  predicate SameContent(a: Cookie, b: Cookie) {
    a.payload == b.payload && a.metadata == b.metadata
  }

  predicate SameCookieState(rows: seq<Cookie>, stored: seq<Cookie>) {
    |rows| == |stored| &&
    var previous := ByIdentity(rows);
    forall i :: 0 <= i < |stored| ==>
      Identity(stored[i]) in previous && SameContent(previous[Identity(stored[i])], stored[i])
  }

  /** The identities in first-seen order, each once. */
  function FirstSeen(cookies: seq<Cookie>): (ids: seq<string>)
    ensures forall k :: k in ids <==> exists i :: 0 <= i < |cookies| && Identity(cookies[i]) == k
    ensures forall i, j :: 0 <= i < j < |ids| ==> ids[i] != ids[j]
  {
    if cookies == [] then []
    else
      var before := FirstSeen(cookies[..|cookies| - 1]);
      var id := Identity(cookies[|cookies| - 1]);
      if id in before then before else before + [id]
  }

  predicate Differs(previous: map<string, Cookie>, next: map<string, Cookie>, id: string) {
    !(id in previous && id in next && SameContent(previous[id], next[id]))
  }

  /** What an audit record says about a changed cookie: its identity and no value. */
  datatype Affected = Affected(name: string, domain: string, path: string) {
    function Key(): string {
      IdentityOf(name, domain, path)
    }
  }

  ghost predicate Keyed(m: map<string, Cookie>) {
    forall k :: k in m ==> Identity(m[k]) == k
  }

  function ChangedAmong(ids: seq<string>, previous: map<string, Cookie>, next: map<string, Cookie>): (changed: seq<Affected>)
    requires forall id :: id in ids ==> id in previous || id in next
    requires Keyed(previous) && Keyed(next)
    ensures forall a :: a in changed ==> a.Key() in ids && Differs(previous, next, a.Key())
    ensures forall id :: id in ids && Differs(previous, next, id) ==> exists a :: a in changed && a.Key() == id
  {
    if ids == [] then []
    else
      var id := ids[0];
      var rest := ChangedAmong(ids[1..], previous, next);
      if !Differs(previous, next, id) then rest
      else
        var c := if id in next then next[id] else previous[id];
        var a := Affected(c.name, c.domain, c.path);
        assert a.Key() == id;
        assert forall x :: x in [a] + rest <==> x == a || x in rest;
        [a] + rest
  }

  function ChangedCookieIdentities(rows: seq<Cookie>, stored: seq<Cookie>): seq<Affected> {
    ChangedAmong(FirstSeen(rows + stored), ByIdentity(rows), ByIdentity(stored))
  }

  // ---------------------------------------------------------------------
  // The comparison and the report agree
  // ---------------------------------------------------------------------

  /** The table allows one row per identity, and the cookie store one cookie per identity. */
  ghost predicate UniqueIdentities(cookies: seq<Cookie>) {
    forall i, j :: 0 <= i < j < |cookies| ==> Identity(cookies[i]) != Identity(cookies[j])
  }

  /** Same identities, each with the same payload and metadata. */
  ghost predicate SameJar(a: map<string, Cookie>, b: map<string, Cookie>) {
    a.Keys == b.Keys && forall k :: k in a ==> SameContent(a[k], b[k])
  }

  lemma {:induction false} UniqueLookup(cookies: seq<Cookie>, i: nat)
    requires UniqueIdentities(cookies) && i < |cookies|
    ensures Identity(cookies[i]) in ByIdentity(cookies) && ByIdentity(cookies)[Identity(cookies[i])] == cookies[i]
  {
    if i < |cookies| - 1 {
      UniqueLookup(cookies[..|cookies| - 1], i);
    }
  }

  lemma {:induction false} UniqueCount(cookies: seq<Cookie>)
    requires UniqueIdentities(cookies)
    ensures |ByIdentity(cookies).Keys| == |cookies|
  {
    if cookies != [] {
      var init := cookies[..|cookies| - 1];
      var last := Identity(cookies[|cookies| - 1]);
      UniqueCount(init);
      assert last !in ByIdentity(init);
      assert ByIdentity(cookies).Keys == ByIdentity(init).Keys + {last};
    }
  }

  lemma SubsetOfEqualSize<T>(a: set<T>, b: set<T>)
    requires a <= b && |a| == |b|
    ensures a == b
  {
    assert |b| == |a| + |b - a| by {
      assert a + (b - a) == b;
    }
  }

  lemma SameStateIsSameJar(rows: seq<Cookie>, stored: seq<Cookie>)
    requires UniqueIdentities(rows) && UniqueIdentities(stored)
    ensures SameCookieState(rows, stored) <==> SameJar(ByIdentity(rows), ByIdentity(stored))
  {
    var previous, next := ByIdentity(rows), ByIdentity(stored);
    UniqueCount(rows);
    UniqueCount(stored);
    forall i | 0 <= i < |stored|
      ensures Identity(stored[i]) in next && next[Identity(stored[i])] == stored[i]
    {
      UniqueLookup(stored, i);
    }
    if SameCookieState(rows, stored) {
      forall k | k in next
        ensures k in previous && SameContent(previous[k], next[k])
      {
        var i :| 0 <= i < |stored| && stored[i] == next[k];
      }
      SubsetOfEqualSize(next.Keys, previous.Keys);
    }
  }

  /** The record names an identity exactly when it was added, removed or given new content. */
  lemma ReportNamesExactlyTheChanges(rows: seq<Cookie>, stored: seq<Cookie>, id: string)
    ensures (exists a :: a in ChangedCookieIdentities(rows, stored) && a.Key() == id)
            <==> (id in ByIdentity(rows) || id in ByIdentity(stored)) && Differs(ByIdentity(rows), ByIdentity(stored), id)
  {
    FirstSeenCoversBoth(rows, stored);
    ReportAmong(FirstSeen(rows + stored), ByIdentity(rows), ByIdentity(stored), id);
  }

  lemma ReportAmong(ids: seq<string>, previous: map<string, Cookie>, next: map<string, Cookie>, id: string)
    requires forall k :: k in ids ==> k in previous || k in next
    requires Keyed(previous) && Keyed(next)
    ensures (exists a :: a in ChangedAmong(ids, previous, next) && a.Key() == id) <==> id in ids && Differs(previous, next, id)
  {
    var changed := ChangedAmong(ids, previous, next);
    if a :| a in changed && a.Key() == id {
      assert a.Key() in ids && Differs(previous, next, a.Key());
    }
  }

  /**
   A response is skipped as unchanged exactly when its audit record would list no
   identity, so every recorded response names at least one changed cookie.
   */
  lemma UnchangedIffNothingReported(rows: seq<Cookie>, stored: seq<Cookie>)
    requires UniqueIdentities(rows) && UniqueIdentities(stored)
    ensures SameCookieState(rows, stored) <==> ChangedCookieIdentities(rows, stored) == []
  {
    var previous, next := ByIdentity(rows), ByIdentity(stored);
    SameStateIsSameJar(rows, stored);
    var changed := ChangedCookieIdentities(rows, stored);
    if changed != [] {
      var a := changed[0];
      assert a in changed;
      ReportNamesExactlyTheChanges(rows, stored, a.Key());
    } else if !SameJar(previous, next) {
      var id :| (id in previous || id in next) && Differs(previous, next, id);
      ReportNamesExactlyTheChanges(rows, stored, id);
    }
  }

  lemma FirstSeenCoversBoth(rows: seq<Cookie>, stored: seq<Cookie>)
    ensures forall id :: id in FirstSeen(rows + stored) <==> id in ByIdentity(rows) || id in ByIdentity(stored)
  {
    var both := rows + stored;
    forall id
      ensures id in FirstSeen(both) <==> id in ByIdentity(rows) || id in ByIdentity(stored)
    {
      if id in ByIdentity(rows) {
        var i :| 0 <= i < |rows| && rows[i] == ByIdentity(rows)[id];
        assert Identity(both[i]) == id;
      }
      if id in ByIdentity(stored) {
        var i :| 0 <= i < |stored| && stored[i] == ByIdentity(stored)[id];
        assert Identity(both[|rows| + i]) == id;
      }
    }
  }

  // ---------------------------------------------------------------------
  // The joined identity
  // ---------------------------------------------------------------------

  /** The columns hold no NUL, the character that joins them. */
  predicate WithoutNul(a: Affected) {
    NUL !in a.name && NUL !in a.domain && NUL !in a.path
  }

  function Nuls(s: string): nat {
    multiset(s)[NUL]
  }

  lemma NulsOfKey(a: Affected)
    ensures Nuls(a.Key()) == Nuls(a.name) + Nuls(a.domain) + Nuls(a.path) + 2
  {
    assert multiset([NUL])[NUL] == 1;
    assert a.Key() == a.name + [NUL] + a.domain + [NUL] + a.path;
  }

  function UpToNul(s: string): (n: nat)
    ensures n <= |s|
  {
    if s == [] || s[0] == NUL then 0 else 1 + UpToNul(s[1..])
  }

  lemma {:induction false} UpToNulIs(a: string, rest: string)
    requires NUL !in a
    ensures UpToNul(a + [NUL] + rest) == |a|
  {
    var s := a + [NUL] + rest;
    if a != [] {
      assert s[1..] == a[1..] + [NUL] + rest;
      UpToNulIs(a[1..], rest);
    }
  }

  lemma SplitAtNul(a: string, restA: string, b: string, restB: string)
    requires NUL !in a && NUL !in b
    requires a + [NUL] + restA == b + [NUL] + restB
    ensures a == b && restA == restB
  {
    var x, y := a + [NUL] + restA, b + [NUL] + restB;
    UpToNulIs(a, restA);
    UpToNulIs(b, restB);
    assert x[..|a|] == a && y[..|b|] == b;
    assert x[|a| + 1..] == restA && y[|b| + 1..] == restB;
  }

  lemma OtherWithoutNul(a: Affected, b: Affected)
    requires WithoutNul(a) && a.Key() == b.Key()
    ensures WithoutNul(b)
  {
    NulsOfKey(a);
    NulsOfKey(b);
  }

  /** Nothing else is joined to the key of columns without a NUL. */
  lemma KeyDeterminesColumns(a: Affected, b: Affected)
    requires WithoutNul(a) && a.Key() == b.Key()
    ensures a == b
  {
    OtherWithoutNul(a, b);
    assert a.Key() == a.name + [NUL] + (a.domain + [NUL] + a.path);
    assert b.Key() == b.name + [NUL] + (b.domain + [NUL] + b.path);
    SplitAtNul(a.name, a.domain + [NUL] + a.path, b.name, b.domain + [NUL] + b.path);
    SplitAtNul(a.domain, a.path, b.domain, b.path);
  }

  lemma CutAtNul(s: string) returns (first: string, second: string)
    requires NUL in s
    ensures s == first + [NUL] + second
  {
    var i :| 0 <= i < |s| && s[i] == NUL;
    first, second := s[..i], s[i + 1..];
  }

  /** A NUL in any column can be read as a border between two others. */
  lemma NulMovesBorders(a: Affected) returns (b: Affected)
    requires !WithoutNul(a)
    ensures b.Key() == a.Key() && b != a
  {
    if NUL in a.name {
      var first, second := CutAtNul(a.name);
      b := Affected(first, second, a.domain + [NUL] + a.path);
      assert |b.name| < |a.name|;
    } else if NUL in a.domain {
      var first, second := CutAtNul(a.domain);
      b := Affected(a.name, first, second + [NUL] + a.path);
      assert |b.domain| < |a.domain|;
    } else {
      var first, second := CutAtNul(a.path);
      b := Affected(a.name + [NUL] + a.domain, first, second);
      assert |b.name| > |a.name|;
    }
    assert b.name + [NUL] + b.domain + [NUL] + b.path == a.name + [NUL] + a.domain + [NUL] + a.path;
  }

  /** The joined identity tells a cookie from all others exactly when none of its columns holds a NUL. */
  lemma IdentityIsUniqueIff(a: Affected)
    ensures (forall b: Affected :: b.Key() == a.Key() ==> b == a) <==> WithoutNul(a)
  {
    if WithoutNul(a) {
      forall b: Affected | b.Key() == a.Key()
        ensures b == a
      {
        KeyDeterminesColumns(a, b);
      }
    } else {
      var b := NulMovesBorders(a);
    }
  }
}
