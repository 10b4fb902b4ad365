/** Where a baseline is looked for when a plan is pruned. */
module ImportSearch {
  import opened ImportPlans
  import opened ImportSelection

  /** A placeholder of the name stands in the text. */
  predicate HoldsPlaceholder(text: string, name: string) {
    exists i: nat {:trigger PlaceholderAt(text, i, name)} :: i <= |text| && PlaceholderAt(text, i, name)
  }

  predicate PlaceholderAt(text: string, i: nat, name: string) {
    && i + 2 + |name| + 2 <= |text|
    && text[i] == '<' && text[i + 1] == '<' && text[i + 2 + |name|] == '>' && text[i + 3 + |name|] == '>'
    && forall k :: 0 <= k < |name| ==> text[i + 2 + k] == name[k]
  }

  lemma StandsIsPlaceholder(text: string, i: nat, name: string)
    ensures StandsAt(text, i, "<<" + name + ">>") <==> PlaceholderAt(text, i, name)
  {
    var part := "<<" + name + ">>";
    var n := |name|;
    assert part[0] == '<' && part[1] == '<' && part[n + 2] == '>' && part[n + 3] == '>';
    assert forall k :: 0 <= k < n ==> part[k + 2] == name[k];
    if StandsAt(text, i, part) {
      PartAt(text, i, part, 0);
      PartAt(text, i, part, 1);
      PartAt(text, i, part, n + 2);
      PartAt(text, i, part, n + 3);
      forall k | 0 <= k < n
        ensures text[i + 2 + k] == name[k]
      {
        PartAt(text, i, part, k + 2);
      }
    }
    if PlaceholderAt(text, i, name) {
      forall k | 0 <= k < |part|
        ensures text[i..i + |part|][k] == part[k]
      {
        if 2 <= k < n + 2 {
          assert part[k] == name[k - 2] && text[i + 2 + (k - 2)] == name[k - 2];
        }
      }
      assert text[i..i + |part|] == part;
    }
  }

  lemma PartAt(text: string, i: nat, part: string, k: nat)
    requires StandsAt(text, i, part) && k < |part|
    ensures text[i + k] == part[k]
  {
    assert text[i..i + |part|][k] == text[i + k];
  }

  lemma MentionsIsPlaceholder(text: string, name: string)
    ensures Mentions(text, name) <==> HoldsPlaceholder(text, name)
  {
    var part := "<<" + name + ">>";
    if i :| 0 <= i <= |text| && StandsAt(text, i, part) {
      StandsIsPlaceholder(text, i, name);
      assert PlaceholderAt(text, i, name);
    }
    if i: nat :| i <= |text| && PlaceholderAt(text, i, name) {
      StandsIsPlaceholder(text, i, name);
    }
  }

  /** No placeholder stands across a character that its name does not have. */
  lemma NothingAcross(a: string, b: string, name: string)
    requires '\0' !in name
    ensures HoldsPlaceholder(a + "\0" + b, name) <==> HoldsPlaceholder(a, name) || HoldsPlaceholder(b, name)
  {
    var text := a + "\0" + b;
    assert text[|a|] == '\0' && (forall k :: 0 <= k < |a| ==> text[k] == a[k]);
    assert forall k :: 0 <= k < |b| ==> text[|a| + 1 + k] == b[k];
    if i: nat :| i <= |text| && PlaceholderAt(text, i, name) {
      PlaceholderOnOneSide(a, b, text, i, name);
    }
    if i: nat :| i <= |a| && PlaceholderAt(a, i, name) {
      assert PlaceholderAt(text, i, name);
    }
    if i: nat :| i <= |b| && PlaceholderAt(b, i, name) {
      ShiftedPlaceholder(b, text, |a| + 1, i, name);
    }
  }

  lemma ShiftedPlaceholder(b: string, text: string, offset: nat, i: nat, name: string)
    requires offset + |b| == |text| && forall k :: 0 <= k < |b| ==> text[offset + k] == b[k]
    ensures PlaceholderAt(b, i, name) <==> PlaceholderAt(text, offset + i, name)
  {
  }

  lemma NoNulInside(text: string, i: nat, name: string, k: nat)
    requires '\0' !in name && PlaceholderAt(text, i, name) && i <= k < i + |name| + 4
    ensures text[k] != '\0'
  {
    if i + 2 <= k < i + 2 + |name| {
      var j := k - i - 2;
      assert text[i + 2 + j] == name[j];
    }
  }

  lemma PlaceholderOnOneSide(a: string, b: string, text: string, i: nat, name: string)
    requires '\0' !in name && text == a + "\0" + b && PlaceholderAt(text, i, name)
    ensures HoldsPlaceholder(a, name) || HoldsPlaceholder(b, name)
  {
    if i <= |a| < i + |name| + 4 {
      NoNulInside(text, i, name, |a|);
    } else if |a| < i {
      var j := i - |a| - 1;
      ShiftedPlaceholder(b, text, |a| + 1, j, name);
    } else {
      PlaceholderBefore(a, text, i, name);
    }
  }

  lemma PlaceholderBefore(a: string, text: string, i: nat, name: string)
    requires a <= text && i + |name| + 4 <= |a| && PlaceholderAt(text, i, name)
    ensures PlaceholderAt(a, i, name)
  {
    assert forall k :: 0 <= k < |a| ==> text[k] == a[k];
  }

  ghost predicate SomePart(parts: seq<string>, name: string) {
    exists p :: p in parts && HoldsPlaceholder(p, name)
  }

  lemma SomeOfMore(parts: seq<string>, last: string, name: string)
    ensures SomePart(parts + [last], name) <==> SomePart(parts, name) || HoldsPlaceholder(last, name)
  {
    assert last in parts + [last] && forall p :: p in parts ==> p in parts + [last];
  }

  lemma {:induction false} JoinHolds(parts: seq<string>, name: string)
    requires '\0' !in name && parts != []
    ensures HoldsPlaceholder(Join(parts), name) <==> SomePart(parts, name)
  {
    var n := |parts| - 1;
    assert parts == parts[..n] + [parts[n]];
    SomeOfMore(parts[..n], parts[n], name);
    if n > 0 {
      JoinHolds(parts[..n], name);
      NothingAcross(Join(parts[..n]), parts[n], name);
    }
  }

  lemma {:induction false} PrefixesHold(chain: seq<Collection>, p: string)
    ensures p in Prefixes(chain) <==> exists c :: c in chain && c.pathPrefix == p
  {
    if chain != [] {
      var init, last := chain[..|chain| - 1], chain[|chain| - 1];
      PrefixesHold(init, p);
      assert chain == init + [last];
      assert last in chain && forall c :: c in init ==> c in chain;
    }
  }

  /**
   A name that holds no NUL counts as mentioned exactly if its placeholder stands in the
   prefix of the plan, in the prefix of a collection around the request, or in the request.
   */
  lemma MentionedIff(root: string, chain: seq<Collection>, r: Request, name: string)
    requires '\0' !in name
    ensures Mentions(SearchText(root, chain, r), name)
            <==> || HoldsPlaceholder(root, name) || HoldsPlaceholder(r.text, name)
                 || exists c :: c in chain && HoldsPlaceholder(c.pathPrefix, name)
  {
    var parts := [root] + Prefixes(chain) + [r.text];
    MentionsIsPlaceholder(Join(parts), name);
    JoinHolds(parts, name);
    assert root in parts && r.text in parts;
    if c :| c in chain && HoldsPlaceholder(c.pathPrefix, name) {
      PrefixesHold(chain, c.pathPrefix);
      assert c.pathPrefix in parts;
    }
    if SomePart(parts, name) {
      var p :| p in parts && HoldsPlaceholder(p, name);
      if p != root && p != r.text {
        assert p in Prefixes(chain);
        PrefixesHold(chain, p);
      }
    }
  }
}
