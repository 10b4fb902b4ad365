/** What the names and tokens of header fields are compared and cut by. */
module RedirectNames {
  import opened RedirectRequest

  /** Two characters that differ at most in the case of an ASCII letter. */
  predicate SameLetter(a: char, b: char) {
    || a == b
    || ('A' <= a <= 'Z' && b as int == a as int + 32)
    || ('A' <= b <= 'Z' && a as int == b as int + 32)
  }

  predicate SameIgnoringCase(a: string, b: string) {
    |a| == |b| && forall i :: 0 <= i < |a| ==> SameLetter(a[i], b[i])
  }

  lemma {:induction false} LowerAt(s: string, i: nat)
    requires i < |s|
    ensures |Lower(s)| == |s| && Lower(s)[i] == LowerChar(s[i])
  {
    if i < |s| - 1 {
      LowerAt(s[..|s| - 1], i);
    } else if |s| > 1 {
      LowerAt(s[..|s| - 1], 0);
    }
  }

  /** Lower case brings together exactly the names that differ in case only. */
  lemma LowerIgnoresCase(a: string, b: string)
    ensures Lower(a) == Lower(b) <==> SameIgnoringCase(a, b)
  {
    LowerLength(a);
    LowerLength(b);
    forall i | 0 <= i < |a| && |a| == |b|
      ensures Lower(a)[i] == Lower(b)[i] <==> SameLetter(a[i], b[i])
    {
      LowerAt(a, i);
      LowerAt(b, i);
    }
  }

  lemma LowerLength(s: string)
    ensures |Lower(s)| == |s|
  {
    if s != "" {
      LowerAt(s, 0);
    }
  }

  predicate NoCapitals(s: string) {
    forall i :: 0 <= i < |s| ==> !('A' <= s[i] <= 'Z')
  }

  /** A lower-case name is met exactly by the names that differ from it in case only. */
  lemma IsName(s: string, name: string)
    requires NoCapitals(name)
    ensures Lower(s) == name <==> SameIgnoringCase(s, name)
  {
    LowerLength(name);
    forall i | 0 <= i < |name|
      ensures Lower(name)[i] == name[i]
    {
      LowerAt(name, i);
    }
    assert Lower(name) == name;
    LowerIgnoresCase(s, name);
  }

  /** The name is one of the listed ones up to case. */
  predicate OneOf(name: string, names: seq<string>) {
    exists i {:trigger names[i]} :: 0 <= i < |names| && SameIgnoringCase(name, names[i])
  }

  lemma IsOneOf(s: string, names: seq<string>)
    requires forall i :: 0 <= i < |names| ==> NoCapitals(names[i])
    ensures OneOf(s, names) <==> Lower(s) in names
  {
    forall i | 0 <= i < |names|
      ensures Lower(s) == names[i] <==> SameIgnoringCase(s, names[i])
    {
      IsName(s, names[i]);
    }
  }

  const REGENERATED: seq<string> := [
    "connection", "content-length", "host", "keep-alive", "proxy-connection", "te", "trailer", "transfer-encoding", "upgrade"]

  const SECRETS: seq<string> := ["authorization", "cookie", "proxy-authorization"]

  const ABOUT_BODY: seq<string> := [
    "content-digest", "content-encoding", "content-language", "content-location", "content-type", "digest", "repr-digest"]

  /** Which names are always made anew, whatever their case in a field. */
  lemma RegeneratedAre(name: string)
    ensures Lower(name) in ALWAYS_REGENERATED <==> OneOf(name, REGENERATED)
  {
    IsOneOf(name, REGENERATED);
  }

  /** Which names hold credentials. */
  lemma CredentialsAre(name: string)
    ensures Lower(name) in CREDENTIALS <==> OneOf(name, SECRETS)
  {
    IsOneOf(name, SECRETS);
  }

  /** Which names tell about a body. */
  lemma BodyNamesAre(name: string)
    ensures Lower(name) in BODY_REPRESENTATION <==> OneOf(name, ABOUT_BODY)
  {
    IsOneOf(name, ABOUT_BODY);
  }

  // ---------------------------------------------------------------------
  // Tokens
  // ---------------------------------------------------------------------

  function Join(parts: seq<string>, separator: char): string
    requires parts != []
  {
    if |parts| == 1 then parts[0] else Join(parts[..|parts| - 1], separator) + [separator] + parts[|parts| - 1]
  }

  /** A split text holds no separator in its parts and is what they join to. */
  lemma {:induction false} SplitJoins(s: string, separator: char)
    ensures Join(Split(s, separator), separator) == s
    ensures forall p :: p in Split(s, separator) ==> separator !in p
  {
    if s != "" {
      var n := |s| - 1;
      var before := Split(s[..n], separator);
      SplitJoins(s[..n], separator);
      assert s == s[..n] + [s[n]];
      if s[n] == separator {
        assert (before + [""])[..|before|] == before;
      } else {
        var m := |before| - 1;
        var grown := before[..m] + [before[m] + [s[n]]];
        assert grown[..m] == before[..m];
        assert before[m] in before;
      }
    }
  }

  predicate AllBlank(s: string) {
    forall i :: 0 <= i < |s| ==> s[i] == ' ' || '\t' <= s[i] <= '\r'
  }

  predicate IsTrim(s: string, from: nat, to: nat) {
    && from <= to <= |s| && AllBlank(s[..from]) && AllBlank(s[to..])
    && (from < to ==> !AllBlank([s[from]]) && !AllBlank([s[to - 1]]))
  }

  lemma {:induction false} TrimStartIs(s: string) returns (n: nat)
    ensures n <= |s| && TrimStart(s) == s[n..] && AllBlank(s[..n])
    ensures n < |s| ==> !AllBlank([s[n]])
  {
    if s != "" && IsBlank(s[0]) {
      var m := TrimStartIs(s[1..]);
      assert s[..m + 1] == [s[0]] + s[1..][..m];
      n := m + 1;
    } else {
      n := 0;
      assert s != "" ==> [s[0]][0] == s[0];
    }
  }

  lemma {:induction false} TrimEndIs(s: string) returns (n: nat)
    ensures n <= |s| && TrimEnd(s) == s[..n] && AllBlank(s[n..])
    ensures n > 0 ==> !AllBlank([s[n - 1]])
  {
    n := |s|;
    if s != "" {
      if IsBlank(s[n - 1]) {
        var last := s[n - 1];
        var m := TrimEndIs(s[..n - 1]);
        assert s[m..] == s[..n - 1][m..] + [last];
        n := m;
      } else {
        assert [s[n - 1]][0] == s[n - 1];
      }
    }
  }

  /** Trimming takes the blanks off both ends and nothing else. */
  lemma TrimIs(s: string) returns (from: nat, to: nat)
    ensures IsTrim(s, from, to) && Trim(s) == s[from..to]
  {
    from := TrimStartIs(s);
    var n := TrimEndIs(s[from..]);
    to := from + n;
    assert s[from..][..n] == s[from..to] && s[from..][n..] == s[to..];
  }

  /** An enabled Connection field lists the name between its commas. */
  predicate Lists(h: Header, name: string) {
    && h.enabled && SameIgnoringCase(h.name, "connection")
    && exists t :: t in Split(h.value, ',') && Trim(t) != "" && SameIgnoringCase(Trim(t), name)
  }

  predicate SomeLists(headers: seq<Header>, name: string) {
    exists h :: h in headers && Lists(h, name)
  }

  lemma NominatedByIs(h: Header, name: string)
    ensures NominatedBy(h, Lower(name)) <==> Lists(h, name)
  {
    IsName(h.name, "connection");
    forall t | t in Split(h.value, ',')
      ensures Lower(Trim(t)) == Lower(name) <==> SameIgnoringCase(Trim(t), name)
    {
      LowerIgnoresCase(Trim(t), name);
    }
  }

  /** A header name is nominated exactly if an enabled Connection field lists it, in whatever case. */
  lemma NominatedIs(headers: seq<Header>, name: string)
    ensures Nominated(headers, Lower(name)) <==> SomeLists(headers, name)
  {
    forall h | h in headers
      ensures NominatedBy(h, Lower(name)) <==> Lists(h, name)
    {
      NominatedByIs(h, name);
    }
  }
}
