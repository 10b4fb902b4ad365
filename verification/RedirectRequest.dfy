/** One redirect (section 15.4 of RFC 9110). */
module RedirectRequest {
  import opened Wrappers

  datatype HttpMethod = GET | HEAD | POST | PUT | PATCH | DELETE | OPTIONS

  datatype Scheme = Http | Https | OtherScheme(name: string)

  datatype Url = Url(scheme: Scheme, origin: string, text: string)

  datatype Header = Header(name: string, value: string, enabled: bool)

  datatype Body = Body(text: string, bytes: Option<seq<bv8>>, present: bool)

  datatype Request = Request(verb: HttpMethod, target: Url, headers: seq<Header>, body: Body)

  datatype ScriptHeader = ScriptHeader(name: string, value: Option<string>, readable: bool, sensitive: bool)

  datatype ScriptText = ScriptText(value: Option<string>, readable: bool, sensitive: bool)

  /** The same request as scripts see it: secret parts carry no value. */
  datatype ScriptRequest = ScriptRequest(verb: HttpMethod, url: ScriptText, headers: seq<ScriptHeader>, bodyPresent: bool)

  datatype ResponseHeader = ResponseHeader(name: string, value: string)

  datatype Policy = Policy(follow: bool, maxRedirects: nat)

  datatype Reason =
    | InvalidLocation
    | CredentialsNotAllowed
    | UnsupportedScheme
    | InsecureDowngrade
    | LimitExceeded
    | ResponseSizeLimit

  datatype Decision =
    | Terminal
    | NotFollowed
    | Follow(request: Request, script: ScriptRequest, removed: seq<string>)
    | Failed(reason: Reason)

  /** A reference resolved against a base: the target without its fragment, and whether it holds credentials. */
  datatype Located = Located(url: Url, credentials: bool)

  /** The URL parser. */
  type Resolver = (string, Url) -> Option<Located>

  // ---------------------------------------------------------------------
  // Names
  // ---------------------------------------------------------------------

  function LowerChar(c: char): char {
    if 'A' <= c <= 'Z' then c - 'A' + 'a' else c
  }

  function Lower(s: string): string {
    if s == "" then "" else Lower(s[..|s| - 1]) + [LowerChar(s[|s| - 1])]
  }

  predicate IsBlank(c: char) {
    c == ' ' || '\t' <= c <= '\r'
  }

  function TrimStart(s: string): string {
    if s != "" && IsBlank(s[0]) then TrimStart(s[1..]) else s
  }

  function TrimEnd(s: string): string {
    if s != "" && IsBlank(s[|s| - 1]) then TrimEnd(s[..|s| - 1]) else s
  }

  function Trim(s: string): string {
    TrimEnd(TrimStart(s))
  }

  function Split(s: string, separator: char): (parts: seq<string>)
    ensures parts != []
  {
    if s == "" then [""]
    else
      var before, last := Split(s[..|s| - 1], separator), s[|s| - 1];
      if last == separator then before + [""] else before[..|before| - 1] + [before[|before| - 1] + [last]]
  }

  const REDIRECT_STATUSES: set<nat> := {301, 302, 303, 307, 308}

  const ALWAYS_REGENERATED: set<string> := {
    "connection", "content-length", "host", "keep-alive", "proxy-connection", "te", "trailer", "transfer-encoding", "upgrade"}

  const CREDENTIALS: set<string> := {"authorization", "cookie", "proxy-authorization"}

  const BODY_REPRESENTATION: set<string> := {
    "content-digest", "content-encoding", "content-language", "content-location", "content-type", "digest", "repr-digest"}

  /** The header names that the Connection fields nominate (section 7.6.1 of RFC 9110). */
  predicate Nominated(headers: seq<Header>, name: string) {
    exists h :: h in headers && NominatedBy(h, name)
  }

  predicate NominatedBy(h: Header, name: string) {
    h.enabled && Lower(h.name) == "connection" && Token(Split(h.value, ','), name)
  }

  predicate Token(tokens: seq<string>, name: string) {
    exists t :: t in tokens && Trim(t) != "" && Lower(Trim(t)) == name
  }

  lemma NominatedLast(headers: seq<Header>, h: Header, name: string)
    ensures Nominated(headers + [h], name) <==> Nominated(headers, name) || NominatedBy(h, name)
  {
    assert h in headers + [h] && forall g :: g in headers ==> g in headers + [h];
  }

  method AddTokens(names0: set<string>, tokens: seq<string>) returns (names: set<string>)
    ensures forall name :: name in names <==> name in names0 || Token(tokens, name)
  {
    names := names0;
    for j := 0 to |tokens|
      invariant forall name :: name in names <==> name in names0 || Token(tokens[..j], name)
    {
      assert tokens[..j + 1] == tokens[..j] + [tokens[j]];
      forall name
        ensures Token(tokens[..j + 1], name)
                <==> Token(tokens[..j], name) || (Trim(tokens[j]) != "" && Lower(Trim(tokens[j])) == name)
      {
        TokenLast(tokens[..j], tokens[j], name);
      }
      if Trim(tokens[j]) != "" {
        names := names + {Lower(Trim(tokens[j]))};
      }
    }
    assert tokens[..|tokens|] == tokens;
  }

  lemma TokenLast(tokens: seq<string>, last: string, name: string)
    ensures Token(tokens + [last], name) <==> Token(tokens, name) || (Trim(last) != "" && Lower(Trim(last)) == name)
  {
    assert last in tokens + [last] && forall t :: t in tokens ==> t in tokens + [last];
  }

  method ConnectionHeaderNames(headers: seq<Header>) returns (names: set<string>)
    ensures forall name :: name in names <==> Nominated(headers, name)
  {
    names := {};
    for i := 0 to |headers|
      invariant forall name :: name in names <==> Nominated(headers[..i], name)
    {
      var header := headers[i];
      ghost var done, more := headers[..i], headers[..i + 1];
      assert more == done + [header];
      forall name
        ensures Nominated(more, name) <==> Nominated(done, name) || NominatedBy(header, name)
      {
        NominatedLast(done, header, name);
      }
      if header.enabled && Lower(header.name) == "connection" {
        names := AddTokens(names, Split(header.value, ','));
      }
    }
    assert headers[..|headers|] == headers;
  }

  // ---------------------------------------------------------------------
  // The decision
  // ---------------------------------------------------------------------

  /** The method of the next request, and whether its body is dropped. */
  function RedirectMethod(status: nat, verb: HttpMethod): (r: (HttpMethod, bool))
    ensures verb == HEAD ==> r == (HEAD, false)
    ensures status == 307 || status == 308 ==> r == (verb, false)
    ensures r.1 ==> r.0 == GET
    ensures !r.1 ==> r.0 == verb
    ensures r.1 <==> (status == 303 && verb != HEAD) || ((status == 301 || status == 302) && verb == POST)
  {
    if status == 303 && verb != HEAD then (GET, true)
    else if (status == 301 || status == 302) && verb == POST then (GET, true)
    else (verb, false)
  }

  /** The script view of header `i`, made up when there is none. */
  function SafeOf(script: seq<ScriptHeader>, i: nat, h: Header): ScriptHeader {
    if i < |script| then script[i] else ScriptHeader(h.name, Some(h.value), true, false)
  }

  /** A header does not go along. */
  predicate Removed(headers: seq<Header>, h: Header, safe: ScriptHeader, dropBody: bool, sameOrigin: bool) {
    var name := Lower(h.name);
    || name in ALWAYS_REGENERATED
    || Nominated(headers, name)
    || (dropBody && name in BODY_REPRESENTATION)
    || (!sameOrigin && (name in CREDENTIALS || safe.sensitive))
  }

  /** The headers that go along, each with its script view, among the first `k`. */
  function Retained(headers: seq<Header>, script: seq<ScriptHeader>, k: nat, dropBody: bool, sameOrigin: bool): (seq<Header>, seq<ScriptHeader>)
    requires k <= |headers|
  {
    if k == 0 then ([], [])
    else
      var (kept, views) := Retained(headers, script, k - 1, dropBody, sameOrigin);
      var h, safe := headers[k - 1], SafeOf(script, k - 1, headers[k - 1]);
      if Removed(headers, h, safe, dropBody, sameOrigin) then (kept, views) else (kept + [h], views + [safe])
  }

  function RemovedNames(headers: seq<Header>, script: seq<ScriptHeader>, k: nat, dropBody: bool, sameOrigin: bool): seq<string>
    requires k <= |headers|
  {
    if k == 0 then []
    else
      var names := RemovedNames(headers, script, k - 1, dropBody, sameOrigin);
      var h := headers[k - 1];
      if Removed(headers, h, SafeOf(script, k - 1, h), dropBody, sameOrigin) && h.name !in names then names + [h.name] else names
  }

  /** Header `i` is dropped. */
  predicate DroppedAt(headers: seq<Header>, script: seq<ScriptHeader>, i: nat, dropBody: bool, sameOrigin: bool) {
    i < |headers| && Removed(headers, headers[i], SafeOf(script, i, headers[i]), dropBody, sameOrigin)
  }

  /** Among the first `k` headers, the first dropped one of this name is header `i`. */
  predicate FirstDropped(headers: seq<Header>, script: seq<ScriptHeader>, k: nat, name: string, i: nat, dropBody: bool, sameOrigin: bool) {
    && i < k && DroppedAt(headers, script, i, dropBody, sameOrigin) && headers[i].name == name
    && forall j: nat {:trigger DroppedAt(headers, script, j, dropBody, sameOrigin)} ::
         j < i && DroppedAt(headers, script, j, dropBody, sameOrigin) ==> headers[j].name != name
  }

  /** The removed names stand for the first dropped headers of their names, in the order of these. */
  ghost predicate NamesDropped(
    headers: seq<Header>, script: seq<ScriptHeader>, k: nat, dropBody: bool, sameOrigin: bool, names: seq<string>, at: seq<nat>)
  {
    && |at| == |names|
    && (forall p :: 0 <= p < |names| ==> FirstDropped(headers, script, k, names[p], at[p], dropBody, sameOrigin))
    && (forall p, q :: 0 <= p < q < |at| ==> at[p] < at[q])
    && (forall i: nat {:trigger DroppedAt(headers, script, i, dropBody, sameOrigin)} ::
          i < k && DroppedAt(headers, script, i, dropBody, sameOrigin) ==> headers[i].name in names)
  }

  lemma NoNewName(
    headers: seq<Header>, script: seq<ScriptHeader>, k: nat, dropBody: bool, sameOrigin: bool, names: seq<string>, at: seq<nat>)
    requires k < |headers| && NamesDropped(headers, script, k, dropBody, sameOrigin, names, at)
    requires DroppedAt(headers, script, k, dropBody, sameOrigin) ==> headers[k].name in names
    ensures NamesDropped(headers, script, k + 1, dropBody, sameOrigin, names, at)
  {
    forall p | 0 <= p < |names|
      ensures FirstDropped(headers, script, k + 1, names[p], at[p], dropBody, sameOrigin)
    {
      assert FirstDropped(headers, script, k, names[p], at[p], dropBody, sameOrigin);
    }
  }

  lemma NewName(
    headers: seq<Header>, script: seq<ScriptHeader>, k: nat, dropBody: bool, sameOrigin: bool, names: seq<string>, at: seq<nat>)
    requires k < |headers| && NamesDropped(headers, script, k, dropBody, sameOrigin, names, at)
    requires DroppedAt(headers, script, k, dropBody, sameOrigin) && headers[k].name !in names
    ensures NamesDropped(headers, script, k + 1, dropBody, sameOrigin, names + [headers[k].name], at + [k])
  {
    var more := names + [headers[k].name];
    forall p | 0 <= p < |more|
      ensures FirstDropped(headers, script, k + 1, more[p], (at + [k])[p], dropBody, sameOrigin)
    {
      assert p < |names| ==> FirstDropped(headers, script, k, names[p], at[p], dropBody, sameOrigin);
    }
    assert headers[k].name in more && forall n :: n in names ==> n in more;
  }

  /** The removed names are those of dropped headers, each once, in the order in which they were first dropped. */
  lemma {:induction false} RemovedNamesAre(headers: seq<Header>, script: seq<ScriptHeader>, k: nat, dropBody: bool, sameOrigin: bool)
    returns (at: seq<nat>)
    requires k <= |headers|
    ensures NamesDropped(headers, script, k, dropBody, sameOrigin, RemovedNames(headers, script, k, dropBody, sameOrigin), at)
  {
    if k == 0 {
      at := [];
    } else {
      at := RemovedNamesAre(headers, script, k - 1, dropBody, sameOrigin);
      at := RemovedNext(headers, script, k - 1, dropBody, sameOrigin, RemovedNames(headers, script, k - 1, dropBody, sameOrigin), at);
    }
  }

  lemma RemovedNext(
    headers: seq<Header>, script: seq<ScriptHeader>, k: nat, dropBody: bool, sameOrigin: bool, names: seq<string>, at: seq<nat>)
    returns (more: seq<nat>)
    requires k < |headers| && NamesDropped(headers, script, k, dropBody, sameOrigin, names, at)
    requires names == RemovedNames(headers, script, k, dropBody, sameOrigin)
    ensures NamesDropped(headers, script, k + 1, dropBody, sameOrigin, RemovedNames(headers, script, k + 1, dropBody, sameOrigin), more)
  {
    var name := headers[k].name;
    var isNew := DroppedAt(headers, script, k, dropBody, sameOrigin) && name !in names;
    assert RemovedNames(headers, script, k + 1, dropBody, sameOrigin) == if isNew then names + [name] else names;
    if isNew {
      NewName(headers, script, k, dropBody, sameOrigin, names, at);
      more := at + [k];
    } else {
      NoNewName(headers, script, k, dropBody, sameOrigin, names, at);
      more := at;
    }
  }

  const NO_BODY := Body("", None, false)

  /** The request that a followed redirect makes, with its script view. */
  function NextRequest(status: nat, request: Request, script: ScriptRequest, target: Url): Decision {
    var (verb, dropBody) := RedirectMethod(status, request.verb);
    var sameOrigin := request.target.origin == target.origin;
    var n := |request.headers|;
    var (kept, views) := Retained(request.headers, script.headers, n, dropBody, sameOrigin);
    Follow(
      Request(verb, target, kept, if dropBody then NO_BODY else request.body),
      ScriptRequest(verb,
                    ScriptText(if script.url.sensitive then None else Some(target.text), !script.url.sensitive, script.url.sensitive),
                    views, !dropBody && script.bodyPresent),
      RemovedNames(request.headers, script.headers, n, dropBody, sameOrigin))
  }

  function Locations(headers: seq<ResponseHeader>): seq<string> {
    if headers == [] then []
    else
      var last := headers[|headers| - 1];
      Locations(headers[..|headers| - 1]) + if Lower(last.name) == "location" then [last.value] else []
  }

  /** What a response makes of a request. */
  function DecisionFor(
    status: nat, responseHeaders: seq<ResponseHeader>, request: Request, script: ScriptRequest, policy: Policy, followed: nat,
    resolve: Resolver): Decision
  {
    var locations := Locations(responseHeaders);
    if status !in REDIRECT_STATUSES || locations == [] then Terminal
    else if |locations| != 1 then Failed(InvalidLocation)
    else
      match resolve(locations[0], request.target)
      case None => Failed(InvalidLocation)
      case Some(located) =>
        if located.credentials then Failed(CredentialsNotAllowed)
        else if located.url.scheme != Http && located.url.scheme != Https then Failed(UnsupportedScheme)
        else if request.target.scheme == Https && located.url.scheme == Http then Failed(InsecureDowngrade)
        else if !policy.follow then NotFollowed
        else if followed >= policy.maxRedirects then Failed(LimitExceeded)
        else NextRequest(status, request, script, located.url)
  }

  method LocationValues(headers: seq<ResponseHeader>) returns (locations: seq<string>)
    ensures locations == Locations(headers)
  {
    locations := [];
    for i := 0 to |headers|
      invariant locations == Locations(headers[..i])
    {
      assert headers[..i + 1][..i] == headers[..i];
      if Lower(headers[i].name) == "location" {
        locations := locations + [headers[i].value];
      }
    }
    assert headers[..|headers|] == headers;
  }

  /** Sorts the headers into those that go along, with their script views, and the names of the others. */
  method RetainHeaders(request: Request, script: seq<ScriptHeader>, dropBody: bool, sameOrigin: bool)
    returns (kept: seq<Header>, views: seq<ScriptHeader>, removed: seq<string>)
    ensures (kept, views) == Retained(request.headers, script, |request.headers|, dropBody, sameOrigin)
    ensures removed == RemovedNames(request.headers, script, |request.headers|, dropBody, sameOrigin)
  {
    var connectionNamed := ConnectionHeaderNames(request.headers);
    kept, views, removed := [], [], [];
    for index := 0 to |request.headers|
      invariant (kept, views) == Retained(request.headers, script, index, dropBody, sameOrigin)
      invariant removed == RemovedNames(request.headers, script, index, dropBody, sameOrigin)
    {
      var header := request.headers[index];
      var safe := SafeOf(script, index, header);
      var name := Lower(header.name);
      var remove :=
        || name in ALWAYS_REGENERATED || name in connectionNamed || (dropBody && name in BODY_REPRESENTATION)
        || (!sameOrigin && (name in CREDENTIALS || safe.sensitive));
      assert remove <==> Removed(request.headers, header, safe, dropBody, sameOrigin);
      if remove {
        if header.name !in removed {
          removed := removed + [header.name];
        }
      } else {
        kept := kept + [header];
        views := views + [safe];
      }
    }
  }

  method RedirectDecision(
    status: nat, responseHeaders: seq<ResponseHeader>, request: Request, script: ScriptRequest, policy: Policy, followed: nat,
    resolve: Resolver)
    returns (decision: Decision)
    ensures decision == DecisionFor(status, responseHeaders, request, script, policy, followed, resolve)
  {
    if status !in REDIRECT_STATUSES {
      return Terminal;
    }
    var locations := LocationValues(responseHeaders);
    if |locations| == 0 {
      return Terminal;
    }
    if |locations| != 1 {
      return Failed(InvalidLocation);
    }
    var displayedTarget := resolve(locations[0], request.target);
    if displayedTarget == None {
      return Failed(InvalidLocation);
    }
    var target := displayedTarget.value.url;
    if displayedTarget.value.credentials {
      return Failed(CredentialsNotAllowed);
    }
    if target.scheme != Http && target.scheme != Https {
      return Failed(UnsupportedScheme);
    }
    if request.target.scheme == Https && target.scheme == Http {
      return Failed(InsecureDowngrade);
    }
    if !policy.follow {
      return NotFollowed;
    }
    if followed >= policy.maxRedirects {
      return Failed(LimitExceeded);
    }
    var sameOrigin := request.target.origin == target.origin;
    var (verb, dropBody) := RedirectMethod(status, request.verb);
    var kept, views, removed := RetainHeaders(request, script.headers, dropBody, sameOrigin);
    var nextRequest := Request(verb, target, kept, if dropBody then NO_BODY else request.body);
    var url := ScriptText(if script.url.sensitive then None else Some(target.text), !script.url.sensitive, script.url.sensitive);
    decision := Follow(nextRequest, ScriptRequest(verb, url, views, !dropBody && script.bodyPresent), removed);
  }
}
