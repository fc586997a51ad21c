/**
 * `fetchWithRedirectGuard` of `safeFetch.ts`: redirects followed by hand against a server that may
 * answer every request however it likes, depending on everything it was sent before.
 */
module SafeFetch {
  import opened Text

  const MAX_FETCHES := 3

  /** A parsed URL: an http(s) scheme or another, a lower-case host, a port, and the rest. */
  datatype Url = Url(scheme: string, host: string, port: int, rest: string)

  /** A header as its sender spelled it. */
  datatype Header = Header(name: string, value: string)

  datatype Request = Request(url: Url, verb: string, headers: seq<Header>, body: Option<string>)

  datatype Response = Response(status: int, location: Option<string>)

  /** Anything on the other side: its answer may depend on all requests so far. */
  type Server = seq<Request> -> Response

  /** `new URL(location, current)`; None where it throws. */
  type Resolver = (string, Url) -> Option<Url>

  datatype Outcome = Returned(response: Response) | TooManyRedirects | UnapprovedRedirect

  // ---- The policy -----------------------------------------------------------------------------------

  predicate IsDigits(s: string) {
    forall i :: 0 <= i < |s| ==> '0' <= s[i] <= '9'
  }

  function Number(s: string): int
    requires IsDigits(s)
  {
    if s == "" then 0 else Number(s[..|s| - 1]) * 10 + (s[|s| - 1] as int - '0' as int)
  }

  predicate IsOctet(s: string) {
    1 <= |s| <= 3 && IsDigits(s) && Number(s) <= 255
  }

  /** `n` octets separated by dots. */
  predicate AreOctets(s: string, n: nat) {
    if n <= 1 then IsOctet(s)
    else
      var i := IndexOf(s, '.');
      i < |s| && IsOctet(s[..i]) && AreOctets(s[i + 1..], n - 1)
  }

  /** localhost, ::1, or a dotted quad in 127.0.0.0/8. */
  predicate IsLoopback(u: Url) {
    || u.host == "localhost" || u.host == "::1" || u.host == "[::1]"
    || (StartsWith(u.host, "127.") && AreOctets(u.host[4..], 3))
  }

  predicate EndsWith(s: string, suffix: string) {
    |suffix| <= |s| && s[|s| - |suffix|..] == suffix
  }

  predicate IsAllowed(u: Url) {
    if u.scheme == "http" then IsLoopback(u)
    else u.scheme == "https" && (IsLoopback(u) || u.host == "walrus.xyz" || EndsWith(u.host, ".walrus.xyz"))
  }

  predicate IsAllowedTarget(current: Url, next: Url) {
    IsAllowed(next) && (!IsLoopback(next) || IsLoopback(current))
  }

  // ---- The policy, host by host -----------------------------------------------------------------------

  /** One to three digits that read as no more than 255. */
  predicate IsByte(s: string) {
    && 1 <= |s| <= 3 && (forall i :: 0 <= i < |s| ==> '0' <= s[i] <= '9')
    && (|s| == 3 ==> s[0] < '2' || (s[0] == '2' && (s[1] < '5' || (s[1] == '5' && s[2] <= '5'))))
  }

  /** A name or an address of the machine itself. */
  ghost predicate IsLocal(host: string) {
    || host == "localhost" || host == "::1" || host == "[::1]"
    || exists a, b, c :: IsByte(a) && IsByte(b) && IsByte(c) && host == "127." + (a + "." + (b + "." + c))
  }

  /** https to walrus.xyz or below it, or http or https to this machine. */
  ghost predicate MayBeContacted(u: Url) {
    || (u.scheme == "https" && (u.host == "walrus.xyz" || exists below :: u.host == below + ".walrus.xyz"))
    || ((u.scheme == "http" || u.scheme == "https") && IsLocal(u.host))
  }

  function Digit(c: char): int {
    c as int - '0' as int
  }

  lemma NumberSnoc(s: string, tens: string, c: char)
    requires IsDigits(s) && s == tens + [c]
    ensures IsDigits(tens) && Number(s) == Number(tens) * 10 + Digit(c)
  {
    assert s[..|s| - 1] == tens;
    assert forall i :: 0 <= i < |tens| ==> tens[i] == s[i];
  }

  lemma ThreeDigits(s: string)
    requires 1 <= |s| <= 3 && IsDigits(s)
    ensures |s| < 3 ==> Number(s) <= 99
    ensures |s| == 3 ==> Number(s) == Digit(s[0]) * 100 + Digit(s[1]) * 10 + Digit(s[2])
  {
    NumberSnoc(s, s[..|s| - 1], s[|s| - 1]);
    if |s| > 1 {
      NumberSnoc(s[..|s| - 1], s[..|s| - 2], s[|s| - 2]);
      if |s| > 2 {
        NumberSnoc(s[..1], s[..0], s[0]);
      }
    }
  }

  lemma ByteIsOctet(s: string)
    ensures IsOctet(s) <==> IsByte(s)
  {
    if 1 <= |s| <= 3 && IsDigits(s) {
      ThreeDigits(s);
    }
  }

  /** The first dot ends the first octet, because an octet has none. */
  lemma OctetFirst(a: string, rest: string, s: string)
    requires IsByte(a) && s == a + ("." + rest)
    ensures IndexOf(s, '.') == |a| && s[..|a|] == a && s[|a| + 1..] == rest
  {
    assert forall j :: 0 <= j < |a| ==> s[j] == a[j];
    assert s[|a|] == '.';
  }

  lemma TakeOctet(s: string, n: nat) returns (a: string, rest: string)
    requires n > 1 && AreOctets(s, n)
    ensures IsByte(a) && AreOctets(rest, n - 1) && s == a + ("." + rest)
  {
    var i := IndexOf(s, '.');
    a, rest := s[..i], s[i + 1..];
    ByteIsOctet(a);
  }

  lemma PutOctet(a: string, rest: string, n: nat, s: string)
    requires n > 1 && IsByte(a) && AreOctets(rest, n - 1) && s == a + ("." + rest)
    ensures AreOctets(s, n)
  {
    OctetFirst(a, rest, s);
    ByteIsOctet(a);
  }

  lemma ThreeOctets(s: string)
    ensures AreOctets(s, 3) <==> exists a, b, c :: IsByte(a) && IsByte(b) && IsByte(c) && s == a + ("." + (b + ("." + c)))
  {
    if AreOctets(s, 3) {
      var a, rest := TakeOctet(s, 3);
      var b, c := TakeOctet(rest, 2);
      ByteIsOctet(c);
    }
    if a, b, c :| IsByte(a) && IsByte(b) && IsByte(c) && s == a + ("." + (b + ("." + c))) {
      ByteIsOctet(c);
      PutOctet(b, c, 2, b + ("." + c));
      PutOctet(a, b + ("." + c), 3, s);
    }
  }

  lemma Dotted(a: string, b: string, c: string)
    ensures "127." + (a + "." + (b + "." + c)) == "127." + (a + ("." + (b + ("." + c))))
    ensures ("127." + (a + "." + (b + "." + c)))[4..] == a + ("." + (b + ("." + c)))
  {
  }

  lemma LoopbackIsLocal(u: Url)
    ensures IsLoopback(u) <==> IsLocal(u.host)
  {
    if StartsWith(u.host, "127.") {
      ThreeOctets(u.host[4..]);
      assert u.host == "127." + u.host[4..];
      if AreOctets(u.host[4..], 3) {
        var a, b, c :| IsByte(a) && IsByte(b) && IsByte(c) && u.host[4..] == a + ("." + (b + ("." + c)));
        Dotted(a, b, c);
      }
    }
    if a, b, c :| IsByte(a) && IsByte(b) && IsByte(c) && u.host == "127." + (a + "." + (b + "." + c)) {
      Dotted(a, b, c);
      ThreeOctets(u.host[4..]);
    }
  }

  /** The policy is what it says: nothing but walrus.xyz, what is below it, and this machine. */
  lemma AllowedIsMayBeContacted(u: Url)
    ensures IsAllowed(u) <==> MayBeContacted(u)
  {
    LoopbackIsLocal(u);
    if EndsWith(u.host, ".walrus.xyz") {
      var below := u.host[..|u.host| - |".walrus.xyz"|];
      assert u.host == below + ".walrus.xyz";
    }
    if below :| u.host == below + ".walrus.xyz" {
      assert u.host[|below|..] == ".walrus.xyz";
    }
  }

  predicate SameOrigin(a: Url, b: Url) {
    a.scheme == b.scheme && a.host == b.host && a.port == b.port
  }

  // ---- Headers, whose names ignore case -------------------------------------------------------------

  function LowerChar(c: char): char {
    if 'A' <= c <= 'Z' then (c as int + 32) as char else c
  }

  function Lower(s: string): (r: string)
    ensures |r| == |s| && forall i :: 0 <= i < |s| ==> r[i] == LowerChar(s[i])
  {
    if s == "" then "" else [LowerChar(s[0])] + Lower(s[1..])
  }

  /** What goes out: names in lower case, values given under one name joined (section 5.3 of RFC 9110). */
  function Wire(headers: seq<Header>): map<string, string> {
    if headers == [] then map[]
    else
      var before, last := Wire(headers[..|headers| - 1]), headers[|headers| - 1];
      before[Lower(last.name) := if Lower(last.name) in before then before[Lower(last.name)] + ", " + last.value else last.value]
  }

  /** `new Headers(headers)` and a `delete` for each of the names: deletion ignores case. */
  function Without(headers: seq<Header>, names: set<string>): seq<Header> {
    if headers == [] then []
    else
      var before, last := Without(headers[..|headers| - 1], names), headers[|headers| - 1];
      if Lower(last.name) in names then before else before + [last]
  }

  lemma {:induction false} WireWithout(headers: seq<Header>, names: set<string>)
    ensures Wire(Without(headers, names)) == Wire(headers) - names
  {
    if headers != [] {
      var before, last := headers[..|headers| - 1], headers[|headers| - 1];
      WireWithout(before, names);
      var kept := Without(before, names);
      WireSnoc(before, last, headers);
      WireSnoc(kept, last, kept + [last]);
      AddedWithout(Wire(before), Wire(kept), names, Lower(last.name), last.value);
    }
  }

  /** One value more under a name. */
  function Added(wire: map<string, string>, name: string, value: string): map<string, string> {
    wire[name := if name in wire then wire[name] + ", " + value else value]
  }

  lemma WireSnoc(before: seq<Header>, last: Header, headers: seq<Header>)
    requires headers == before + [last]
    ensures Wire(headers) == Added(Wire(before), Lower(last.name), last.value)
  {
    assert headers[..|headers| - 1] == before;
  }

  lemma AddedWithout(wire: map<string, string>, kept: map<string, string>, names: set<string>, name: string, value: string)
    requires kept == wire - names
    ensures Added(wire, name, value) - names == if name in names then kept else Added(kept, name, value)
  {
  }

  const CROSS_ORIGIN_STRIPPED_HEADERS := {"authorization", "cookie", "proxy-authorization", "x-console-client"}
  const CONTENT_TYPE := "content-type"

  // ---- One hop ----------------------------------------------------------------------------------------

  predicate IsRedirectStatus(status: int) {
    status == 301 || status == 302 || status == 303 || status == 307 || status == 308
  }

  predicate KeepsMethod(status: int) {
    status == 307 || status == 308
  }

  /** A redirect the guard acts on. */
  predicate Redirects(r: Response) {
    IsRedirectStatus(r.status) && r.location.Some? && r.location.value != ""
  }

  function HeadersForHop(headers: seq<Header>, current: Url, next: Url): seq<Header> {
    if SameOrigin(current, next) then headers else Without(headers, CROSS_ORIGIN_STRIPPED_HEADERS)
  }

  function NextHop(prev: Request, next: Url, status: int): Request {
    Request(next, if KeepsMethod(status) then prev.verb else "GET",
            Without(HeadersForHop(prev.headers, prev.url, next), {CONTENT_TYPE}), None)
  }

  // ---- The loop ---------------------------------------------------------------------------------------

  /** What is sent in all, and what the caller gets, once `sent` has gone out and `request` is next. */
  function Run(server: Server, resolve: Resolver, sent: seq<Request>, request: Request): (seq<Request>, Outcome)
    decreases MAX_FETCHES - |sent|
  {
    var now := sent + [request];
    var response := server(now);
    if !Redirects(response) then (now, Returned(response))
    else if |now| >= MAX_FETCHES then (now, TooManyRedirects)
    else
      var next := resolve(response.location.value, request.url);
      if next.None? || !IsAllowedTarget(request.url, next.value) then (now, UnapprovedRedirect)
      else Run(server, resolve, now, NextHop(request, next.value, response.status))
  }

  /** `fetchWithRedirectGuard`, with the requests it sent. */
  method FetchWithRedirectGuard(server: Server, resolve: Resolver, initial: Request)
    returns (sent: seq<Request>, outcome: Outcome)
    ensures (sent, outcome) == Run(server, resolve, [], initial)
  {
    var request, log: seq<Request> := initial, [];
    while true
      invariant Run(server, resolve, log, request) == Run(server, resolve, [], initial) && |log| < MAX_FETCHES
      decreases MAX_FETCHES - |log|
    {
      log := log + [request];
      var response := server(log);
      if !Redirects(response) {
        return log, Returned(response);
      }
      if |log| >= MAX_FETCHES {
        return log, TooManyRedirects;
      }
      var next := resolve(response.location.value, request.url);
      if next.None? || !IsAllowedTarget(request.url, next.value) {
        return log, UnapprovedRedirect;
      }
      request := NextHop(request, next.value, response.status);
    }
  }

  // ---- What holds of every run ----------------------------------------------------------------------------

  /** The answers that are followed: these five statuses, with somewhere to go. */
  predicate Redirecting(r: Response) {
    r.status in {301, 302, 303, 307, 308} && r.location.Some? && r.location.value != ""
  }

  /** Request `i + 1` is the hop that the answer to request `i` led to. */
  ghost predicate Linked(server: Server, resolve: Resolver, sent: seq<Request>, i: nat)
    requires i + 1 < |sent|
  {
    && IsAllowedTarget(sent[i].url, sent[i + 1].url)
    && Redirecting(server(sent[..i + 1]))
    && resolve(server(sent[..i + 1]).location.value, sent[i].url) == Some(sent[i + 1].url)
    && sent[i + 1] == NextHop(sent[i], sent[i + 1].url, server(sent[..i + 1]).status)
  }

  ghost predicate IsChain(server: Server, resolve: Resolver, sent: seq<Request>) {
    forall i :: 0 <= i && i + 1 < |sent| ==> Linked(server, resolve, sent, i)
  }

  lemma ChainSnoc(server: Server, resolve: Resolver, sent: seq<Request>, request: Request)
    requires IsChain(server, resolve, sent) && sent != []
    requires var last := sent[|sent| - 1];
      && Redirecting(server(sent)) && IsAllowedTarget(last.url, request.url)
      && resolve(server(sent).location.value, last.url) == Some(request.url)
      && request == NextHop(last, request.url, server(sent).status)
    ensures IsChain(server, resolve, sent + [request])
  {
    var now := sent + [request];
    forall i | 0 <= i && i + 1 < |now|
      ensures Linked(server, resolve, now, i)
    {
      assert now[..i + 1] == sent[..i + 1];
      if i + 1 < |sent| {
        assert Linked(server, resolve, sent, i);
      } else {
        assert sent[..i + 1] == sent;
      }
    }
  }

  lemma {:induction false} RunIsChain(server: Server, resolve: Resolver, sent: seq<Request>, request: Request)
    requires |sent| < MAX_FETCHES && IsChain(server, resolve, sent + [request])
    ensures var all := Run(server, resolve, sent, request).0;
      sent + [request] <= all && |all| <= MAX_FETCHES && IsChain(server, resolve, all)
    decreases MAX_FETCHES - |sent|
  {
    var now := sent + [request];
    var response := server(now);
    if Redirects(response) && |now| < MAX_FETCHES {
      var next := resolve(response.location.value, request.url);
      if next.Some? && IsAllowedTarget(request.url, next.value) {
        var hop := NextHop(request, next.value, response.status);
        ChainSnoc(server, resolve, now, hop);
        RunIsChain(server, resolve, now, hop);
      }
    }
  }

  /** All of `sent` so far is one origin. */
  predicate OneOrigin(sent: seq<Request>, i: nat)
    requires i < |sent|
  {
    forall j :: 0 <= j <= i ==>
      sent[j].url.scheme == sent[0].url.scheme && sent[j].url.host == sent[0].url.host && sent[j].url.port == sent[0].url.port
  }

  /** The headers that request `i` puts on the wire. */
  function Sent(sent: seq<Request>, i: nat): map<string, string>
    requires i < |sent|
  {
    Wire(sent[i].headers)
  }

  /** A header of the first request, however spelled there, that has not been dropped by request `i`. */
  predicate StillSent(sent: seq<Request>, i: nat, name: string)
    requires i < |sent|
  {
    && name in Sent(sent, 0)
    && (name in {"authorization", "cookie", "proxy-authorization", "x-console-client"} ==> OneOrigin(sent, i))
    && (name == "content-type" ==> i == 0)
  }

  /** Which headers request `i` carries, exactly, and with what values. */
  lemma {:induction false} HeadersOf(server: Server, resolve: Resolver, sent: seq<Request>, i: nat, name: string)
    requires IsChain(server, resolve, sent) && i < |sent|
    ensures name in Sent(sent, i) <==> StillSent(sent, i, name)
    ensures name in Sent(sent, i) ==> Sent(sent, i)[name] == Sent(sent, 0)[name]
  {
    if i > 0 {
      HeadersOf(server, resolve, sent, i - 1, name);
      HopHeaders(server, resolve, sent, i - 1, name);
      if OneOrigin(sent, i - 1) && SameOrigin(sent[i - 1].url, sent[i].url) {
        assert SameOrigin(sent[0].url, sent[i - 1].url);
        assert OneOrigin(sent, i);
      }
      if OneOrigin(sent, i) {
        assert OneOrigin(sent, i - 1);
        assert SameOrigin(sent[0].url, sent[i - 1].url) && SameOrigin(sent[0].url, sent[i].url);
      }
    }
  }

  lemma HopHeaders(server: Server, resolve: Resolver, sent: seq<Request>, i: nat, name: string)
    requires IsChain(server, resolve, sent) && i + 1 < |sent|
    ensures name in Sent(sent, i + 1) <==>
      && name in Sent(sent, i) && name != CONTENT_TYPE
      && (name in CROSS_ORIGIN_STRIPPED_HEADERS ==> SameOrigin(sent[i].url, sent[i + 1].url))
    ensures name in Sent(sent, i + 1) ==> Sent(sent, i + 1)[name] == Sent(sent, i)[name]
  {
    assert Linked(server, resolve, sent, i);
    var current, next := sent[i].url, sent[i + 1].url;
    WireWithout(HeadersForHop(sent[i].headers, current, next), {CONTENT_TYPE});
    WireWithout(sent[i].headers, CROSS_ORIGIN_STRIPPED_HEADERS);
  }

  lemma OneHeaderStripped(header: Header, names: set<string>)
    requires Lower(header.name) in names
    ensures Without([header], names) == []
  {
    var headers := [header];
    assert headers[..|headers| - 1] == [] && headers[|headers| - 1] == header;
  }

  lemma Spelled() returns (name: string, lower: string)
    ensures name == "Authorization" && lower == "authorization" && Lower(name) == lower
  {
    name, lower := "Authorization", "authorization";
    assert forall i :: 0 <= i < |name| ==> LowerChar(name[i]) == lower[i];
  }

  /** The spelling does not matter: `Authorization` does not cross an origin either. */
  lemma CapitalsAreStripped(key: string, current: Url, next: Url)
    requires !SameOrigin(current, next)
    ensures HeadersForHop([Header("Authorization", key)], current, next) == []
  {
    var name, lower := Spelled();
    OneHeaderStripped(Header(name, key), CROSS_ORIGIN_STRIPPED_HEADERS);
  }

  lemma {:induction false} NeverBackToLoopback(server: Server, resolve: Resolver, sent: seq<Request>, i: nat, j: nat)
    requires IsChain(server, resolve, sent) && i < j < |sent| && !IsLoopback(sent[i].url)
    ensures !IsLoopback(sent[j].url)
  {
    assert Linked(server, resolve, sent, j - 1);
    if i < j - 1 {
      NeverBackToLoopback(server, resolve, sent, i, j - 1);
    }
  }

  /** The status that request `i` was answered with. */
  function StatusOf(server: Server, sent: seq<Request>, i: nat): int
    requires i < |sent|
  {
    server(sent[..i + 1]).status
  }

  /** Every answer before request `i` was a redirect that keeps the method. */
  predicate MethodKept(server: Server, sent: seq<Request>, i: nat)
    requires i < |sent|
  {
    forall j :: 0 <= j < i ==> StatusOf(server, sent, j) == 307 || StatusOf(server, sent, j) == 308
  }

  lemma {:induction false} MethodOf(server: Server, resolve: Resolver, sent: seq<Request>, i: nat)
    requires IsChain(server, resolve, sent) && i < |sent|
    ensures sent[i].verb == if MethodKept(server, sent, i) then sent[0].verb else "GET"
  {
    if i > 0 {
      MethodOf(server, resolve, sent, i - 1);
      assert Linked(server, resolve, sent, i - 1);
      assert MethodKept(server, sent, i) <==> MethodKept(server, sent, i - 1) && KeepsMethod(StatusOf(server, sent, i - 1));
    }
  }

  /**
   * Whatever the server answers: one to three requests, the first as given; every later one goes
   * where the answer before it sent it, and only where the policy lets it; a run that has left this
   * machine never returns to it; only the first request has a body; each header travels exactly as
   * far as it may.
   */
  lemma EveryRunIsGuarded(server: Server, resolve: Resolver, initial: Request)
    ensures var sent := Run(server, resolve, [], initial).0;
      && 1 <= |sent| <= 3 && sent[0] == initial
      && (forall i :: 0 < i < |sent| ==> MayBeContacted(sent[i].url) && sent[i].body.None? && Follows(server, resolve, sent, i))
      && (forall i, j :: 0 <= i < j < |sent| && !IsLocal(sent[i].url.host) ==> !IsLocal(sent[j].url.host))
      && (forall i, name :: 0 <= i < |sent| ==> (name in Sent(sent, i) <==> StillSent(sent, i, name)))
      && (forall i, name :: 0 <= i < |sent| && name in Sent(sent, i) ==> Sent(sent, i)[name] == Wire(initial.headers)[name])
      && (forall i :: 0 <= i < |sent| ==> sent[i].verb == if MethodKept(server, sent, i) then initial.verb else "GET")
  {
    assert [] + [initial] == [initial];
    RunIsChain(server, resolve, [], initial);
    var sent := Run(server, resolve, [], initial).0;
    forall i | 0 < i < |sent|
      ensures MayBeContacted(sent[i].url) && sent[i].body.None? && Follows(server, resolve, sent, i)
    {
      assert Linked(server, resolve, sent, i - 1);
      AllowedIsMayBeContacted(sent[i].url);
    }
    forall i, j | 0 <= i < j < |sent| && !IsLocal(sent[i].url.host)
      ensures !IsLocal(sent[j].url.host)
    {
      LoopbackIsLocal(sent[i].url);
      LoopbackIsLocal(sent[j].url);
      NeverBackToLoopback(server, resolve, sent, i, j);
    }
    forall i, name | 0 <= i < |sent|
      ensures name in Sent(sent, i) <==> StillSent(sent, i, name)
      ensures name in Sent(sent, i) ==> Sent(sent, i)[name] == Sent(sent, 0)[name]
    {
      HeadersOf(server, resolve, sent, i, name);
    }
    forall i | 0 <= i < |sent|
      ensures sent[i].verb == if MethodKept(server, sent, i) then sent[0].verb else "GET"
    {
      MethodOf(server, resolve, sent, i);
    }
  }

  /** The answer to the request before was a redirect, and its Location, resolved there, is where this one goes. */
  predicate Follows(server: Server, resolve: Resolver, sent: seq<Request>, i: nat)
    requires 0 < i < |sent|
  {
    var answer := server(sent[..i]);
    Redirecting(answer) && resolve(answer.location.value, sent[i - 1].url) == Some(sent[i].url)
  }

  /** A target that this policy lets a redirect go to: one that may be contacted, and this machine only from itself. */
  ghost predicate MayBeFollowed(at: Url, next: Option<Url>) {
    next.Some? && MayBeContacted(next.value) && (IsLocal(next.value.host) ==> IsLocal(at.host))
  }

  lemma TargetMayBeFollowed(at: Url, next: Url)
    ensures IsAllowedTarget(at, next) <==> MayBeFollowed(at, Some(next))
  {
    AllowedIsMayBeContacted(next);
    LoopbackIsLocal(next);
    LoopbackIsLocal(at);
  }

  /**
   * The last answer decides: it is returned exactly if it is no redirect, a third redirect is one
   * too many, and any other is refused exactly if it may not be followed, and is then not contacted.
   */
  lemma {:induction false} OutcomeFollowsLastAnswer(server: Server, resolve: Resolver, sent: seq<Request>, request: Request)
    requires |sent| < 3
    ensures var (all, outcome) := Run(server, resolve, sent, request);
      && all != []
      && var answer, at := server(all), all[|all| - 1].url;
      && (outcome.Returned? <==> !Redirecting(answer)) && (outcome.Returned? ==> outcome.response == answer)
      && (outcome.TooManyRedirects? <==> Redirecting(answer) && |all| == 3)
      && (outcome.UnapprovedRedirect? <==>
            Redirecting(answer) && |all| < 3 && !MayBeFollowed(at, resolve(answer.location.value, at)))
    decreases 3 - |sent|
  {
    var now := sent + [request];
    var response := server(now);
    if Redirects(response) && |now| < MAX_FETCHES {
      var next := resolve(response.location.value, request.url);
      if next.Some? {
        TargetMayBeFollowed(request.url, next.value);
        if IsAllowedTarget(request.url, next.value) {
          OutcomeFollowsLastAnswer(server, resolve, now, NextHop(request, next.value, response.status));
        }
      }
    }
  }
}
