/** The gateway's redirect loop around one-attempt transports: admission before every attempt,
    budgets spent across attempts, and the checks that publishing makes. */
module HttpGateway {
  import opened Basics
  import opened Utf8
  import opened HttpSyntax
  import opened HttpFraming

  datatype Scheme = HTTP | HTTPS
  datatype Address = Address(value: nat, isGlobal: bool)

  /** A normalised URL.  How text is normalised is not part of this model. */
  datatype Url = Url(scheme: Scheme, authority: Bytes, target: Bytes, literal: Option<Address>)

  datatype Limits = Limits(
    maxRequestHeaderBytes: nat, maxRequestBodyBytes: nat, maxResponseHeaderBytes: nat, maxResponseBodyBytes: nat,
    maxDecompressedBytes: nat, maxRedirects: nat, maxRequests: nat, maxTransferredBytes: nat, timeoutMs: real)

  datatype Grant = Grant(methods: set<Method>, schemes: set<Scheme>, limits: Limits)

  datatype Outbound = Outbound(method_: Method, scheme: Scheme, headers: seq<Header>, body: Bytes, limits: Limits)

  datatype Usage = Usage(
    requestCount: nat, requestBytes: nat, responseBytes: nat, wireBytes: nat, decompressedBytes: nat,
    redirectCount: nat, durationMs: real)

  datatype Published = Published(status: nat, headers: seq<Header>, body: Bytes, usage: Usage)

  /** Every place where the loop gives up. */
  datatype Site = Interrupted | RequestCount | SchemeOutsideGrant | PolicyDenied | ResolutionFailed | NoAddresses
    | ProhibitedAddress | TransferSpentBefore | BodySpentBefore | RequestHeaders | AttemptFailed(error: Error)
    | BadEvidence(error: Error) | TransferSpentAfter | BadLocation | RedirectCount | BadRedirect
    | BodylessWithBody | Undecodable(error: Error) | Duration | Refused(error: Error)

  datatype Outcome = Delivered(value: Published) | GaveUp(site: Site)

  // ---------------------------------------------------------------- value checks

  predicate WithinLimits(a: Limits, b: Limits) {
    && a.timeoutMs <= b.timeoutMs
    && a.maxRequestHeaderBytes <= b.maxRequestHeaderBytes && a.maxRequestBodyBytes <= b.maxRequestBodyBytes
    && a.maxResponseHeaderBytes <= b.maxResponseHeaderBytes && a.maxResponseBodyBytes <= b.maxResponseBodyBytes
    && a.maxDecompressedBytes <= b.maxDecompressedBytes && a.maxRedirects <= b.maxRedirects
    && a.maxRequests <= b.maxRequests && a.maxTransferredBytes <= b.maxTransferredBytes
  }

  /** What the constructors of a request and of its limits have already checked. */
  predicate WellFormed(r: Outbound) {
    && HeadersSize(r.headers) <= r.limits.maxRequestHeaderBytes
    && |r.body| <= r.limits.maxRequestBodyBytes
    && (r.method_ in {GET, HEAD} ==> r.body == [])
    && r.limits.maxRequests > 0 && r.limits.maxResponseBodyBytes <= r.limits.maxDecompressedBytes
  }

  predicate GrantsRequest(g: Grant, r: Outbound) {
    r.method_ in g.methods && r.scheme in g.schemes && WithinLimits(r.limits, g.limits)
  }

  /** The values of a field, as they are. */
  function RawValues(headers: seq<Header>, name: Bytes): seq<Bytes> {
    if headers == [] then []
    else (if Lower(headers[0].name) == name then [headers[0].value] else []) + RawValues(headers[1..], name)
  }

  function RedirectLocation(r: HttpFraming.Response): Result<Option<Bytes>> {
    var values := RawValues(r.headers, LOCATION);
    if |values| > 1 then Err(ResponseInvalid)
    else if values == [] then Ok(None)
    else if values[0] == [] then Err(ResponseInvalid)
    else Ok(Some(values[0]))
  }

  /** The gateway's own check of what a transport returned; Ok carries no more than that. */
  function CheckEvidence(r: HttpFraming.Response, req: Request): Result<bool> {
    if Object(r).Some? then Err(ResponseInvalid)
    else if r.headerBytes > req.maxHeaderBytes || |r.body| > req.maxBodyBytes || r.wire > req.maxWireBytes then
      Err(LimitExceeded)
    else
      var expected :-
        if OmitsBody(req.method_, r.status) then Ok(true)
        else if IsRedirect(r.status) then
          var location :- RedirectLocation(r);
          Ok(location.Some?)
        else Ok(false);
      if r.omitted != expected then Err(ResponseInvalid)
      else
        var lengths := RawValues(r.headers, CONTENT_LENGTH);
        if |lengths| > 1 then Err(ResponseInvalid)
        else if lengths == [] then Ok(true)
        else
          var declared :- ParseContentLength(lengths[0]);
          if !r.omitted && declared != |r.body| then Err(ResponseInvalid) else Ok(true)
  }

  function Ascii(s: string): Bytes {
    if s == [] then [] else [(s[0] as int) % 0x80] + Ascii(s[1..])
  }

  /** Framing and credential fields are withheld. */
  const WITHHELD: set<Bytes> := {
    Ascii("connection"), Ascii("content-encoding"), Ascii("content-length"), Ascii("transfer-encoding"),
    Ascii("authentication-info"), Ascii("proxy-authenticate"), Ascii("proxy-authentication-info"),
    Ascii("set-cookie"), Ascii("set-cookie2"), Ascii("www-authenticate")}

  predicate IsPublished(name: Bytes) {
    Lower(name) !in WITHHELD
  }

  function PublishedHeaders(headers: seq<Header>): (r: seq<Header>)
    ensures HeadersSize(r) <= HeadersSize(headers)
    ensures forall h :: h in r <==> h in headers && IsPublished(h.name)
  {
    hide IsPublished;
    if headers == [] then []
    else
      var rest := PublishedHeaders(headers[1..]);
      if IsPublished(headers[0].name) then
        assert ([headers[0]] + rest)[1..] == rest;
        [headers[0]] + rest
      else rest
  }

  lemma ValuesAppend(h: Header, rest: seq<Header>, name: Bytes)
    ensures RawValues([h] + rest, name) == (if Lower(h.name) == name then [h.value] else []) + RawValues(rest, name)
  {
    hide Lower;
    assert ([h] + rest)[1..] == rest;
  }

  lemma SameName(a: Bytes, b: Bytes)
    requires Lower(a) == Lower(b)
    ensures IsPublished(a) == IsPublished(b)
  {
  }

  /** A field that is not withheld keeps all its values in order, and the others have none. */
  lemma {:induction false} PublishedKeepsValues(headers: seq<Header>, name: Bytes)
    requires Lower(name) == name
    ensures RawValues(PublishedHeaders(headers), name) == if IsPublished(name) then RawValues(headers, name) else []
  {
    hide Lower, PublishedHeaders, IsPublished;
    NoHeaders(name);
    if headers != [] {
      var h, rest := headers[0], headers[1..];
      PublishedKeepsValues(rest, name);
      PublishedUnfolds(headers);
      ValuesAppend(h, rest, name);
      ValuesAppend(h, PublishedHeaders(rest), name);
      if Lower(h.name) == name {
        SameName(h.name, name);
      }
      assert headers == [h] + rest;
    }
  }

  lemma NoHeaders(name: Bytes)
    ensures PublishedHeaders([]) == [] && RawValues([], name) == []
  {
  }

  lemma PublishedUnfolds(headers: seq<Header>)
    requires headers != []
    ensures PublishedHeaders(headers)
      == if IsPublished(headers[0].name) then [headers[0]] + PublishedHeaders(headers[1..]) else PublishedHeaders(headers[1..])
  {
    hide IsPublished;
  }

  const HOST: Bytes := [0x48, 0x6F, 0x73, 0x74]
  /** "Connection: close" and "Accept-Encoding: gzip, deflate" take 21 and 34 bytes. */
  const FIXED_HEADERS_SIZE: nat := 55

  function TransportHeadersSize(url: Url, headers: seq<Header>): nat {
    |HOST| + 2 + |url.authority| + 2 + FIXED_HEADERS_SIZE + HeadersSize(headers)
  }

  /** The checks of `require_response`, the duration apart. */
  predicate ResponseAllowed(g: Grant, r: Outbound, p: Published) {
    && GrantsRequest(g, r)
    && p.status >= 200
    && HeadersSize(p.headers) <= r.limits.maxResponseHeaderBytes
    && |p.body| <= r.limits.maxDecompressedBytes
    && p.usage.requestCount <= r.limits.maxRequests
    && p.usage.responseBytes <= r.limits.maxResponseBodyBytes
    && p.usage.decompressedBytes <= r.limits.maxDecompressedBytes
    && p.usage.decompressedBytes == |p.body|
    && p.usage.redirectCount <= r.limits.maxRedirects
    && p.usage.requestBytes + p.usage.wireBytes <= r.limits.maxTransferredBytes
    && (r.method_ == HEAD ==> p.body == [])
  }

  /** The checks that the usage record makes of itself. */
  predicate UsageValid(u: Usage) {
    u.requestCount > 0 && u.wireBytes >= u.responseBytes
  }

  // ---------------------------------------------------------------- the collaborators

  datatype Phase = PreResolution | PostResolution

  /** An attempt: the destination it was admitted for and its budgets. */
  datatype Attempt = Attempt(url: Url, address: Address, budget: Request)

  datatype Effect =
    | Evaluated(phase: Phase, url: Url, depth: nat, addresses: seq<Address>, allowed: bool)
    | Resolved(url: Url, answer: Option<seq<Address>>)
    | Sent(attempt: Attempt, reply: Result<HttpFraming.Response>)

  /** The policy, the resolver, the transport and the clock.  They may answer anything. */
  class Network {
    ghost var log: seq<Effect>
    ghost var interrupted: bool    // the last look at the deadline and the cancellation
    ghost var elapsed: real        // the last reading of the clock

    constructor ()
      ensures log == [] && !interrupted
    {
      log, interrupted, elapsed := [], false, 0.0;
    }

    method Active() returns (yes: bool)
      modifies this`interrupted
      ensures interrupted == !yes
    {
      yes := *;
      interrupted := !yes;
    }

    method Evaluate(phase: Phase, url: Url, depth: nat, addresses: seq<Address>) returns (allowed: bool)
      modifies this`log
      ensures log == old(log) + [Evaluated(phase, url, depth, addresses, allowed)]
    {
      allowed := *;
      log := log + [Evaluated(phase, url, depth, addresses, allowed)];
    }

    method Resolve(url: Url) returns (answer: Option<seq<Address>>)
      modifies this`log
      ensures log == old(log) + [Resolved(url, answer)]
    {
      answer := *;
      log := log + [Resolved(url, answer)];
    }

    method Send(attempt: Attempt) returns (reply: Result<HttpFraming.Response>)
      modifies this`log
      ensures log == old(log) + [Sent(attempt, reply)]
    {
      reply := *;
      log := log + [Sent(attempt, reply)];
    }

    method Elapsed() returns (ms: real)
      modifies this`elapsed
      ensures elapsed == ms
    {
      ms := *;
      elapsed := ms;
    }
  }

  // ---------------------------------------------------------------- what a log must look like

  function Sends(log: seq<Effect>): seq<Effect> {
    if log == [] then []
    else Sends(log[..|log| - 1]) + (if log[|log| - 1].Sent? then [log[|log| - 1]] else [])
  }

  lemma SendsAppend(log: seq<Effect>, e: Effect)
    ensures Sends(log + [e]) == Sends(log) + (if e.Sent? then [e] else [])
  {
    assert (log + [e])[..|log|] == log;
  }

  /** The steps that must come right before an attempt on `a.url` at that redirect depth. */
  predicate Admission(before: seq<Effect>, a: Attempt, depth: nat, g: Grant) {
    && a.url.scheme in g.schemes && a.address.isGlobal
    && if a.url.literal.Some? then
         && a.address == a.url.literal.value
         && |before| >= 2
         && before[|before| - 2] == Evaluated(PreResolution, a.url, depth, [], true)
         && before[|before| - 1] == Evaluated(PostResolution, a.url, depth, [a.address], true)
       else
         && |before| >= 3
         && before[|before| - 3] == Evaluated(PreResolution, a.url, depth, [], true)
         && before[|before| - 2].Resolved? && before[|before| - 2].url == a.url && before[|before| - 2].answer.Some?
         && var addresses := before[|before| - 2].answer.value;
         && before[|before| - 1] == Evaluated(PostResolution, a.url, depth, addresses, true)
         && addresses != [] && a.address == addresses[0]
         && forall i :: 0 <= i < |addresses| ==> addresses[i].isGlobal
  }

  /** Every attempt was admitted, for its own URL, right before it was made. */
  ghost predicate AllAdmitted(log: seq<Effect>, g: Grant) {
    forall i :: 0 <= i < |log| && log[i].Sent? ==> Admission(log[..i], log[i].attempt, |Sends(log[..i])|, g)
  }

  lemma AdmittedAppend(log: seq<Effect>, e: Effect, g: Grant)
    requires AllAdmitted(log, g)
    requires e.Sent? ==> Admission(log, e.attempt, |Sends(log)|, g)
    ensures AllAdmitted(log + [e], g)
  {
    hide Admission, Sends;
    var after := log + [e];
    forall i | 0 <= i < |after| && after[i].Sent? ensures Admission(after[..i], after[i].attempt, |Sends(after[..i])|, g) {
      if i < |log| {
        assert after[..i] == log[..i] && after[i] == log[i];
      } else {
        assert after[..i] == log;
      }
    }
  }

  function BodyBytes(sends: seq<Effect>): nat {
    if sends == [] then 0
    else
      var last := sends[|sends| - 1];
      BodyBytes(sends[..|sends| - 1]) + if last.Sent? && last.reply.Ok? then |last.reply.value.body| else 0
  }

  function WireBytes(sends: seq<Effect>): nat {
    if sends == [] then 0
    else
      var last := sends[|sends| - 1];
      WireBytes(sends[..|sends| - 1]) + if last.Sent? && last.reply.Ok? then last.reply.value.wire else 0
  }

  lemma TotalsAppend(sends: seq<Effect>, e: Effect)
    requires e.Sent? && e.reply.Ok?
    ensures BodyBytes(sends + [e]) == BodyBytes(sends) + |e.reply.value.body|
    ensures WireBytes(sends + [e]) == WireBytes(sends) + e.reply.value.wire
  {
    assert (sends + [e])[..|sends|] == sends;
  }

  /** A reply that the gateway accepted as evidence. */
  predicate AcceptedReply(e: Effect) {
    e.Sent? && e.reply.Ok? && CheckEvidence(e.reply.value, e.attempt.budget) == Ok(true)
  }

  /** Where a reply redirects to, if it does. */
  function Follows(e: Effect, join: (Url, Bytes) -> Option<Url>): Option<Url>
    requires e.Sent? && e.reply.Ok?
  {
    var location := RedirectLocation(e.reply.value);
    if IsRedirect(e.reply.value.status) && location.Ok? && location.value.Some? then
      join(e.attempt.url, location.value.value)
    else None
  }

  /** A reply leads on exactly when its status is one of the five and it has one location,
      which is not empty and joins. */
  lemma FollowsExactly(e: Effect, join: (Url, Bytes) -> Option<Url>, next: Url)
    requires e.Sent? && e.reply.Ok?
    ensures var raw := e.reply.value;
      Follows(e, join) == Some(next) <==>
        && raw.status in {301, 302, 303, 307, 308}
        && exists place :: RawValues(raw.headers, LOCATION) == [place] && place != [] && join(e.attempt.url, place) == Some(next)
  {
    hide RawValues;
    var places := RawValues(e.reply.value.headers, LOCATION);
    if |places| == 1 {
      assert places == [places[0]];
    }
  }

  /** The accepted attempts from `start`, each at the place the one before it redirected to,
      leading to `current`. */
  ghost predicate Trail(sends: seq<Effect>, start: Url, current: Url, join: (Url, Bytes) -> Option<Url>) {
    && (forall i :: 0 <= i < |sends| ==> AcceptedReply(sends[i]))
    && (sends == [] ==> current == start)
    && (sends != [] ==>
          && sends[0].attempt.url == start
          && Follows(sends[|sends| - 1], join) == Some(current))
    && (forall i :: 0 < i < |sends| ==> Follows(sends[i - 1], join) == Some(sends[i].attempt.url))
  }

  /** The attempts behind a published response: all but the last redirect. */
  ghost predicate Journey(sends: seq<Effect>, start: Url, join: (Url, Bytes) -> Option<Url>) {
    && sends != [] && sends[|sends| - 1].Sent?
    && Trail(sends[..|sends| - 1], start, sends[|sends| - 1].attempt.url, join)
    && AcceptedReply(sends[|sends| - 1])
  }

  lemma TrailGrows(sends: seq<Effect>, start: Url, e: Effect, next: Url, join: (Url, Bytes) -> Option<Url>)
    requires e.Sent? && Trail(sends, start, e.attempt.url, join)
    requires AcceptedReply(e) && Follows(e, join) == Some(next)
    ensures Trail(sends + [e], start, next, join)
  {
    hide CheckEvidence, Follows;
  }

  /** What an accepted reply is known to satisfy. */
  lemma AcceptedBounds(r: HttpFraming.Response, req: Request)
    requires CheckEvidence(r, req) == Ok(true)
    ensures |r.body| <= r.bodyWire <= r.wire <= req.maxWireBytes && |r.body| <= req.maxBodyBytes
    ensures 200 <= r.status <= 599 && HeadersSize(r.headers) <= r.headerBytes <= req.maxHeaderBytes
    ensures r.omitted ==> r.body == []
    ensures OmitsBody(req.method_, r.status) ==> r.omitted
  {
    hide HeadersSize, HeadersWireSize, ObjectToFraming, RawValues, ParseContentLength, RedirectLocation;
  }

  /** "content-encoding", "identity", "gzip" and "deflate" */
  const CONTENT_ENCODING: Bytes := [0x63, 0x6F, 0x6E, 0x74, 0x65, 0x6E, 0x74, 0x2D, 0x65, 0x6E, 0x63, 0x6F, 0x64, 0x69, 0x6E, 0x67]
  const IDENTITY: Bytes := [0x69, 0x64, 0x65, 0x6E, 0x74, 0x69, 0x74, 0x79]
  const GZIP: Bytes := [0x67, 0x7A, 0x69, 0x70]
  const DEFLATE: Bytes := [0x64, 0x65, 0x66, 0x6C, 0x61, 0x74, 0x65]

  /** The one content coding of a response, None for identity. */
  function Coding(headers: seq<Header>): Result<Option<Bytes>> {
    var values := RawValues(headers, CONTENT_ENCODING);
    if |values| > 1 then Err(ResponseInvalid)
    else
      var coding := if values == [] then [] else Lower(Strip(values[0], IsLatinSpace));
      if coding == [] || coding == IDENTITY then Ok(None)
      else if coding == GZIP || coding == DEFLATE then Ok(Some(coding))
      else Err(ResponseInvalid)
  }

  /** Unpacking a content coding; what "gzip" and "deflate" yield is left to the parameter. */
  function Decode(
    r: HttpFraming.Response, maximum: nat, unpack: (Bytes, Bytes, nat) -> Result<Bytes>): Result<Bytes>
  {
    var c :- Coding(r.headers);
    var body :- if c.None? then Ok(r.body) else unpack(c.value, r.body, maximum);
    if |body| > maximum then Err(LimitExceeded) else Ok(body)
  }

  /** `body` is what the response carries: its bytes as they came, or unpacked when its one
      content coding says so.  Two codings, or any other one, carry nothing. */
  ghost predicate Carries(r: HttpFraming.Response, maximum: nat, unpack: (Bytes, Bytes, nat) -> Result<Bytes>, body: Bytes) {
    var codings := RawValues(r.headers, CONTENT_ENCODING);
    && |codings| <= 1
    && var coding := if codings == [] then [] else Lower(Strip(codings[0], IsLatinSpace));
    || (coding in {[], IDENTITY} && body == r.body)
    || (coding in {GZIP, DEFLATE} && unpack(coding, r.body, maximum) == Ok(body))
  }

  /** Decoding succeeds with exactly what the response carries, when that is not too long. */
  lemma DecodeMeans(r: HttpFraming.Response, maximum: nat, unpack: (Bytes, Bytes, nat) -> Result<Bytes>, body: Bytes)
    ensures Decode(r, maximum, unpack) == Ok(body) <==> Carries(r, maximum, unpack, body) && |body| <= maximum
  {
    hide RawValues, Lower, Strip;
  }

  // ---------------------------------------------------------------- the loop

  predicate AnyProhibited(addresses: seq<Address>) {
    exists i :: 0 <= i < |addresses| && !addresses[i].isGlobal
  }

  /** Why a round stopped before it had an accepted reply from `current`. */
  ghost predicate StopsFor(site: Site, log: seq<Effect>, interrupted: bool, r: Outbound, g: Grant, current: Url, attempts: nat) {
    match site
    case Interrupted => interrupted
    case RequestCount => attempts >= r.limits.maxRequests
    case SchemeOutsideGrant => current.scheme !in g.schemes
    case PolicyDenied => log != [] && log[|log| - 1].Evaluated? && log[|log| - 1].url == current && !log[|log| - 1].allowed
    case ResolutionFailed => log != [] && log[|log| - 1] == Resolved(current, None)
    case NoAddresses => log != [] && log[|log| - 1] == Resolved(current, Some([]))
    case ProhibitedAddress =>
      if current.literal.Some? then !current.literal.value.isGlobal
      else
        && log != [] && log[|log| - 1].Resolved? && log[|log| - 1].url == current && log[|log| - 1].answer.Some?
        && AnyProhibited(log[|log| - 1].answer.value)
    case RequestHeaders => TransportHeadersSize(current, r.headers) > r.limits.maxRequestHeaderBytes
    case AttemptFailed(e) =>
      log != [] && log[|log| - 1].Sent? && log[|log| - 1].attempt.url == current && log[|log| - 1].reply == Err(e)
    case BadEvidence(e) =>
      && log != [] && log[|log| - 1].Sent? && log[|log| - 1].attempt.url == current && log[|log| - 1].reply.Ok?
      && CheckEvidence(log[|log| - 1].reply.value, log[|log| - 1].attempt.budget) == Err(e)
    case _ => false
  }

  /** Why an accepted reply led to no response. */
  ghost predicate EndsFor(
    site: Site, raw: HttpFraming.Response, interrupted: bool, elapsed: real, r: Outbound, current: Url, redirects: nat,
    join: (Url, Bytes) -> Option<Url>, unpack: (Bytes, Bytes, nat) -> Result<Bytes>)
  {
    var places := RawValues(raw.headers, LOCATION);
    match site
    case Interrupted => interrupted
    case BadLocation => |places| > 1 || places == [[]]
    case RedirectCount => raw.status in {301, 302, 303, 307, 308} && |places| == 1 && redirects >= r.limits.maxRedirects
    case BadRedirect => raw.status in {301, 302, 303, 307, 308} && |places| == 1 && join(current, places[0]) == None
    case Undecodable(_) => forall body :: !(Carries(raw, r.limits.maxDecompressedBytes, unpack, body) && |body| <= r.limits.maxDecompressedBytes)
    case Duration => elapsed > r.limits.timeoutMs
    case _ => false
  }

  method RequirePolicy(net: Network, phase: Phase, url: Url, depth: nat, addresses: seq<Address>) returns (site: Option<Site>)
    modifies net
    ensures exists allowed :: net.log == old(net.log) + [Evaluated(phase, url, depth, addresses, allowed)]
    ensures site == None ==> net.log == old(net.log) + [Evaluated(phase, url, depth, addresses, true)]
    ensures site.Some? ==>
      || (site.value == PolicyDenied && net.log == old(net.log) + [Evaluated(phase, url, depth, addresses, false)])
      || (site.value == Interrupted && net.interrupted)
  {
    var allowed := net.Evaluate(phase, url, depth, addresses);
    if !allowed {
      return Some(PolicyDenied);
    }
    var active := net.Active();
    if !active {
      return Some(Interrupted);
    }
    return None;
  }

  /** The checks up to an admitted destination. */
  method Admit(net: Network, url: Url, depth: nat, g: Grant, ghost r: Outbound, ghost attempts: nat)
    returns (site: Option<Site>, address: Address)
    requires AllAdmitted(net.log, g)
    modifies net
    ensures AllAdmitted(net.log, g) && Sends(net.log) == Sends(old(net.log))
    ensures site == None ==> forall budget :: Admission(net.log, Attempt(url, address, budget), depth, g)
    ensures site.Some? ==> StopsFor(site.value, net.log, net.interrupted, r, g, url, attempts)
  {
    address := Address(0, false);
    if url.scheme !in g.schemes {
      return Some(SchemeOutsideGrant), address;
    }
    ghost var log0 := net.log;
    site := RequirePolicy(net, PreResolution, url, depth, []);
    ghost var log1 := net.log;
    NotSent(log0, log1, g);
    if site.Some? {
      return site, address;
    }
    var addresses: seq<Address>;
    if url.literal.Some? {
      addresses := [url.literal.value];
    } else {
      var answer := net.Resolve(url);
      NotSent(log1, net.log, g);
      if answer == None {
        return Some(ResolutionFailed), address;
      }
      addresses := answer.value;
    }
    ghost var log2 := net.log;
    var active := net.Active();
    if !active {
      return Some(Interrupted), address;
    }
    if addresses == [] {
      return Some(NoAddresses), address;
    }
    if exists i :: 0 <= i < |addresses| && !addresses[i].isGlobal {
      return Some(ProhibitedAddress), address;
    }
    site := RequirePolicy(net, PostResolution, url, depth, addresses);
    NotSent(log2, net.log, g);
    address := addresses[0];
  }

  lemma NotSent(before: seq<Effect>, after: seq<Effect>, g: Grant)
    requires AllAdmitted(before, g) && |after| == |before| + 1 && before == after[..|before|]
    requires !after[|before|].Sent?
    ensures AllAdmitted(after, g) && Sends(after) == Sends(before)
  {
    assert after == before + [after[|before|]];
    AdmittedAppend(before, after[|before|], g);
  }

  /** One attempt at an admitted destination, and the check of what it returned. */
  method AttemptOnce(net: Network, attempt: Attempt, depth: nat, g: Grant, ghost r: Outbound, ghost attempts: nat)
    returns (site: Option<Site>, raw: HttpFraming.Response)
    requires AllAdmitted(net.log, g) && depth == |Sends(net.log)| && Admission(net.log, attempt, depth, g)
    modifies net
    ensures AllAdmitted(net.log, g)
    ensures site == None ==>
              && var e := Sent(attempt, Ok(raw));
              && AcceptedReply(e) && Sends(net.log) == Sends(old(net.log)) + [e]
              && BodyBytes(Sends(net.log)) == BodyBytes(Sends(old(net.log))) + |raw.body|
              && WireBytes(Sends(net.log)) == WireBytes(Sends(old(net.log))) + raw.wire
              && |raw.body| <= raw.wire <= attempt.budget.maxWireBytes && |raw.body| <= attempt.budget.maxBodyBytes
              && 200 <= raw.status && HeadersSize(raw.headers) <= attempt.budget.maxHeaderBytes
              && (OmitsBody(attempt.budget.method_, raw.status) ==> raw.body == [])
    ensures |Sends(net.log)| <= depth + 1 && Sends(old(net.log)) <= Sends(net.log)
    ensures site.Some? ==> StopsFor(site.value, net.log, net.interrupted, r, g, attempt.url, attempts)
  {
    hide AllAdmitted, Sends, BodyBytes, WireBytes, Admission, CheckEvidence, HeadersSize;
    ghost var before := net.log;
    var reply := net.Send(attempt);
    ghost var e := Sent(attempt, reply);
    AdmittedAppend(before, e, g);
    SendsAppend(before, e);
    raw := HttpFraming.Response(0, [], [], 0, 0, 0, 0, 0, false);
    if reply.Err? {
      return Some(AttemptFailed(reply.error)), raw;
    }
    var active := net.Active();
    if !active {
      return Some(Interrupted), raw;
    }
    raw := reply.value;
    var checked := CheckEvidence(raw, attempt.budget);
    if checked.Err? {
      return Some(BadEvidence(checked.error)), raw;
    }
    AcceptedIsTrue(raw, attempt.budget);
    AcceptedBounds(raw, attempt.budget);
    TotalsAppend(Sends(before), e);
    return None, raw;
  }

  /** What is left of the budgets after the attempts so far. */
  function Budget(r: Outbound, bodyBytes: nat, wireBytes: nat): Request
    requires |r.body| + wireBytes <= r.limits.maxTransferredBytes && bodyBytes <= r.limits.maxResponseBodyBytes
  {
    var remainingTransfer := r.limits.maxTransferredBytes - |r.body| - wireBytes;
    Request(r.method_, r.limits.maxResponseHeaderBytes,
      Min(r.limits.maxResponseBodyBytes - bodyBytes, remainingTransfer), remainingTransfer)
  }

  /** One round of the loop up to its accepted reply. */
  method Hop(
    net: Network, r: Outbound, g: Grant, current: Url, requestCount: nat, redirectCount: nat, bodyBytes: nat, wireBytes: nat)
    returns (site: Option<Site>, raw: HttpFraming.Response, address: Address)
    requires AllAdmitted(net.log, g) && redirectCount == |Sends(net.log)|
    requires |r.body| + wireBytes <= r.limits.maxTransferredBytes && bodyBytes <= r.limits.maxResponseBodyBytes
    modifies net
    ensures AllAdmitted(net.log, g)
    ensures site == None ==>
              && var e := Sent(Attempt(current, address, Budget(r, bodyBytes, wireBytes)), Ok(raw));
              && AcceptedReply(e) && Sends(net.log) == Sends(old(net.log)) + [e]
              && BodyBytes(Sends(net.log)) == BodyBytes(Sends(old(net.log))) + |raw.body|
              && WireBytes(Sends(net.log)) == WireBytes(Sends(old(net.log))) + raw.wire
              && |raw.body| <= raw.wire && |r.body| + wireBytes + raw.wire <= r.limits.maxTransferredBytes
              && bodyBytes + |raw.body| <= r.limits.maxResponseBodyBytes
              && 200 <= raw.status && HeadersSize(raw.headers) <= r.limits.maxResponseHeaderBytes
              && (OmitsBody(r.method_, raw.status) ==> raw.body == [])
              && requestCount < r.limits.maxRequests
    ensures |Sends(net.log)| <= redirectCount + 1 && Sends(old(net.log)) <= Sends(net.log)
    ensures site.Some? ==> StopsFor(site.value, net.log, net.interrupted, r, g, current, requestCount)
  {
    hide AllAdmitted, Sends, BodyBytes, WireBytes, Admission, CheckEvidence, HeadersSize, AcceptedReply, TransportHeadersSize;
    var limits := r.limits;
    raw, address := HttpFraming.Response(0, [], [], 0, 0, 0, 0, 0, false), Address(0, false);
    var active := net.Active();
    if !active {
      return Some(Interrupted), raw, address;
    }
    if requestCount >= limits.maxRequests {
      return Some(RequestCount), raw, address;
    }
    site, address := Admit(net, current, redirectCount, g, r, requestCount);
    if site.Some? {
      return;
    }
    var remainingTransfer := limits.maxTransferredBytes - |r.body| - wireBytes;
    if remainingTransfer < 0 {
      return Some(TransferSpentBefore), raw, address;
    }
    var remainingResponse := limits.maxResponseBodyBytes - bodyBytes;
    if remainingResponse < 0 {
      return Some(BodySpentBefore), raw, address;
    }
    if TransportHeadersSize(current, r.headers) > limits.maxRequestHeaderBytes {
      return Some(RequestHeaders), raw, address;
    }
    var budget := Request(r.method_, limits.maxResponseHeaderBytes, Min(remainingResponse, remainingTransfer), remainingTransfer);
    site, raw := AttemptOnce(net, Attempt(current, address, budget), redirectCount, g, r, requestCount);
    if site == None && |r.body| + wireBytes + raw.wire > limits.maxTransferredBytes {
      return Some(TransferSpentAfter), raw, address;
    }
  }

  /** No body to HEAD and for three statuses, and else what the response carries. */
  ghost predicate BodyIs(
    body: Bytes, last: HttpFraming.Response, r: Outbound, unpack: (Bytes, Bytes, nat) -> Result<Bytes>)
  {
    && (r.method_ == HEAD || last.status in {204, 205, 304} ==> body == [])
    && (r.method_ != HEAD && last.status !in {204, 205, 304} ==>
          Carries(last, r.limits.maxDecompressedBytes, unpack, body) && |body| <= r.limits.maxDecompressedBytes)
  }

  /** The published status, fields and body are those of the last reply, which goes nowhere else. */
  ghost predicate SaysWhatCame(
    p: Published, sends: seq<Effect>, r: Outbound, join: (Url, Bytes) -> Option<Url>,
    unpack: (Bytes, Bytes, nat) -> Result<Bytes>)
  {
    && sends != [] && AcceptedReply(sends[|sends| - 1])
    && var last := sends[|sends| - 1].reply.value;
    && (last.status in {301, 302, 303, 307, 308} ==> RawValues(last.headers, LOCATION) == [])
    && p.status == last.status && p.headers == PublishedHeaders(last.headers)
    && BodyIs(p.body, last, r, unpack)
  }

  /** The usage adds up over the attempts, and took no longer than allowed. */
  ghost predicate Accounts(p: Published, sends: seq<Effect>, r: Outbound) {
    && p.usage.requestCount == |sends| == p.usage.redirectCount + 1
    && p.usage.requestBytes == |r.body|
    && p.usage.responseBytes == BodyBytes(sends) && p.usage.wireBytes == WireBytes(sends)
    && UsageValid(p.usage) && p.usage.durationMs <= r.limits.timeoutMs
  }

  /** What publishing establishes about its own arguments. */
  ghost predicate PublishedFrom(
    p: Published, raw: HttpFraming.Response, r: Outbound,
    unpack: (Bytes, Bytes, nat) -> Result<Bytes>)
  {
    && p.status == raw.status && p.headers == PublishedHeaders(raw.headers)
    && BodyIs(p.body, raw, r, unpack)
    && UsageValid(p.usage) && p.usage.durationMs <= r.limits.timeoutMs
  }

  lemma PublishedAtTheEnd(
    p: Published, sends: seq<Effect>, e: Effect, r: Outbound, join: (Url, Bytes) -> Option<Url>,
    unpack: (Bytes, Bytes, nat) -> Result<Bytes>)
    requires AcceptedReply(e) && (!IsRedirect(e.reply.value.status) || RedirectLocation(e.reply.value) == Ok(None))
    requires PublishedFrom(p, e.reply.value, r, unpack)
    requires p.usage == Usage(
      |sends| + 1, |r.body|, BodyBytes(sends + [e]), WireBytes(sends + [e]), p.usage.decompressedBytes, |sends|, p.usage.durationMs)
    ensures SaysWhatCame(p, sends + [e], r, join, unpack)
    ensures Accounts(p, sends + [e], r)
  {
    hide CheckEvidence, BodyIs, RawValues, IsRedirect, RedirectLocation, PublishedHeaders, BodyBytes, WireBytes, HeadersSize, OmitsBody,
      UsageValid, IsPublished, Lower, Utf8Length;
    LastOf(sends, e);
    StaysHere(e.reply.value);
  }

  lemma LastOf(sends: seq<Effect>, e: Effect)
    ensures (sends + [e])[|sends|] == e
  {
  }

  lemma StaysHere(raw: HttpFraming.Response)
    requires !IsRedirect(raw.status) || RedirectLocation(raw) == Ok(None)
    ensures raw.status in {301, 302, 303, 307, 308} ==> RawValues(raw.headers, LOCATION) == []
  {
    hide RawValues;
  }

  /** The guards that look reachable and are not, and every check that publishing makes but
      the one of the duration. */
  predicate NeverFires(site: Site) {
    site.TransferSpentBefore? || site.BodySpentBefore? || site.TransferSpentAfter? || site.BodylessWithBody? || site.Refused?
  }

  datatype Step = Ends(site: Site) | Redirects(next: Url) | Arrives

  /** Whether a reply is followed to another place. */
  function Onward(raw: HttpFraming.Response, current: Url, redirectCount: nat, maxRedirects: nat, join: (Url, Bytes) -> Option<Url>): Step {
    match RedirectLocation(raw)
    case Err(_) => Ends(BadLocation)
    case Ok(location) =>
      if IsRedirect(raw.status) && location.Some? then
        if redirectCount >= maxRedirects then Ends(RedirectCount)
        else
          match join(current, location.value)
          case None => Ends(BadRedirect)
          case Some(next) => Redirects(next)
      else Arrives
  }

  lemma OnwardFollows(e: Effect, redirectCount: nat, maxRedirects: nat, join: (Url, Bytes) -> Option<Url>)
    requires e.Sent? && e.reply.Ok?
    ensures var raw := e.reply.value;
      var step := Onward(raw, e.attempt.url, redirectCount, maxRedirects, join);
      && (step.Ends? ==> !NeverFires(step.site))
      && (step.Redirects? ==> redirectCount < maxRedirects && Follows(e, join) == Some(step.next))
      && (step.Arrives? ==> !IsRedirect(raw.status) || RedirectLocation(raw) == Ok(None))
  {
    hide RedirectLocation;
  }

  lemma OnwardEnds(
    raw: HttpFraming.Response, current: Url, redirectCount: nat, r: Outbound, interrupted: bool, elapsed: real,
    join: (Url, Bytes) -> Option<Url>, unpack: (Bytes, Bytes, nat) -> Result<Bytes>)
    requires Onward(raw, current, redirectCount, r.limits.maxRedirects, join).Ends?
    ensures EndsFor(Onward(raw, current, redirectCount, r.limits.maxRedirects, join).site, raw, interrupted, elapsed, r, current,
      redirectCount, join, unpack)
  {
    hide RawValues, Carries;
    var places := RawValues(raw.headers, LOCATION);
    if |places| == 1 {
      assert places == [places[0]];
    }
  }

  lemma UndecodableCarriesNothing(raw: HttpFraming.Response, maximum: nat, unpack: (Bytes, Bytes, nat) -> Result<Bytes>)
    requires Decode(raw, maximum, unpack).Err?
    ensures forall body :: !(Carries(raw, maximum, unpack, body) && |body| <= maximum)
  {
    hide Decode, Carries;
    forall body ensures !(Carries(raw, maximum, unpack, body) && |body| <= maximum) {
      DecodeMeans(raw, maximum, unpack, body);
    }
  }

  /** Whatever gave up had its reason: the round that stopped had come to `current` after the
      attempts `done`, or the last reply, which had been accepted, led nowhere. */
  ghost predicate GivenUp(
    site: Site, log: seq<Effect>, interrupted: bool, elapsed: real, r: Outbound, g: Grant, start: Url,
    join: (Url, Bytes) -> Option<Url>, unpack: (Bytes, Bytes, nat) -> Result<Bytes>)
  {
    || (exists done, current ::
          && done <= Sends(log) && |Sends(log)| <= |done| + 1 && Trail(done, start, current, join)
          && StopsFor(site, log, interrupted, r, g, current, |done|))
    || (&& Journey(Sends(log), start, join)
        && var last := Sends(log)[|Sends(log)| - 1];
        EndsFor(site, last.reply.value, interrupted, elapsed, r, last.attempt.url, |Sends(log)| - 1, join, unpack))
  }

  lemma StopGivesUp(
    site: Site, log: seq<Effect>, interrupted: bool, elapsed: real, r: Outbound, g: Grant, start: Url,
    join: (Url, Bytes) -> Option<Url>, unpack: (Bytes, Bytes, nat) -> Result<Bytes>, done: seq<Effect>, current: Url)
    requires done <= Sends(log) && |Sends(log)| <= |done| + 1 && Trail(done, start, current, join)
    requires StopsFor(site, log, interrupted, r, g, current, |done|)
    ensures GivenUp(site, log, interrupted, elapsed, r, g, start, join, unpack) && !NeverFires(site)
  {
    hide Trail, Sends, CheckEvidence, TransportHeadersSize;
  }

  lemma EndGivesUp(
    site: Site, log: seq<Effect>, interrupted: bool, elapsed: real, r: Outbound, g: Grant, start: Url,
    join: (Url, Bytes) -> Option<Url>, unpack: (Bytes, Bytes, nat) -> Result<Bytes>, before: seq<Effect>, e: Effect)
    requires Sends(log) == before + [e] && e.Sent? && e.reply.Ok? && Journey(before + [e], start, join)
    requires EndsFor(site, e.reply.value, interrupted, elapsed, r, e.attempt.url, |before|, join, unpack)
    ensures GivenUp(site, log, interrupted, elapsed, r, g, start, join, unpack) && !NeverFires(site)
  {
    hide Trail, Sends, CheckEvidence, TransportHeadersSize, Journey, Carries, RawValues;
    LastOf(before, e);
  }

  lemma NoAttempts(start: Url, g: Grant, join: (Url, Bytes) -> Option<Url>)
    ensures AllAdmitted([], g) && Trail(Sends([]), start, start, join)
    ensures Sends([]) == [] && BodyBytes([]) == 0 && WireBytes([]) == 0
  {
  }

  /** Runs until a response can be published or something gives up. */
  method SendBounded(
    net: Network, r: Outbound, g: Grant, start: Url,
    join: (Url, Bytes) -> Option<Url>, unpack: (Bytes, Bytes, nat) -> Result<Bytes>)
    returns (outcome: Outcome)
    requires net.log == [] && WellFormed(r) && GrantsRequest(g, r)
    modifies net
    // every attempt followed both policy phases and an all-global resolution, whatever happened
    ensures AllAdmitted(net.log, g)
    // what is published is what the last attempt said, reached by following the redirects
    ensures outcome.Delivered? ==>
              && Journey(Sends(net.log), start, join)
              && SaysWhatCame(outcome.value, Sends(net.log), r, join, unpack)
    // the usage is the sum over all attempts, within every limit
    ensures outcome.Delivered? ==> Accounts(outcome.value, Sends(net.log), r) && ResponseAllowed(g, r, outcome.value)
    // nothing gives up without its reason, and five guards never fire
    ensures outcome.GaveUp? ==>
              && GivenUp(outcome.site, net.log, net.interrupted, net.elapsed, r, g, start, join, unpack)
              && !NeverFires(outcome.site)
  {
    var limits := r.limits;
    NoAttempts(start, g, join);
    assert r.body == [] by {
      assert r.method_ == GET || r.method_ == HEAD;
    }
    hide AllAdmitted, Trail, Sends, BodyBytes, WireBytes, CheckEvidence, PublishedHeaders, HeadersSize, RedirectLocation,
      Journey, AcceptedReply, SaysWhatCame, Accounts, ResponseAllowed, Budget, OmitsBody, Onward, NeverFires, Follows, IsRedirect, StopsFor, EndsFor, GivenUp;
    var current := start;
    var requestCount: nat, redirectCount: nat, bodyBytes: nat, wireBytes: nat := 0, 0, 0, 0;
    while true
      invariant AllAdmitted(net.log, g)
      invariant Trail(Sends(net.log), start, current, join)
      invariant requestCount == redirectCount == |Sends(net.log)| && redirectCount <= limits.maxRedirects
      invariant bodyBytes == BodyBytes(Sends(net.log)) && wireBytes == WireBytes(Sends(net.log))
      invariant bodyBytes <= wireBytes && |r.body| + wireBytes <= limits.maxTransferredBytes && bodyBytes <= limits.maxResponseBodyBytes
      decreases limits.maxRedirects - redirectCount
    {
      ghost var before := Sends(net.log);
      var site, raw, address := Hop(net, r, g, current, requestCount, redirectCount, bodyBytes, wireBytes);
      if site.Some? {
        StopGivesUp(site.value, net.log, net.interrupted, net.elapsed, r, g, start, join, unpack, before, current);
        return GaveUp(site.value);
      }
      ghost var e := Sent(Attempt(current, address, Budget(r, bodyBytes, wireBytes)), Ok(raw));
      requestCount := requestCount + 1;
      bodyBytes, wireBytes := bodyBytes + |raw.body|, wireBytes + raw.wire;
      var step := Onward(raw, current, redirectCount, limits.maxRedirects, join);
      OnwardFollows(e, redirectCount, limits.maxRedirects, join);
      JourneyEnds(before, start, e, join);
      if step.Ends? {
        OnwardEnds(raw, current, redirectCount, r, net.interrupted, net.elapsed, join, unpack);
        EndGivesUp(step.site, net.log, net.interrupted, net.elapsed, r, g, start, join, unpack, before, e);
        return GaveUp(step.site);
      }
      if step.Redirects? {
        redirectCount := redirectCount + 1;
        TrailGrows(before, start, e, step.next, join);
        current := step.next;
        continue;
      }
      outcome := Publish(
        net, r, g, raw, requestCount, bodyBytes, wireBytes, redirectCount, unpack, before, e, join);
      if outcome.GaveUp? {
        EndGivesUp(outcome.site, net.log, net.interrupted, net.elapsed, r, g, start, join, unpack, before, e);
      }
      return;
    }
  }

  /** From the last reply to the published response and its final checks. */
  method Publish(
    net: Network, r: Outbound, g: Grant, raw: HttpFraming.Response,
    requestCount: nat, bodyBytes: nat, wireBytes: nat, redirectCount: nat,
    unpack: (Bytes, Bytes, nat) -> Result<Bytes>,
    ghost before: seq<Effect>, ghost e: Effect, ghost join: (Url, Bytes) -> Option<Url>)
    returns (outcome: Outcome)
    requires WellFormed(r) && GrantsRequest(g, r)
    requires AcceptedReply(e) && e.reply.value == raw && (!IsRedirect(raw.status) || RedirectLocation(raw) == Ok(None))
    requires requestCount == |before| + 1 && redirectCount == |before|
    requires bodyBytes == BodyBytes(before + [e]) && wireBytes == WireBytes(before + [e])
    requires raw.status >= 200 && HeadersSize(raw.headers) <= r.limits.maxResponseHeaderBytes
    requires OmitsBody(r.method_, raw.status) ==> raw.body == []
    requires 0 < requestCount <= r.limits.maxRequests && redirectCount <= r.limits.maxRedirects
    requires bodyBytes <= wireBytes && bodyBytes <= r.limits.maxResponseBodyBytes
    requires |r.body| + wireBytes <= r.limits.maxTransferredBytes
    modifies net`interrupted, net`elapsed
    ensures outcome.Delivered? ==>
              && SaysWhatCame(outcome.value, before + [e], r, join, unpack)
              && Accounts(outcome.value, before + [e], r) && ResponseAllowed(g, r, outcome.value)
    ensures outcome.GaveUp? ==>
              EndsFor(outcome.site, raw, net.interrupted, net.elapsed, r, e.attempt.url, |before|, join, unpack)
    ensures net.log == old(net.log)
  {
    hide WithinLimits, HeadersSize, PublishedHeaders, BodyBytes, WireBytes, AcceptedReply, RedirectLocation, SaysWhatCame, Accounts,
      Coding, Decode, Carries, RawValues, BodyIs, IsPublished, Ascii;
    var limits := r.limits;
    var body: Bytes := [];
    if OmitsBody(r.method_, raw.status) {
      if raw.body != [] {
        return GaveUp(BodylessWithBody);
      }
    } else {
      var decoded := Decode(raw, limits.maxDecompressedBytes, unpack);
      if decoded.Err? {
        UndecodableCarriesNothing(raw, limits.maxDecompressedBytes, unpack);
        return GaveUp(Undecodable(decoded.error));
      }
      body := decoded.value;
    }
    BodyComes(raw, r, unpack, body);
    var active := net.Active();
    if !active {
      return GaveUp(Interrupted);
    }
    var duration := net.Elapsed();
    var published := Published(
      raw.status, PublishedHeaders(raw.headers), body,
      Usage(requestCount, |r.body|, bodyBytes, wireBytes, |body|, redirectCount, duration));
    if !ResponseAllowed(g, r, published) || !UsageValid(published.usage) {
      return GaveUp(Refused(LimitExceeded));
    }
    if duration > limits.timeoutMs {
      return GaveUp(Duration);
    }
    PublishedAtTheEnd(published, before, e, r, join, unpack);
    return Delivered(published);
  }

  lemma BodyComes(raw: HttpFraming.Response, r: Outbound, unpack: (Bytes, Bytes, nat) -> Result<Bytes>, body: Bytes)
    requires if OmitsBody(r.method_, raw.status) then body == [] else Decode(raw, r.limits.maxDecompressedBytes, unpack) == Ok(body)
    ensures BodyIs(body, raw, r, unpack) && |body| <= r.limits.maxDecompressedBytes
  {
    DecodeMeans(raw, r.limits.maxDecompressedBytes, unpack, body);
    hide Carries, Decode;
  }

  lemma AcceptedIsTrue(r: HttpFraming.Response, req: Request)
    requires CheckEvidence(r, req).Ok?
    ensures CheckEvidence(r, req) == Ok(true)
  {
    hide Object, RawValues, ParseContentLength, RedirectLocation;
  }

  lemma JourneyEnds(sends: seq<Effect>, start: Url, e: Effect, join: (Url, Bytes) -> Option<Url>)
    requires e.Sent? && Trail(sends, start, e.attempt.url, join) && AcceptedReply(e)
    ensures Journey(sends + [e], start, join)
  {
    hide Trail, CheckEvidence;
    assert (sends + [e])[..|sends|] == sends;
  }
}
