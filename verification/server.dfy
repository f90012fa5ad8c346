/**
 The HTTP handler of the gateway (`handlerFunc` in doh-server/server.go): it
 settles the request's format and the answer's format, hands the request to
 the matching parser, patches root queries, resolves through the cache, and
 writes the answer or an error. The wire-format (RFC 8484) parser and
 formatter live outside this model; the parser is a parameter and a
 wire-format answer is recorded as the request state handed to the
 formatter.
 */
module Server {

  import opened Types
  import Text
  import Dns
  import Request
  import Google
  import JsonDns
  import Upstream
  import Cache

  const DnsJson: string := "application/dns-json"
  const DnsMessage: string := "application/dns-message"
  const UdpWireFormat: string := "application/dns-udpwireformat"
  const Json: string := "application/json"

  /** The request formats the handler has a parser for. */
  predicate KnownRequestType(ct: string)
  {
    ct == DnsJson || ct == DnsMessage || ct == UdpWireFormat
  }

  /** The request's format: the `ct` parameter, else the Content-Type
      header, else a guess: JSON when there is a `name`, wire format when
      there is a `dns` parameter. */
  function RequestType(req: Request.HttpRequest): (r: string)
    ensures r == "" <==> req.ct == "" && req.contentType == "" && req.name == "" && req.dns == ""
    ensures req.ct != "" ==> r == req.ct
    ensures req.ct == "" && req.contentType != "" ==> r == req.contentType
    ensures req.ct == "" && req.contentType == "" && req.name != "" ==> r == DnsJson
    ensures req.ct == "" && req.contentType == "" && req.name == "" && req.dns != "" ==> r == DnsMessage
  {
    if req.ct != "" then req.ct
    else if req.contentType != "" then req.contentType
    else if req.name != "" then DnsJson
    else if req.dns != "" then DnsMessage
    else ""
  }

  /** The answer format one Accept candidate asks for, judged on the text
      before its first ';' and without trimming spaces. */
  function Offered(candidate: string): (r: Option<string>)
    ensures r.Some? ==> r.value == Json || r.value == DnsMessage
    ensures r == Some(Json) <==> Text.BeforeFirst(candidate, ';') == Json
    ensures r == Some(DnsMessage) <==>
      Text.BeforeFirst(candidate, ';') == DnsMessage || Text.BeforeFirst(candidate, ';') == UdpWireFormat
  {
    var media := Text.BeforeFirst(candidate, ';');
    if media == Json then Some(Json)
    else if media == UdpWireFormat || media == DnsMessage then Some(DnsMessage)
    else None
  }

  /** The first value `f` finds among `cands`. */
  function FirstFound(f: string -> Option<string>, cands: seq<string>): (r: Option<string>)
    ensures r.Some? <==> exists i :: 0 <= i < |cands| && f(cands[i]).Some?
    ensures r.Some? ==>
      exists i :: 0 <= i < |cands| && r == f(cands[i]) && forall j :: 0 <= j < i ==> f(cands[j]).None?
  {
    if |cands| == 0 then None
    else if f(cands[0]).Some? then f(cands[0])
    else
      var r := FirstFound(f, cands[1..]);
      assert forall i :: 1 <= i < |cands| ==> cands[i] == cands[1..][i - 1];
      r
  }

  /** The answer format of the first Accept candidate that names one. */
  function FirstOffered(cands: seq<string>): (r: Option<string>)
    ensures r.Some? <==> exists i :: 0 <= i < |cands| && Offered(cands[i]).Some?
    ensures r.Some? ==>
      exists i :: 0 <= i < |cands| && r == Offered(cands[i]) && forall j :: 0 <= j < i ==> Offered(cands[j]).None?
    ensures r.Some? ==> r.value == Json || r.value == DnsMessage
  {
    FirstFound(Offered, cands)
  }

  /** The answer format that mirrors a request format. */
  function Mirrored(ct: string): (r: Option<string>)
    ensures r.Some? <==> KnownRequestType(ct)
    ensures r == Some(Json) <==> ct == DnsJson
    ensures r == Some(DnsMessage) <==> ct == DnsMessage || ct == UdpWireFormat
  {
    if ct == DnsJson then Some(Json)
    else if ct == DnsMessage || ct == UdpWireFormat then Some(DnsMessage)
    else None
  }

  /** The answer format: the first Accept candidate that names one, else the
      mirror of the request format, else "" (which the handler never
      reaches with, see `Handle`). */
  function ResponseType(accept: string, ct: string): (r: string)
    ensures r == Json || r == DnsMessage || r == ""
    ensures r == "" <==> FirstOffered(Text.Split(accept, ',')).None? && !KnownRequestType(ct)
    ensures FirstOffered(Text.Split(accept, ',')).Some? ==> r == FirstOffered(Text.Split(accept, ',')).value
    ensures FirstOffered(Text.Split(accept, ',')).None? && KnownRequestType(ct) ==> Some(r) == Mirrored(ct)
  {
    match FirstOffered(Text.Split(accept, ','))
    case Some(t) => t
    case None => if KnownRequestType(ct) then Mirrored(ct).value else ""
  }

  /** Candidates are not trimmed: one that starts with a space, as in
      "application/dns-message, application/json", is not recognised. */
  lemma SpacedCandidateIgnored(c: string)
    requires |c| > 0 && c[0] == ' '
    ensures Offered(c).None?
  {
    var media := Text.BeforeFirst(c, ';');
    assert |media| > 0 ==> media[0] == ' ';
  }

  /** Parameters after ';' do not matter. */
  lemma ParametersIgnored(media: string, params: string)
    requires media == Json || media == DnsMessage || media == UdpWireFormat
    ensures Offered(media + ";" + params) == Offered(media)
    ensures Offered(media).Some?
    ensures Offered(media + ";" + params) == Some(if media == Json then Json else DnsMessage)
  {
    assert ';' !in media;
    Text.BeforeFirstSep(media, ';', params);
    Text.BeforeFirstNoSep(media, ';');
  }

  /** The wiring of one server: the codec oracles, the upstreams, whether
      non-global client addresses may be reported, the wire-format parser,
      the current time and the HTTP date formatter. */
  datatype Setup = Setup(
    lib: Dns.Lib,
    env: Upstream.Env,
    allowNonGlobal: bool,
    parseIetf: Request.HttpRequest -> Result<Request.DnsRequest, Request.HttpError>,
    now: nat,
    date: nat -> string)

  /** What the handler writes: nothing (the parser already answered), an
      error with its status, a JSON answer with its status and headers, or
      a wire-format answer produced from the request state. */
  datatype HttpReply =
    | NoReply
    | ErrorReply(code: int, text: string)
    | JsonAnswer(reply: Google.Reply, body: JsonDns.Response)
    | WireAnswer(answered: Request.DnsRequest)

  /** The reply together with the cache lookup, when one was made. */
  datatype Handled = Handled(reply: HttpReply, lookup: Option<Cache.Lookup>)

  /** The parser for a known request format. */
  function Parse(s: Setup, req: Request.HttpRequest, ct: string): (r: Result<Request.DnsRequest, Request.HttpError>)
    requires KnownRequestType(ct)
    ensures ct == DnsJson ==> r == Google.ParseRequestGoogle(s.lib, s.allowNonGlobal, req)
    ensures ct != DnsJson ==> r == s.parseIetf(req)
  {
    if ct == DnsJson then Google.ParseRequestGoogle(s.lib, s.allowNonGlobal, req) else s.parseIetf(req)
  }

  /** The front of the handler: the request as parsed, or what to write
      instead. An unknown request format is refused with 415 before anything
      is parsed; a parser failure is written as an error, except 444, after
      which nothing is written. */
  function Admit(s: Setup, req: Request.HttpRequest): (r: Result<Request.DnsRequest, HttpReply>)
    ensures !KnownRequestType(RequestType(req)) ==>
      r == Err(ErrorReply(415, "Invalid argument value: \"ct\" = " + s.lib.quote(RequestType(req))))
    ensures KnownRequestType(RequestType(req)) ==>
      match Parse(s, req, RequestType(req))
      case Ok(parsed) => r == Ok(parsed)
      case Err(e) => r == Err(if e.code == 444 then NoReply else ErrorReply(e.code, e.text))
  {
    var ct := RequestType(req);
    if !KnownRequestType(ct) then
      Err(ErrorReply(415, "Invalid argument value: \"ct\" = " + s.lib.quote(ct)))
    else match Parse(s, req, ct)
      case Err(e) => Err(if e.code == 444 then NoReply else ErrorReply(e.code, e.text))
      case Ok(parsed) => Ok(parsed)
  }

  /** The answer in the chosen format. */
  function Respond(s: Setup, responseType: string, answered: Request.DnsRequest): (r: HttpReply)
    requires answered.response.Some? && (responseType == Json || responseType == DnsMessage)
    ensures r.JsonAnswer? <==> responseType == Json
    ensures r.JsonAnswer? ==>
      && r.body == JsonDns.Marshal(s.lib, answered.response.value, s.now)
      && r.reply == Google.GoogleReply(r.body, answered.isTailored, answered.fromCache, s.now, s.date)
    ensures r.WireAnswer? ==> r.answered == answered
  {
    if responseType == Json then
      var body := JsonDns.Marshal(s.lib, answered.response.value, s.now);
      JsonAnswer(Google.GoogleReply(body, answered.isTailored, answered.fromCache, s.now, s.date), body)
    else WireAnswer(answered)
  }

  /** The back of the handler: the parsed request has its root queries
      patched and goes to the cache; a failed lookup is a 503 carrying the
      error, and an answer is written in the chosen format. */
  function Serve(s: Setup, store: Option<Cache.Store>, parsed: Request.DnsRequest, responseType: string): (r: Handled)
    requires s.env.Valid() && (responseType == Json || responseType == DnsMessage)
    ensures r.lookup == Some(Cache.DoDNSQuery(s.lib, s.env, store, Request.PatchRootRD(parsed)))
    ensures r.lookup.value.result.Err? ==>
      r.reply == ErrorReply(503, "DNS query failure (" + r.lookup.value.result.error + ")")
    ensures r.lookup.value.result.Ok? ==>
      && r.lookup.value.result.value.response.Some?
      && r.reply == Respond(s, responseType, r.lookup.value.result.value)
  {
    var lookup := Cache.DoDNSQuery(s.lib, s.env, store, Request.PatchRootRD(parsed));
    match lookup.result
    case Err(msg) => Handled(ErrorReply(503, "DNS query failure (" + msg + ")"), Some(lookup))
    case Ok(answered) => Handled(Respond(s, responseType, answered), Some(lookup))
  }

  /** `handlerFunc`: the front, then the back with the answer format the
      Accept header or, failing that, the request format names. Every
      request that gets past the front has an answer format, so the
      handler's "unknown response type" panic is unreachable. */
  function Handle(s: Setup, store: Option<Cache.Store>, req: Request.HttpRequest): (r: Handled)
    requires s.env.Valid()
    ensures Admit(s, req).Err? ==> r == Handled(Admit(s, req).error, None)
    ensures Admit(s, req).Ok? ==>
      && ResponseType(req.accept, RequestType(req)) != ""
      && r == Serve(s, store, Admit(s, req).value, ResponseType(req.accept, RequestType(req)))
  {
    match Admit(s, req)
    case Err(reply) => Handled(reply, None)
    case Ok(parsed) => Serve(s, store, parsed, ResponseType(req.accept, RequestType(req)))
  }

  /** An answer comes back as JSON exactly when the first Accept candidate
      naming a format names JSON, or none does and the request was JSON. */
  lemma JsonExactlyWhenAskedFor(s: Setup, accept: string, ct: string, answered: Request.DnsRequest)
    requires KnownRequestType(ct) && answered.response.Some?
    ensures Respond(s, ResponseType(accept, ct), answered).JsonAnswer? <==>
      match FirstOffered(Text.Split(accept, ','))
      case Some(t) => t == Json
      case None => ct == DnsJson
  {
  }

  /** The JSON parser never answers by itself, so a JSON request always
      gets a reply. */
  lemma JsonRequestAlwaysAnswered(s: Setup, store: Option<Cache.Store>, req: Request.HttpRequest)
    requires s.env.Valid() && RequestType(req) == DnsJson
    ensures !Handle(s, store, req).reply.NoReply?
  {
  }

  /** A request that reaches the cache carries the recursion flag for root
      queries, whatever the client asked. */
  lemma RootQueriesRecurse(s: Setup, store: Option<Cache.Store>, req: Request.HttpRequest, i: nat)
    requires s.env.Valid() && KnownRequestType(RequestType(req)) && Parse(s, req, RequestType(req)).Ok?
    requires var q := Parse(s, req, RequestType(req)).value.request; i < |q.question| && q.question[i].name == "."
    ensures var p := Request.PatchRootRD(Parse(s, req, RequestType(req)).value);
      && p.request.recursionDesired
      && Handle(s, store, req).lookup == Some(Cache.DoDNSQuery(s.lib, s.env, store, p))
    ensures var r := Handle(s, store, req);
      r.lookup.Some? && (r.lookup.value.result.Ok? ==> r.lookup.value.result.value.request.recursionDesired)
  {
    var patched := Request.PatchRootRD(Parse(s, req, RequestType(req)).value);
    assert patched.request.recursionDesired;
    var lookup := Cache.DoDNSQuery(s.lib, s.env, store, patched);
    assert Handle(s, store, req).lookup == Some(lookup);
  }
}
