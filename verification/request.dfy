/**
 What the gateway reads from an HTTP request, the per-request state it carries
 through the resolution pipeline (`DNSRequest` in doh-server/server.go), and the
 two front-door steps that look only at the request: choosing the client
 address reported through EDNS Client Subnet, and the root-query RD patch.
 */
module Request {

  import opened Types
  import Text
  import Dns
  import GlobalIp

  /** The inputs of one HTTP request, each as the gateway reads it: form
      values (URL query or POST form; "" when absent), the `no_ecs` URL query
      parameter, request headers ("" when absent), and `RemoteAddr` as the
      HTTP server set it from the connection's peer, before the handler
      rewrites it. */
  datatype HttpRequest = HttpRequest(
    ct: string,
    name: string,
    dns: string,
    rrtype: string,
    cd: string,
    ecs: string,
    noEcs: string,
    contentType: string,
    accept: string,
    xForwardedFor: string,
    xRealIp: string,
    remoteAddr: string)

  /** A request the parsers rejected: HTTP status and message. The status 444
      means the parser has already answered and nothing more is written. */
  datatype HttpError = HttpError(code: int, text: string)

  /** A parsed request on its way through the resolver: the outgoing query,
      the upstream answer once there is one, the last upstream tried, whether
      the query carries the client's own subnet, and whether the answer came
      from the cache. */
  datatype DnsRequest = DnsRequest(
    request: Dns.Msg,
    response: Option<Dns.Msg>,
    currentUpstream: string,
    isTailored: bool,
    fromCache: bool)

  /** A fresh request state around a query, as the parsers build it. */
  function NewRequest(query: Dns.Msg, isTailored: bool): DnsRequest
  {
    DnsRequest(query, None, "", isTailored, false)
  }

  /** The address one X-Forwarded-For entry or X-Real-IP value names. */
  function Candidate(lib: Dns.Lib, text: string): Option<Dns.IP>
  {
    lib.parseIP(Text.TrimSpace(text))
  }

  /** The position of the first candidate `keep` accepts, or -1. */
  function FirstKept(keep: Option<Dns.IP> -> bool, cands: seq<Option<Dns.IP>>): (k: int)
    ensures -1 <= k < |cands|
    ensures k == -1 <==> forall i :: 0 <= i < |cands| ==> !keep(cands[i])
    ensures k >= 0 ==> keep(cands[k]) && forall j :: 0 <= j < k ==> !keep(cands[j])
  {
    if |cands| == 0 then -1
    else if keep(cands[0]) then 0
    else
      var k := FirstKept(keep, cands[1..]);
      assert forall i :: 1 <= i < |cands| ==> cands[i] == cands[1..][i - 1];
      if k == -1 then -1 else k + 1
  }

  /** The X-Forwarded-For loop: the first entry naming a global address. */
  function FirstGlobal(lib: Dns.Lib, entries: seq<string>): (r: Option<Dns.IP>)
    ensures r.Some? ==> GlobalIp.IsGlobalIP(r)
    ensures r.None? <==> forall i :: 0 <= i < |entries| ==> !GlobalIp.IsGlobalIP(Candidate(lib, entries[i]))
    ensures r.Some? ==> exists i :: 0 <= i < |entries| && r == Candidate(lib, entries[i])
                                    && forall j :: 0 <= j < i ==> !GlobalIp.IsGlobalIP(Candidate(lib, entries[j]))
  {
    var cands := seq(|entries|, i requires 0 <= i < |entries| => Candidate(lib, entries[i]));
    var k := FirstKept(GlobalIp.IsGlobalIP, cands);
    assert forall j :: 0 <= j < |entries| ==> cands[j] == Candidate(lib, entries[j]);
    if k == -1 then None else cands[k]
  }

  /** The global X-Forwarded-For choice, if the header is present. */
  function ForwardedChoice(lib: Dns.Lib, req: HttpRequest): Option<Dns.IP>
  {
    if req.xForwardedFor == "" then None else FirstGlobal(lib, Text.Split(req.xForwardedFor, ','))
  }

  /** The handler's first step: a non-empty X-Real-IP replaces `RemoteAddr`
      with itself and port 0, bracketed when it holds a colon, or with the
      bare value when that does not split into host and port. */
  function RewrittenRemoteAddr(lib: Dns.Lib, req: HttpRequest): (r: string)
    ensures req.xRealIp == "" ==> r == req.remoteAddr
    ensures req.xRealIp != "" ==> r == req.xRealIp || r == WithZeroPort(req.xRealIp)
    ensures req.xRealIp != "" && lib.splitsHostPort(WithZeroPort(req.xRealIp)) ==> r == WithZeroPort(req.xRealIp)
  {
    if req.xRealIp == "" then req.remoteAddr
    else
      var hostPort := WithZeroPort(req.xRealIp);
      if lib.splitsHostPort(hostPort) then hostPort else req.xRealIp
  }

  /** `host:0`, with the host bracketed when it holds a colon (an IPv6
      literal). */
  function WithZeroPort(host: string): (r: string)
    ensures |r| >= 2 && r[|r| - 2..] == ":0"
    ensures ':' in host ==> |r| == |host| + 4 && r[0] == '[' && r[1..|r| - 3] == host && r[|r| - 3] == ']'
    ensures ':' !in host ==> r[..|r| - 2] == host
  {
    if ':' in host then "[" + host + "]:0" else host + ":0"
  }

  /** The address `findClientIP` falls back to: `net.ResolveTCPAddr` on the
      rewritten `RemoteAddr`. */
  function PeerIP(lib: Dns.Lib, req: HttpRequest): Option<Dns.IP>
  {
    lib.resolveTcp(RewrittenRemoteAddr(lib, req))
  }

  /** `findClientIP`: the client address to report in a synthesised ECS
      option, or None. In order: a case-insensitive `no_ecs=true` suppresses
      it; the first global X-Forwarded-For entry wins whatever the
      configuration; then X-Real-IP, taken as it parses when non-global
      addresses are allowed (so an unparseable value gives None without
      looking further) and otherwise only when global; then the peer address
      under the same rule, which once X-Real-IP is set is X-Real-IP again,
      now resolved rather than parsed. */
  function FindClientIP(allowNonGlobal: bool, lib: Dns.Lib, req: HttpRequest): (r: Option<Dns.IP>)
    ensures Text.EqualFold(req.noEcs, "true") ==> r.None?
    ensures !allowNonGlobal ==> r.None? || GlobalIp.IsGlobalIP(r)
    ensures !Text.EqualFold(req.noEcs, "true") && ForwardedChoice(lib, req).Some? ==>
      r == ForwardedChoice(lib, req)
    ensures
      (&& !Text.EqualFold(req.noEcs, "true") && ForwardedChoice(lib, req).None? && req.xRealIp != ""
       && (allowNonGlobal || GlobalIp.IsGlobalIP(Candidate(lib, req.xRealIp))))
      ==> r == Candidate(lib, req.xRealIp)
    ensures
      (&& !Text.EqualFold(req.noEcs, "true") && ForwardedChoice(lib, req).None?
       && (req.xRealIp == "" || !(allowNonGlobal || GlobalIp.IsGlobalIP(Candidate(lib, req.xRealIp)))))
      ==> r == (if allowNonGlobal || GlobalIp.IsGlobalIP(PeerIP(lib, req)) then PeerIP(lib, req) else None)
  {
    if Text.EqualFold(req.noEcs, "true") then None
    else
      var forwarded := ForwardedChoice(lib, req);
      if forwarded.Some? then forwarded
      else if req.xRealIp != "" && (allowNonGlobal || GlobalIp.IsGlobalIP(Candidate(lib, req.xRealIp))) then
        Candidate(lib, req.xRealIp)
      else if allowNonGlobal || GlobalIp.IsGlobalIP(PeerIP(lib, req)) then PeerIP(lib, req)
      else None
  }

  /** An unparseable X-Real-IP ends the search when non-global addresses are
      allowed, before the resolver is asked; when they are not, the same
      text is resolved after the rewrite and used if global. */
  lemma UnparseableRealIpStops(lib: Dns.Lib, req: HttpRequest)
    requires !Text.EqualFold(req.noEcs, "true") && ForwardedChoice(lib, req).None?
    requires req.xRealIp != "" && Candidate(lib, req.xRealIp).None?
    ensures FindClientIP(true, lib, req).None?
    ensures FindClientIP(false, lib, req) ==
      (if GlobalIp.IsGlobalIP(lib.resolveTcp(RewrittenRemoteAddr(lib, req)))
       then lib.resolveTcp(RewrittenRemoteAddr(lib, req)) else None)
  {
  }

  /** Once X-Real-IP is set, the connection's own peer address is never
      consulted: the result does not depend on `RemoteAddr`. */
  lemma RealIpHidesPeer(allowNonGlobal: bool, lib: Dns.Lib, req: HttpRequest, other: string)
    requires req.xRealIp != ""
    ensures FindClientIP(allowNonGlobal, lib, req) == FindClientIP(allowNonGlobal, lib, req.(remoteAddr := other))
  {
    assert RewrittenRemoteAddr(lib, req) == RewrittenRemoteAddr(lib, req.(remoteAddr := other));
  }

  /** A non-global X-Real-IP literal is not reported when only global
      addresses are allowed, provided the resolver reads the rewritten
      literal as `net.ParseIP` reads it: the fallback resolves the same
      address and rejects it again. */
  lemma NonGlobalRealIpGivesNone(lib: Dns.Lib, req: HttpRequest)
    requires !Text.EqualFold(req.noEcs, "true") && ForwardedChoice(lib, req).None?
    requires req.xRealIp != "" && Text.TrimSpace(req.xRealIp) == req.xRealIp
    requires !GlobalIp.IsGlobalIP(Candidate(lib, req.xRealIp))
    requires lib.resolveTcp(RewrittenRemoteAddr(lib, req)) == lib.parseIP(req.xRealIp)
    ensures FindClientIP(false, lib, req).None?
  {
  }

  /** The RD flag after the loop over `qs`: set as soon as one question names
      the root. */
  function RootPatched(rd: bool, qs: seq<Dns.Question>): (r: bool)
    ensures r <==> rd || exists i :: 0 <= i < |qs| && qs[i].name == "."
    decreases |qs|
  {
    if |qs| == 0 then rd
    else
      var r := RootPatched(rd || qs[0].name == ".", qs[1..]);
      assert forall i :: 1 <= i < |qs| ==> qs[i] == qs[1..][i - 1];
      r
  }

  /** `patchRootRD`: recursion is requested for any query about the root
      name, and nothing else changes. */
  function PatchRootRD(req: DnsRequest): (r: DnsRequest)
    ensures r.request.recursionDesired <==>
      req.request.recursionDesired || exists i :: 0 <= i < |req.request.question| && req.request.question[i].name == "."
    ensures r.request.(recursionDesired := req.request.recursionDesired) == req.request
    ensures r.(request := req.request) == req
  {
    req.(request := req.request.(recursionDesired := RootPatched(req.request.recursionDesired, req.request.question)))
  }

  /** Patching twice is patching once. */
  lemma PatchRootRDIdempotent(req: DnsRequest)
    ensures PatchRootRD(PatchRootRD(req)) == PatchRootRD(req)
  {
  }
}
