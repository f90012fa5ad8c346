/**
 The JSON flavour of the gateway's interface (doh-server/google.go): turning
 the `name`, `type`, `cd` and `edns_client_subnet` parameters into a DNS query
 with one question and one OPT record, and deriving the HTTP status and
 cache headers of a JSON answer.
 */
module Google {

  import opened Types
  import Text
  import Dns
  import JsonDns
  import Request

  const NameMissing: string := "Invalid argument value: \"name\""
  const JsonContentType: string := "application/json; charset=UTF-8"

  /** The `type` parameter: empty means A; a decimal number fitting in 16
      bits (leading zeros allowed) is taken as is; anything else is looked up,
      in upper case, among the type mnemonics. */
  function ParseType(lib: Dns.Lib, s: string): (r: Result<uint16, string>)
    ensures s == "" ==> r == Ok(Dns.TypeA)
    ensures s != "" && Text.AllDigits(s) && Text.DecimalValue(s) <= 0xFFFF ==> r == Ok(Text.DecimalValue(s))
    ensures r.Err? <==> s != "" && !(Text.AllDigits(s) && Text.DecimalValue(s) <= 0xFFFF)
                        && Text.ToUpper(s) !in lib.stringToType
    ensures r.Ok? && s != "" && !(Text.AllDigits(s) && Text.DecimalValue(s) <= 0xFFFF) ==>
      Text.ToUpper(s) in lib.stringToType && r.value == lib.stringToType[Text.ToUpper(s)]
    ensures r.Err? ==> r.error == "Invalid argument value: \"type\" = " + lib.quote(s)
  {
    if s == "" then Ok(Dns.TypeA)
    else match Text.ParseDecimal(s, 0xFFFF)
      case Some(v) => Ok(v)
      case None =>
        var upper := Text.ToUpper(s);
        if upper in lib.stringToType then Ok(lib.stringToType[upper])
        else Err("Invalid argument value: \"type\" = " + lib.quote(s))
  }

  /** Every type code written in decimal reads back as itself, whatever the
      mnemonic table says. */
  lemma ParseTypeDecimal(lib: Dns.Lib, t: uint16)
    ensures ParseType(lib, Text.Decimal(t)) == Ok(t)
  {
    Text.ParseDecimalRoundTrip(t, 0xFFFF);
  }

  /** The `cd` parameter: "1" or any case of "true" set the flag; "0", any
      case of "false" or nothing clear it; anything else is rejected. */
  function ParseCd(lib: Dns.Lib, s: string): (r: Result<bool, string>)
    ensures r == Ok(true) <==> s == "1" || Text.EqualFold(s, "true")
    ensures r == Ok(false) <==> s == "0" || Text.EqualFold(s, "false") || s == ""
    ensures r.Err? ==> r.error == "Invalid argument value: \"cd\" = " + lib.quote(s)
  {
    if s == "1" || Text.EqualFold(s, "true") then Ok(true)
    else if s == "0" || Text.EqualFold(s, "false") || s == "" then Ok(false)
    else Err("Invalid argument value: \"cd\" = " + lib.quote(s))
  }

  /** Case folding follows Unicode: U+017F (long s) folds to `s`, so "falſe"
      clears the flag, while "yes" is rejected. */
  lemma ParseCdExamples(lib: Dns.Lib)
    ensures ParseCd(lib, "TRUE") == Ok(true) && ParseCd(lib, "True") == Ok(true)
    ensures ParseCd(lib, "falſe") == Ok(false)
    ensures ParseCd(lib, "yes").Err?
  {
    assert Text.FoldsTo('T', 't') && Text.FoldsTo('R', 'r') && Text.FoldsTo('U', 'u') && Text.FoldsTo('E', 'e');
    assert Text.EqualFold("falſe", "false");
    assert !Text.EqualFold("yes", "true") && !Text.EqualFold("yes", "false");
  }

  /** An ECS prefix as the parser settles it: address family (1 IPv4, 2
      IPv6), address (four bytes for IPv4), source prefix length. */
  datatype ClientSubnet = ClientSubnet(family: uint16, address: Dns.IP, netmask: uint8)

  /** Family and address of a parsed address: IPv4, including the
      IPv4-mapped IPv6 form, becomes family 1 with four bytes. */
  function Classify(ip: Dns.IP): (r: (uint16, Dns.IP))
    ensures r.0 == 1 <==> Dns.To4(ip).Some?
    ensures r.0 == 1 || r.0 == 2
    ensures r.0 == 1 ==> |r.1| == 4 && r.1 == Dns.To4(ip).value
    ensures r.0 == 2 ==> r.1 == ip
  {
    match Dns.To4(ip)
    case Some(v4) => (1, v4)
    case None => (2, ip)
  }

  /** The address part of an `edns_client_subnet` value: before the first
      '/', or all of it. */
  function AddressPart(s: string): string
  {
    var slash := Text.IndexOf(s, '/');
    if slash < 0 then s else s[..slash]
  }

  /** The prefix-length part: after the first '/'. */
  function MaskPart(s: string): string
  {
    var slash := Text.IndexOf(s, '/');
    if slash < 0 then "" else s[slash + 1..]
  }

  /** The two parts lose nothing and split at the first slash. */
  lemma SubnetParts(s: string)
    ensures '/' !in AddressPart(s)
    ensures '/' in s ==> s == AddressPart(s) + "/" + MaskPart(s)
    ensures '/' !in s ==> AddressPart(s) == s
  {
    var slash := Text.IndexOf(s, '/');
    if slash >= 0 {
      assert s == s[..slash] + [s[slash]] + s[slash + 1..];
    }
  }

  function SubnetError(lib: Dns.Lib, s: string): string
  {
    "invalid argument value: \"edns_client_subnet\" = " + lib.quote(s)
  }

  /** `parseSubnet`. Without a slash the address alone is given and the
      prefix length defaults to 24 for IPv4 and 56 for IPv6. With a slash the
      prefix length is any decimal from 0 to 255, not checked against the
      family. An address that does not parse, or a prefix length that is not
      such a decimal, is an error. */
  function ParseSubnet(lib: Dns.Lib, s: string): (r: Result<ClientSubnet, string>)
    ensures r.Err? ==> r.error == SubnetError(lib, s)
    ensures r.Ok? ==> lib.parseIP(AddressPart(s)).Some?
                      && (r.value.family, r.value.address) == Classify(lib.parseIP(AddressPart(s)).value)
    ensures '/' !in s ==> (r.Ok? <==> lib.parseIP(s).Some?)
    ensures '/' !in s && r.Ok? ==> r.value.netmask == (if r.value.family == 1 then 24 else 56)
    ensures '/' in s ==>
      (r.Ok? <==> lib.parseIP(AddressPart(s)).Some? && Text.ParseDecimal(MaskPart(s), 0xFF).Some?)
    ensures '/' in s && r.Ok? ==> r.value.netmask == Text.ParseDecimal(MaskPart(s), 0xFF).value
  {
    var slash := Text.IndexOf(s, '/');
    if slash < 0 then
      match lib.parseIP(s)
      case None => Err(SubnetError(lib, s))
      case Some(ip) =>
        var (family, address) := Classify(ip);
        Ok(ClientSubnet(family, address, if family == 1 then 24 else 56))
    else
      match lib.parseIP(s[..slash])
      case None => Err(SubnetError(lib, s))
      case Some(ip) =>
        var (family, address) := Classify(ip);
        match Text.ParseDecimal(s[slash + 1..], 0xFF)
        case None => Err(SubnetError(lib, s))
        case Some(mask) => Ok(ClientSubnet(family, address, mask))
  }

  /** Any prefix length up to 255 is accepted for either family, /33 on IPv4
      and /129 on IPv6 included. */
  lemma ParseSubnetMaskUnchecked(lib: Dns.Lib, a: string, m: nat)
    requires '/' !in a && lib.parseIP(a).Some? && m <= 0xFF
    ensures ParseSubnet(lib, a + "/" + Text.Decimal(m)).Ok?
    ensures ParseSubnet(lib, a + "/" + Text.Decimal(m)).value.netmask == m
    ensures var v := ParseSubnet(lib, a + "/" + Text.Decimal(m)).value;
      (v.family, v.address) == Classify(lib.parseIP(a).value)
  {
    var s := a + "/" + Text.Decimal(m);
    assert '/' in s by { assert s[|a|] == '/'; }
    assert Text.IndexOf(s, '/') == |a| by {
      assert s[|a|] == '/' && s[..|a|] == a;
    }
    assert AddressPart(s) == a;
    assert MaskPart(s) == Text.Decimal(m);
    Text.ParseDecimalRoundTrip(m, 0xFF);
  }

  /** An address that does not parse fails with or without a prefix length;
      a prefix length above 255 fails whatever the address. */
  lemma ParseSubnetRejects(lib: Dns.Lib, a: string, rest: string, m: nat)
    requires '/' !in a && m > 0xFF
    ensures lib.parseIP(a).None? ==> ParseSubnet(lib, a).Err? && ParseSubnet(lib, a + "/" + rest).Err?
    ensures ParseSubnet(lib, a + "/" + Text.Decimal(m)).Err?
  {
    var s := a + "/" + rest;
    assert s[|a|] == '/' && s[..|a|] == a;
    assert AddressPart(s) == a;
    var t := a + "/" + Text.Decimal(m);
    assert t[|a|] == '/' && t[..|a|] == a;
    assert MaskPart(t) == Text.Decimal(m);
    Text.DecimalValueOfDecimal(m);
  }

  /** The parameter value used when it is given: "0/0" is read as
      "0.0.0.0/0". */
  function EcsParameter(ecs: string): string
  {
    if ecs == "0/0" then "0.0.0.0/0" else ecs
  }

  /** The subnet synthesised from the client's own address: /24 for IPv4,
      /56 for IPv6, nothing without an address. */
  function Synthesised(client: Option<Dns.IP>): (r: Option<ClientSubnet>)
    ensures r.Some? <==> client.Some?
    ensures r.Some? ==> (r.value.family, r.value.address) == Classify(client.value)
    ensures r.Some? ==> r.value.netmask == (if r.value.family == 1 then 24 else 56)
  {
    match client
    case None => None
    case Some(ip) =>
      var (family, address) := Classify(ip);
      Some(ClientSubnet(family, address, if family == 1 then 24 else 56))
  }

  /** The subnet to send: the parameter's when given, else the client's. */
  function EcsChoice(lib: Dns.Lib, allowNonGlobal: bool, req: Request.HttpRequest): (r: Result<Option<ClientSubnet>, string>)
    ensures req.ecs != "" ==> (r.Ok? <==> ParseSubnet(lib, EcsParameter(req.ecs)).Ok?)
    ensures req.ecs != "" && r.Ok? ==> r.value == Some(ParseSubnet(lib, EcsParameter(req.ecs)).value)
    ensures req.ecs != "" && r.Err? ==> r.error == SubnetError(lib, EcsParameter(req.ecs))
    ensures req.ecs == "" ==> r == Ok(Synthesised(Request.FindClientIP(allowNonGlobal, lib, req)))
  {
    if req.ecs != "" then
      match ParseSubnet(lib, EcsParameter(req.ecs))
      case Err(e) => Err(e)
      case Ok(subnet) => Ok(Some(subnet))
    else Ok(Synthesised(Request.FindClientIP(allowNonGlobal, lib, req)))
  }

  /** The OPT record of every JSON-built query: owner ".", UDP payload size
      4096 in the class field, the DO bit in the TTL field, and the ECS option
      when there is a subnet, with scope 0. */
  function OptRecord(subnet: Option<ClientSubnet>): (r: Dns.RR)
    ensures r.IsOpt() && r.name == "." && r.rrclass == Dns.DefaultMsgSize
    ensures r.ttl == Dns.DoBit
    ensures subnet.None? ==> r.options == []
    ensures subnet.Some? ==> r.options == [Dns.Subnet(subnet.value.family, subnet.value.netmask, 0, Some(subnet.value.address))]
  {
    var options := match subnet
      case None => []
      case Some(s) => [Dns.Subnet(s.family, s.netmask, 0, Some(s.address))];
    Dns.RR(".", Dns.TypeOPT, Dns.DefaultMsgSize, Dns.DoBit, [], options)
  }

  /** The query `SetQuestion` and the OPT record make: recursion desired,
      one question of class IN, CD as requested, one OPT record. */
  function BuildQuery(lib: Dns.Lib, name: string, qtype: uint16, cd: bool, subnet: Option<ClientSubnet>): (q: Dns.Msg)
    ensures q.question == [Dns.Question(lib.fqdn(name), qtype, Dns.ClassINET)]
    ensures q.recursionDesired && q.checkingDisabled == cd && !q.truncated
    ensures q.answer == [] && q.ns == [] && q.extra == [OptRecord(subnet)]
  {
    Dns.Msg(0, false, true, false, false, cd,
      [Dns.Question(lib.fqdn(name), qtype, Dns.ClassINET)], [], [], [OptRecord(subnet)])
  }

  /** `parseRequestGoogle`: the checks run in the order name, its IDNA
      conversion, type, cd, subnet, and the first failure is answered with
      status 400. The request is tailored exactly when no
      `edns_client_subnet` parameter was given; the subnet is then the
      client's, if there is a client address. */
  function ParseRequestGoogle(lib: Dns.Lib, allowNonGlobal: bool, req: Request.HttpRequest): (r: Result<Request.DnsRequest, Request.HttpError>)
    ensures r.Err? ==> r.error.code == 400
    ensures req.name == "" ==> r == Err(Request.HttpError(400, NameMissing))
    ensures req.name != "" && lib.toAscii(req.name).Err? ==>
      r == Err(Request.HttpError(400, "Invalid argument value: \"name\" = " + lib.quote(req.name)
                                       + " (" + lib.toAscii(req.name).error + ")"))
    ensures req.name != "" && lib.toAscii(req.name).Ok? && ParseType(lib, req.rrtype).Err? ==>
      r == Err(Request.HttpError(400, ParseType(lib, req.rrtype).error))
    ensures req.name != "" && lib.toAscii(req.name).Ok? && ParseType(lib, req.rrtype).Ok?
            && ParseCd(lib, req.cd).Err? ==>
      r == Err(Request.HttpError(400, ParseCd(lib, req.cd).error))
    ensures req.name != "" && lib.toAscii(req.name).Ok? && ParseType(lib, req.rrtype).Ok?
            && ParseCd(lib, req.cd).Ok? && EcsChoice(lib, allowNonGlobal, req).Err? ==>
      r == Err(Request.HttpError(400, EcsChoice(lib, allowNonGlobal, req).error))
    ensures r.Ok? <==>
      && req.name != "" && lib.toAscii(req.name).Ok?
      && ParseType(lib, req.rrtype).Ok? && ParseCd(lib, req.cd).Ok?
      && EcsChoice(lib, allowNonGlobal, req).Ok?
    ensures r.Ok? ==>
      var q := r.value.request;
      && q.question == [Dns.Question(lib.fqdn(lib.toAscii(req.name).value), ParseType(lib, req.rrtype).value, Dns.ClassINET)]
      && q.recursionDesired
      && q.checkingDisabled == ParseCd(lib, req.cd).value
      && q.extra == [OptRecord(EcsChoice(lib, allowNonGlobal, req).value)]
    ensures r.Ok? ==> (r.value.isTailored <==> req.ecs == "")
    ensures r.Ok? ==> r.value.response.None? && !r.value.fromCache
  {
    if req.name == "" then Err(Request.HttpError(400, NameMissing))
    else match lib.toAscii(req.name)
      case Err(e) =>
        Err(Request.HttpError(400, "Invalid argument value: \"name\" = " + lib.quote(req.name) + " (" + e + ")"))
      case Ok(punycode) =>
        match ParseType(lib, req.rrtype)
        case Err(e) => Err(Request.HttpError(400, e))
        case Ok(qtype) =>
          match ParseCd(lib, req.cd)
          case Err(e) => Err(Request.HttpError(400, e))
          case Ok(cd) =>
            match EcsChoice(lib, allowNonGlobal, req)
            case Err(e) => Err(Request.HttpError(400, e))
            case Ok(subnet) =>
              Ok(Request.NewRequest(BuildQuery(lib, punycode, qtype, cd, subnet), req.ecs == ""))
  }

  /** "0.0.0.0/0" is a zero-length IPv4 prefix. */
  lemma ZeroSubnet(lib: Dns.Lib)
    requires lib.parseIP("0.0.0.0").Some? && Dns.To4(lib.parseIP("0.0.0.0").value) == Some([0, 0, 0, 0])
    ensures ParseSubnet(lib, "0.0.0.0/0") == Ok(ClientSubnet(1, [0, 0, 0, 0], 0))
  {
    assert Text.Decimal(0) == "0";
    assert "0.0.0.0" + "/" + "0" == "0.0.0.0/0";
    ParseSubnetMaskUnchecked(lib, "0.0.0.0", 0);
    assert Dns.To4([0, 0, 0, 0]) == Some([0, 0, 0, 0]);
  }

  /** An explicit "0/0" asks for no client information: a zero-length IPv4
      prefix is sent, and the answer is not tailored to the client. */
  lemma ZeroSubnetParameter(lib: Dns.Lib, allowNonGlobal: bool, req: Request.HttpRequest)
    requires req.ecs == "0/0"
    requires lib.parseIP("0.0.0.0").Some? && Dns.To4(lib.parseIP("0.0.0.0").value) == Some([0, 0, 0, 0])
    ensures EcsChoice(lib, allowNonGlobal, req) == Ok(Some(ClientSubnet(1, [0, 0, 0, 0], 0)))
    ensures ParseRequestGoogle(lib, allowNonGlobal, req).Ok? ==> !ParseRequestGoogle(lib, allowNonGlobal, req).value.isTailored
  {
    ZeroSubnet(lib);
  }

  /** The status and headers `generateResponseGoogle` writes. */
  datatype Reply = Reply(status: int, headers: map<string, string>)

  /** The `Cache-Control` value for a least TTL. */
  function CacheControl(isTailored: bool, leastTtl: nat): string
  {
    (if isTailored then "private" else "public") + ", max-age=" + Text.Decimal(leastTtl)
  }

  /** The max-age is the least TTL, and a cache may share the answer exactly
      when it was not tailored to the client. */
  lemma CacheControlReadsBack(isTailored: bool, leastTtl: nat)
    ensures var v := CacheControl(isTailored, leastTtl);
      var prefix := if isTailored then "private, max-age=" else "public, max-age=";
      && prefix <= v
      && Text.ParseDecimal(v[|prefix|..], leastTtl) == Some(leastTtl)
      && (v[0] == 'p' && v[1] == 'r' <==> isTailored)
  {
    var v := CacheControl(isTailored, leastTtl);
    var prefix := if isTailored then "private, max-age=" else "public, max-age=";
    assert v == prefix + Text.Decimal(leastTtl);
    assert v[|prefix|..] == Text.Decimal(leastTtl);
    Text.ParseDecimalRoundTrip(leastTtl, leastTtl);
  }

  /** The status and headers of a JSON answer: the content type; a
      `Cache-Control` and `Expires` pair exactly when the answer has a TTL;
      503 exactly for SERVFAIL; and the cache status, which is set after the
      status line and so is only sent when the status is not 503. `date`
      formats a time as an HTTP date. */
  function GoogleReply(resp: JsonDns.Response, isTailored: bool, fromCache: bool,
                       now: nat, date: nat -> string): (r: Reply)
    ensures r.status == (if resp.status == Dns.RcodeServerFailure then 503 else 200)
    ensures "Content-Type" in r.headers && r.headers["Content-Type"] == JsonContentType
    ensures "Date" in r.headers && r.headers["Date"] == date(now)
    ensures "Last-Modified" in r.headers && r.headers["Last-Modified"] == date(now)
    ensures "Vary" in r.headers && r.headers["Vary"] == "Accept"
    ensures r.headers.Keys <= {"Content-Type", "Date", "Last-Modified", "Vary", "Cache-Control", "Expires", "X-Cache-Status"}
    ensures ("Cache-Control" in r.headers <==> resp.haveTTL) && ("Expires" in r.headers <==> resp.haveTTL)
    ensures resp.haveTTL ==> r.headers["Cache-Control"] == CacheControl(isTailored, resp.leastTTL)
                             && r.headers["Expires"] == date(resp.earliestExpires)
    ensures "X-Cache-Status" in r.headers <==> r.status != 503
    ensures "X-Cache-Status" in r.headers ==> (r.headers["X-Cache-Status"] == "HIT" <==> fromCache)
  {
    var base := map[
      "Content-Type" := JsonContentType,
      "Date" := date(now),
      "Last-Modified" := date(now),
      "Vary" := "Accept"];
    var cached := if resp.haveTTL then
      base["Cache-Control" := CacheControl(isTailored, resp.leastTTL)]["Expires" := date(resp.earliestExpires)]
    else base;
    if resp.status == Dns.RcodeServerFailure then Reply(503, cached)
    else Reply(200, cached["X-Cache-Status" := if fromCache then "HIT" else "MISS"])
  }
}
