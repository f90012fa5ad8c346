/**
 The JSON view of a DNS response (json-dns/response.go) and its projection
 from a DNS message (json-dns/marshal.go): header flags and response code, the
 question list, the three record sections rendered as name/type/TTL/data, the
 EDNS Client Subnet string, and the least TTL from which the HTTP cache
 headers are later derived. Time is a number of seconds.
 */
module JsonDns {

  import opened Types
  import Dns
  import Text

  /** `jsondns.Question`: a name with its trailing dot and an RR type. */
  datatype Question = Question(name: string, qtype: uint16)

  /** `jsondns.RR`: a record as JSON, with its absolute expiry time (not
      serialised) and that time as RFC 1123 text (the JSON `Expires`). */
  datatype RR = RR(name: string, rrtype: uint16, ttl: uint32, expires: nat, expiresText: string, data: string)

  /** `jsondns.Response`. The last three fields are not serialised; they carry
      the least TTL over all records to the HTTP layer. */
  datatype Response = Response(
    status: bv32,
    tc: bool,
    rd: bool,
    ra: bool,
    ad: bool,
    cd: bool,
    question: seq<Question>,
    answer: seq<RR>,
    authority: seq<RR>,
    additional: seq<RR>,
    comment: string,
    ednsClientSubnet: string,
    haveTTL: bool,
    leastTTL: uint32,
    earliestExpires: nat)

  const Tab: char := '\t'

  /** The data of a record's presentation text: the fifth tab-separated
      field together with everything after it, or "" when there are fewer
      than five fields. */
  function RecordData(text: string): (data: string)
    ensures |Text.Split(text, Tab)| < 5 ==> data == ""
    ensures |Text.Split(text, Tab)| >= 5 ==>
      text == Text.Join(Text.Split(text, Tab)[..4], Tab) + [Tab] + data
  {
    var fields := Text.SplitN(text, Tab, 5);
    if |fields| >= 5 then
      Text.JoinSplitN(text, Tab, 5);
      Text.JoinAt(fields, Tab, 4);
      assert fields[..4] == Text.Split(text, Tab)[..4];
      assert fields[4..] == [fields[4]];
      fields[4]
    else
      ""
  }

  /** `marshalRR`: name, type and TTL copied, expiry `now + TTL` with its
      RFC 1123 text, and the data of the record's presentation text. */
  function MarshalRR(lib: Dns.Lib, rr: Dns.RR, now: nat): (r: RR)
    ensures r.name == rr.name && r.rrtype == rr.rrtype && r.ttl == rr.ttl as int
    ensures r.expires == now + rr.ttl as nat && r.expiresText == lib.rfc1123(r.expires)
    ensures |Text.Split(lib.present(rr), Tab)| < 5 ==> r.data == ""
    ensures |Text.Split(lib.present(rr), Tab)| >= 5 ==>
      lib.present(rr) == Text.Join(Text.Split(lib.present(rr), Tab)[..4], Tab) + [Tab] + r.data
  {
    var expires := now + rr.ttl as nat;
    RR(rr.name, rr.rrtype, rr.ttl as uint32, expires, lib.rfc1123(expires), RecordData(lib.present(rr)))
  }

  function MarshalAll(lib: Dns.Lib, rrs: seq<Dns.RR>, now: nat): (r: seq<RR>)
    ensures |r| == |rrs|
    ensures forall i :: 0 <= i < |rrs| ==> r[i] == MarshalRR(lib, rrs[i], now)
  {
    seq(|rrs|, i requires 0 <= i < |rrs| => MarshalRR(lib, rrs[i], now))
  }

  /** The records of a section that are not OPT pseudo-records, in order. */
  function NonOpt(rrs: seq<Dns.RR>): (r: seq<Dns.RR>)
    ensures |r| <= |rrs|
    ensures forall i :: 0 <= i < |r| ==> !r[i].IsOpt()
    ensures (forall i :: 0 <= i < |rrs| ==> !rrs[i].IsOpt()) ==> r == rrs
  {
    if |rrs| == 0 then []
    else (if rrs[0].IsOpt() then [] else [rrs[0]]) + NonOpt(rrs[1..])
  }

  /** Dropping OPT records commutes with concatenation, so the order of the
      other records is kept. */
  lemma {:induction false} NonOptAppend(a: seq<Dns.RR>, b: seq<Dns.RR>)
    ensures NonOpt(a + b) == NonOpt(a) + NonOpt(b)
  {
    if |a| == 0 {
      assert a + b == b;
    } else {
      assert (a + b)[0] == a[0];
      assert (a + b)[1..] == a[1..] + b;
      NonOptAppend(a[1..], b);
    }
  }

  /** Exactly the records that are not OPT are kept: none is dropped or
      invented. */
  lemma {:induction false} NonOptMembers(rrs: seq<Dns.RR>, x: Dns.RR)
    ensures x in NonOpt(rrs) <==> x in rrs && !x.IsOpt()
  {
    if |rrs| > 0 {
      NonOptMembers(rrs[1..], x);
      assert rrs == [rrs[0]] + rrs[1..];
    }
  }

  /** The running minimum kept by `Marshal`'s three loops. */
  datatype LeastTtl = LeastTtl(have: bool, least: uint32, expires: nat)

  const NoTtl := LeastTtl(false, 0, 0)

  /** One loop step: take the record when nothing is held yet or its TTL is
      strictly smaller. */
  function TtlStep(acc: LeastTtl, rr: RR): LeastTtl
  {
    if !acc.have || rr.ttl < acc.least then LeastTtl(true, rr.ttl, rr.expires) else acc
  }

  /** The loops over a list of records: the result is the least TTL seen,
      attained by one of them (or the starting value). */
  function FoldTtl(acc: LeastTtl, rrs: seq<RR>): (r: LeastTtl)
    ensures r.have <==> acc.have || |rrs| > 0
    ensures !r.have ==> r == acc
    ensures acc.have ==> r.least <= acc.least
    ensures forall i :: 0 <= i < |rrs| ==> r.least <= rrs[i].ttl
    ensures r.have ==> r == acc || exists i :: 0 <= i < |rrs| && r.least == rrs[i].ttl && r.expires == rrs[i].expires
    decreases |rrs|
  {
    if |rrs| == 0 then acc
    else
      var step := TtlStep(acc, rrs[0]);
      var rest := rrs[1..];
      var r := FoldTtl(step, rest);
      assert forall i :: 1 <= i < |rrs| ==> rrs[i] == rest[i - 1];
      assert r != step ==> exists i :: 1 <= i < |rrs| && r.least == rrs[i].ttl && r.expires == rrs[i].expires by {
        if r != step {
          var k :| 0 <= k < |rest| && r.least == rest[k].ttl && r.expires == rest[k].expires;
          assert rest[k] == rrs[k + 1];
        }
      }
      r
  }

  /** The extended response code of section 6.1.3 of RFC 6891 as `Marshal`
      computes it: the OPT TTL's top byte shifted to bits 4..11, or-ed with
      the low byte of the status so far. */
  function ExtendStatus(optTtl: bv32, status: bv32): (r: bv32)
    ensures r < 0x1000
    ensures r & 0xf == status & 0xf
    ensures r >> 8 == optTtl >> 28
    ensures (r >> 4) & 0xf == ((optTtl >> 24) | (status >> 4)) & 0xf
  {
    ((optTtl & 0xff00_0000) >> 20) | (status & 0xff)
  }

  /** With a four-bit header RCODE, the result is exactly RFC 6891's twelve-bit
      code: upper eight bits from the OPT record, lower four from the header. */
  lemma ExtendedRcode(optTtl: bv32, rcode: bv32)
    requires rcode < 16
    ensures ExtendStatus(optTtl, rcode) as int == (optTtl >> 24) as int * 16 + rcode as int
  {
  }

  /** The status after the loop over the additional section: each OPT record
      in turn extends it. */
  function OptStatus(status: bv32, extra: seq<Dns.RR>): (r: bv32)
    decreases |extra|
    ensures (forall i :: 0 <= i < |extra| ==> !extra[i].IsOpt()) ==> r == status
    ensures (exists i :: 0 <= i < |extra| && extra[i].IsOpt()) ==> r < 0x1000
    ensures status < 0x1000 ==> r < 0x1000
  {
    if |extra| == 0 then status
    else
      var s := if extra[0].IsOpt() then ExtendStatus(extra[0].ttl, status) else status;
      var r := OptStatus(s, extra[1..]);
      assert forall i :: 1 <= i < |extra| ==> extra[i] == extra[1..][i - 1];
      r
  }

  /** With a single OPT record the status is that record's extension of the
      header code. */
  lemma {:induction false} SingleOptStatus(status: bv32, extra: seq<Dns.RR>, j: nat)
    requires j < |extra| && extra[j].IsOpt()
    requires forall i :: 0 <= i < |extra| && i != j ==> !extra[i].IsOpt()
    ensures OptStatus(status, extra) == ExtendStatus(extra[j].ttl, status)
  {
    if j == 0 {
      assert forall i :: 0 <= i < |extra[1..]| ==> extra[1..][i] == extra[i + 1];
    } else {
      assert !extra[0].IsOpt();
      assert forall i :: 0 <= i < |extra[1..]| ==> extra[1..][i] == extra[i + 1];
      SingleOptStatus(status, extra[1..], j - 1);
    }
  }

  /** The `edns_client_subnet` text of one ECS option: the address (0.0.0.0
      when absent, four-byte form for IPv4), a slash, and the decimal scope
      prefix length. */
  function EcsText(lib: Dns.Lib, o: Dns.EdnsOption): string
    requires o.Subnet?
  {
    var address: Dns.IP :=
      match o.address
      case None => [0, 0, 0, 0]
      case Some(a) => (match Dns.To4(a) case Some(v4) => v4 case None => a);
    Dns.IPString(lib, address) + "/" + Text.Decimal(o.sourceScope)
  }

  /** The text reports the scope, never the source prefix length; an absent
      address reads as 0.0.0.0, and an IPv4-mapped address as its IPv4 form. */
  lemma EcsTextFacts(lib: Dns.Lib, o: Dns.EdnsOption, netmask: uint8, v4: Dns.IP)
    requires o.Subnet? && |v4| == 4
    ensures EcsText(lib, o.(sourceNetmask := netmask)) == EcsText(lib, o)
    ensures o.address.None? ==> EcsText(lib, o) == "0.0.0.0/" + Text.Decimal(o.sourceScope)
    ensures EcsText(lib, o.(address := Some(Dns.V4InV6Prefix + v4)))
         == EcsText(lib, o.(address := Some(v4)))
    ensures EcsText(lib, o.(address := Some(v4))) == Dns.DottedQuad(v4) + "/" + Text.Decimal(o.sourceScope)
  {
    var m: Dns.IP := Dns.V4InV6Prefix + v4;
    assert m[..12] == Dns.V4InV6Prefix;
    assert m[12..] == v4;
  }

  /** The ECS options among an OPT record's options, in order. */
  function SubnetsIn(opts: seq<Dns.EdnsOption>): (r: seq<Dns.EdnsOption>)
    ensures forall i :: 0 <= i < |r| ==> r[i].Subnet?
  {
    if |opts| == 0 then []
    else (if opts[0].Subnet? then [opts[0]] else []) + SubnetsIn(opts[1..])
  }

  /** The ECS options of all OPT records of a section, in order. */
  function Subnets(extra: seq<Dns.RR>): (r: seq<Dns.EdnsOption>)
    ensures forall i :: 0 <= i < |r| ==> r[i].Subnet?
  {
    if |extra| == 0 then []
    else (if extra[0].IsOpt() then SubnetsIn(extra[0].options) else []) + Subnets(extra[1..])
  }

  /** The text of the last ECS option of `subs`, or `cur` if there is none. */
  function LastEcs(lib: Dns.Lib, cur: string, subs: seq<Dns.EdnsOption>): string
    requires forall i :: 0 <= i < |subs| ==> subs[i].Subnet?
  {
    if |subs| == 0 then cur else EcsText(lib, subs[|subs| - 1])
  }

  /** The inner loop over one OPT record's options. */
  function EcsOptions(lib: Dns.Lib, cur: string, opts: seq<Dns.EdnsOption>): (r: string)
    decreases |opts|
    ensures r == LastEcs(lib, cur, SubnetsIn(opts))
  {
    if |opts| == 0 then cur
    else
      var next := if opts[0].Subnet? then EcsText(lib, opts[0]) else cur;
      var r := EcsOptions(lib, next, opts[1..]);
      var head := if opts[0].Subnet? then [opts[0]] else [];
      var rest := SubnetsIn(opts[1..]);
      assert SubnetsIn(opts) == head + rest;
      assert |rest| > 0 ==> (head + rest)[|head + rest| - 1] == rest[|rest| - 1];
      r
  }

  /** The outer loop over the additional section. */
  function EcsFold(lib: Dns.Lib, cur: string, extra: seq<Dns.RR>): string
    decreases |extra|
  {
    if |extra| == 0 then cur
    else
      var next := if extra[0].IsOpt() then EcsOptions(lib, cur, extra[0].options) else cur;
      EcsFold(lib, next, extra[1..])
  }

  /** The last ECS option wins, across all OPT records. */
  lemma {:induction false} EcsFoldLastWins(lib: Dns.Lib, cur: string, extra: seq<Dns.RR>)
    ensures EcsFold(lib, cur, extra) == LastEcs(lib, cur, Subnets(extra))
    decreases |extra|
  {
    if |extra| > 0 {
      var here := if extra[0].IsOpt() then SubnetsIn(extra[0].options) else [];
      var next := LastEcs(lib, cur, here);
      EcsFoldLastWins(lib, next, extra[1..]);
      assert Subnets(extra) == here + Subnets(extra[1..]);
      var rest := Subnets(extra[1..]);
      if |rest| > 0 {
        assert (here + rest)[|here + rest| - 1] == rest[|rest| - 1];
      }
    }
  }

  /** The least TTL over a list of records, as `Marshal`'s loops find it
      once the records are rendered at time `now`. */
  function LeastTtlOf(lib: Dns.Lib, rrs: seq<Dns.RR>, now: nat): (r: LeastTtl)
    ensures r.have <==> |rrs| > 0
    ensures forall i :: 0 <= i < |rrs| ==> r.least <= rrs[i].ttl as int
    ensures r.have ==> exists i :: 0 <= i < |rrs| && r.least == rrs[i].ttl as int
    ensures r.have ==> r.expires == now + r.least
    ensures !r.have ==> r == NoTtl
  {
    var rendered := MarshalAll(lib, rrs, now);
    var r := FoldTtl(NoTtl, rendered);
    assert forall i :: 0 <= i < |rrs| ==> rendered[i].ttl == rrs[i].ttl as int;
    r
  }

  /** `Marshal`: the JSON projection of a DNS message at time `now`. The
      three loops over answer, authority and additional records share one
      running minimum, so the least TTL is taken over their concatenation. */
  function Marshal(lib: Dns.Lib, msg: Dns.Msg, now: nat): (r: Response)
    ensures r.tc == msg.truncated && r.rd == msg.recursionDesired && r.ra == msg.recursionAvailable
    ensures r.ad == msg.authenticatedData && r.cd == msg.checkingDisabled
    ensures |r.question| == |msg.question|
    ensures forall i :: 0 <= i < |msg.question| ==>
      r.question[i] == Question(msg.question[i].name, msg.question[i].qtype)
    ensures r.answer == MarshalAll(lib, msg.answer, now)
    ensures r.authority == MarshalAll(lib, msg.ns, now)
    ensures r.additional == MarshalAll(lib, NonOpt(msg.extra), now)
    ensures r.status == OptStatus(msg.rcode, msg.extra)
    ensures LeastTtl(r.haveTTL, r.leastTTL, r.earliestExpires)
         == LeastTtlOf(lib, msg.answer + msg.ns + NonOpt(msg.extra), now)
    ensures r.ednsClientSubnet == LastEcs(lib, "", Subnets(msg.extra))
    ensures r.comment == ""
  {
    var question := seq(|msg.question|, i requires 0 <= i < |msg.question| =>
      Question(msg.question[i].name, msg.question[i].qtype));
    var least := LeastTtlOf(lib, msg.answer + msg.ns + NonOpt(msg.extra), now);
    EcsFoldLastWins(lib, "", msg.extra);
    Response(
      OptStatus(msg.rcode, msg.extra),
      msg.truncated, msg.recursionDesired, msg.recursionAvailable,
      msg.authenticatedData, msg.checkingDisabled,
      question, MarshalAll(lib, msg.answer, now), MarshalAll(lib, msg.ns, now), MarshalAll(lib, NonOpt(msg.extra), now),
      "", EcsFold(lib, "", msg.extra),
      least.have, least.least, least.expires)
  }

  /** The status is the header RCODE unless the additional section holds an
      OPT record, and then an extended RCODE below 4096; without OPT records
      the additional section is passed through whole. */
  lemma MarshalStatus(lib: Dns.Lib, msg: Dns.Msg, now: nat)
    ensures var r := Marshal(lib, msg, now);
      && ((forall i :: 0 <= i < |msg.extra| ==> !msg.extra[i].IsOpt()) ==>
            r.status == msg.rcode && |r.additional| == |msg.extra|)
      && ((exists i :: 0 <= i < |msg.extra| && msg.extra[i].IsOpt()) ==> r.status < 0x1000)
  {
  }

  /** The byte `[`. */
  const OpenBracket: byte := 0x5B

  /** What decoding into a `QuestionList` leaves behind: the list and the
      error, if any. */
  datatype Decoded = Decoded(list: seq<Question>, err: Option<string>)

  /** `QuestionList.UnmarshalJSON`: only the first byte is inspected. A `[`
      selects the list decoder, which decodes into the receiver as it is (so
      a syntax error leaves it unchanged and existing elements can be
      reused), and whose outcome is taken as is; anything else,
      the empty input included, is decoded as one question, which on success
      becomes a one-element list and on failure leaves the receiver as it
      was. `decodeList` and `decodeOne` are `encoding/json`. */
  function UnmarshalQuestionList(
    b: seq<byte>, current: seq<Question>,
    decodeList: (seq<byte>, seq<Question>) -> Decoded,
    decodeOne: seq<byte> -> Result<Question, string>): (r: Decoded)
    ensures |b| > 0 && b[0] == OpenBracket ==> r == decodeList(b, current)
    ensures !(|b| > 0 && b[0] == OpenBracket) ==>
      match decodeOne(b)
      case Ok(q) => r.list == [q] && r.err.None?
      case Err(e) => r.list == current && r.err == Some(e)
  {
    if |b| > 0 && b[0] == OpenBracket then decodeList(b, current)
    else
      match decodeOne(b)
      case Err(e) => Decoded(current, Some(e))
      case Ok(q) => Decoded([q], None)
  }

  /** White space before `[` is not skipped: such input takes the
      single-object path and can never yield more than one question. */
  lemma LeadingSpaceIsSingle(
    b: seq<byte>, current: seq<Question>,
    decodeList: (seq<byte>, seq<Question>) -> Decoded,
    decodeOne: seq<byte> -> Result<Question, string>)
    requires |b| > 1 && b[0] == 0x20 && b[1] == OpenBracket
    requires |current| <= 1
    ensures |UnmarshalQuestionList(b, current, decodeList, decodeOne).list| <= 1
  {
  }
}
