/**
 The DNS message shapes the gateway handles (the subset of miekg/dns's `Msg`,
 `Question`, `RR`, `OPT` and `EDNS0_SUBNET` it reads or writes), `net.IP`, and
 the library calls the gateway makes but does not implement, gathered into one
 value of oracles so that every operation states which of them it depends on.
 */
module Dns {

  import opened Types
  import Text

  const TypeA: uint16 := 1
  const TypeOPT: uint16 := 41
  const TypeAXFR: uint16 := 252
  const ClassINET: uint16 := 1
  const RcodeServerFailure: bv32 := 2
  /** `dns.DefaultMsgSize`, the UDP payload size advertised in the OPT record. */
  const DefaultMsgSize: uint16 := 4096
  /** `dns.EDNS0SUBNET`, the option code of EDNS Client Subnet. */
  const Edns0Subnet: uint16 := 8
  /** The DO ("DNSSEC OK") bit inside an OPT record's TTL field. */
  const DoBit: bv32 := 0x8000

  /** A `net.IP`: four bytes, or sixteen (IPv6, or IPv4 in its mapped form). */
  type IP = b: seq<byte> | |b| == 4 || |b| == 16 witness [0, 0, 0, 0]

  /** The twelve leading bytes of an IPv4-mapped IPv6 address (`::ffff:a.b.c.d`). */
  const V4InV6Prefix: seq<byte> := [0, 0, 0, 0, 0, 0, 0, 0, 0, 0, 0xff, 0xff]

  /** `net.IP.To4`: the four-byte form of an IPv4 address, or nil. */
  function To4(ip: IP): (r: Option<IP>)
    ensures r.Some? ==> |r.value| == 4
    ensures |ip| == 4 ==> r == Some(ip)
    ensures |ip| == 16 ==> (r.Some? <==> ip[..12] == V4InV6Prefix)
    ensures |ip| == 16 && r.Some? ==> ip == V4InV6Prefix + r.value
  {
    if |ip| == 4 then Some(ip)
    else if ip[..12] == V4InV6Prefix then
      assert ip == ip[..12] + ip[12..];
      Some(ip[12..])
    else None
  }

  /** `net.IP.String` for a four-byte address: dotted decimal. */
  function DottedQuad(ip: IP): string
    requires |ip| == 4
  {
    Text.Decimal(ip[0] as nat) + "." + Text.Decimal(ip[1] as nat) + "."
    + Text.Decimal(ip[2] as nat) + "." + Text.Decimal(ip[3] as nat)
  }

  /** `net.IP.String`: dotted decimal for any IPv4 address, the library's
      IPv6 text form otherwise. */
  function IPString(lib: Lib, ip: IP): string
  {
    match To4(ip)
    case Some(v4) => DottedQuad(v4)
    case None => lib.formatIPv6(ip)
  }

  datatype Question = Question(name: string, qtype: uint16, qclass: uint16)

  datatype EdnsOption =
    | Subnet(family: uint16, sourceNetmask: uint8, sourceScope: uint8, address: Option<IP>)
    | OtherOption(code: uint16, data: seq<byte>)
  {
    function Code(): uint16
    {
      if Subnet? then Edns0Subnet else code
    }
  }

  /** A resource record: its header, its type-specific data (uninterpreted
      here), and the option list of an OPT record, empty for every other type.
      miekg/dns decodes every record of type OPT into its `OPT` structure, so
      the type field is what identifies an OPT record. For an OPT record the
      class field holds the advertised UDP payload size and the TTL field the
      extended RCODE, version and flags (section 6.1.3 of RFC 6891). */
  datatype RR = RR(
    name: string,
    rrtype: uint16,
    rrclass: uint16,
    ttl: bv32,
    rdata: seq<byte>,
    options: seq<EdnsOption>)
  {
    predicate IsOpt()
    {
      rrtype == TypeOPT
    }
  }

  /** A DNS message: the header flags the gateway reads or writes, the
      response code (as the unsigned 32-bit value the JSON formatter converts
      it to), and the four sections. */
  datatype Msg = Msg(
    rcode: bv32,
    truncated: bool,
    recursionDesired: bool,
    recursionAvailable: bool,
    authenticatedData: bool,
    checkingDisabled: bool,
    question: seq<Question>,
    answer: seq<RR>,
    ns: seq<RR>,
    extra: seq<RR>)

  /** The library calls the gateway makes without implementing them. */
  datatype Lib = Lib(
    /** `idna.ToASCII`: punycode form of a name, or an error text. */
    toAscii: string -> Result<string, string>,
    /** `dns.Fqdn`. */
    fqdn: string -> string,
    /** `dns.StringToType`: mnemonic (upper case) to RR type code. */
    stringToType: map<string, uint16>,
    /** `net.ParseIP`: None stands for a nil result. */
    parseIP: string -> Option<IP>,
    /** `net.IP.String` for an address that is not IPv4. */
    formatIPv6: IP -> string,
    /** `(*dns.Msg).Pack`: None stands for an error. */
    pack: Msg -> Option<seq<byte>>,
    /** `(*dns.Msg).Unpack`: None stands for an error. */
    unpack: seq<byte> -> Option<Msg>,
    /** `dns.RR.String`: a record's zone-file line, fields separated by tabs. */
    present: RR -> string,
    /** `strconv.Quote`, which `%q` applies to a string. */
    quote: string -> string,
    /** Whether `net.SplitHostPort` accepts an address text. */
    splitsHostPort: string -> bool,
    /** The IP of `net.ResolveTCPAddr("tcp", ·)`: None stands for an error or
        a nil IP. Host names are looked up, so this is the resolver's view. */
    resolveTcp: string -> Option<IP>,
    /** `time.Time.Format(time.RFC1123)` of a time in whole seconds. */
    rfc1123: nat -> string)
}
