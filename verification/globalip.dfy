/**
 The "is this address globally routable" predicate used to decide whether a
 client address may be forwarded upstream as EDNS Client Subnet. It is a fixed
 table of fourteen of the special-purpose prefixes listed in sections 2.2.2
 and 2.2.3 of RFC 6890 (others, such as the documentation blocks, are not in
 it): an address is global when it is not nil and none of the
 prefixes contains it.
 */
module GlobalIp {

  import opened Types
  import opened Dns

  /** A network given as its base address and mask, of equal length. */
  datatype Prefix = Prefix(net: seq<byte>, mask: seq<byte>)

  /** One byte of an address under one byte of a mask. */
  function Masked(b: byte, m: byte): byte
  {
    b & m
  }

  /** Masked equality: `addr & mask == net`, byte by byte. */
  predicate Contains(p: Prefix, addr: seq<byte>)
  {
    && |addr| == |p.net| == |p.mask|
    && forall i :: 0 <= i < |addr| ==> Masked(addr[i], p.mask[i]) == p.net[i]
  }

  const Zero12: seq<byte> := [0, 0, 0, 0, 0, 0, 0, 0, 0, 0, 0, 0]

  /** 0.0.0.0/8, this host on this network. */
  const ThisHost := Prefix([0, 0, 0, 0], [255, 0, 0, 0])
  /** 10.0.0.0/8, private use. */
  const Private10 := Prefix([10, 0, 0, 0], [255, 0, 0, 0])
  /** 100.64.0.0/10, shared address space. */
  const Shared := Prefix([100, 64, 0, 0], [255, 192, 0, 0])
  /** 127.0.0.0/8, loopback. */
  const Loopback4 := Prefix([127, 0, 0, 0], [255, 0, 0, 0])
  /** 169.254.0.0/16, link local. */
  const LinkLocal4 := Prefix([169, 254, 0, 0], [255, 255, 0, 0])
  /** 172.16.0.0/12, private use. */
  const Private172 := Prefix([172, 16, 0, 0], [255, 240, 0, 0])
  /** 192.0.0.0/29, DS-Lite. */
  const DsLite := Prefix([192, 0, 0, 0], [255, 255, 255, 248])
  /** 192.88.99.0/24, 6to4 relay anycast. */
  const Relay6to4 := Prefix([192, 88, 99, 0], [255, 255, 255, 0])
  /** 192.168.0.0/16, private use. */
  const Private192 := Prefix([192, 168, 0, 0], [255, 255, 0, 0])
  /** 240.0.0.0/4, reserved for future use and limited broadcast. */
  const Reserved := Prefix([240, 0, 0, 0], [240, 0, 0, 0])
  /** ::/127, unspecified and loopback address. */
  const Unspecified6 := Prefix(Zero12 + [0, 0, 0, 0], Ones15 + [0xfe])
  /** 100::/64, discard-only prefix. */
  const Discard6 := Prefix([1, 0, 0, 0, 0, 0, 0, 0] + Zero8, Ones8 + Zero8)
  /** fc00::/7, unique local. */
  const UniqueLocal := Prefix([0xfc] + Zero15, [0xfe] + Zero15)
  /** fe80::/10, link-scoped unicast. */
  const LinkLocal6 := Prefix([0xfe, 0x80] + Zero12 + [0, 0], [0xff, 0xc0] + Zero12 + [0, 0])

  const Zero8: seq<byte> := [0, 0, 0, 0, 0, 0, 0, 0]
  const Zero15: seq<byte> := Zero12 + [0, 0, 0]
  const Ones8: seq<byte> := [0xff, 0xff, 0xff, 0xff, 0xff, 0xff, 0xff, 0xff]
  const Ones15: seq<byte> := Ones8 + [0xff, 0xff, 0xff, 0xff, 0xff, 0xff, 0xff]

  /** The table `globalip.go` builds at package initialisation, in its order. */
  const SpecialPurpose: seq<Prefix> := [
    ThisHost, Private10, Shared, Loopback4, LinkLocal4, Private172, DsLite,
    Relay6to4, Private192, Reserved,
    Unspecified6, Discard6, UniqueLocal, LinkLocal6
  ]

  /** The form in which the prefix tree looks an address up: IPv4 addresses,
      mapped ones included, in four bytes; IPv6 in sixteen. */
  function LookupForm(ip: IP): (a: IP)
    ensures |ip| == 4 ==> a == ip
    ensures |ip| == 16 && ip[..12] == V4InV6Prefix ==> a == ip[12..]
    ensures |ip| == 16 && ip[..12] != V4InV6Prefix ==> a == ip
  {
    match To4(ip)
    case Some(v4) => v4
    case None => ip
  }

  /** Whether some prefix of the table contains the address. */
  predicate InTable(a: seq<byte>)
  {
    exists k :: 0 <= k < |SpecialPurpose| && Contains(SpecialPurpose[k], a)
  }

  /** `IsGlobalIP`: nil is never global; otherwise global exactly when no
      special-purpose prefix contains the address. */
  predicate IsGlobalIP(ip: Option<IP>)
  {
    match ip
    case None => false
    case Some(addr) => !InTable(LookupForm(addr))
  }

  /** The IPv4 part of the table written as address ranges, first and last
      address of each of its ten blocks. */
  predicate SpecialV4(a: seq<byte>)
    requires |a| == 4
  {
    || a[0] == 0
    || a[0] == 10
    || (a[0] == 100 && 64 <= a[1] <= 127)
    || a[0] == 127
    || (a[0] == 169 && a[1] == 254)
    || (a[0] == 172 && 16 <= a[1] <= 31)
    || (a[0] == 192 && a[1] == 0 && a[2] == 0 && a[3] <= 7)
    || (a[0] == 192 && a[1] == 88 && a[2] == 99)
    || (a[0] == 192 && a[1] == 168)
    || a[0] >= 240
  }

  /** The IPv6 part of the table written as address ranges, one per block. */
  predicate SpecialV6(a: seq<byte>)
    requires |a| == 16
  {
    || ((forall i :: 0 <= i < 15 ==> a[i] == 0) && a[15] <= 1)
    || (a[0] == 1 && forall i :: 1 <= i < 8 ==> a[i] == 0)
    || a[0] == 0xfc || a[0] == 0xfd
    || (a[0] == 0xfe && 0x80 <= a[1] <= 0xbf)
  }

  /** Containment in a four-byte prefix, byte by byte. */
  lemma Contains4(p: Prefix, a: seq<byte>)
    requires |a| == 4 && |p.net| == 4 && |p.mask| == 4
    ensures Contains(p, a) <==>
      && Masked(a[0], p.mask[0]) == p.net[0] && Masked(a[1], p.mask[1]) == p.net[1]
      && Masked(a[2], p.mask[2]) == p.net[2] && Masked(a[3], p.mask[3]) == p.net[3]
  {
  }

  /** The table, entry by entry. */
  lemma InTableCases(a: seq<byte>)
    ensures InTable(a) <==>
      || Contains(ThisHost, a) || Contains(Private10, a) || Contains(Shared, a)
      || Contains(Loopback4, a) || Contains(LinkLocal4, a) || Contains(Private172, a)
      || Contains(DsLite, a) || Contains(Relay6to4, a) || Contains(Private192, a)
      || Contains(Reserved, a)
      || Contains(Unspecified6, a) || Contains(Discard6, a)
      || Contains(UniqueLocal, a) || Contains(LinkLocal6, a)
  {
    var t := SpecialPurpose;
    assert t[0] == ThisHost && t[1] == Private10 && t[2] == Shared && t[3] == Loopback4;
    assert t[4] == LinkLocal4 && t[5] == Private172 && t[6] == DsLite && t[7] == Relay6to4;
    assert t[8] == Private192 && t[9] == Reserved && t[10] == Unspecified6;
    assert t[11] == Discard6 && t[12] == UniqueLocal && t[13] == LinkLocal6;
  }

  /** Masked equality against the table agrees with the range description
      for IPv4. */
  lemma InTableV4(a: seq<byte>)
    requires |a| == 4
    ensures InTable(a) <==> SpecialV4(a)
  {
    InTableCases(a);
    Contains4(ThisHost, a);
    Contains4(Private10, a);
    Contains4(Shared, a);
    Contains4(Loopback4, a);
    Contains4(LinkLocal4, a);
    Contains4(Private172, a);
    Contains4(DsLite, a);
    Contains4(Relay6to4, a);
    Contains4(Private192, a);
    Contains4(Reserved, a);
  }

  lemma MaskedFacts()
    ensures forall b: byte :: Masked(b, 0xff) == b
    ensures forall b: byte :: Masked(b, 0) == 0
  {
  }

  lemma ContainsUnspecified6(a: seq<byte>)
    requires |a| == 16
    ensures Contains(Unspecified6, a) <==> (forall i :: 0 <= i < 15 ==> a[i] == 0) && a[15] <= 1
  {
    MaskedFacts();
    var p := Unspecified6;
    assert forall i :: 0 <= i < 15 ==> p.mask[i] == 0xff && p.net[i] == 0;
    assert p.mask[15] == 0xfe && p.net[15] == 0;
    assert Masked(a[15], 0xfe) == 0 <==> a[15] <= 1;
  }

  lemma ContainsDiscard6(a: seq<byte>)
    requires |a| == 16
    ensures Contains(Discard6, a) <==> a[0] == 1 && forall i :: 1 <= i < 8 ==> a[i] == 0
  {
    MaskedFacts();
    var p := Discard6;
    assert p.mask[0] == 0xff && p.net[0] == 1;
    assert forall i :: 1 <= i < 8 ==> p.mask[i] == 0xff && p.net[i] == 0;
    assert forall i :: 8 <= i < 16 ==> p.mask[i] == 0 && p.net[i] == 0;
  }

  lemma ContainsUniqueLocal(a: seq<byte>)
    requires |a| == 16
    ensures Contains(UniqueLocal, a) <==> a[0] == 0xfc || a[0] == 0xfd
  {
    MaskedFacts();
    var p := UniqueLocal;
    assert p.mask[0] == 0xfe && p.net[0] == 0xfc;
    assert forall i :: 1 <= i < 16 ==> p.mask[i] == 0 && p.net[i] == 0;
    assert Masked(a[0], 0xfe) == 0xfc <==> a[0] == 0xfc || a[0] == 0xfd;
  }

  lemma ContainsLinkLocal6(a: seq<byte>)
    requires |a| == 16
    ensures Contains(LinkLocal6, a) <==> a[0] == 0xfe && 0x80 <= a[1] <= 0xbf
  {
    MaskedFacts();
    var p := LinkLocal6;
    assert p.mask[0] == 0xff && p.net[0] == 0xfe;
    assert p.mask[1] == 0xc0 && p.net[1] == 0x80;
    assert forall i :: 2 <= i < 16 ==> p.mask[i] == 0 && p.net[i] == 0;
    assert Masked(a[1], 0xc0) == 0x80 <==> 0x80 <= a[1] <= 0xbf;
  }

  /** Masked equality against the table agrees with the range description
      for IPv6. */
  lemma InTableV6(a: seq<byte>)
    requires |a| == 16
    ensures InTable(a) <==> SpecialV6(a)
  {
    InTableCases(a);
    ContainsUnspecified6(a);
    ContainsDiscard6(a);
    ContainsUniqueLocal(a);
    ContainsLinkLocal6(a);
  }

  /** `IsGlobalIP` against the table's blocks written as ranges: an IPv4
      address (mapped or not) is global exactly when it lies outside the ten
      IPv4 blocks, any other address exactly when it lies outside the four
      IPv6 blocks. */
  lemma IsGlobalIPRanges(ip: IP)
    ensures |LookupForm(ip)| == 4 ==> (IsGlobalIP(Some(ip)) <==> !SpecialV4(LookupForm(ip)))
    ensures |LookupForm(ip)| == 16 ==> (IsGlobalIP(Some(ip)) <==> !SpecialV6(LookupForm(ip)))
  {
    var a := LookupForm(ip);
    if |a| == 4 {
      InTableV4(a);
    } else {
      InTableV6(a);
    }
  }

  /** Ranges the table leaves out are global, however special they are
      elsewhere: TEST-NET-1 (192.0.2.0/24) and the IPv6 documentation prefix
      (2001:db8::/32). A nil address never is. */
  lemma DocumentationRangesAreGlobal(x: byte, rest: seq<byte>)
    requires |rest| == 12
    ensures IsGlobalIP(Some([192, 0, 2, x]))
    ensures IsGlobalIP(Some([0x20, 0x01, 0x0d, 0xb8] + rest))
    ensures !IsGlobalIP(None)
  {
    IsGlobalIPRanges([192, 0, 2, x]);
    var v6: IP := [0x20, 0x01, 0x0d, 0xb8] + rest;
    assert v6[..12] != V4InV6Prefix by {
      assert v6[0] != V4InV6Prefix[0];
    }
    IsGlobalIPRanges(v6);
  }

  /** An IPv4-mapped IPv6 address is judged by its IPv4 part. */
  lemma MappedJudgedAsV4(v4: seq<byte>)
    requires |v4| == 4
    ensures IsGlobalIP(Some(V4InV6Prefix + v4)) == IsGlobalIP(Some(v4))
  {
    var m: IP := V4InV6Prefix + v4;
    assert m[..12] == V4InV6Prefix;
    assert m[12..] == v4;
  }
}
