/**
 The upstream specification format of the configuration: `transport:address`,
 where the transport tag is a run of lower-case letters and dashes
 (doh-server/config.go), and the error raised for a tag the resolver does not
 know.
 */
module Config {

  /** `configError`: a configuration problem found while resolving. */
  datatype ConfigError = ConfigError(err: string)

  /** The characters of the class `[a-z-]`. */
  predicate IsTagChar(c: char)
  {
    'a' <= c <= 'z' || c == '-'
  }

  /** The pattern `^[a-z-]+(:)` matches `us` with its group at position `k`:
      `us[..k]` is a non-empty run of tag characters and `us[k]` is ':'. */
  predicate MatchesAt(us: string, k: int)
  {
    0 < k < |us| && us[k] == ':' && forall i :: 0 <= i < k ==> IsTagChar(us[i])
  }

  /** The length of the leading run of tag characters. */
  function TagRun(us: string): (k: nat)
    ensures k <= |us|
    ensures forall i :: 0 <= i < k ==> IsTagChar(us[i])
    ensures k < |us| ==> !IsTagChar(us[k])
  {
    if |us| > 0 && IsTagChar(us[0]) then 1 + TagRun(us[1..]) else 0
  }

  /** `addressAndType`: the text after the tag's colon and the tag, or two
      empty strings when the pattern does not match. The match, when there is
      one, is unique: ':' is not a tag character, so the colon can only follow
      the maximal run. */
  function AddressAndType(us: string): (r: (string, string))
    ensures r.1 != "" <==> exists k :: MatchesAt(us, k)
    ensures forall k :: MatchesAt(us, k) ==> r == (us[k + 1..], us[..k])
    ensures r.1 == "" ==> r.0 == ""
  {
    var k := TagRun(us);
    forall j | MatchesAt(us, j) ensures j == k {
      MatchIsMaximalRun(us, j);
    }
    if 0 < k < |us| && us[k] == ':' then
      assert MatchesAt(us, k);
      (us[k + 1..], us[..k])
    else
      ("", "")
  }

  /** Only the maximal run can be followed by the colon. */
  lemma MatchIsMaximalRun(us: string, j: int)
    requires MatchesAt(us, j)
    ensures j == TagRun(us)
  {
  }

  /** On a match nothing is lost: the tag, a colon and the address give back
      the input, and the address keeps any further colons. */
  lemma AddressAndTypeRebuilds(us: string)
    requires AddressAndType(us).1 != ""
    ensures AddressAndType(us).1 + ":" + AddressAndType(us).0 == us
  {
    var k :| MatchesAt(us, k);
    assert us == us[..k] + [us[k]] + us[k + 1..];
  }

  /** The two shapes of the configuration's examples. */
  lemma AddressAndTypeExamples()
    ensures AddressAndType("udp:8.8.8.8:53") == ("8.8.8.8:53", "udp")
    ensures AddressAndType("tcp-tls:dns.google:853") == ("dns.google:853", "tcp-tls")
  {
    var a := "udp:8.8.8.8:53";
    assert MatchesAt(a, 3);
    assert a[4..] == "8.8.8.8:53" && a[..3] == "udp";
    var b := "tcp-tls:dns.google:853";
    assert MatchesAt(b, 7);
    assert b[8..] == "dns.google:853" && b[..7] == "tcp-tls";
  }

  /** Inputs the pattern rejects: an upper-case or digit first character, a
      tag without a colon, an empty tag, the empty string. */
  lemma AddressAndTypeRejects()
    ensures AddressAndType("UDP:8.8.8.8:53") == ("", "")
    ensures AddressAndType("8.8.8.8:53") == ("", "")
    ensures AddressAndType("udp") == ("", "")
    ensures AddressAndType(":53") == ("", "")
    ensures AddressAndType("") == ("", "")
  {
    assert !IsTagChar('U') && !IsTagChar('8') && !IsTagChar(':');
    assert forall k :: !MatchesAt("udp", k);
  }
}
