/**
 The pieces of Go's `strings` and `strconv` packages the gateway relies on,
 over strings as sequences of Unicode scalar values (Go iterates runes for every
 function used here). Bytes that are not valid UTF-8, which can arrive in
 form values and headers, are not represented; Go treats each as a rune that
 is neither a space, a letter nor a digit.
 */
module Text {

  import opened Types

  /** `strings.IndexByte` / `strings.IndexRune`: first position of `c`, or -1. */
  function IndexOf(s: string, c: char): (r: int)
    ensures -1 <= r < |s|
    ensures r == -1 <==> c !in s
    ensures r >= 0 ==> s[r] == c && c !in s[..r]
  {
    if |s| == 0 then -1
    else if s[0] == c then 0
    else
      var k := IndexOf(s[1..], c);
      if k == -1 then -1 else k + 1
  }

  /** `strings.Split(s, sep)` for a one-character separator: never empty, and
      `Split("", sep) == [""]`. */
  function Split(s: string, sep: char): (parts: seq<string>)
    ensures |parts| >= 1
    ensures forall i :: 0 <= i < |parts| ==> sep !in parts[i]
    decreases |s|
  {
    var k := IndexOf(s, sep);
    if k == -1 then [s] else [s[..k]] + Split(s[k + 1..], sep)
  }

  /** `strings.Join(parts, sep)`, the inverse of `Split`. */
  function Join(parts: seq<string>, sep: char): string
  {
    if |parts| == 0 then ""
    else if |parts| == 1 then parts[0]
    else parts[0] + [sep] + Join(parts[1..], sep)
  }

  lemma {:induction false} JoinSplit(s: string, sep: char)
    ensures Join(Split(s, sep), sep) == s
    decreases |s|
  {
    var k := IndexOf(s, sep);
    if k != -1 {
      var rest := Split(s[k + 1..], sep);
      JoinSplit(s[k + 1..], sep);
      var parts := [s[..k]] + rest;
      assert Split(s, sep) == parts;
      assert |parts| >= 2 && parts[0] == s[..k] && parts[1..] == rest;
      assert Join(parts, sep) == s[..k] + [sep] + Join(rest, sep);
      assert s == s[..k] + [sep] + s[k + 1..];
    }
  }

  /** `strings.SplitN(s, sep, n)` for `n > 0`: at most `n` pieces, the last
      one holding the unsplit remainder. */
  function SplitN(s: string, sep: char, n: nat): (parts: seq<string>)
    requires n > 0
    ensures 1 <= |parts| <= n && |parts| <= |Split(s, sep)|
    ensures |parts| < n ==> parts == Split(s, sep)
    ensures forall i :: 0 <= i < |parts| - 1 ==> parts[i] == Split(s, sep)[i]
  {
    var all := Split(s, sep);
    if |all| <= n then all else all[..n - 1] + [Join(all[n - 1..], sep)]
  }

  /** Joining a list splits at any inner position. */
  lemma {:induction false} JoinAt(parts: seq<string>, sep: char, k: nat)
    requires 0 < k < |parts|
    ensures Join(parts, sep) == Join(parts[..k], sep) + [sep] + Join(parts[k..], sep)
    decreases k
  {
    if k > 1 {
      JoinAt(parts[1..], sep, k - 1);
      assert parts[1..][..k - 1] == parts[..k][1..];
      assert parts[1..][k - 1..] == parts[k..];
    }
  }

  /** `SplitN` loses nothing: joining its pieces gives back the input. */
  lemma JoinSplitN(s: string, sep: char, n: nat)
    requires n > 0
    ensures Join(SplitN(s, sep, n), sep) == s
  {
    var all := Split(s, sep);
    JoinSplit(s, sep);
    if |all| > n && n > 1 {
      var parts := SplitN(s, sep, n);
      JoinAt(all, sep, n - 1);
      JoinAt(parts, sep, n - 1);
      assert parts[..n - 1] == all[..n - 1];
      assert parts[n - 1..] == [Join(all[n - 1..], sep)];
    }
  }

  /** `strings.SplitN(s, sep, 2)[0]`: everything before the first `sep`. */
  function BeforeFirst(s: string, sep: char): (r: string)
    ensures sep !in r
    ensures r == s || r + [sep] <= s
  {
    var parts := SplitN(s, sep, 2);
    JoinSplitN(s, sep, 2);
    if |parts| == 2 then
      assert s == parts[0] + [sep] + parts[1];
      parts[0]
    else parts[0]
  }

  /** Without `sep` the whole string comes back. */
  lemma BeforeFirstNoSep(s: string, sep: char)
    requires sep !in s
    ensures BeforeFirst(s, sep) == s
  {
  }

  /** With `sep` the text before its first occurrence comes back. */
  lemma BeforeFirstSep(a: string, sep: char, b: string)
    requires sep !in a
    ensures BeforeFirst(a + [sep] + b, sep) == a
  {
    var s := a + [sep] + b;
    var r := BeforeFirst(s, sep);
    assert s[|a|] == sep;
    assert r == s[..|a|] == a;
  }

  /** Go's `unicode.IsSpace`: ASCII and Latin-1 spaces plus the other
      characters with the Unicode White_Space property. */
  predicate IsSpace(c: char)
  {
    var n := c as int;
    || (9 <= n <= 13) || n == 0x20 || n == 0x85 || n == 0xA0
    || n == 0x1680 || (0x2000 <= n <= 0x200A)
    || n == 0x2028 || n == 0x2029 || n == 0x202F || n == 0x205F || n == 0x3000
  }

  /** The first position from `i` on that does not hold white space. */
  function SkipSpaceFrom(s: string, i: nat): (k: nat)
    requires i <= |s|
    requires forall m :: 0 <= m < i ==> IsSpace(s[m])
    ensures i <= k <= |s|
    ensures forall m :: 0 <= m < k ==> IsSpace(s[m])
    ensures k < |s| ==> !IsSpace(s[k])
    decreases |s| - i
  {
    if i < |s| && IsSpace(s[i]) then SkipSpaceFrom(s, i + 1) else i
  }

  /** The last position down to `lo` after which only white space follows. */
  function SkipSpaceBack(s: string, lo: nat, j: nat): (k: nat)
    requires lo <= j <= |s|
    requires forall m :: j <= m < |s| ==> IsSpace(s[m])
    ensures lo <= k <= j
    ensures forall m :: k <= m < |s| ==> IsSpace(s[m])
    ensures k > lo ==> !IsSpace(s[k - 1])
    decreases j
  {
    if j > lo && IsSpace(s[j - 1]) then SkipSpaceBack(s, lo, j - 1) else j
  }

  /** `s[i..j]` is what remains of `s` after cutting only white space off
      both ends. */
  predicate TrimmedAt(s: string, i: int, j: int)
  {
    && 0 <= i <= j <= |s|
    && (forall k :: 0 <= k < i ==> IsSpace(s[k]))
    && (forall k :: j <= k < |s| ==> IsSpace(s[k]))
  }

  /** `strings.TrimSpace`: the longest slice of `s` that neither starts nor
      ends with white space, with only white space cut on either side. */
  function TrimSpace(s: string): (r: string)
    ensures exists i, j :: TrimmedAt(s, i, j) && r == s[i..j]
    ensures |r| > 0 ==> !IsSpace(r[0]) && !IsSpace(r[|r| - 1])
  {
    var i := SkipSpaceFrom(s, 0);
    var j := SkipSpaceBack(s, i, |s|);
    assert TrimmedAt(s, i, j);
    s[i..j]
  }

  function ToLowerChar(c: char): char
  {
    if 'A' <= c <= 'Z' then (c as int + 32) as char else c
  }

  function ToUpperChar(c: char): char
  {
    if 'a' <= c <= 'z' then (c as int - 32) as char else c
  }

  /** `strings.ToLower` on ASCII text. */
  function ToLower(s: string): (r: string)
    ensures |r| == |s|
    ensures forall i :: 0 <= i < |s| ==> r[i] == ToLowerChar(s[i])
  {
    seq(|s|, i requires 0 <= i < |s| => ToLowerChar(s[i]))
  }

  /** `strings.ToUpper` on ASCII text. */
  function ToUpper(s: string): (r: string)
    ensures |r| == |s|
    ensures forall i :: 0 <= i < |s| ==> r[i] == ToUpperChar(s[i])
  {
    seq(|s|, i requires 0 <= i < |s| => ToUpperChar(s[i]))
  }

  /** One step of Go's simple case folding towards a lower-case ASCII letter:
      the letter itself, its upper-case form, and for `s` and `k` the two
      non-ASCII characters that fold onto them (U+017F, U+212A). */
  predicate FoldsTo(c: char, lower: char)
  {
    || c == lower
    || ('a' <= lower <= 'z' && c as int == lower as int - 32)
    || (lower == 's' && c as int == 0x17F)
    || (lower == 'k' && c as int == 0x212A)
  }

  /** `strings.EqualFold(s, lit)` where `lit` is lower-case ASCII. */
  predicate EqualFold(s: string, lit: string)
  {
    |s| == |lit| && forall i :: 0 <= i < |s| ==> FoldsTo(s[i], lit[i])
  }

  predicate IsDigit(c: char)
  {
    '0' <= c <= '9'
  }

  function DigitValue(c: char): nat
    requires IsDigit(c)
  {
    c as int - '0' as int
  }

  function DigitChar(d: nat): (c: char)
    requires d < 10
    ensures IsDigit(c) && DigitValue(c) == d
  {
    ('0' as int + d) as char
  }

  predicate AllDigits(s: string)
  {
    forall i :: 0 <= i < |s| ==> IsDigit(s[i])
  }

  /** The value of a string of decimal digits, most significant first. */
  function DecimalValue(s: string): nat
    requires AllDigits(s)
  {
    if |s| == 0 then 0 else DecimalValue(s[..|s| - 1]) * 10 + DigitValue(s[|s| - 1])
  }

  /** `strconv.FormatUint(n, 10)` and `%d`: the shortest decimal numeral of `n`. */
  function Decimal(n: nat): (r: string)
    ensures |r| > 0 && AllDigits(r)
    ensures |r| > 1 ==> r[0] != '0'
  {
    if n < 10 then [DigitChar(n)] else Decimal(n / 10) + [DigitChar(n % 10)]
  }

  /** `strconv.ParseUint(s, 10, bits)` with `max == 2^bits - 1`: only a
      non-empty string of ASCII digits (no sign, no underscore) whose value
      does not exceed `max` parses; leading zeros are accepted. */
  function ParseDecimal(s: string, max: nat): (r: Option<nat>)
    ensures r.Some? <==> |s| > 0 && AllDigits(s) && DecimalValue(s) <= max
    ensures r.Some? ==> r.value <= max && r.value == DecimalValue(s)
  {
    if |s| > 0 && AllDigits(s) && DecimalValue(s) <= max then Some(DecimalValue(s)) else None
  }

  lemma {:induction false} DecimalValueOfDecimal(n: nat)
    ensures DecimalValue(Decimal(n)) == n
  {
    if n >= 10 {
      var d := Decimal(n);
      DecimalValueOfDecimal(n / 10);
      assert d[..|d| - 1] == Decimal(n / 10);
    }
  }

  /** Formatting then parsing a number gives it back. */
  lemma ParseDecimalRoundTrip(n: nat, max: nat)
    requires n <= max
    ensures ParseDecimal(Decimal(n), max) == Some(n)
  {
    DecimalValueOfDecimal(n);
  }

  /** A leading zero does not change the value of a numeral. */
  lemma {:induction false} LeadingZeroValue(s: string)
    requires AllDigits(s)
    ensures AllDigits(['0'] + s)
    ensures DecimalValue(['0'] + s) == DecimalValue(s)
  {
    var z := ['0'] + s;
    if |s| == 0 {
      assert z[..0] == [];
    } else {
      var p := s[..|s| - 1];
      LeadingZeroValue(p);
      assert z[..|z| - 1] == ['0'] + p;
      assert z[|z| - 1] == s[|s| - 1];
    }
  }

  /** Leading zeros are accepted and ignored: `"0053"` parses as 53. */
  lemma ParseDecimalLeadingZero(s: string, max: nat)
    requires |s| > 0
    ensures ParseDecimal(['0'] + s, max) == ParseDecimal(s, max)
  {
    if AllDigits(s) {
      LeadingZeroValue(s);
    } else {
      var i :| 0 <= i < |s| && !IsDigit(s[i]);
      assert !IsDigit((['0'] + s)[i + 1]);
    }
  }

  /** Parsing then formatting gives back any numeral without leading zeros. */
  lemma {:induction false} DecimalOfParse(s: string)
    requires |s| > 0 && AllDigits(s)
    requires |s| > 1 ==> s[0] != '0'
    ensures Decimal(DecimalValue(s)) == s
  {
    var v := DecimalValue(s);
    if |s| == 1 {
      assert s[..0] == [];
      assert DecimalValue(s[..0]) == 0;
      assert v == DigitValue(s[0]);
      assert Decimal(v) == [s[0]];
    } else {
      var p := s[..|s| - 1];
      assert p[0] == s[0];
      DecimalOfParse(p);
      DecimalValuePositive(p);
      assert v / 10 == DecimalValue(p);
      assert s == p + [s[|s| - 1]];
    }
  }

  lemma {:induction false} DecimalValuePositive(s: string)
    requires |s| > 0 && AllDigits(s) && s[0] != '0'
    ensures DecimalValue(s) > 0
  {
    if |s| > 1 {
      var p := s[..|s| - 1];
      assert p[0] == s[0];
      DecimalValuePositive(p);
    }
  }
}
