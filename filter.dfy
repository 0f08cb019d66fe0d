/** The provider-membership test (`get_cf_domain`, `get_fastly_domain`,
    `get_maxcdn_domain`): does a domain resolve to an address inside one of
    the provider's published ranges? */
module CdnFilter {
  import opened Common
  import opened Seqs
  import opened Strings
  import opened Ipv4
  import opened Providers

  /** `socket.gethostbyname_ex(domain)[2]` as an oracle; None is a lookup
      that raised. */
  type Resolver = string -> Option<seq<IPv4>>

  /** The addresses the scan walks: none when the lookup failed. */
  function Addresses(resolve: Resolver, domain: string): seq<IPv4> {
    resolve(domain).GetOr([])
  }

  /** The inner loop over the ranges for one address, as a specification:
      each range string is parsed only when it is reached, so a malformed
      one is a fault only if no earlier range held the address. */
  function ScanRanges(ip: IPv4, ranges: seq<RangeEntry>): CheckResult
    decreases |ranges|
  {
    if ranges == [] then Ok(false)
    else
      match ParseRange(ranges[0])
      case None => Err(MalformedRange(ranges[0]))
      case Some(c) => if InNetwork(ip, c) then Ok(true) else ScanRanges(ip, ranges[1..])
  }

  /** The outer loop over the addresses. */
  function ScanAddresses(ips: seq<IPv4>, ranges: seq<RangeEntry>): CheckResult
    decreases |ips|
  {
    if ips == [] then Ok(false)
    else
      match ScanRanges(ips[0], ranges)
      case Ok(hit) => if hit then Ok(true) else ScanAddresses(ips[1..], ranges)
      case Err(f) => Err(f)
  }

  /** The whole membership test: edge host names are rejected before any
      lookup. */
  function Fronted(p: Provider, domain: string, ranges: seq<RangeEntry>, resolve: Resolver): CheckResult {
    if EndsWith(domain, EdgeSuffix(p)) then Ok(false)
    else ScanAddresses(Addresses(resolve, domain), ranges)
  }

  /** The membership test as the scripts run it: two nested loops that
      return on the first hit and let a parse failure escape. */
  method IsFronted(p: Provider, domain: string, ranges: seq<RangeEntry>, resolve: Resolver)
    returns (r: CheckResult)
    ensures r == Fronted(p, domain, ranges, resolve)
  {
    if EndsWith(domain, EdgeSuffix(p)) {
      return Ok(false);
    }
    var ips := Addresses(resolve, domain);
    var i := 0;
    while i < |ips|
      invariant 0 <= i <= |ips|
      invariant ScanAddresses(ips, ranges) == ScanAddresses(ips[i..], ranges)
    {
      var j := 0;
      while j < |ranges|
        invariant 0 <= j <= |ranges|
        invariant ScanRanges(ips[i], ranges) == ScanRanges(ips[i], ranges[j..])
      {
        assert ranges[j..][1..] == ranges[j + 1..];
        var network := ParseRange(ranges[j]);
        if network.None? {
          return Err(MalformedRange(ranges[j]));
        }
        if InNetwork(ips[i], network.value) {
          return Ok(true);
        }
        j := j + 1;
      }
      assert ips[i..][1..] == ips[i + 1..];
      i := i + 1;
    }
    return Ok(false);
  }

  /** Every range string parses. */
  predicate WellFormed(ranges: seq<RangeEntry>) {
    forall k :: 0 <= k < |ranges| ==> ParseRange(ranges[k]).Some?
  }

  /** Some well-formed range string holds the address. */
  predicate Covers(ranges: seq<RangeEntry>, a: IPv4) {
    exists k :: 0 <= k < |ranges| && ParseRange(ranges[k]).Some? && InNetwork(a, ParseRange(ranges[k]).value)
  }

  /** What the inner scan means: a hit is a covering range, a miss means
      every range parsed and none holds the address. */
  lemma {:induction false} ScanRangesAnswer(ip: IPv4, ranges: seq<RangeEntry>)
    ensures ScanRanges(ip, ranges) == Ok(true) ==> Covers(ranges, ip)
    ensures ScanRanges(ip, ranges) == Ok(false) ==> WellFormed(ranges) && !Covers(ranges, ip)
    decreases |ranges|
  {
    if ranges != [] {
      var rest := ranges[1..];
      ScanRangesAnswer(ip, rest);
      CoversCons(ip, ranges[0], rest);
      assert [ranges[0]] + rest == ranges;
    }
  }

  /** Over well-formed ranges the inner scan never faults and answers
      exactly whether a range holds the address. */
  lemma {:induction false} ScanRangesExact(ip: IPv4, ranges: seq<RangeEntry>)
    requires WellFormed(ranges)
    ensures ScanRanges(ip, ranges) == Ok(Covers(ranges, ip))
    decreases |ranges|
  {
    if ranges != [] {
      var rest := ranges[1..];
      assert [ranges[0]] + rest == ranges;
      CoversCons(ip, ranges[0], rest);
      ScanRangesExact(ip, rest);
    }
  }

  /** The inner scan stops at position `k` on an unparseable range, every
      range before it parsed and none of them holds the address. */
  predicate FaultAt(ip: IPv4, ranges: seq<RangeEntry>, k: int) {
    && 0 <= k < |ranges|
    && ParseRange(ranges[k]).None?
    && WellFormed(ranges[..k])
    && !Covers(ranges[..k], ip)
  }

  /** A fault of the inner scan names the first unparseable range, and no
      range before it holds the address. */
  lemma {:induction false} ScanRangesFault(ip: IPv4, ranges: seq<RangeEntry>)
    requires ScanRanges(ip, ranges).Err?
    ensures exists k :: FaultAt(ip, ranges, k) && ScanRanges(ip, ranges).error == MalformedRange(ranges[k])
    decreases |ranges|
  {
    var rest := ranges[1..];
    if ParseRange(ranges[0]).None? {
      assert ranges[..0] == [];
      assert FaultAt(ip, ranges, 0);
    } else {
      ScanRangesFault(ip, rest);
      var k :| FaultAt(ip, rest, k) && ScanRanges(ip, rest).error == MalformedRange(rest[k]);
      FaultShift(ip, ranges, k);
    }
  }

  /** A fault past a range that parsed and missed is a fault one step
      later in the longer list. */
  lemma FaultShift(ip: IPv4, ranges: seq<RangeEntry>, k: int)
    requires ranges != [] && FaultAt(ip, ranges[1..], k)
    requires ParseRange(ranges[0]).Some? && !InNetwork(ip, ParseRange(ranges[0]).value)
    ensures FaultAt(ip, ranges, k + 1) && ranges[k + 1] == ranges[1..][k]
  {
    PrefixShift(ip, ranges, k);
    assert ranges[k + 1] == ranges[1..][k];
  }

  /** A prefix that parsed and missed stays so with a missed range in
      front. */
  lemma PrefixShift(ip: IPv4, ranges: seq<RangeEntry>, k: int)
    requires ranges != [] && 0 <= k < |ranges| - 1
    requires WellFormed(ranges[1..][..k]) && !Covers(ranges[1..][..k], ip)
    requires ParseRange(ranges[0]).Some? && !InNetwork(ip, ParseRange(ranges[0]).value)
    ensures WellFormed(ranges[..k + 1]) && !Covers(ranges[..k + 1], ip)
  {
    PrefixCons(ranges, k);
    CoversCons(ip, ranges[0], ranges[1..][..k]);
  }

  /** Covering a list with one more range in front. */
  lemma CoversCons(ip: IPv4, e: RangeEntry, rest: seq<RangeEntry>)
    ensures Covers([e] + rest, ip) <==> (ParseRange(e).Some? && InNetwork(ip, ParseRange(e).value)) || Covers(rest, ip)
    ensures WellFormed([e] + rest) <==> ParseRange(e).Some? && WellFormed(rest)
  {
    var s := [e] + rest;
    assert s[0] == e;
    assert forall k :: 0 <= k < |rest| ==> s[k + 1] == rest[k];
    if Covers(s, ip) {
      var k :| 0 <= k < |s| && ParseRange(s[k]).Some? && InNetwork(ip, ParseRange(s[k]).value);
      if k > 0 {
        assert rest[k - 1] == s[k];
      }
    }
    if WellFormed(rest) && ParseRange(e).Some? {
      forall k | 0 <= k < |s| ensures ParseRange(s[k]).Some? {
        if k > 0 {
          assert s[k] == rest[k - 1];
        }
      }
    }
  }

  /** Some address of the list is covered. */
  predicate AnyCovered(ips: seq<IPv4>, ranges: seq<RangeEntry>) {
    exists i :: 0 <= i < |ips| && Covers(ranges, ips[i])
  }

  /** What the outer scan means: over well-formed ranges it answers exactly
      whether some address is covered; a true answer always means that; a
      fault needs an address to scan and an unparseable range. */
  lemma {:induction false} ScanAddressesMeaning(ips: seq<IPv4>, ranges: seq<RangeEntry>)
    ensures ScanAddresses(ips, ranges) == Ok(true) ==> AnyCovered(ips, ranges)
    ensures WellFormed(ranges) ==> ScanAddresses(ips, ranges) == Ok(AnyCovered(ips, ranges))
    ensures ScanAddresses(ips, ranges).Err? ==>
      ips != [] && !WellFormed(ranges) && ScanAddresses(ips, ranges).error.MalformedRange?
      && ScanAddresses(ips, ranges).error.entry in ranges
    decreases |ips|
  {
    if ips != [] {
      TailIndex(ips);
      ScanRangesAnswer(ips[0], ranges);
      if WellFormed(ranges) {
        ScanRangesExact(ips[0], ranges);
      }
      ScanAddressesMeaning(ips[1..], ranges);
      if ScanAddresses(ips, ranges).Err? && ScanRanges(ips[0], ranges).Err? {
        ScanRangesFault(ips[0], ranges);
        var k :| FaultAt(ips[0], ranges, k) && ScanRanges(ips[0], ranges).error == MalformedRange(ranges[k]);
        assert ranges[k] in ranges;
      }
      if WellFormed(ranges) && !Covers(ranges, ips[0]) && AnyCovered(ips, ranges) {
        var i :| 0 <= i < |ips| && Covers(ranges, ips[i]);
        assert i > 0 && ips[1..][i - 1] == ips[i];
      }
    }
  }

  /** The membership test over well-formed ranges: true exactly when the
      domain is not an edge host and one of its addresses lies in a
      range. */
  lemma FrontedExact(p: Provider, domain: string, ranges: seq<RangeEntry>, resolve: Resolver)
    requires WellFormed(ranges)
    ensures Fronted(p, domain, ranges, resolve)
      == Ok(!EndsWith(domain, EdgeSuffix(p)) && AnyCovered(Addresses(resolve, domain), ranges))
  {
    ScanAddressesMeaning(Addresses(resolve, domain), ranges);
  }

  /** A positive answer is always justified, whatever the ranges; a fault
      happens only for a non-edge domain that resolved to at least one
      address, with an unparseable range in the list. */
  lemma FrontedSound(p: Provider, domain: string, ranges: seq<RangeEntry>, resolve: Resolver)
    ensures Fronted(p, domain, ranges, resolve) == Ok(true) ==>
      !EndsWith(domain, EdgeSuffix(p)) && AnyCovered(Addresses(resolve, domain), ranges)
    ensures Fronted(p, domain, ranges, resolve).Err? ==>
      && !EndsWith(domain, EdgeSuffix(p))
      && Addresses(resolve, domain) != []
      && !WellFormed(ranges)
      && Fronted(p, domain, ranges, resolve).error.MalformedRange?
      && Fronted(p, domain, ranges, resolve).error.entry in ranges
  {
    ScanAddressesMeaning(Addresses(resolve, domain), ranges);
  }

  /** Edge host names and failed lookups are never fronted, and the
      answer for an edge host does not depend on DNS or on the ranges. */
  lemma FrontedNegatives(p: Provider, domain: string, ranges: seq<RangeEntry>, resolve: Resolver, other: Resolver)
    ensures EndsWith(domain, EdgeSuffix(p)) ==>
      Fronted(p, domain, ranges, resolve) == Ok(false) == Fronted(p, domain, [], other)
    ensures resolve(domain) == None ==> Fronted(p, domain, ranges, resolve) == Ok(false)
    ensures Fronted(p, domain, [], resolve) == Ok(false)
  {
    ScanAddressesMeaning(Addresses(resolve, domain), []);
  }

  /** The range string parses and its top `len` bits agree with the
      address's. */
  predicate PrefixMatch(e: RangeEntry, a: IPv4) {
    match ParseRange(e)
    case None => false
    case Some(c) => a / Pow2(32 - c.len) == c.addr / Pow2(32 - c.len)
  }

  /** The containment test agrees with the prefix-match form of section
      3.1 of RFC 4632, so Covers can be read either way. */
  lemma CoversByPrefix(ranges: seq<RangeEntry>, a: IPv4)
    ensures Covers(ranges, a) <==> exists k :: 0 <= k < |ranges| && PrefixMatch(ranges[k], a)
  {
    forall k | 0 <= k < |ranges| && ParseRange(ranges[k]).Some?
      ensures InNetwork(a, ParseRange(ranges[k]).value) <==> PrefixMatch(ranges[k], a)
    {
      InNetworkIffPrefixMatch(a, ParseRange(ranges[k]).value);
    }
  }
}
