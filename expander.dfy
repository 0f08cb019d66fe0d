/** Scope expansion (`recon_target`): from one target domain to the list of
    domains that will be probed, using the DNS enumeration's records and
    the membership test. */
module Expander {
  import opened Common
  import opened Strings
  import opened Seqs
  import opened Providers
  import opened CdnFilter

  /** One element of the enumeration's JSON output; `name` is
      `record.get('name')`. */
  datatype DnsRecord = DnsRecord(name: Option<string>)

  /** More records than this and the target is taken for a wildcard
      domain. */
  const WildcardThreshold: nat := 1000

  /** The record has a name that Python finds truthy. */
  predicate Named(rec: DnsRecord) {
    rec.name.Some? && rec.name.value != []
  }

  /** The membership test with the provider, its ranges and DNS fixed. */
  type Test = string -> CheckResult

  function Membership(p: Provider, ranges: seq<RangeEntry>, resolve: Resolver): Test {
    n => Fronted(p, n, ranges, resolve)
  }

  /** Only the target itself, when it is fronted. */
  function SeedOnly(test: Test, domain: string): ListResult {
    match test(domain)
    case Ok(hit) => Ok(if hit then [domain] else [])
    case Err(f) => Err(f)
  }

  /** The record loop: a name is tested when it is truthy and not yet in
      the list, and its lower-cased form is appended when it is fronted.
      The membership check compares the name as written against the
      lower-cased list. */
  function CollectFrom(test: Test,
                       records: seq<DnsRecord>, acc: seq<string>): ListResult
    decreases |records|
  {
    if records == [] then Ok(acc)
    else if Named(records[0]) && records[0].name.value !in acc then
      match test(records[0].name.value)
      case Err(f) => Err(f)
      case Ok(hit) =>
        CollectFrom(test, records[1..],
                    if hit then acc + [Lower(records[0].name.value)] else acc)
    else CollectFrom(test, records[1..], acc)
  }

  /** The whole expansion. `enumeration` is the parsed `output.json`, None
      when it could not be loaded (the record list then stays empty). */
  function Expand(p: Provider, domain: string, ranges: seq<RangeEntry>, noDns: bool,
                  enumeration: Option<seq<DnsRecord>>, resolve: Resolver): ListResult
  {
    var test := Membership(p, ranges, resolve);
    if noDns then SeedOnly(test, domain)
    else if |enumeration.GetOr([])| > WildcardThreshold then SeedOnly(test, domain)
    else CollectFrom(test, enumeration.GetOr([]), [])
  }

  /** `recon_target` with its record loop. */
  method ReconTarget(p: Provider, domain: string, ranges: seq<RangeEntry>, noDns: bool,
                     enumeration: Option<seq<DnsRecord>>, resolve: Resolver)
    returns (r: ListResult)
    ensures r == Expand(p, domain, ranges, noDns, enumeration, resolve)
  {
    var records: seq<DnsRecord> := [];
    if !noDns {
      if enumeration.Some? {
        records := enumeration.value;
      }
    } else {
      var hit := IsFronted(p, domain, ranges, resolve);
      return if hit.Err? then Err(hit.error) else Ok(if hit.value then [domain] else []);
    }
    if |records| > WildcardThreshold {
      var hit := IsFronted(p, domain, ranges, resolve);
      return if hit.Err? then Err(hit.error) else Ok(if hit.value then [domain] else []);
    }
    r := CollectNames(p, ranges, resolve, records);
  }

  /** The loop of `recon_target` over the enumerated records. */
  method CollectNames(p: Provider, ranges: seq<RangeEntry>, resolve: Resolver, records: seq<DnsRecord>)
    returns (r: ListResult)
    ensures r == CollectFrom(Membership(p, ranges, resolve), records, [])
  {
    ghost var test := Membership(p, ranges, resolve);
    var urlList: seq<string> := [];
    var i := 0;
    while i < |records|
      invariant 0 <= i <= |records|
      invariant CollectFrom(test, records, []) == CollectFrom(test, records[i..], urlList)
    {
      CollectAt(test, records, i, urlList);
      var name := records[i].name;
      if name.Some? && name.value != [] && name.value !in urlList {
        var hit := IsFronted(p, name.value, ranges, resolve);
        assert hit == test(name.value);
        if hit.Err? {
          return Err(hit.error);
        }
        if hit.value {
          urlList := urlList + [Lower(name.value)];
        }
      }
      i := i + 1;
    }
    return Ok(urlList);
  }

  /** One iteration of the loop over the records from position `i`. */
  lemma CollectAt(test: Test, records: seq<DnsRecord>, i: nat, acc: seq<string>)
    requires i < |records|
    ensures var n := records[i].name.GetOr([]);
      CollectFrom(test, records[i..], acc) ==
        if Named(records[i]) && n !in acc then
          match test(n)
          case Err(f) => Err(f)
          case Ok(hit) => CollectFrom(test, records[i + 1..], if hit then acc + [Lower(n)] else acc)
        else CollectFrom(test, records[i + 1..], acc)
  {
    assert records[i..][1..] == records[i + 1..];
  }

  /** The truthy names of the records, in order. */
  function Candidates(records: seq<DnsRecord>): seq<string>
    decreases |records|
  {
    if records == [] then []
    else (if Named(records[0]) then [records[0].name.value] else []) + Candidates(records[1..])
  }

  /** The truthy names whose membership test answers true, in order. */
  function FrontedNames(test: Test, records: seq<DnsRecord>): seq<string>
    decreases |records|
  {
    if records == [] then []
    else
      (if Named(records[0]) && test(records[0].name.value) == Ok(true)
       then [records[0].name.value] else [])
      + FrontedNames(test, records[1..])
  }

  /** The fronted names are candidates, in record order. */
  lemma {:induction false} FrontedAreCandidates(test: Test, records: seq<DnsRecord>)
    ensures Subseq(FrontedNames(test, records), Candidates(records))
    ensures forall n :: n in Candidates(records) <==> exists k :: 0 <= k < |records| && Named(records[k]) && records[k].name.value == n
    decreases |records|
  {
    if records != [] {
      var rest := records[1..];
      FrontedAreCandidates(test, rest);
      var fr := FrontedNames(test, rest);
      var cr := Candidates(rest);
      if Named(records[0]) {
        var n := records[0].name.value;
        assert Candidates(records) == [n] + cr;
        if test(n) == Ok(true) {
          assert FrontedNames(test, records) == [n] + fr;
          SubseqBothCons(n, fr, cr);
        } else {
          assert FrontedNames(test, records) == fr;
          SubseqCons(fr, n, cr);
        }
      } else {
        assert FrontedNames(test, records) == fr && Candidates(records) == cr;
      }
      assert forall k :: 0 <= k < |rest| ==> rest[k] == records[k + 1];
      forall n ensures n in Candidates(records) <==> exists k :: 0 <= k < |records| && Named(records[k]) && records[k].name.value == n {
        if n in cr {
          var k :| 0 <= k < |rest| && Named(rest[k]) && rest[k].name.value == n;
          assert records[k + 1] == rest[k];
        }
        if exists k :: 0 <= k < |records| && Named(records[k]) && records[k].name.value == n {
          var k :| 0 <= k < |records| && Named(records[k]) && records[k].name.value == n;
          if k > 0 {
            assert rest[k - 1] == records[k];
          }
        }
      }
    }
  }

  /** The expansion's fallbacks: with DNS switched off, or more than 1000
      records, only the target itself can be returned; a missing
      enumeration output gives an empty scope without a lookup. */
  lemma ExpandFallbacks(p: Provider, domain: string, ranges: seq<RangeEntry>, noDns: bool,
                        enumeration: Option<seq<DnsRecord>>, resolve: Resolver)
    ensures noDns ==>
      Expand(p, domain, ranges, noDns, enumeration, resolve) == SeedOnly(Membership(p, ranges, resolve), domain)
    ensures !noDns && enumeration.Some? && |enumeration.value| > WildcardThreshold ==>
      Expand(p, domain, ranges, noDns, enumeration, resolve) == SeedOnly(Membership(p, ranges, resolve), domain)
    ensures !noDns && enumeration == None ==> Expand(p, domain, ranges, noDns, enumeration, resolve) == Ok([])
  {
  }

  /** The single-target fallback returns the target exactly when it is
      fronted, nothing exactly when it is not, and faults with the test. */
  lemma SeedOnlyMeaning(test: Test, domain: string)
    ensures SeedOnly(test, domain) == Ok([domain]) <==> test(domain) == Ok(true)
    ensures SeedOnly(test, domain) == Ok([]) <==> test(domain) == Ok(false)
    ensures SeedOnly(test, domain).Err? <==> test(domain).Err?
  {
  }

  /** Everything the record loop returns past the starting list is the
      lower-cased form of a fronted name, in record order, and it appends
      at most one entry per record. */
  lemma {:induction false} CollectSound(test: Test,
                                        records: seq<DnsRecord>, acc: seq<string>, r: seq<string>)
    requires CollectFrom(test, records, acc) == Ok(r)
    ensures |acc| <= |r| <= |acc| + |records|
    ensures r[..|acc|] == acc
    ensures Subseq(r[|acc|..], Map(Lower, FrontedNames(test, records)))
    decreases |records|
  {
    if records == [] {
      assert r == acc;
    } else {
      var rest := records[1..];
      var fr := FrontedNames(test, rest);
      var n := records[0].name.GetOr([]);
      if Named(records[0]) && test(n) == Ok(true) {
        MapConcat(Lower, [n], fr);
        if n !in acc {
          var acc' := acc + [Lower(n)];
          CollectSound(test, rest, acc', r);
          assert r[|acc|..] == [Lower(n)] + r[|acc'|..];
          SubseqBothCons(Lower(n), r[|acc'|..], Map(Lower, fr));
        } else {
          CollectSound(test, rest, acc, r);
          SubseqCons(r[|acc|..], Lower(n), Map(Lower, fr));
        }
      } else {
        assert FrontedNames(test, records) == fr;
        CollectSound(test, rest, acc, r);
      }
    }
  }

  /** Every fronted name ends up in the list, lower-cased, provided the
      starting list is lower-case (the skip test then only drops names
      already present). */
  lemma {:induction false} CollectComplete(test: Test,
                                           records: seq<DnsRecord>, acc: seq<string>, r: seq<string>)
    requires CollectFrom(test, records, acc) == Ok(r)
    requires forall k :: 0 <= k < |acc| ==> IsLower(acc[k])
    ensures forall x :: x in acc ==> x in r
    ensures forall n :: n in FrontedNames(test, records) ==> Lower(n) in r
    ensures forall k :: 0 <= k < |r| ==> IsLower(r[k])
    decreases |records|
  {
    if records != [] {
      var rest := records[1..];
      var n := records[0].name.GetOr([]);
      var acc' := if Named(records[0]) && n !in acc && test(n) == Ok(true)
                  then acc + [Lower(n)] else acc;
      LowerNormalises(n);
      assert forall k :: 0 <= k < |acc'| ==> IsLower(acc'[k]);
      CollectComplete(test, rest, acc', r);
      if Named(records[0]) && n in acc {
        LowerNormalises(n);
        var k :| 0 <= k < |acc| && acc[k] == n;
        assert IsLower(n);
      }
    }
  }

  /** With lower-case record names the loop returns the starting list
      followed by the first occurrence of each fronted name that is not
      already listed: a repeated name is skipped once collected, and a
      name that missed is tested again and misses again. */
  lemma {:induction false} CollectExact(test: Test, records: seq<DnsRecord>, acc: seq<string>)
    requires forall n :: n in Candidates(records) ==> IsLower(n)
    requires CollectFrom(test, records, acc).Ok?
    ensures CollectFrom(test, records, acc) == Ok(acc + FirstNew(FrontedNames(test, records), acc))
    decreases |records|
  {
    if records == [] {
      assert acc + [] == acc;
    } else {
      var acc' := ExactStep(test, records, acc);
      FirstNewStep(test, records, acc);
      CollectExact(test, records[1..], acc');
    }
  }

  /** The accumulated list after the head record, for lower-case names. */
  function NextAcc(test: Test, rec: DnsRecord, acc: seq<string>): seq<string> {
    if Named(rec) && rec.name.value !in acc && test(rec.name.value) == Ok(true)
    then acc + [rec.name.value] else acc
  }

  /** One record of the loop, with the fault excluded: the rest of the loop
      continues from `NextAcc`, over lower-case names again. */
  lemma ExactStep(test: Test, records: seq<DnsRecord>, acc: seq<string>) returns (acc': seq<string>)
    requires records != []
    requires forall n :: n in Candidates(records) ==> IsLower(n)
    requires CollectFrom(test, records, acc).Ok?
    ensures acc' == NextAcc(test, records[0], acc)
    ensures CollectFrom(test, records, acc) == CollectFrom(test, records[1..], acc')
    ensures forall n :: n in Candidates(records[1..]) ==> IsLower(n)
  {
    acc' := NextAcc(test, records[0], acc);
    var n := records[0].name.GetOr([]);
    assert Candidates(records) == (if Named(records[0]) then [n] else []) + Candidates(records[1..]);
    LowerNormalises(n);
  }

  /** The same record for the fronted names: what `FirstNew` keeps from the
      head is what `NextAcc` appended. */
  lemma FirstNewStep(test: Test, records: seq<DnsRecord>, acc: seq<string>)
    requires records != []
    ensures acc + FirstNew(FrontedNames(test, records), acc)
      == NextAcc(test, records[0], acc) + FirstNew(FrontedNames(test, records[1..]), NextAcc(test, records[0], acc))
  {
    var fr := FrontedNames(test, records[1..]);
    var n := records[0].name.GetOr([]);
    if Named(records[0]) && test(n) == Ok(true) {
      assert FrontedNames(test, records) == [n] + fr;
      if n !in acc {
        assert acc + ([n] + FirstNew(fr, acc + [n])) == acc + [n] + FirstNew(fr, acc + [n]);
      }
    } else {
      assert FrontedNames(test, records) == fr;
    }
  }

  /** When every record name is lower-case already, the loop never
      appends a name twice: the skip test then sees the same spelling that
      was appended. */
  lemma {:induction false} CollectDistinct(test: Test,
                                           records: seq<DnsRecord>, acc: seq<string>, r: seq<string>)
    requires CollectFrom(test, records, acc) == Ok(r)
    requires forall n :: n in Candidates(records) ==> IsLower(n)
    requires NoDuplicates(acc)
    ensures NoDuplicates(r)
    decreases |records|
  {
    if records == [] {
      assert r == acc;
    } else {
      var rest := records[1..];
      var n := records[0].name.GetOr([]);
      assert Candidates(records) == (if Named(records[0]) then [n] else []) + Candidates(rest);
      if Named(records[0]) && n !in acc && test(n) == Ok(true) {
        LowerNormalises(n);
        DistinctAppend(acc, n);
        CollectDistinct(test, rest, acc + [Lower(n)], r);
      } else {
        CollectDistinct(test, rest, acc, r);
      }
    }
  }

  /** A fault of the loop comes from the membership test of one of the
      record names. */
  lemma {:induction false} CollectFault(test: Test,
                                        records: seq<DnsRecord>, acc: seq<string>)
    requires CollectFrom(test, records, acc).Err?
    ensures exists k :: (0 <= k < |records| && Named(records[k])
      && test(records[k].name.value) == Err(CollectFrom(test, records, acc).error))
    decreases |records|
  {
    var rest := records[1..];
    var n := records[0].name.GetOr([]);
    if !(Named(records[0]) && n !in acc && test(n).Err?) {
      var acc' := if Named(records[0]) && n !in acc && test(n) == Ok(true)
                  then acc + [Lower(n)] else acc;
      CollectFault(test, rest, acc');
      var k :| 0 <= k < |rest| && Named(rest[k])
        && test(rest[k].name.value) == Err(CollectFrom(test, rest, acc').error);
      assert records[k + 1] == rest[k];
    }
  }

  /** Where a scoped domain comes from: the target itself when it is
      fronted, or the lower-cased form of a fronted record name. */
  predicate FromFrontedSource(test: Test, domain: string, records: seq<DnsRecord>, d: string) {
    (d == domain && test(domain) == Ok(true))
    || exists n :: n in FrontedNames(test, records) && d == Lower(n)
  }

  /** Every domain of the expanded scope comes from a fronted source, and
      the scope is no longer than the record list (or one, for the
      single-target fallback). */
  lemma ExpandSound(p: Provider, domain: string, ranges: seq<RangeEntry>, noDns: bool,
                    enumeration: Option<seq<DnsRecord>>, resolve: Resolver, scope: seq<string>)
    requires Expand(p, domain, ranges, noDns, enumeration, resolve) == Ok(scope)
    ensures forall d :: d in scope ==>
      FromFrontedSource(Membership(p, ranges, resolve), domain, enumeration.GetOr([]), d)
    ensures |scope| <= if noDns || |enumeration.GetOr([])| > WildcardThreshold then 1 else |enumeration.GetOr([])|
  {
    var test := Membership(p, ranges, resolve);
    var records := enumeration.GetOr([]);
    if !noDns && |records| <= WildcardThreshold {
      CollectSound(test, records, [], scope);
      assert scope[0..] == scope;
      var lowered := Map(Lower, FrontedNames(test, records));
      forall d | d in scope ensures FromFrontedSource(test, domain, records, d) {
        SubseqMembers(scope, lowered, d);
        var k :| 0 <= k < |lowered| && lowered[k] == d;
        assert FrontedNames(test, records)[k] in FrontedNames(test, records);
      }
    }
  }

  /** When the records are used, every fronted record name is in the
      scope, lower-cased, and the whole scope is lower-case. */
  lemma ExpandComplete(p: Provider, domain: string, ranges: seq<RangeEntry>, noDns: bool,
                       enumeration: Option<seq<DnsRecord>>, resolve: Resolver, scope: seq<string>)
    requires Expand(p, domain, ranges, noDns, enumeration, resolve) == Ok(scope)
    requires !noDns && |enumeration.GetOr([])| <= WildcardThreshold
    ensures forall n :: n in FrontedNames(Membership(p, ranges, resolve), enumeration.GetOr([])) ==> Lower(n) in scope
    ensures forall k :: 0 <= k < |scope| ==> IsLower(scope[k])
  {
    CollectComplete(Membership(p, ranges, resolve), enumeration.GetOr([]), [], scope);
  }

  /** When the records are used and their names are all lower-case, the
      scope holds no domain twice. */
  lemma ExpandDistinct(p: Provider, domain: string, ranges: seq<RangeEntry>, noDns: bool,
                       enumeration: Option<seq<DnsRecord>>, resolve: Resolver, scope: seq<string>)
    requires Expand(p, domain, ranges, noDns, enumeration, resolve) == Ok(scope)
    requires forall k :: 0 <= k < |enumeration.GetOr([])| && Named(enumeration.GetOr([])[k]) ==>
      IsLower(enumeration.GetOr([])[k].name.value)
    ensures NoDuplicates(scope)
  {
    var records := enumeration.GetOr([]);
    var test := Membership(p, ranges, resolve);
    if !noDns && |records| <= WildcardThreshold {
      FrontedAreCandidates(test, records);
      CollectDistinct(test, records, [], scope);
    }
  }

  /** When the records are used and their names are all lower-case, the
      scope is exactly the fronted record names, each at its first
      occurrence, in record order. */
  lemma ExpandExact(p: Provider, domain: string, ranges: seq<RangeEntry>, noDns: bool,
                    enumeration: Option<seq<DnsRecord>>, resolve: Resolver)
    requires !noDns && |enumeration.GetOr([])| <= WildcardThreshold
    requires forall n :: n in Candidates(enumeration.GetOr([])) ==> IsLower(n)
    requires Expand(p, domain, ranges, noDns, enumeration, resolve).Ok?
    ensures Expand(p, domain, ranges, noDns, enumeration, resolve)
      == Ok(FirstNew(FrontedNames(Membership(p, ranges, resolve), enumeration.GetOr([])), []))
  {
    var names := FrontedNames(Membership(p, ranges, resolve), enumeration.GetOr([]));
    CollectExact(Membership(p, ranges, resolve), enumeration.GetOr([]), []);
    assert [] + FirstNew(names, []) == FirstNew(names, []);
  }
}
