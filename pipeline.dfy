/** One target through the whole pipeline: expand the scope, then probe
    it (`find_cf_issues(recon_target(target, ...))` in `main`). */
module Pipeline {
  import opened Common
  import opened Strings
  import opened Providers
  import opened CdnFilter
  import opened Expander
  import opened Probe

  /** The domains reported for one target. `enumerate` stands for running
      the DNS enumeration on the target and loading its output. */
  function ScanTarget(p: Provider, ranges: seq<RangeEntry>, noDns: bool,
                      enumerate: string -> Option<seq<DnsRecord>>, resolve: Resolver,
                      fetch: Fetcher, target: string): ListResult
  {
    match Expand(p, target, ranges, noDns, enumerate(target), resolve)
    case Err(f) => Err(f)
    case Ok(scope) => Issues(p, fetch, scope)
  }

  method RunTarget(p: Provider, ranges: seq<RangeEntry>, noDns: bool,
                   enumerate: string -> Option<seq<DnsRecord>>, resolve: Resolver,
                   fetch: Fetcher, target: string) returns (r: ListResult)
    ensures r == ScanTarget(p, ranges, noDns, enumerate, resolve, fetch, target)
  {
    var scope := ReconTarget(p, target, ranges, noDns, enumerate(target), resolve);
    if scope.Err? {
      return Err(scope.error);
    }
    r := FindIssues(p, fetch, scope.value);
  }

  /** Every reported domain shows the provider's misconfiguration
      signature and comes from a fronted source: the target itself, or a
      fronted record name of its enumeration. */
  lemma ReportedAreFlaggedAndFronted(p: Provider, ranges: seq<RangeEntry>, noDns: bool,
                                     enumerate: string -> Option<seq<DnsRecord>>, resolve: Resolver,
                                     fetch: Fetcher, target: string, found: seq<string>)
    requires ScanTarget(p, ranges, noDns, enumerate, resolve, fetch, target) == Ok(found)
    ensures forall d :: d in found ==>
      && Classify(p, fetch, d) == Flagged
      && FromFrontedSource(Membership(p, ranges, resolve), target, enumerate(target).GetOr([]), d)
  {
    var scope := Expand(p, target, ranges, noDns, enumerate(target), resolve).value;
    ExpandSound(p, target, ranges, noDns, enumerate(target), resolve, scope);
    IssuesReported(p, fetch, scope);
    FlaggedSelection(p, fetch, scope);
  }
}
