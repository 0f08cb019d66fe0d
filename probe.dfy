/** The misconfiguration probe (`find_cf_issues`, `find_fastly_issues`,
    `find_maxcdn_issues`): which domains of the expanded scope show the
    provider's "no such distribution" signature. */
module Probe {
  import opened Common
  import opened Seqs
  import opened Providers

  /** The probe loop as a specification: reported domains in scope order;
      a CloudFront crash on one domain ends the whole loop with that
      domain's fault. */
  function Issues(p: Provider, fetch: Fetcher, domains: seq<string>): ListResult
    decreases |domains|
  {
    if domains == [] then Ok([])
    else
      match Classify(p, fetch, domains[0])
      case Escapes => Err(UrlErrorWithoutCode(domains[0]))
      case Flagged => After([domains[0]], Issues(p, fetch, domains[1..]))
      case Clean => Issues(p, fetch, domains[1..])
  }

  /** `found` reported ahead of what the rest of the loop yields. */
  function After(found: seq<string>, rest: ListResult): ListResult {
    match rest
    case Ok(more) => Ok(found + more)
    case Err(f) => Err(f)
  }

  /** The probe as the scripts run it. */
  method FindIssues(p: Provider, fetch: Fetcher, domains: seq<string>) returns (r: ListResult)
    ensures r == Issues(p, fetch, domains)
  {
    var found: seq<string> := [];
    var i := 0;
    AfterNothing(Issues(p, fetch, domains));
    assert domains[i..] == domains;
    while i < |domains|
      invariant 0 <= i <= |domains|
      invariant Issues(p, fetch, domains) == After(found, Issues(p, fetch, domains[i..]))
    {
      assert domains[i..][1..] == domains[i + 1..];
      var verdict := Classify(p, fetch, domains[i]);
      if verdict == Escapes {
        return Err(UrlErrorWithoutCode(domains[i]));
      }
      if verdict == Flagged {
        AfterAfter(found, [domains[i]], Issues(p, fetch, domains[i + 1..]));
        found := found + [domains[i]];
      }
      i := i + 1;
    }
    assert found + [] == found;
    return Ok(found);
  }

  lemma AfterNothing(rest: ListResult)
    ensures After([], rest) == rest
  {
    if rest.Ok? {
      assert [] + rest.value == rest.value;
    }
  }

  lemma AfterAfter(a: seq<string>, b: seq<string>, rest: ListResult)
    ensures After(a, After(b, rest)) == After(a + b, rest)
  {
    if rest.Ok? {
      assert a + (b + rest.value) == (a + b) + rest.value;
    }
  }

  /** The domains the probe flags, in scope order: the independent
      reference for what is reported. */
  function FlaggedDomains(p: Provider, fetch: Fetcher, domains: seq<string>): seq<string>
    decreases |domains|
  {
    if domains == [] then []
    else (if Classify(p, fetch, domains[0]) == Flagged then [domains[0]] else [])
         + FlaggedDomains(p, fetch, domains[1..])
  }

  /** Whether some domain of the scope makes the CloudFront probe crash. */
  predicate SomeEscapes(p: Provider, fetch: Fetcher, domains: seq<string>) {
    exists k :: 0 <= k < |domains| && Classify(p, fetch, domains[k]) == Escapes
  }

  /** A probe that completes reports exactly the flagged domains, in
      order. */
  lemma {:induction false} IssuesReported(p: Provider, fetch: Fetcher, domains: seq<string>)
    ensures Issues(p, fetch, domains).Ok? ==> Issues(p, fetch, domains).value == FlaggedDomains(p, fetch, domains)
    decreases |domains|
  {
    if domains != [] {
      IssuesReported(p, fetch, domains[1..]);
    }
  }

  /** The probe crashes exactly when some domain crashes it, and the fault
      names the first such domain. */
  lemma {:induction false} IssuesFault(p: Provider, fetch: Fetcher, domains: seq<string>)
    ensures Issues(p, fetch, domains).Err? <==> SomeEscapes(p, fetch, domains)
    ensures Issues(p, fetch, domains).Err? ==>
      exists k :: 0 <= k < |domains| && FirstEscape(p, fetch, domains, k)
        && Issues(p, fetch, domains).error == UrlErrorWithoutCode(domains[k])
    decreases |domains|
  {
    if domains != [] {
      var rest := domains[1..];
      IssuesFault(p, fetch, rest);
      if Classify(p, fetch, domains[0]) == Escapes {
        assert FirstEscape(p, fetch, domains, 0);
      } else {
        EscapesShift(p, fetch, domains);
        if Issues(p, fetch, domains).Err? {
          var k :| 0 <= k < |rest| && FirstEscape(p, fetch, rest, k)
            && Issues(p, fetch, rest).error == UrlErrorWithoutCode(rest[k]);
          FirstEscapeShift(p, fetch, domains, k);
        }
      }
    }
  }

  /** Position `k` crashes the probe and no earlier one does. */
  predicate FirstEscape(p: Provider, fetch: Fetcher, domains: seq<string>, k: int) {
    && 0 <= k < |domains|
    && Classify(p, fetch, domains[k]) == Escapes
    && forall j :: 0 <= j < k ==> Classify(p, fetch, domains[j]) != Escapes
  }

  lemma EscapesShift(p: Provider, fetch: Fetcher, domains: seq<string>)
    requires domains != [] && Classify(p, fetch, domains[0]) != Escapes
    ensures SomeEscapes(p, fetch, domains) <==> SomeEscapes(p, fetch, domains[1..])
  {
    var rest := domains[1..];
    if SomeEscapes(p, fetch, domains) {
      var k :| 0 <= k < |domains| && Classify(p, fetch, domains[k]) == Escapes;
      assert rest[k - 1] == domains[k];
    }
    if SomeEscapes(p, fetch, rest) {
      var k :| 0 <= k < |rest| && Classify(p, fetch, rest[k]) == Escapes;
      assert domains[k + 1] == rest[k];
    }
  }

  lemma FirstEscapeShift(p: Provider, fetch: Fetcher, domains: seq<string>, k: int)
    requires domains != [] && Classify(p, fetch, domains[0]) != Escapes
    requires FirstEscape(p, fetch, domains[1..], k)
    ensures FirstEscape(p, fetch, domains, k + 1) && domains[k + 1] == domains[1..][k]
  {
    var rest := domains[1..];
    forall j | 0 <= j < k + 1 ensures Classify(p, fetch, domains[j]) != Escapes {
      if j > 0 {
        assert domains[j] == rest[j - 1];
      }
    }
  }

  /** The flagged domains are some of the scope's domains, in order, and
      exactly those the provider's rule flags. */
  lemma {:induction false} FlaggedSelection(p: Provider, fetch: Fetcher, domains: seq<string>)
    ensures Subseq(FlaggedDomains(p, fetch, domains), domains)
    ensures forall d :: d in FlaggedDomains(p, fetch, domains) <==> d in domains && Classify(p, fetch, d) == Flagged
    decreases |domains|
  {
    if domains != [] {
      var rest := domains[1..];
      var fr := FlaggedDomains(p, fetch, rest);
      FlaggedSelection(p, fetch, rest);
      assert domains == [domains[0]] + rest;
      if Classify(p, fetch, domains[0]) == Flagged {
        assert FlaggedDomains(p, fetch, domains) == [domains[0]] + fr;
        SubseqBothCons(domains[0], fr, rest);
      } else {
        assert FlaggedDomains(p, fetch, domains) == fr;
        SubseqCons(fr, domains[0], rest);
      }
    }
  }

  /** Only the CloudFront probe can crash: the Fastly and MaxCDN probes
      always report their flagged domains. */
  lemma NonCloudFrontTotal(p: Provider, fetch: Fetcher, domains: seq<string>)
    requires p != CloudFront
    ensures Issues(p, fetch, domains) == Ok(FlaggedDomains(p, fetch, domains))
  {
    IssuesReported(p, fetch, domains);
    IssuesFault(p, fetch, domains);
    if SomeEscapes(p, fetch, domains) {
      var k :| 0 <= k < |domains| && Classify(p, fetch, domains[k]) == Escapes;
      MaxCdnFlagRule(fetch, domains[k]);
    }
  }
}
