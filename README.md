# CloudFrunt decision core in Dafny

CloudFrunt (`cloudfrunt.py`), together with its siblings `MaxCDNfrunt.py` and
`fastlyfrunt.py`, looks for domains that point at a CDN but that no CDN customer
configuration claims any more. Each script runs one pipeline for one
provider:

1. Fetch the provider's published IP ranges.
2. Expand each target domain into a scope. The scope is taken from the
   enumerated DNS records whose names resolve into those ranges.
3. Probe each domain of the scope over HTTP for the provider's
   "no such distribution" signature.
4. For CloudFront only, optionally claim each flagged domain. The domain is
   added as an alias (CNAME) of a distribution the user owns.

This project models that pipeline once, parameterised by a `Provider`
(`CloudFront`, `Fastly`, `MaxCdn`). The three providers differ in three
things:
- the edge host suffix (`cloudfront.net`, `global.prod.fastly.net`,
  `netdna-cdn.com`);
- the shape of the range payload: the AWS JSON `prefixes`, the Fastly JSON
  `addresses`, or MaxCDN's text with one range per line;
- the probe signature.

The scripts share everything else line for line. Generic members below cite
`cloudfrunt.py`. The same code sits in the other two files:

| cloudfrunt.py | MaxCDNfrunt.py | fastlyfrunt.py |
|---|---|---|
| `get_cf_domain` 119-137 | `get_maxcdn_domain` 115-133 | `get_fastly_domain` 116-134 |
| `recon_target` 91-116 | `recon_target` 87-112 | `recon_target` 88-113 |
| `main` 387-397 | `main` 206-216 | `main` 203-213 |

Each provider-specific member cites its own file.

The network, DNS and the AWS client are parameters:
- `Resolver` stands for `socket.gethostbyname_ex(...)[2]`. It gives None when
  the lookup raises.
- `Fetcher` maps a URL to an `HttpOutcome`: a response body, an `HTTPError`
  with code, text and body, a plain `URLError` with its text, or any other
  exception.
- The DNS enumeration output is an `Option<seq<DnsRecord>>`. None is an
  `output.json` that could not be loaded.
- The CloudFront account is the class `Distributions.Account`, holding a map
  from distribution id to `Aliases`.

The model keeps two behaviours of the code that are easy to miss:
- **Lazy range parsing.** `IPNetwork(ip_range)` parses a range only when the
  nested scan reaches it, and an unparseable range raises out of the whole
  test. The model keeps range strings as text, parses them in the scan, and
  returns `Err(MalformedRange(entry))` for a malformed one that is reached.
  Ranges after a hit are never looked at.
- **The CloudFront crash path.** A plain `URLError` without `handshake` on
  the HTTPS retry evaluates `e.code`, which does not exist, inside the
  exception handler. The resulting exception leaves `find_cf_issues`. The
  model's verdict `Escapes` makes the whole probe return
  `Err(UrlErrorWithoutCode(domain))`.

Two points where the code and its description differ; the model follows the
code:
- **Target normalisation.** Duplicates are removed with `set` *before* the
  targets are lower-cased, so `A.com` and `a.com` both survive as `a.com`
  (`Targets.CaseVariantsSurvive`). Duplicate removal is not
  case-insensitive.
- **Record de-duplication.** `recon_target` checks the raw record name
  against the list of lower-cased names already collected. A capitalised
  name that comes after its lower-case form is tested and collected again
  (`Scenarios.RecordOrderDecidesDuplicates`). With lower-case names the
  scope is the first occurrence of each fronted name
  (`Expander.CollectExact`).

Files:
- `common.dfy`: Option, Result and the Fault datatype.
- `seqs.dfy`: subsequences, Filter, Map, and FirstNew (the first occurrence
  of each entry not seen before).
- `strings.dfy`: `in`, `endswith`, `lower`, `strip`, `split` and decimals on
  `seq<char>`.
- `ipv4.dfy`: addresses, CIDR blocks, parsing and printing.
- `providers.dfy`: the classifiers.
- `ranges.dfy`: the range payloads.
- `filter.dfy`: the membership test.
- `expander.dfy`: scope expansion.
- `probe.dfy`: the probe loop.
- `distributions.dfy`: alias bookkeeping.
- `targets.dfy`: the target list.
- `pipeline.dfy`: the per-target composition.
- `scenarios.dfy`: concrete worked cases.

## Model

| member | source | states |
|---|---|---|
| RangeSources.CloudFrontRanges | cloudfrunt.py:82-86 | the loop returns the `ip_prefix` of exactly the `prefixes` entries whose service is `CLOUDFRONT`, in payload order (a missing key is None) |
| RangeSources.CloudFrontSelection | cloudfrunt.py:82-86 | the kept entries are an order-preserving subsequence of the payload; an entry is kept if and only if it is a CLOUDFRONT entry; there are no more ranges than prefixes |
| RangeSources.FastlyRanges | fastlyfrunt.py:80-83 | the range list is the `addresses` array, element for element, in order |
| RangeSources.MaxCdnRanges | MaxCDNfrunt.py:80-83 | the character loop that iterates the response yields one range string per line of the payload, newline kept, unfiltered and in order |
| RangeSources.LinesConcat | MaxCDNfrunt.py:80-83 | the lines joined back together give the payload, so nothing is lost or reordered |
| RangeSources.LinesShape | MaxCDNfrunt.py:80-83 | every line is non-empty, holds a newline only as its last character, and every line but the last ends with a newline |
| RangeSources.LinesCount | MaxCDNfrunt.py:80-83 | the number of ranges is the number of newlines, plus one for a final unterminated line |
| Ipv4.InNetworkIffPrefixMatch | cloudfrunt.py:133-134 | netaddr's interval test first <= a <= last holds exactly when the top `len` bits of the address and the block agree (section 3.1 of RFC 4632) |
| Ipv4.BlockBounds | cloudfrunt.py:133-134 | a block's network and broadcast addresses lie in the 32-bit space and bracket the block's own address |
| Ipv4.BlockExtremes | cloudfrunt.py:133-134 | a /0 block holds every address; a /32 block holds exactly its own address |
| Ipv4.CidrRoundTrip | cloudfrunt.py:133 | printing a block as `a.b.c.d/len` and parsing it with the `IPNetwork` parser gives the same block |
| Ipv4.QuadRoundTrip | cloudfrunt.py:133 | a printed dotted quad parses back to the same address and holds no `/` |
| CdnFilter.IsFronted | cloudfrunt.py:119-137 | the nested loops with early return compute the membership specification, including the early `False` for edge hosts and the fault on the first malformed range reached |
| CdnFilter.ScanRangesAnswer | cloudfrunt.py:132-136 | an inner-scan hit means some range parses and holds the address; a miss means every range parsed and none holds it |
| CdnFilter.ScanRangesExact | cloudfrunt.py:132-136 | over well-formed ranges the inner scan never faults and answers exactly whether some range holds the address |
| CdnFilter.ScanRangesFault | cloudfrunt.py:132-134 | a fault names the first unparseable range; every range before it parsed and none held the address |
| CdnFilter.ScanAddressesMeaning | cloudfrunt.py:131-137 | over well-formed ranges the scan answers exactly whether some resolved address lies in some range; true always means that; a fault needs an address and an unparseable range in the list |
| CdnFilter.FrontedExact | cloudfrunt.py:119-137 | over well-formed ranges the test is true if and only if the domain does not end with the edge suffix and one of its addresses lies in a range |
| CdnFilter.FrontedSound | cloudfrunt.py:119-137 | a true answer is justified whatever the ranges; a fault happens only for a non-edge domain with at least one address and a malformed range in the list |
| CdnFilter.FrontedNegatives | cloudfrunt.py:121-129 | an edge host is never fronted, and its answer depends on neither DNS nor ranges; a failed lookup gives false; an empty range list gives false |
| CdnFilter.CoversByPrefix | cloudfrunt.py:132-134 | "some range holds the address" read as "some range's prefix matches the address" |
| Expander.ReconTarget | cloudfrunt.py:91-116 | `recon_target` as written computes the expansion specification: the no-DNS fallback, the wildcard fallback, and the record loop |
| Expander.CollectNames | cloudfrunt.py:111-116 | the record loop with its raw-name skip test computes the collection specification |
| Expander.ExpandFallbacks | cloudfrunt.py:93-109 | with `no_dns`, or more than 1000 records, only the target is tested; an enumeration output that cannot be loaded gives an empty scope |
| Expander.SeedOnlyMeaning | cloudfrunt.py:104-109 | the fallback gives `[domain]` exactly when the target is fronted, `[]` exactly when it is not, and the test's fault otherwise |
| Expander.FrontedAreCandidates | cloudfrunt.py:112-113 | the fronted names are an order-preserving subsequence of the truthy record names, and a name is a candidate exactly when some record carries it |
| Expander.CollectSound | cloudfrunt.py:111-116 | the loop keeps what it started with as a prefix; what it adds is an order-preserving subsequence of the lower-cased fronted names, at most one per record |
| Expander.CollectComplete | cloudfrunt.py:111-116 | every fronted name ends up in the list in lower case, and the whole list is lower case |
| Expander.CollectExact | cloudfrunt.py:111-116 | with lower-case names, repeated or not, a loop that does not fault returns the starting list followed by the first occurrence of each fronted name not already listed, in record order |
| Expander.CollectDistinct | cloudfrunt.py:111-116 | when every record name is already lower case, no name is collected twice |
| Expander.CollectFault | cloudfrunt.py:113 | a fault of the loop is the fault of the membership test of some named record |
| Expander.ExpandSound | cloudfrunt.py:91-116 | every scoped domain is the fronted target or the lower-cased form of a fronted record name; the scope has at most one entry in the fallbacks and at most one per record otherwise |
| Expander.ExpandComplete | cloudfrunt.py:111-116 | when the records are used, every fronted record name is in the scope in lower case, and the scope is lower case |
| Expander.ExpandDistinct | cloudfrunt.py:111-116 | with lower-case record names the scope has no duplicates |
| Expander.ExpandExact | cloudfrunt.py:111-116 | when the records are used and their names are lower case, a scope without a fault is exactly the first occurrence of each fronted record name, in record order |
| Providers.CloudFrontFlagRule | cloudfrunt.py:145-153 | a domain is flagged exactly when plain HTTP fails with 403 and `Bad request`, and HTTPS then fails with `handshake` in its lower-cased text or again with 403 and `Bad request` |
| Providers.CloudFrontSuccessClean | cloudfrunt.py:145-150 | a successful plain fetch or a successful HTTPS retry is never flagged and never crashes |
| Providers.CloudFrontEscapeRule | cloudfrunt.py:147-154 | the probe crashes exactly on a plain `URLError` without `handshake` after the 403 `Bad request` |
| Providers.MaxCdnFlagRule | MaxCDNfrunt.py:141-153 | a domain is flagged exactly when a success body, or the body of an HTTPError with code 200, contains `StackPath`; the MaxCDN probe never crashes |
| Providers.FastlyFlagRule | fastlyfrunt.py:142-150 | a domain is flagged exactly when an HTTPError has code 500 and a body containing `unknown domain`; anything but an HTTPError is clean |
| Probe.FindIssues | cloudfrunt.py:140-159 | the probe loop computes the probe specification, stopping with the first crash |
| Probe.IssuesReported | cloudfrunt.py:140-159 | a probe that completes reports exactly the flagged domains, in scope order |
| Probe.IssuesFault | cloudfrunt.py:144-157 | the probe crashes if and only if some domain crashes it, and the fault names the first such domain |
| Probe.FlaggedSelection | cloudfrunt.py:140-159 | the report is an order-preserving subsequence of the scope, holding exactly the scope's flagged domains |
| Probe.NonCloudFrontTotal | MaxCDNfrunt.py:136-155 | the MaxCDN and Fastly probes always complete and report exactly their flagged domains |
| Pipeline.RunTarget | cloudfrunt.py:402 | expansion then probe; a fault of either ends the whole run |
| Pipeline.ReportedAreFlaggedAndFronted | cloudfrunt.py:402 | every reported domain shows the provider's signature and is the fronted target or a fronted record name |
| Distributions.WithAlias | cloudfrunt.py:183-188 | the new alias is the last item, earlier items unchanged (an absent `Items` starts empty), and the quantity is one higher |
| Distributions.WithAliasConsistent | cloudfrunt.py:183-188 | appending keeps the quantity equal to the item count |
| Distributions.AddPlanEffect | cloudfrunt.py:162-203 | with no id a distribution is created; a distribution holding 100 aliases is never appended to and a new one is used; the used distribution gets the domain as its last alias and one more in quantity unless the update is rejected; others are unchanged; the used id is returned |
| Distributions.AddPlanKeepsLimit | cloudfrunt.py:177-188 | no distribution ever holds more than 100 aliases, and quantity keeps agreeing with items |
| Distributions.AddAllKeepsLimit | cloudfrunt.py:407-410 | the limit and that agreement hold over the whole loop of `main`, whatever the service answers to each update |
| Distributions.AddPlanKeepsAliases | cloudfrunt.py:183-186 | aliases already present stay, in order |
| Distributions.AddAllKeepsAliases | cloudfrunt.py:407-410 | no alias is lost over the whole loop |
| Distributions.AddAllAccepted | cloudfrunt.py:407-410 | every domain whose own update the service accepted is an alias of some distribution at the end; the service's answer is given per update, so one domain may be accepted once and refused later |
| Distributions.Account.constructor | cloudfrunt.py:371-372 | a fresh account has no distributions |
| Distributions.Account.CreateDistribution | cloudfrunt.py:317-327 | one new distribution with no aliases, under a fresh id that is returned |
| Distributions.Account.UpdateDistribution | cloudfrunt.py:192-198 | the new configuration is stored unless the CNAME is rejected |
| Distributions.AddDomain | cloudfrunt.py:162-203 | the account after `add_domain` and the returned id are those of the plan |
| Distributions.AddDomains | cloudfrunt.py:407-410 | the account after the loop and the id carried on are those of the loop plan |
| Targets.FileTargets | cloudfrunt.py:60-65 | one target per line; a target has no whitespace at either end and no line break, and its line is the target with only whitespace added around it |
| Targets.FileTargetsFromText | cloudfrunt.py:60-65 | the file is the concatenation of lines that are, one by one, the targets padded with whitespace |
| Targets.ArgumentTargets | cloudfrunt.py:390-392 | one target per comma-separated piece of `--domains`; a target has no whitespace at either end and no comma, and its piece is the target with only whitespace added around it |
| Targets.ArgumentTargetsFromText | cloudfrunt.py:390-392 | the argument is the comma join of pieces that are, one by one, the targets padded with whitespace |
| Targets.AssembleTargets | cloudfrunt.py:365-392 | the list `main` builds is the file's targets followed by those of a non-empty `--domains` |
| Targets.RawTargetsMembers | cloudfrunt.py:387-392 | the raw list holds exactly the targets of the file and of a non-empty `--domains`, none with whitespace at either end |
| Targets.TargetsFromInputs | cloudfrunt.py:387-397 | the normalised list holds the lower-cased form of every target of the file and of `--domains` and nothing else, each lower case with no whitespace at either end |
| Targets.NormaliseTargets | cloudfrunt.py:397 | the result is some duplicate-free ordering of the distinct raw targets, each lower-cased |
| Targets.NormalisationMeaning | cloudfrunt.py:397 | one entry per distinct raw target, all lower case; the lower-cased form of every raw target appears and nothing else; no duplicates when the raw targets were lower case |
| Targets.CaseVariantsSurvive | cloudfrunt.py:397 | `A.com` and `a.com` both survive as `a.com` |
| Strings.StripStripped | cloudfrunt.py:64 | `strip()` never starts or ends with whitespace |
| Strings.StripPadded | cloudfrunt.py:64 | `strip()` drops whitespace only, and only at the two ends |
| Strings.StripKeepsAbsent | cloudfrunt.py:64 | `strip()` introduces no character, so a comma-free or newline-free piece stays so |
| Strings.StripFixed | cloudfrunt.py:64 | a text without whitespace at either end is its own `strip()`, so `strip()` is idempotent |
| Strings.JoinSplit | cloudfrunt.py:391 | the pieces of `split(',')`, joined with commas, give back the argument: nothing is lost |
| Strings.SplitJoin | cloudfrunt.py:391 | splitting a comma join of comma-free pieces gives back exactly those pieces, so split and join are inverse |
| Strings.LowerNormalises | cloudfrunt.py:397 | `lower()` gives a lower-case text and leaves a lower-case text unchanged |
| Strings.ContainsIff | cloudfrunt.py:148 | the `in` operator on strings holds exactly when the text occurs at some offset |
| Scenarios.DocRangeText | cloudfrunt.py:133 | the sample block prints as `192.0.2.0/24` |
| Scenarios.FrontedHit | cloudfrunt.py:131-136 | 192.0.2.55 in 192.0.2.0/24 is fronted |
| Scenarios.FrontedMiss | cloudfrunt.py:131-137 | 203.0.113.1 is not fronted by that range |
| Scenarios.EdgeNameExample | cloudfrunt.py:121-122 | `d1.cloudfront.net` is not fronted even when it resolves into the range |
| Scenarios.LazyParseExamples | cloudfrunt.py:132-136 | a hit before an unparseable range answers true; a miss reaches it and faults |
| Scenarios.RecordOrderDecidesDuplicates | cloudfrunt.py:112-114 | the order of two spellings of one name decides whether it is collected once or twice |
| Scenarios.FallbackExamples | cloudfrunt.py:99-109 | an unreadable enumeration gives an empty scope; with `no_dns` the fronted target alone is kept |
| Scenarios.CloudFrontExamples | cloudfrunt.py:145-157 | a handshake failure flags, a refused connection crashes the probe, a success is clean |
| Scenarios.SignatureExamples | MaxCDNfrunt.py:142-151 | the MaxCDN and Fastly signatures on sample outcomes |
| Scenarios.SameDomainTwice | cloudfrunt.py:192-198 | a domain flagged twice is added once when the second update is refused as `CNAMEAlreadyExists` |

## Left out

- Fetching the range payloads, and the unbounded `urlopen` and boto3 retry loops, are not modelled. They are non-terminating I/O; the model starts from an already-fetched payload or an abstract account.
- The range payloads are taken as already-decoded values. Invalid JSON, a missing `prefixes` or `addresses` key, and non-string JSON values are not modelled.
- Running dnsrecon, `patch_dnsrecon`, and reading and deleting `output.json` are replaced by the enumeration result as a parameter.
- `socket.gethostbyname_ex` and `urlopen` are oracles (`Resolver`, `Fetcher`). Timeouts and redirects are folded into the outcome datatype. The oracles are functions, so the model assumes every answer stays the same within a run. The source makes a new DNS lookup or HTTP request every time: a repeated record name is tested twice (`Scenarios.RecordOrderDecidesDuplicates`), and a duplicated scope entry is probed twice. Both calls could get different answers there, but the model gives the same one.
- Command-line parsing and validation, the help text, all printing, and the results file are not modelled. `get_domains` is modelled from the file's text onward.
- The main loop over targets (cloudfrunt.py:399-418) is modelled piece by piece, not as one loop. For each target it runs `Pipeline.RunTarget`. With `--origin` it then runs `Distributions.AddDomains` on the reported domains, and the distribution id carries over to the next target. With `--save` it appends the scope to `results.txt`, which is not modelled. Nothing catches a `Fault`, so a fault ends the whole run: no later target is scanned, and the faulting target's domains never reach `add_domain`. The composition of these steps over the target list is not modelled as a member of its own.
- `create_distribution`'s configuration literal is not modelled beyond its alias part: quantity 0, no items. Real distribution ids are opaque strings from AWS; the model numbers them in creation order.
- Distributions.AddDomain: requires an id that names an existing distribution. For any other id the configuration-fetch loop retries forever and `add_domain` does not return.
- Distributions.AddDomain: other non-retried boto3 failures are not modelled. The only outcomes are an accepted update and a rejected one (`CNAMEAlreadyExists`).
- `get_domains` splits the file at `'\n'` only. Python 3's `readlines()` in text mode also ends a line at a lone `'\r'` and reads `"\r\n"` as one line end; the `'\r'` left at a line's end is whitespace and `strip()` removes it, but a lone `'\r'` inside a line is not treated as a line end.
- Python 2/3 bytes-versus-string differences in reading bodies are not modelled. Bodies are strings.
- The CIDR parser is a strict subset of netaddr: a dotted quad without leading zeros, optionally followed by `/N` with N at most 32 (whitespace around N allowed, as `int()` reads it). netaddr's lenient forms are treated as malformed. When `inet_pton` rejects the address part, netaddr falls back to `expand_partial_address`, which accepts more than partial addresses. Examples:
  - a partial address such as `10.1/16`;
  - a full quad with leading zeros, `01.2.3.0/24`;
  - a full quad with whitespace in an octet;
  - a MaxCDN line with no slash, `"1.2.3.4\n"`, read as a /32;
  - netmask suffixes and IPv6.

  `Ipv4.ParseCidr` rejects all of these, so `ScanRanges` faults with `MalformedRange` where the source goes on. The model's fault path is therefore wider than the source's. `int()`'s signs and underscores are not modelled.
- IPv6 is not modelled. The resolver used returns IPv4 addresses only.
- `str.lower()` is modelled on ASCII letters only. Unicode case mapping is not modelled.
- The iteration order of a Python `set` is not modelled. `Targets.NormaliseTargets` allows any order.
