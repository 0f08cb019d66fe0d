/** The three CDN providers the scripts target, and what differs between
    them: the edge-host suffix and the misconfiguration signature of the
    probe. (The range payload shapes are in RangeSources.) */
module Providers {
  import opened Strings

  datatype Provider = CloudFront | Fastly | MaxCdn

  /** A domain ending with this suffix is the provider's own edge host
      name and is never treated as a customer domain. */
  function EdgeSuffix(p: Provider): string {
    match p
    case CloudFront => "cloudfront.net"
    case Fastly => "global.prod.fastly.net"
    case MaxCdn => "netdna-cdn.com"
  }

  /** What `urlopen(url)` (and reading the body) ends in. */
  datatype HttpOutcome =
    /** The request completed; `body` is what `read()` returned. */
    | Response(body: string)
    /** `HTTPError`: `code` is `e.code`, `text` is `str(e)`, `body` is
        `e.fp.read()`. */
    | HttpError(code: int, text: string, body: string)
    /** A `URLError` that is not an `HTTPError` (TLS failure, refused
        connection, DNS failure); `text` is `str(e)`. */
    | UrlError(text: string)
    /** Any other exception (a timeout, a reset during `read()`). */
    | OtherError

  /** The network as an oracle from URL to outcome. */
  type Fetcher = string -> HttpOutcome

  /** The probe's decision for one domain. `Escapes` is CloudFront's crash:
      the exception raised inside the handler leaves `find_cf_issues`. */
  datatype Verdict = Flagged | Clean | Escapes

  function HttpUrl(domain: string): string { "http://" + domain }
  function HttpsUrl(domain: string): string { "https://" + domain }

  /** CloudFront: plain HTTP answers 403 with `Bad request`, and HTTPS then
      fails with a handshake error or the same 403. */
  function ClassifyCloudFront(fetch: Fetcher, domain: string): Verdict {
    match fetch(HttpUrl(domain))
    case HttpError(code, _, body) =>
      if code == 403 && Contains(body, "Bad request") then
        match fetch(HttpsUrl(domain))
        case HttpError(code2, text2, body2) =>
          if Contains(Lower(text2), "handshake") || (code2 == 403 && Contains(body2, "Bad request"))
          then Flagged else Clean
        case UrlError(text2) =>
          // `e.code` on a plain URLError raises AttributeError
          if Contains(Lower(text2), "handshake") then Flagged else Escapes
        case _ => Clean
      else Clean
    case _ => Clean
  }

  /** MaxCDN: `StackPath` in the page, whether it came as a success or as an
      HTTPError carrying code 200. */
  function ClassifyMaxCdn(fetch: Fetcher, domain: string): Verdict {
    match fetch(HttpUrl(domain))
    case Response(body) => if Contains(body, "StackPath") then Flagged else Clean
    case HttpError(code, _, body) =>
      if code == 200 && Contains(body, "StackPath") then Flagged else Clean
    case _ => Clean
  }

  /** Fastly: HTTP 500 whose body says `unknown domain`. */
  function ClassifyFastly(fetch: Fetcher, domain: string): Verdict {
    match fetch(HttpUrl(domain))
    case HttpError(code, _, body) =>
      if code == 500 && Contains(body, "unknown domain") then Flagged else Clean
    case _ => Clean
  }

  function Classify(p: Provider, fetch: Fetcher, domain: string): Verdict {
    match p
    case CloudFront => ClassifyCloudFront(fetch, domain)
    case Fastly => ClassifyFastly(fetch, domain)
    case MaxCdn => ClassifyMaxCdn(fetch, domain)
  }

  /** CloudFront flags a domain exactly on the two-step signature. */
  lemma CloudFrontFlagRule(fetch: Fetcher, domain: string)
    ensures Classify(CloudFront, fetch, domain) == Flagged <==>
      && fetch(HttpUrl(domain)).HttpError?
      && fetch(HttpUrl(domain)).code == 403
      && Contains(fetch(HttpUrl(domain)).body, "Bad request")
      && match fetch(HttpsUrl(domain))
         case HttpError(c, t, b) => Contains(Lower(t), "handshake") || (c == 403 && Contains(b, "Bad request"))
         case UrlError(t) => Contains(Lower(t), "handshake")
         case _ => false
  {
  }

  /** A successful plain fetch, or a successful HTTPS retry, is never
      flagged, and neither crashes. */
  lemma CloudFrontSuccessClean(fetch: Fetcher, domain: string)
    ensures fetch(HttpUrl(domain)).Response? ==> Classify(CloudFront, fetch, domain) == Clean
    ensures fetch(HttpsUrl(domain)).Response? ==> Classify(CloudFront, fetch, domain) == Clean
  {
  }

  /** The crash happens exactly on a plain URLError without `handshake`
      after the 403 `Bad request` of the plain fetch. */
  lemma CloudFrontEscapeRule(fetch: Fetcher, domain: string)
    ensures Classify(CloudFront, fetch, domain) == Escapes <==>
      && fetch(HttpUrl(domain)).HttpError?
      && fetch(HttpUrl(domain)).code == 403
      && Contains(fetch(HttpUrl(domain)).body, "Bad request")
      && fetch(HttpsUrl(domain)).UrlError?
      && !Contains(Lower(fetch(HttpsUrl(domain)).text), "handshake")
  {
  }

  lemma MaxCdnFlagRule(fetch: Fetcher, domain: string)
    ensures Classify(MaxCdn, fetch, domain) == Flagged <==>
      match fetch(HttpUrl(domain))
      case Response(b) => Contains(b, "StackPath")
      case HttpError(c, _, b) => c == 200 && Contains(b, "StackPath")
      case _ => false
    ensures Classify(MaxCdn, fetch, domain) != Escapes
  {
  }

  lemma FastlyFlagRule(fetch: Fetcher, domain: string)
    ensures Classify(Fastly, fetch, domain) == Flagged <==>
      && fetch(HttpUrl(domain)).HttpError?
      && fetch(HttpUrl(domain)).code == 500
      && Contains(fetch(HttpUrl(domain)).body, "unknown domain")
    ensures !fetch(HttpUrl(domain)).HttpError? ==> Classify(Fastly, fetch, domain) == Clean
  {
  }
}
