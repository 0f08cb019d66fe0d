/** Failure-compatible wrappers and the faults that escape the scanner. */
module Common {

  datatype Option<+T> = None | Some(value: T) {
    function GetOr(default: T): T {
      match this
      case Some(v) => v
      case None => default
    }
  }

  datatype Result<+T, +E> = Ok(value: T) | Err(error: E)

  /** A range as the provider payload gives it: a string, or None where a
      CloudFront `prefixes` entry has no `ip_prefix` key. */
  type RangeEntry = Option<string>

  /** Exceptions that the scripts do not catch and that end the run. */
  datatype Fault =
    /** `IPNetwork(ip_range)` raised on a range string it cannot parse. */
    | MalformedRange(entry: RangeEntry)
    /** In `find_cf_issues`, reading `e.code` of a URLError that is not an
        HTTPError raised AttributeError inside the exception handler. */
    | UrlErrorWithoutCode(domain: string)

  type CheckResult = Result<bool, Fault>
  type ListResult = Result<seq<string>, Fault>
}
