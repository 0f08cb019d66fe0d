/** Turning an already-fetched provider payload into the list of range
    strings the membership test consumes. */
module RangeSources {
  import opened Common
  import opened Strings
  import opened Seqs

  /** One element of the `prefixes` array of AWS's `ip-ranges.json`; a key
      that is absent is None (`item.get(...)`). */
  datatype PrefixEntry = PrefixEntry(service: Option<string>, ipPrefix: Option<string>)

  predicate IsCloudFront(e: PrefixEntry) {
    e.service == Some("CLOUDFRONT")
  }

  function IpPrefix(e: PrefixEntry): RangeEntry { e.ipPrefix }

  /** `get_cf_ranges` after the fetch: walk `prefixes`, keep the
      `ip_prefix` of every CLOUDFRONT entry. */
  method CloudFrontRanges(prefixes: seq<PrefixEntry>) returns (ranges: seq<RangeEntry>)
    ensures ranges == Map(IpPrefix, Filter(IsCloudFront, prefixes))
  {
    ranges := [];
    var i := 0;
    while i < |prefixes|
      invariant 0 <= i <= |prefixes|
      invariant Map(IpPrefix, Filter(IsCloudFront, prefixes))
                == ranges + Map(IpPrefix, Filter(IsCloudFront, prefixes[i..]))
    {
      assert prefixes[i..] == [prefixes[i]] + prefixes[i + 1..];
      if prefixes[i].service == Some("CLOUDFRONT") {
        ranges := ranges + [prefixes[i].ipPrefix];
      }
      i := i + 1;
    }
  }

  /** The CloudFront range list keeps payload order, takes only CLOUDFRONT
      entries, misses none of them, and is no longer than the payload. */
  lemma CloudFrontSelection(prefixes: seq<PrefixEntry>)
    ensures Subseq(Filter(IsCloudFront, prefixes), prefixes)
    ensures forall e :: e in Filter(IsCloudFront, prefixes) <==> e in prefixes && IsCloudFront(e)
    ensures |Map(IpPrefix, Filter(IsCloudFront, prefixes))| <= |prefixes|
  {
    FilterSubseq(IsCloudFront, prefixes);
    FilterLength(IsCloudFront, prefixes);
    forall e ensures e in Filter(IsCloudFront, prefixes) <==> e in prefixes && IsCloudFront(e) {
      FilterMembers(IsCloudFront, prefixes, e);
    }
  }

  /** `get_fastly_ranges` after the fetch: the `addresses` array as it is. */
  method FastlyRanges(addresses: seq<string>) returns (ranges: seq<RangeEntry>)
    ensures ranges == Map(Entry, addresses)
  {
    ranges := [];
    var i := 0;
    while i < |addresses|
      invariant 0 <= i <= |addresses|
      invariant ranges == Map(Entry, addresses[..i])
    {
      assert addresses[..i + 1] == addresses[..i] + [addresses[i]];
      ranges := ranges + [Some(addresses[i])];
      i := i + 1;
    }
    assert addresses[..i] == addresses;
  }

  /** Iterating a response yields its lines, each with its `\n`; a last
      line without one is yielded too, and an empty payload has no lines. */
  function Lines(s: string): seq<string>
    decreases |s|
  {
    if s == [] then []
    else
      match IndexOf(s, '\n')
      case None => [s]
      case Some(k) => [s[..k + 1]] + Lines(s[k + 1..])
  }

  function Concat(lines: seq<string>): string
    decreases |lines|
  {
    if lines == [] then [] else lines[0] + Concat(lines[1..])
  }

  function Entry(text: string): RangeEntry { Some(text) }

  /** `get_maxcdn_ranges` after the fetch: every line of the text payload
      becomes one range string, unfiltered. The iteration over the response,
      which splits it into lines, is written out character by character. */
  method MaxCdnRanges(payload: string) returns (ranges: seq<RangeEntry>)
    ensures ranges == Map(Entry, Lines(payload))
  {
    ranges := [];
    var line: string := [];
    var i := 0;
    assert line + payload[i..] == payload;
    while i < |payload|
      invariant 0 <= i <= |payload|
      invariant '\n' !in line
      invariant Map(Entry, Lines(payload)) == ranges + Map(Entry, Lines(line + payload[i..]))
    {
      MaxCdnStep(line, payload[i..]);
      assert payload[i..][1..] == payload[i + 1..];
      if payload[i] == '\n' {
        ranges := ranges + [Some(line + [payload[i]])];
        line := [];
      } else {
        line := line + [payload[i]];
      }
      i := i + 1;
    }
    assert line + payload[i..] == line;
    if line != [] {
      assert IndexOf(line, '\n') == None;
      ranges := ranges + [Some(line)];
    }
  }

  /** One character of the loop in MaxCdnRanges: a newline closes the
      current line, any other character extends it. */
  lemma MaxCdnStep(line: string, rest: string)
    requires '\n' !in line && rest != []
    ensures rest[0] == '\n' ==>
      Map(Entry, Lines(line + rest)) == [Entry(line + [rest[0]])] + Map(Entry, Lines([] + rest[1..]))
    ensures rest[0] != '\n' ==> line + rest == (line + [rest[0]]) + rest[1..]
  {
    assert rest == [rest[0]] + rest[1..];
    if rest[0] == '\n' {
      var tail := rest[1..];
      assert line + rest == line + ['\n'] + tail;
      assert [] + tail == tail;
      LinesAtNewline(line, tail);
      MapCons(line + ['\n'], Lines(tail));
    }
  }

  lemma MapCons(x: string, ls: seq<string>)
    ensures Map(Entry, [x] + ls) == [Entry(x)] + Map(Entry, ls)
  {
    MapConcat(Entry, [x], ls);
  }

  /** A line without a newline, then a newline, is one yielded line. */
  lemma LinesAtNewline(line: string, rest: string)
    requires '\n' !in line
    ensures Lines(line + ['\n'] + rest) == [line + ['\n']] + Lines(rest)
  {
    var s := line + ['\n'] + rest;
    AroundSeparator(line, '\n', rest);
    IndexOfFirst(s, '\n', |line|);
    assert s[..|line| + 1] == line + ['\n'];
  }

  /** The lines put back together give the payload. */
  lemma {:induction false} LinesConcat(s: string)
    ensures Concat(Lines(s)) == s
    decreases |s|
  {
    if s != [] {
      match IndexOf(s, '\n')
      case None =>
      case Some(k) =>
        LinesConcat(s[k + 1..]);
        assert s == s[..k + 1] + s[k + 1..];
    }
  }

  /** Every line is non-empty and holds a newline only as its last
      character; every line but the last ends with one. */
  lemma {:induction false} LinesShape(s: string)
    ensures forall k :: 0 <= k < |Lines(s)| ==> Lines(s)[k] != []
    ensures forall k :: 0 <= k < |Lines(s)| ==> '\n' !in Lines(s)[k][..|Lines(s)[k]| - 1]
    ensures forall k :: 0 <= k < |Lines(s)| - 1 ==> Lines(s)[k][|Lines(s)[k]| - 1] == '\n'
    decreases |s|
  {
    if s != [] {
      match IndexOf(s, '\n')
      case None =>
      case Some(k) =>
        LinesShape(s[k + 1..]);
        var ls := Lines(s);
        assert ls == [s[..k + 1]] + Lines(s[k + 1..]);
        assert s[..k + 1][..k] == s[..k];
    }
  }

  function CountChar(s: string, c: char): nat
    decreases |s|
  {
    if s == [] then 0 else (if s[0] == c then 1 else 0) + CountChar(s[1..], c)
  }

  /** The range count is the line count: one per newline, plus one for a
      final unterminated line. */
  lemma {:induction false} LinesCount(s: string)
    ensures |Lines(s)| == CountChar(s, '\n') + (if s != [] && s[|s| - 1] != '\n' then 1 else 0)
    decreases |s|
  {
    if s != [] {
      match IndexOf(s, '\n')
      case None =>
        CountAbsent(s, '\n');
      case Some(k) =>
        LinesCount(s[k + 1..]);
        NewlineSplit(s, k);
    }
  }

  /** Splitting after the first newline takes one newline off the count
      and keeps the last character. */
  lemma NewlineSplit(s: string, k: nat)
    requires k < |s| && s[k] == '\n' && '\n' !in s[..k]
    ensures CountChar(s, '\n') == 1 + CountChar(s[k + 1..], '\n')
    ensures var rest := s[k + 1..];
      (s[|s| - 1] != '\n') == (rest != [] && rest[|rest| - 1] != '\n')
  {
    var head, rest := s[..k + 1], s[k + 1..];
    assert s == head + rest;
    CountSplit(head, rest, '\n');
    CountAbsent(s[..k], '\n');
    assert head == s[..k] + [s[k]];
    CountSplit(s[..k], [s[k]], '\n');
    assert CountChar([s[k]], '\n') == 1;
    if rest != [] {
      assert s[|s| - 1] == rest[|rest| - 1];
    }
  }

  lemma {:induction false} CountAbsent(s: string, c: char)
    requires c !in s
    ensures CountChar(s, c) == 0
    decreases |s|
  {
    if s != [] { CountAbsent(s[1..], c); }
  }

  lemma {:induction false} CountSplit(a: string, b: string, c: char)
    ensures CountChar(a + b, c) == CountChar(a, c) + CountChar(b, c)
    decreases |a|
  {
    if a != [] {
      CountSplit(a[1..], b, c);
      assert (a + b)[0] == a[0] && (a + b)[1..] == a[1..] + b;
    } else {
      assert a + b == b;
    }
  }
}
