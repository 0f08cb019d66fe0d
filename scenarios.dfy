/** Worked cases of the pipeline on concrete inputs. Addresses are written
    as the integers of their dotted quads (192.0.2.0 is 3221225984). */
module Scenarios {
  import opened Common
  import opened Strings
  import opened Ipv4
  import opened Providers
  import opened CdnFilter
  import opened Expander
  import opened Probe
  import opened Distributions

  /** 192.0.2.0/24, the documentation block of RFC 5737. */
  const DocNet: Cidr := Cidr(3221225984, 24)

  /** Its text form, `"192.0.2.0/24"`, parses back to it. */
  const DocRange: RangeEntry := Some(FormatCidr(DocNet))

  lemma DocRangeParses()
    ensures ParseRange(DocRange) == Some(DocNet)
  {
    CidrRoundTrip(DocNet);
  }

  lemma DocRangeText()
    ensures FormatCidr(DocNet) == "192.0.2.0/24"
  {
    assert FormatQuad(3221225984) == "192.0.2.0" by {
      assert 3221225984 / 256 == 12582914 && 12582914 / 256 == 49152;
      assert 49152 / 256 == 192 && 49152 % 256 == 0;
      assert 12582914 % 256 == 2 && 3221225984 % 256 == 0;
      assert Decimal(1) == "1" && Decimal(19) == "19" && Decimal(192) == "192";
      assert Decimal(0) == "0" && Decimal(2) == "2";
      JoinQuad("192", "0", "2", "0");
    }
    assert Decimal(2) == "2" && Decimal(24) == "24";
  }

  /** Four pieces joined with dots. */
  lemma JoinQuad(a: string, b: string, c: string, d: string)
    ensures Join([a, b, c, d], '.') == a + "." + b + "." + c + "." + d
  {
    assert [a, b, c, d][1..] == [b, c, d];
    assert [b, c, d][1..] == [c, d];
    assert [c, d][1..] == [d];
    assert Join([c, d], '.') == c + "." + d;
    assert Join([b, c, d], '.') == b + "." + (c + "." + d);
    assert Join([a, b, c, d], '.') == a + "." + (b + "." + (c + "." + d));
  }

  /** 192.0.2.55 is in 192.0.2.0/24; 203.0.113.1 is not. */
  lemma DocNetMembership()
    ensures InNetwork(3221226039, DocNet)
    ensures !InNetwork(3405803777, DocNet)
  {
    assert Pow2(8) == 256;
  }

  /** A customer domain resolving into a published range is fronted. */
  lemma FrontedHit()
    ensures Fronted(CloudFront, "shop.example", [DocRange], _ => Some([3221226039])) == Ok(true)
  {
    var resolve: Resolver := _ => Some([3221226039]);
    assert Addresses(resolve, "shop.example") == [3221226039];
    assert ScanRanges(3221226039, [DocRange]) == Ok(true) by {
      DocRangeParses();
      DocNetMembership();
    }
    assert ScanAddresses([3221226039], [DocRange]) == Ok(true);
  }

  /** One resolving elsewhere is not. */
  lemma FrontedMiss()
    ensures Fronted(CloudFront, "shop.example", [DocRange], _ => Some([3405803777])) == Ok(false)
  {
    var resolve: Resolver := _ => Some([3405803777]);
    var ips: seq<IPv4> := [3405803777];
    assert Addresses(resolve, "shop.example") == ips;
    var ranges: seq<RangeEntry> := [DocRange];
    MissOne();
    assert ips[1..] == [];
    assert ScanAddresses(ips, ranges) == Ok(false);
  }

  lemma MissOne()
    ensures ScanRanges(3405803777, [DocRange]) == Ok(false)
  {
    var ranges: seq<RangeEntry> := [DocRange];
    DocRangeParses();
    DocNetMembership();
    assert ranges[1..] == [];
    assert ScanRanges(3405803777, ranges) == ScanRanges(3405803777, []);
  }

  /** An edge host name is never fronted, even when it resolves into the
      range. */
  lemma EdgeNameExample()
    ensures Fronted(CloudFront, "d1.cloudfront.net", [DocRange], _ => Some([3221226039])) == Ok(false)
  {
    EdgeName();
    FrontedNegatives(CloudFront, "d1.cloudfront.net", [DocRange], _ => Some([3221226039]), _ => None);
  }

  lemma EdgeName()
    ensures EndsWith("d1.cloudfront.net", EdgeSuffix(CloudFront))
  {
    assert "d1.cloudfront.net"[3..] == "cloudfront.net";
  }

  /** Ranges are parsed only when reached: a hit before an unparseable
      entry answers true, a miss reaches it and faults. */
  lemma LazyParseExamples()
    ensures ScanRanges(3221226039, [DocRange, None]) == Ok(true)
    ensures ScanRanges(3405803777, [DocRange, None]) == Err(MalformedRange(None))
  {
    DocRangeParses();
    DocNetMembership();
    var ranges: seq<RangeEntry> := [DocRange, None];
    assert ranges[1..] == [None];
  }

  /** The raw name is compared with the lower-cased list: a lower-case
      spelling first and a capitalised one second both get in; the other
      way round the second is skipped. */
  lemma RecordOrderDecidesDuplicates(test: Test)
    requires forall n :: test(n) == Ok(true)
    ensures CollectFrom(test, [DnsRecord(Some("a.example")), DnsRecord(Some("A.example"))], [])
      == Ok(["a.example", "a.example"])
    ensures CollectFrom(test, [DnsRecord(Some("A.example")), DnsRecord(Some("a.example"))], [])
      == Ok(["a.example"])
  {
    LowerExample();
    var low, cap := DnsRecord(Some("a.example")), DnsRecord(Some("A.example"));
    var one: seq<string> := ["a.example"];
    assert "A.example" != "a.example";
    CollectStep(test, low, [cap], []);
    CollectStep(test, cap, [], one);
    assert one + one == ["a.example", "a.example"];
    CollectStep(test, cap, [low], []);
    assert [] + one == one;
  }

  /** One step of the collection over a record whose test answers true. */
  lemma CollectStep(test: Test, rec: DnsRecord, rest: seq<DnsRecord>, acc: seq<string>)
    requires Named(rec) && test(rec.name.value) == Ok(true)
    ensures CollectFrom(test, [rec] + rest, acc)
      == CollectFrom(test, rest, if rec.name.value in acc then acc else acc + [Lower(rec.name.value)])
  {
    assert ([rec] + rest)[1..] == rest;
  }

  lemma LowerExample()
    ensures Lower("A.example") == "a.example" && Lower("a.example") == "a.example"
  {
    assert LowerChar('A') == 'a';
  }

  /** An unreadable enumeration output gives an empty scope even for a
      fronted target; with DNS switched off the target alone is kept. */
  lemma FallbackExamples()
    ensures Expand(CloudFront, "shop.example", [DocRange], false, None, _ => Some([3221226039])) == Ok([])
    ensures Expand(CloudFront, "shop.example", [DocRange], true, None, _ => Some([3221226039]))
      == Ok(["shop.example"])
  {
    FrontedHit();
  }

  /** The three CloudFront outcomes after the 403 `Bad request`: a TLS
      handshake failure flags, a refused connection crashes the probe; a
      plain success is clean. */
  lemma CloudFrontExamples()
    ensures ClassifyCloudFront(
      u => if u == "http://x.example" then HttpError(403, "Forbidden", "Bad request") else UrlError("handshake"),
      "x.example") == Flagged
    ensures ClassifyCloudFront(
      u => if u == "http://x.example" then HttpError(403, "Forbidden", "Bad request") else UrlError("refused"),
      "x.example") == Escapes
    ensures ClassifyCloudFront(_ => Response("Bad request"), "x.example") == Clean
  {
    assert HttpUrl("x.example") == "http://x.example";
    assert HttpsUrl("x.example") != "http://x.example";
    assert Contains("Bad request", "Bad request") by {
      assert StartsWith("Bad request", "Bad request");
    }
    assert Lower("handshake") == "handshake";
    assert Contains("handshake", "handshake") by {
      assert StartsWith("handshake", "handshake");
    }
    assert !Contains(Lower("refused"), "handshake") by {
      ShorterAbsent(Lower("refused"), "handshake");
    }
  }

  /** Nothing longer than a text occurs in it. */
  lemma ShorterAbsent(s: string, sub: string)
    requires |s| < |sub|
    ensures !Contains(s, sub)
  {
    ContainsIff(s, sub);
  }

  /** MaxCDN flags `StackPath` in a success or in an HTTPError with code
      200; Fastly flags a 500 saying `unknown domain` and nothing
      else. */
  lemma SignatureExamples()
    ensures ClassifyMaxCdn(_ => Response("StackPath"), "x.example") == Flagged
    ensures ClassifyMaxCdn(_ => HttpError(200, "", "StackPath"), "x.example") == Flagged
    ensures ClassifyMaxCdn(_ => HttpError(404, "", "StackPath"), "x.example") == Clean
    ensures ClassifyFastly(_ => HttpError(500, "", "unknown domain"), "x.example") == Flagged
    ensures ClassifyFastly(_ => HttpError(500, "", "oops"), "x.example") == Clean
    ensures ClassifyFastly(_ => Response("unknown domain"), "x.example") == Clean
  {
    assert Contains("StackPath", "StackPath") by {
      assert StartsWith("StackPath", "StackPath");
    }
    assert Contains("unknown domain", "unknown domain") by {
      assert StartsWith("unknown domain", "unknown domain");
    }
    ShorterAbsent("oops", "unknown domain");
  }

  /** The same domain flagged twice: the first update is accepted, the
      second is refused as `CNAMEAlreadyExists` and changes nothing. */
  lemma SameDomainTwice()
    ensures AddAllPlan(map[], 0, ["a.example", "a.example"], None, [false, true])
      == (Placement(map[0 := Aliases(1, Some(["a.example"]))], 1, 0), Some(0))
  {
    var one := map[0 := Aliases(1, Some(["a.example"]))];
    assert AddPlan(map[], 0, "a.example", None, false) == Placement(one, 1, 0);
    assert AddPlan(one, 1, "a.example", Some(0), true) == Placement(one, 1, 0);
    assert ["a.example", "a.example"][1..] == ["a.example"] && [false, true][1..] == [true];
  }
}
