/** IPv4 addresses, CIDR blocks and their text form, in the sense of
    section 3.1 of RFC 4632 and of netaddr's `IPNetwork`. */
module Ipv4 {
  import opened Common
  import opened Strings

  const AddressSpace: nat := 0x1_0000_0000

  /** An IPv4 address as its 32-bit unsigned value. */
  type IPv4 = a: int | 0 <= a < 0x1_0000_0000

  type PrefixLen = p: int | 0 <= p <= 32

  /** A CIDR block `addr/len`. As in netaddr, `addr` may have host bits set;
      the block is the one that contains it. */
  datatype Cidr = Cidr(addr: IPv4, len: PrefixLen)

  function Pow2(k: nat): (r: nat)
    ensures r >= 1
  {
    if k == 0 then 1 else 2 * Pow2(k - 1)
  }

  /** Number of addresses in the block, 2^(32 - len). */
  function BlockSize(c: Cidr): nat {
    Pow2(32 - c.len)
  }

  /** The network address (netaddr's `first`, value AND netmask). */
  function First(c: Cidr): int {
    c.addr / BlockSize(c) * BlockSize(c)
  }

  /** The broadcast address (netaddr's `last`, first OR hostmask). */
  function Last(c: Cidr): int {
    First(c) + BlockSize(c) - 1
  }

  /** `ip in IPNetwork(r)`: the closed interval test netaddr performs. */
  predicate InNetwork(a: IPv4, c: Cidr) {
    First(c) <= a <= Last(c)
  }

  lemma {:induction false} Pow2Add(x: nat, y: nat)
    ensures Pow2(x + y) == Pow2(x) * Pow2(y)
    decreases x
  {
    if x > 0 { Pow2Add(x - 1, y); }
  }

  lemma Pow2Of32()
    ensures Pow2(32) == AddressSpace
  {
    assert Pow2(4) == 16;
    Pow2Add(4, 4);
    Pow2Add(8, 8);
    Pow2Add(16, 16);
  }

  lemma MulMonotone(x: int, y: int, m: nat)
    requires x <= y
    ensures x * m <= y * m
  {
    assert y * m - x * m == (y - x) * m;
  }

  /** Euclidean quotients are characterised by their interval. */
  lemma QuotientInterval(a: nat, m: nat, q: nat)
    requires m > 0
    ensures a / m == q <==> q * m <= a < q * m + m
  {
    var q' := a / m;
    assert a == q' * m + a % m;
    if q' < q {
      MulMonotone(q' + 1, q, m);
      assert (q' + 1) * m == q' * m + m;
    } else if q' > q {
      MulMonotone(q + 1, q', m);
      assert (q + 1) * m == q * m + m;
    }
  }

  /** Section 3.1 of RFC 4632: `a` is in `n/p` exactly when the top `p` bits
      agree, `a >> (32 - p) == n >> (32 - p)`. */
  lemma InNetworkIffPrefixMatch(a: IPv4, c: Cidr)
    ensures InNetwork(a, c) <==> a / BlockSize(c) == c.addr / BlockSize(c)
  {
    PrefixMatch(a, c.addr, BlockSize(c));
  }

  /** `a` lies in the aligned block of size `m` around `x` exactly when both
      have the same quotient by `m`. */
  lemma PrefixMatch(a: nat, x: nat, m: nat)
    requires m > 0
    ensures x / m * m <= a <= x / m * m + m - 1 <==> a / m == x / m
  {
    QuotientInterval(a, m, x / m);
  }

  /** A block holds its own address and lies inside the address space. */
  lemma BlockBounds(c: Cidr)
    ensures 0 <= First(c) <= c.addr <= Last(c) < AddressSpace
    ensures InNetwork(c.addr, c)
  {
    var m := BlockSize(c);
    BlockCount(c.len);
    AlignedBlockFits(c.addr, m, Pow2(c.len));
    var f := (c.addr / m) * m;
    assert f <= c.addr < f + m <= AddressSpace;
    assert First(c) == f && Last(c) == f + m - 1;
  }

  /** The blocks of one prefix length tile the address space. */
  lemma BlockCount(len: PrefixLen)
    ensures Pow2(len) * Pow2(32 - len) == AddressSpace
  {
    Pow2Add(len, 32 - len);
    assert len + (32 - len) == 32;
    Pow2Of32();
  }

  /** An aligned block of size m, where m divides the address space, ends
      inside it. */
  lemma AlignedBlockFits(a: nat, m: nat, blocks: nat)
    requires m > 0 && blocks * m == AddressSpace && a < AddressSpace
    ensures 0 <= (a / m) * m <= a < (a / m) * m + m <= AddressSpace
  {
    var q := a / m;
    MulMonotone(0, q, m);
    assert a == q * m + a % m;
    if q >= blocks {
      MulMonotone(blocks, q, m);
    }
    MulMonotone(q + 1, blocks, m);
    assert (q + 1) * m == q * m + m;
  }

  /** A block of length 0 covers every address; one of length 32 only its own. */
  lemma BlockExtremes(a: IPv4, c: Cidr)
    ensures c.len == 0 ==> InNetwork(a, c)
    ensures c.len == 32 ==> (InNetwork(a, c) <==> a == c.addr)
  {
    Pow2Of32();
  }

  // ----- text form -----

  /** One dotted-quad component as `inet_pton` accepts it: decimal, at most
      255, no leading zero. */
  function ParseOctet(s: string): Option<nat> {
    if s != [] && AllDigits(s) && (s[0] != '0' || |s| == 1) && DecimalValue(s) <= 255
    then Some(DecimalValue(s))
    else None
  }

  function ParseQuad(s: string): Option<IPv4> {
    var parts := Split(s, '.');
    if |parts| == 4 && ParseOctet(parts[0]).Some? && ParseOctet(parts[1]).Some?
       && ParseOctet(parts[2]).Some? && ParseOctet(parts[3]).Some?
    then
      Some(((ParseOctet(parts[0]).value * 256 + ParseOctet(parts[1]).value) * 256
            + ParseOctet(parts[2]).value) * 256 + ParseOctet(parts[3]).value)
    else None
  }

  /** `IPNetwork(text)` for the forms this model accepts: a dotted quad,
      optionally followed by `/` and a prefix length that Python's `int()`
      reads (surrounding whitespace allowed), at most 32. */
  function ParseCidr(t: string): Option<Cidr> {
    match IndexOf(t, '/')
    case None =>
      (match ParseQuad(t)
       case Some(a) => Some(Cidr(a, 32))
       case None => None)
    case Some(k) =>
      var a := ParseQuad(t[..k]);
      var p := Strip(t[k + 1..]);
      if a.Some? && p != [] && AllDigits(p) && DecimalValue(p) <= 32
      then Some(Cidr(a.value, DecimalValue(p)))
      else None
  }

  /** A range entry of a payload; a missing entry cannot be parsed. */
  function ParseRange(e: RangeEntry): Option<Cidr> {
    match e
    case None => None
    case Some(t) => ParseCidr(t)
  }

  function FormatQuad(a: IPv4): string {
    var a1 := a / 256;
    var a2 := a1 / 256;
    Join([Decimal(a2 / 256), Decimal(a2 % 256), Decimal(a1 % 256), Decimal(a % 256)], '.')
  }

  /** `str(IPNetwork)`: `a.b.c.d/len`. */
  function FormatCidr(c: Cidr): string {
    FormatQuad(c.addr) + "/" + Decimal(c.len)
  }

  lemma OctetRoundTrip(n: nat)
    requires n <= 255
    ensures ParseOctet(Decimal(n)) == Some(n)
  {
    DecimalRoundTrip(n);
  }

  lemma QuadRoundTrip(a: IPv4)
    ensures ParseQuad(FormatQuad(a)) == Some(a)
    ensures '/' !in FormatQuad(a)
  {
    var a1 := a / 256;
    var a2 := a1 / 256;
    assert a2 / 256 <= 255;
    assert ((a2 / 256 * 256 + a2 % 256) * 256 + a1 % 256) * 256 + a % 256 == a;
    OctetRoundTrip(a2 / 256);
    OctetRoundTrip(a2 % 256);
    OctetRoundTrip(a1 % 256);
    OctetRoundTrip(a % 256);
    QuadText([Decimal(a2 / 256), Decimal(a2 % 256), Decimal(a1 % 256), Decimal(a % 256)],
             a2 / 256, a2 % 256, a1 % 256, a % 256);
  }

  /** Four digit strings that parse as octets, joined with dots, parse back
      to the address they make, and the text has no slash. */
  lemma QuadText(parts: seq<string>, w: nat, x: nat, y: nat, z: nat)
    requires |parts| == 4
    requires ParseOctet(parts[0]) == Some(w) && ParseOctet(parts[1]) == Some(x)
    requires ParseOctet(parts[2]) == Some(y) && ParseOctet(parts[3]) == Some(z)
    ensures ParseQuad(Join(parts, '.')) == Some(((w * 256 + x) * 256 + y) * 256 + z)
    ensures '/' !in Join(parts, '.')
  {
    DigitsAvoid(parts, '.');
    DigitsAvoid(parts, '/');
    SplitJoin(parts, '.');
    JoinAvoids(parts, '.', '/');
  }

  /** Printing a block and parsing it back gives the same block. */
  lemma CidrRoundTrip(c: Cidr)
    ensures ParseCidr(FormatCidr(c)) == Some(c)
  {
    CidrPieces(c);
    ParseCidrPrefixed(FormatCidr(c), |FormatQuad(c.addr)|, c);
  }

  /** The printed block splits at its one slash into the printed address
      and the printed prefix length. */
  lemma CidrPieces(c: Cidr)
    ensures IndexOf(FormatCidr(c), '/') == Some(|FormatQuad(c.addr)|)
    ensures ParseQuad(FormatCidr(c)[..|FormatQuad(c.addr)|]) == Some(c.addr)
    ensures Strip(FormatCidr(c)[|FormatQuad(c.addr)| + 1..]) == Decimal(c.len)
    ensures DecimalValue(Decimal(c.len)) == c.len
  {
    QuadRoundTrip(c.addr);
    DecimalRoundTrip(c.len);
    DecimalStripped(c.len);
    SlashPieces(FormatQuad(c.addr), Decimal(c.len));
  }

  /** A text built around its only slash splits there into its two sides. */
  lemma SlashPieces(q: string, d: string)
    requires '/' !in q
    ensures IndexOf(q + "/" + d, '/') == Some(|q|)
    ensures (q + "/" + d)[..|q|] == q && (q + "/" + d)[|q| + 1..] == d
  {
    AroundSeparator(q, '/', d);
    IndexOfFirst(q + "/" + d, '/', |q|);
  }

  lemma ParseCidrPrefixed(t: string, k: nat, c: Cidr)
    requires IndexOf(t, '/') == Some(k)
    requires ParseQuad(t[..k]) == Some(c.addr)
    requires Strip(t[k + 1..]) == Decimal(c.len)
    requires DecimalValue(Decimal(c.len)) == c.len
    ensures ParseCidr(t) == Some(c)
  {
  }
}
