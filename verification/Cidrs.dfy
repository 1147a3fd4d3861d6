/** CIDR blocks as aligned address ranges.

    A CIDR string of the API is either an IPv4 one, kept as written (the host bits of
    `10.0.0.5/24` are not cleared), or any other text, which parses when it is of the other
    address family, and then has a prefix length `ones`. */
module Cidrs {
  import opened Powers

  const ADDRESSES: nat := 0x1_0000_0000

  type Address = a: nat | a < ADDRESSES

  type PrefixLen = l: nat | l <= 32

  datatype Cidr = V4(addr: Address, len: PrefixLen) | Foreign(text: string, parses: bool, ones: nat)

  predicate Parses(c: Cidr) {
    c.V4? || c.parses
  }

  function Size(c: Cidr): nat
    requires c.V4?
  {
    Pow2(32 - c.len)
  }

  /** The masked network address, `ipNet.IP` after `net.ParseCIDR`. */
  function Network(c: Cidr): (n: Address)
    requires c.V4?
  {
    DivMod(c.addr, Size(c));
    c.addr - c.addr % Size(c)
  }

  function End(c: Cidr): nat
    requires c.V4?
  {
    Network(c) + Size(c)
  }

  /** The address `a` lies in the range of `c`. */
  predicate Has(c: Cidr, a: int) {
    c.V4? && Network(c) <= a < End(c)
  }

  /** `net.IPNet.Contains`: masking the address gives the network address. */
  predicate NetContains(c: Cidr, a: Address)
    requires c.V4?
  {
    a - a % Size(c) == Network(c)
  }

  predicate Disjoint(c: Cidr, d: Cidr) {
    c.V4? && d.V4? ==> End(c) <= Network(d) || End(d) <= Network(c)
  }

  predicate Within(c: Cidr, d: Cidr) {
    c.V4? && d.V4? && Network(d) <= Network(c) && End(c) <= End(d)
  }

  /** `c` is a strictly smaller part of `d`. */
  predicate Inner(c: Cidr, d: Cidr) {
    Within(c, d) && Size(c) < Size(d)
  }

  /** The range arithmetic above says what it should about addresses. */
  lemma DisjointMeansNoCommonAddress(c: Cidr, d: Cidr)
    ensures Disjoint(c, d) <==> !exists a: int :: Has(c, a) && Has(d, a)
    ensures c.V4? && d.V4? ==> (Within(c, d) <==> forall a: int :: Has(c, a) ==> Has(d, a))
  {
    if c.V4? && d.V4? {
      if !Disjoint(c, d) {
        var a := if Network(c) <= Network(d) then Network(d) else Network(c);
        assert Has(c, a) && Has(d, a);
      }
      if forall a: int :: Has(c, a) ==> Has(d, a) {
        assert Has(c, Network(c)) && Has(c, End(c) - 1);
      }
    }
  }

  lemma ContainsIsMembership(c: Cidr, a: Address)
    requires c.V4?
    ensures NetContains(c, a) <==> Has(c, a)
  {
    var m := Size(c);
    DivMod(c.addr, m);
    DivMod(a, m);
    if Has(c, a) { QuotientUnique(a, m, c.addr / m); }
  }

  lemma NetworkAligned(c: Cidr, k: nat)
    requires c.V4? && k <= 32 - c.len
    ensures Network(c) % Pow2(k) == 0 && Size(c) % Pow2(k) == 0 && End(c) % Pow2(k) == 0
  {
    Pow2Divides(k, 32 - c.len);
    RoundDownAligned(c.addr, Size(c), Pow2(k));
    SumAligned(Network(c), Size(c), Pow2(k));
  }

  lemma EndInSpace(c: Cidr)
    requires c.V4?
    ensures End(c) <= ADDRESSES
  {
    Pow2Values();
    NetworkAligned(c, 32 - c.len);
    Pow2Divides(32 - c.len, 32);
    AlignedGap(Network(c), ADDRESSES, Size(c));
  }

  /** CIDR ranges form a laminar family: two of them are disjoint or nested, and the one with
      the longer prefix is the inner one. */
  lemma Laminar(c: Cidr, d: Cidr)
    requires c.V4? && d.V4?
    ensures c.len >= d.len ==> Disjoint(c, d) || Within(c, d)
    ensures d.len >= c.len ==> Disjoint(c, d) || Within(d, c)
  {
    if c.len >= d.len { LaminarOneWay(c, d); }
    if d.len >= c.len { LaminarOneWay(d, c); }
  }

  lemma LaminarOneWay(c: Cidr, d: Cidr)
    requires c.V4? && d.V4? && c.len >= d.len
    ensures Disjoint(c, d) || Within(c, d)
  {
    NetworkAligned(c, 32 - c.len);
    NetworkAligned(d, 32 - d.len);
    BlocksLaminar(Network(c), 32 - c.len, Network(d), 32 - d.len);
  }

  lemma SizeOrder(c: Cidr, d: Cidr)
    requires c.V4? && d.V4?
    ensures Size(c) < Size(d) <==> c.len > d.len
    ensures Size(c) == Size(d) <==> c.len == d.len
  {
    if c.len > d.len { Pow2Grows(32 - c.len, 32 - d.len); }
    if d.len > c.len { Pow2Grows(32 - d.len, 32 - c.len); }
  }

  lemma WithinTransitive(c: Cidr, d: Cidr, e: Cidr)
    requires Within(c, d) && Within(d, e)
    ensures Within(c, e)
  {}

  lemma DisjointWithin(c: Cidr, d: Cidr, c': Cidr, d': Cidr)
    requires Disjoint(c', d') && Within(c, c') && Within(d, d')
    ensures Disjoint(c, d)
  {}
}
