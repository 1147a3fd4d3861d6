/** `internal/netutil`: overlap detection and last addresses, for IPv4 and IPv6 alike. */
module NetUtil {
  import opened Powers
  import opened Bytes

  /** A parsed network: address length in bytes, masked address, prefix length. */
  datatype Net = Net(size: nat, ip: nat, ones: nat)

  /** What `net.ParseCIDR` guarantees of the network it returns. */
  predicate Masked(n: Net) {
    && (n.size == 4 || n.size == 16)
    && n.ones <= 8 * n.size
    && n.ip < Pow2(8 * n.size)
    && n.ip % Pow2(8 * n.size - n.ones) == 0
  }

  type IPNet = n: Net | Masked(n) witness Net(4, 0, 32)

  /** The outcome of `net.ParseCIDR` on a string. */
  datatype Parsed = Invalid | Valid(net: IPNet)

  function HostBits(n: IPNet): nat {
    8 * n.size - n.ones
  }

  function Last(n: IPNet): nat {
    n.ip + Pow2(HostBits(n)) - 1
  }

  predicate Has(n: IPNet, a: int) {
    n.ip <= a <= Last(n)
  }

  /** `IP.To4() != nil`: a four-byte address, or an IPv4-mapped sixteen-byte one. */
  predicate IsV4(size: nat, ip: nat) {
    size == 4 || ip / 0x1_0000_0000 == 0xffff
  }

  /** `IPNet.Contains` on an address of the network's own width: an IPv4-mapped address is compared in
      four bytes, so it is never contained in a network that is not, and conversely. */
  predicate Contains(n: IPNet, a: nat) {
    IsV4(n.size, n.ip) == IsV4(n.size, a) && Masks(n, a)
  }

  /** Masking the address gives the network address. */
  predicate Masks(n: IPNet, a: nat) {
    a - a % Pow2(HostBits(n)) == n.ip
  }

  predicate CIDROverlaps(p: Parsed, q: Parsed) {
    if p.Invalid? || q.Invalid? then false
    else if p.net.size != q.net.size then false
    else if IsV4(p.net.size, p.net.ip) != IsV4(q.net.size, q.net.ip) then false
    else if Contains(p.net, q.net.ip) || Contains(q.net, p.net.ip) then true
    else Contains(p.net, Last(q.net)) || Contains(q.net, Last(p.net))
  }

  predicate ShareAddress(n: IPNet, m: IPNet) {
    n.ip <= Last(m) && m.ip <= Last(n)
  }

  lemma ShareAddressMeans(n: IPNet, m: IPNet)
    ensures ShareAddress(n, m) <==> exists a: int :: Has(n, a) && Has(m, a)
  {
    if ShareAddress(n, m) {
      var a := if n.ip <= m.ip then m.ip else n.ip;
      assert Has(n, a) && Has(m, a);
    }
  }

  lemma ContainsIsMembership(n: IPNet, a: nat)
    ensures Masks(n, a) <==> Has(n, a)
  {
    var m := Pow2(HostBits(n));
    DivMod(n.ip, m);
    DivMod(a, m);
    if Has(n, a) { QuotientUnique(a, m, n.ip / m); }
  }

  /** Overlap exactness. Within one family the test holds exactly when the ranges share an address;
      it is symmetric; and the last-address clause never changes the answer. */
  lemma OverlapExact(p: Parsed, q: Parsed)
    ensures CIDROverlaps(p, q) <==>
            && p.Valid? && q.Valid? && p.net.size == q.net.size
            && IsV4(p.net.size, p.net.ip) == IsV4(q.net.size, q.net.ip)
            && exists a: int :: Has(p.net, a) && Has(q.net, a)
    ensures CIDROverlaps(p, q) == CIDROverlaps(q, p)
    ensures CIDROverlaps(p, q) && p.Valid? && q.Valid? ==>
              Contains(p.net, q.net.ip) || Contains(q.net, p.net.ip)
  {
    if p.Valid? && q.Valid? && p.net.size == q.net.size {
      ShareAddressMeans(p.net, q.net);
      SharedIsNested(p.net, q.net);
      LastIsInside(p.net, q.net);
      LastIsInside(q.net, p.net);
    }
  }

  /** Networks of one width share an address exactly when one holds the network address of the other. */
  lemma SharedIsNested(n: IPNet, m: IPNet)
    requires n.size == m.size
    ensures ShareAddress(n, m) <==> Masks(n, m.ip) || Masks(m, n.ip)
  {
    ContainsIsMembership(n, m.ip);
    ContainsIsMembership(m, n.ip);
    if n.ones >= m.ones {
      BlocksLaminar(n.ip, HostBits(n), m.ip, HostBits(m));
    } else {
      BlocksLaminar(m.ip, HostBits(m), n.ip, HostBits(n));
    }
  }

  lemma LastIsInside(n: IPNet, m: IPNet)
    ensures Masks(n, Last(m)) ==> ShareAddress(n, m)
  {
    ContainsIsMembership(n, Last(m));
  }

  /** Between two IPv6 networks the test misses a common address exactly when one of them is
      IPv4-mapped and the other is not; `::/0` against `::ffff:0:0/96` is such a pair. */
  lemma OverlapMissesMapped()
    ensures exists n: IPNet, m: IPNet ::
              n.size == m.size && ShareAddress(n, m) && !CIDROverlaps(Valid(n), Valid(m))
  {
    AllOfV6();
    MappedV4();
    var n: IPNet, m: IPNet := Net(16, 0, 0), Net(16, 0xffff_0000_0000, 96);
    WholeSpaceShares(n, m);
    MixedNeverOverlap(n, m);
  }

  lemma WholeSpaceShares(n: IPNet, m: IPNet)
    requires n.ip == 0 && n.ones == 0 && n.size == m.size && m.ip < Pow2(8 * n.size)
    ensures ShareAddress(n, m)
  {
    var space := Pow2(8 * n.size);
    assert HostBits(n) == 8 * n.size && Last(n) == space - 1;
    assert Last(m) >= m.ip;
  }

  lemma MixedNeverOverlap(n: IPNet, m: IPNet)
    requires IsV4(n.size, n.ip) != IsV4(m.size, m.ip)
    ensures !CIDROverlaps(Valid(n), Valid(m))
  {}

  lemma AllOfV6()
    ensures Masked(Net(16, 0, 0)) && 0xffff_0000_0000 < Pow2(128)
  {
    assert Pow2(48) == 0x1_0000_0000_0000 by { Pow2Values(); Pow2Add(8, 8); Pow2Add(32, 16); }
    Pow2Grows(48, 128);
    DivMod(0, Pow2(128));
  }

  lemma MappedV4()
    ensures Masked(Net(16, 0xffff_0000_0000, 96))
  {
    AllOfV6();
    Pow2Values();
    MultipleMod(Pow2(32), 0xffff);
  }

  method OrByte(ip: array<nat>, i: nat, hostBits: nat) returns (left: nat)
    requires i < ip.Length
    modifies ip
    ensures ip[i] == HostByte(old(ip[i]), hostBits)
    ensures forall j :: 0 <= j < ip.Length && j != i ==> ip[j] == old(ip[j])
    ensures left == hostBits - Min(8, hostBits)
  {
    var byteHostBits := if hostBits < 8 then hostBits else 8;
    if byteHostBits > 0 {
      ip[i] := BitOr(ip[i], Pow2(byteHostBits) - 1);
    }
    left := hostBits - byteHostBits;
  }

  /** The in-place loop that or-s the host bits with ones, last byte first. */
  method SetHostBits(network: seq<Byte>, bits: nat) returns (ip: array<nat>)
    ensures fresh(ip) && ip.Length == |network|
    ensures forall i :: 0 <= i < |network| ==> ip[i] == SetLowBits(network, bits)[i]
  {
    ip := new nat[|network|](i requires 0 <= i < |network| => network[i]);
    ghost var want := SetLowBits(network, bits);
    var hostBits := bits;
    var i := |network|;
    assert network[..i] == network && want[..i] == want;
    while i > 0
      invariant 0 <= i <= |network| == ip.Length
      invariant forall j :: 0 <= j < i ==> ip[j] == network[j]
      invariant forall j :: i <= j < |network| ==> ip[j] == want[j]
      invariant want[..i] == SetLowBits(network[..i], hostBits)
    {
      i := i - 1;
      LastByte(network, want, i, hostBits);
      hostBits := OrByte(ip, i, hostBits);
      if hostBits <= 0 {
        assert forall j :: 0 <= j < i ==> want[j] == want[..i][j] == network[..i][j];
        return;
      }
    }
  }

  lemma LastByte(network: seq<Byte>, want: seq<nat>, i: nat, h: nat)
    requires i < |network| == |want| && want[..i + 1] == SetLowBits(network[..i + 1], h)
    ensures want[..i] == SetLowBits(network[..i], h - Min(8, h))
    ensures want[i] == HostByte(network[i], h)
  {
    assert network[..i + 1][..i] == network[..i];
    assert want[..i + 1][..i] == want[..i] && want[..i + 1][i] == want[i];
  }

  /** An IPv4-mapped network has at least 96 prefix bits, so its host bits fit in four bytes. */
  lemma MappedHostBits(n: IPNet)
    requires n.size == 16 && IsV4(16, n.ip)
    ensures HostBits(n) <= 32
    ensures (n.ip - 0xffff_0000_0000) % Pow2(HostBits(n)) == 0
    ensures 0 <= n.ip - 0xffff_0000_0000 < 0x1_0000_0000
  {
    var h := HostBits(n);
    Pow2Values();
    assert Pow2(33) == 0x2_0000_0000;
    if h > 32 {
      Pow2Divides(33, h);
      Transitive(n.ip, Pow2(h), Pow2(33));
    } else {
      Pow2Divides(h, 32);
      MultipleMod(Pow2(32), 0xffff);
      Transitive(0xffff_0000_0000, Pow2(32), Pow2(h));
      SumAligned(n.ip, 0xffff_0000_0000, Pow2(h));
    }
  }

  /** `CalculateLastIP` yields the last address of the network for every prefix length; an
      IPv4-mapped network gives it in its four-byte form. */
  method CalculateLastIP(n: IPNet) returns (ip: array<nat>)
    ensures forall i :: 0 <= i < ip.Length ==> ip[i] < 256
    ensures ip.Length == if IsV4(n.size, n.ip) then 4 else 16
    ensures FromBytes(ip[..]) == if n.size == ip.Length then Last(n) else Last(n) - 0xffff_0000_0000
  {
    var size, low := n.size, n.ip;
    Pow2Values();
    if size == 16 && IsV4(16, n.ip) {
      MappedHostBits(n);
      size, low := 4, n.ip - 0xffff_0000_0000;
    }
    var network := ToBytes(size, low);
    BytesRoundTrip(size, low);
    SetLowBitsIsLast(network, HostBits(n));
    ip := SetHostBits(network, HostBits(n));
    assert ip[..] == SetLowBits(network, HostBits(n));
  }
}
