/** Marking a set of used CIDRs in an arbitrary order: Go ranges over a map in
    `findAvailableCIDR`, and ignores the error of a CIDR that is already partly marked. */
module MarkOrder {
  import opened Powers
  import opened Cidrs
  import opened Bitmap

  /** The bitmap after marking `order` from left to right on an empty map. */
  function MarkAll(pool: Cidr, order: seq<Cidr>): set<int>
    requires pool.V4?
  {
    if order == [] then {} else Mark(pool, MarkAll(pool, order[..|order| - 1]), order[|order| - 1])
  }

  predicate Covers(pool: Cidr, c: Cidr, i: int)
    requires pool.V4?
  {
    Starts(pool, c) && Network(c) <= Network(pool) + i < End(c)
  }

  predicate Covered(pool: Cidr, used: set<Cidr>, i: int)
    requires pool.V4?
  {
    exists c :: c in used && Covers(pool, c, i)
  }

  /** Some member strictly inside `d` covers bit `i`. */
  predicate CoveredInside(pool: Cidr, used: set<Cidr>, d: Cidr, i: int)
    requires pool.V4?
  {
    exists e :: e in used && Inner(e, d) && Covers(pool, e, i)
  }

  /** Every member that strictly contains another member is covered by those it strictly contains. */
  ghost predicate Tiled(pool: Cidr, used: set<Cidr>)
    requires pool.V4?
  {
    forall d, e, i :: d in used && e in used && Starts(pool, e) && Inner(e, d) && Covers(pool, d, i)
      ==> CoveredInside(pool, used, d, i)
  }

  ghost predicate PairwiseDisjoint(used: set<Cidr>) {
    forall c, d :: c in used && d in used && c != d ==> Disjoint(c, d)
  }

  ghost predicate IsUnion(pool: Cidr, used: set<Cidr>, bits: set<int>)
    requires pool.V4?
  {
    forall i :: i in bits <==> Covered(pool, used, i)
  }

  function Elements(order: seq<Cidr>): set<Cidr> {
    set c | c in order
  }

  /** `order` visits every member of `used` exactly once. */
  predicate Lists(order: seq<Cidr>, used: set<Cidr>) {
    Elements(order) == used && forall i, j :: 0 <= i < j < |order| ==> order[i] != order[j]
  }

  // ---------------------------------------------------------------- what a marking run contains

  lemma {:induction false} Monotone(pool: Cidr, order: seq<Cidr>, k: nat)
    requires pool.V4? && k <= |order|
    ensures MarkAll(pool, order[..k]) <= MarkAll(pool, order)
  {
    if k < |order| {
      Monotone(pool, order[..|order| - 1], k);
      assert order[..|order| - 1][..k] == order[..k];
    } else {
      assert order[..k] == order;
    }
  }

  /** Every bit of the result was set by a member that is entirely in the result. */
  lemma {:induction false} Provenance(pool: Cidr, order: seq<Cidr>, i: int) returns (c: Cidr)
    requires pool.V4? && i in MarkAll(pool, order)
    ensures c in order && Covers(pool, c, i) && BitsOf(pool, c) <= MarkAll(pool, order)
  {
    var init := order[..|order| - 1];
    if i in MarkAll(pool, init) {
      c := Provenance(pool, init, i);
      Monotone(pool, order, |order| - 1);
    } else {
      c := order[|order| - 1];
    }
  }

  lemma OnlyCovered(pool: Cidr, order: seq<Cidr>)
    requires pool.V4?
    ensures forall i :: i in MarkAll(pool, order) ==> Covered(pool, Elements(order), i)
  {
    forall i | i in MarkAll(pool, order) ensures Covered(pool, Elements(order), i) {
      var c := Provenance(pool, order, i);
    }
  }

  lemma OverlapNests(pool: Cidr, c: Cidr, d: Cidr, i: int)
    requires pool.V4? && Covers(pool, c, i) && Covers(pool, d, i)
    ensures Within(d, c) || Inner(c, d)
  {
    Laminar(c, d);
    SizeOrder(c, d);
  }

  // ---------------------------------------------------------------- tiled sets: any order gives the union

  /** With a tiled set, all bits of every member end up set, in whatever order they are marked. */
  lemma {:induction false} MemberMarked(pool: Cidr, order: seq<Cidr>, d: Cidr, i: int)
    requires pool.V4? && Tiled(pool, Elements(order)) && d in order && Covers(pool, d, i)
    ensures i in MarkAll(pool, order)
    decreases Size(d)
  {
    var k :| 0 <= k < |order| && order[k] == d;
    var before := MarkAll(pool, order[..k]);
    Monotone(pool, order, k);
    Monotone(pool, order, k + 1);
    assert order[..k + 1][..k] == order[..k];
    assert MarkAll(pool, order[..k + 1]) == Mark(pool, before, d);
    if !(BitsOf(pool, d) !! before) {
      var j :| j in BitsOf(pool, d) && j in before;
      var e := Provenance(pool, order[..k], j);
      OverlapNests(pool, e, d, j);
      if Within(d, e) {
        assert i in BitsOf(pool, e);
      } else {
        assert e in Elements(order);
        var e' :| e' in Elements(order) && Inner(e', d) && Covers(pool, e', i);
        MemberMarked(pool, order, e', i);
      }
    }
  }

  lemma TiledGivesUnion(pool: Cidr, order: seq<Cidr>)
    requires pool.V4? && Tiled(pool, Elements(order))
    ensures IsUnion(pool, Elements(order), MarkAll(pool, order))
  {
    OnlyCovered(pool, order);
    forall i | Covered(pool, Elements(order), i) ensures i in MarkAll(pool, order) {
      var c :| c in Elements(order) && Covers(pool, c, i);
      MemberMarked(pool, order, c, i);
    }
  }

  lemma DisjointIsTiled(pool: Cidr, used: set<Cidr>)
    requires pool.V4? && PairwiseDisjoint(used)
    ensures Tiled(pool, used)
  {
    forall d, e | d in used && e in used && d != e ensures !Inner(e, d) {
      assert Disjoint(d, e);
    }
  }

  // ---------------------------------------------------------------- other sets: the order shows

  lemma {:induction false} SomeOrder(used: set<Cidr>) returns (order: seq<Cidr>)
    ensures Lists(order, used)
    decreases used
  {
    if used == {} {
      order := [];
    } else {
      var c :| c in used;
      var rest := SomeOrder(used - {c});
      order := rest + [c];
      assert forall x :: x in order <==> x in rest || x == c;
      assert forall x :: x in rest <==> x in Elements(rest);
    }
  }

  lemma ListsConcat(a: seq<Cidr>, A: set<Cidr>, b: seq<Cidr>, B: set<Cidr>)
    requires Lists(a, A) && Lists(b, B) && A !! B
    ensures Lists(a + b, A + B)
  {
    assert forall x :: x in a <==> x in Elements(a);
    assert forall x :: x in b <==> x in Elements(b);
    assert forall x :: x in a + b <==> x in a || x in b;
    forall i, j | 0 <= i < j < |a + b| ensures (a + b)[i] != (a + b)[j] {
      if i < |a| <= j {
        assert (a + b)[i] in A && (a + b)[j] in B;
      }
    }
  }

  /** Once a bit `j` of `d` is set and bit `i` of `d` is not, no member around `d` can set bit `i` any more. */
  lemma {:induction false} Blocked(pool: Cidr, head: seq<Cidr>, tail: seq<Cidr>, d: Cidr, i: int, j: int)
    requires pool.V4? && Covers(pool, d, i) && Covers(pool, d, j)
    requires j in MarkAll(pool, head) && i !in MarkAll(pool, head)
    requires forall c :: c in tail ==> !(Inner(c, d) && Covers(pool, c, i))
    ensures i !in MarkAll(pool, head + tail)
  {
    if tail == [] {
      assert head + tail == head;
    } else {
      var n := |tail| - 1;
      Blocked(pool, head, tail[..n], d, i, j);
      assert (head + tail)[..|head + tail| - 1] == head + tail[..n];
      assert (head + tail[..n])[..|head|] == head;
      Monotone(pool, head + tail[..n], |head|);
      BlockedStep(pool, MarkAll(pool, head + tail[..n]), tail[n], d, i, j);
    }
  }

  lemma BlockedStep(pool: Cidr, bits: set<int>, c: Cidr, d: Cidr, i: int, j: int)
    requires pool.V4? && Covers(pool, d, i) && Covers(pool, d, j) && j in bits && i !in bits
    requires !(Inner(c, d) && Covers(pool, c, i))
    ensures i !in Mark(pool, bits, c)
  {
    if Covers(pool, c, i) {
      OverlapNests(pool, c, d, i);
      assert j in BitsOf(pool, c);
    }
  }

  /** A member that strictly contains another one but is not covered from inside loses a bit in some order. */
  lemma BadOrder(pool: Cidr, used: set<Cidr>, d: Cidr, e: Cidr, i: int) returns (order: seq<Cidr>)
    requires pool.V4? && d in used && e in used && Starts(pool, e) && Inner(e, d) && Covers(pool, d, i)
    requires !CoveredInside(pool, used, d, i)
    ensures Lists(order, used) && i !in MarkAll(pool, order)
  {
    var rest := SomeOrder(used - {e});
    order := [e] + rest;
    ListsConcat([e], {e}, rest, used - {e});
    assert {e} + (used - {e}) == used;
    var j := Network(e) - Network(pool);
    assert MarkAll(pool, [e]) == Mark(pool, MarkAll(pool, [e][..0]), e);
    assert j in BitsOf(pool, e);
    assert forall c :: c in rest ==> c in Elements(rest);
    Blocked(pool, [e], rest, d, i, j);
  }

  /** Marking larger blocks first always gives the union. */
  lemma {:induction false} GoodOrder(pool: Cidr, used: set<Cidr>) returns (order: seq<Cidr>)
    requires pool.V4?
    ensures Lists(order, used) && IsUnion(pool, used, MarkAll(pool, order))
    decreases used
  {
    if used == {} {
      order := [];
    } else {
      var c := Smallest(used);
      var rest := GoodOrder(pool, used - {c});
      order := rest + [c];
      ListsConcat(rest, used - {c}, [c], {c});
      assert used - {c} + {c} == used;
      assert order[..|order| - 1] == rest;
      UnionStep(pool, used, c, MarkAll(pool, rest));
    }
  }

  function Rank(c: Cidr): nat {
    if c.V4? then c.len else 33
  }

  lemma {:induction false} Smallest(used: set<Cidr>) returns (c: Cidr)
    requires used != {}
    ensures c in used && forall d :: d in used ==> Rank(d) <= Rank(c)
    decreases used
  {
    c :| c in used;
    if used != {c} {
      var other := Smallest(used - {c});
      assert forall d :: d in used ==> d == c || d in used - {c};
      if Rank(other) >= Rank(c) { c := other; }
    }
  }

  lemma UnionStep(pool: Cidr, used: set<Cidr>, c: Cidr, bits: set<int>)
    requires pool.V4? && c in used && IsUnion(pool, used - {c}, bits)
    requires forall d :: d in used ==> Rank(d) <= Rank(c)
    ensures IsUnion(pool, used, Mark(pool, bits, c))
  {
    var after := Mark(pool, bits, c);
    forall i ensures i in after <==> Covered(pool, used, i) {
      if i in bits {
        var e :| e in used - {c} && Covers(pool, e, i);
      } else if i in after {
        assert Covers(pool, c, i);
      } else if Covered(pool, used, i) {
        var e :| e in used && Covers(pool, e, i);
        assert e == c || e in used - {c};
        var j :| j in BitsOf(pool, c) && j in bits;
        var f :| f in used - {c} && Covers(pool, f, j);
        OverlapNests(pool, f, c, j);
        SizeOrder(f, c);
        assert Covers(pool, f, i);
      }
    }
  }

  // ---------------------------------------------------------------- the exact condition

  /** Marking gives the union of the ranges in every order exactly when the used set is tiled. */
  lemma UnionIffTiled(pool: Cidr, used: set<Cidr>)
    requires pool.V4?
    ensures (forall order :: Lists(order, used) ==> IsUnion(pool, used, MarkAll(pool, order)))
            <==> Tiled(pool, used)
  {
    if Tiled(pool, used) {
      forall order | Lists(order, used) ensures IsUnion(pool, used, MarkAll(pool, order)) {
        TiledGivesUnion(pool, order);
      }
    } else {
      var d, e, i :| d in used && e in used && Starts(pool, e) && Inner(e, d) && Covers(pool, d, i)
                     && !CoveredInside(pool, used, d, i);
      var order := BadOrder(pool, used, d, e, i);
      assert Covered(pool, used, i);
    }
  }

  lemma SameUnion(pool: Cidr, used: set<Cidr>, a: set<int>, b: set<int>)
    requires pool.V4? && IsUnion(pool, used, a) && IsUnion(pool, used, b)
    ensures a == b
  {
    assert forall i :: i in a <==> i in b;
  }

  /** The bitmap does not depend on the marking order exactly when the used set is tiled. */
  lemma OrderIndependentIffTiled(pool: Cidr, used: set<Cidr>)
    requires pool.V4?
    ensures (forall o1, o2 :: Lists(o1, used) && Lists(o2, used) ==> MarkAll(pool, o1) == MarkAll(pool, o2))
            <==> Tiled(pool, used)
  {
    UnionIffTiled(pool, used);
    if Tiled(pool, used) {
      forall o1, o2 | Lists(o1, used) && Lists(o2, used) ensures MarkAll(pool, o1) == MarkAll(pool, o2) {
        SameUnion(pool, used, MarkAll(pool, o1), MarkAll(pool, o2));
      }
    } else {
      var o1 :| Lists(o1, used) && !IsUnion(pool, used, MarkAll(pool, o1));
      var o2 := GoodOrder(pool, used);
      assert MarkAll(pool, o1) != MarkAll(pool, o2);
    }
  }

  lemma MarkOne(pool: Cidr, c: Cidr)
    requires pool.V4? && Starts(pool, c)
    ensures MarkAll(pool, [c]) == BitsOf(pool, c)
  {
    assert [c][..0] == [];
    assert MarkAll(pool, [c]) == Mark(pool, MarkAll(pool, []), c);
  }

  /** The member `e` lies strictly inside `d` and leaves bit `i` of it uncovered. */
  predicate Uncovered(pool: Cidr, d: Cidr, e: Cidr, i: int)
    requires pool.V4?
  {
    Starts(pool, e) && Inner(e, d) && Covers(pool, d, i) && !Covers(pool, e, i)
  }

  lemma TwoOrders(pool: Cidr, d: Cidr, e: Cidr, i: int)
    requires pool.V4? && Uncovered(pool, d, e, i)
    ensures i in MarkAll(pool, [d, e]) && i !in MarkAll(pool, [e, d])
    ensures Lists([d, e], {d, e}) && Lists([e, d], {d, e})
  {
    assert [d, e][..1] == [d] && [e, d][..1] == [e];
    MarkOne(pool, d);
    MarkOne(pool, e);
    assert Network(e) - Network(pool) in BitsOf(pool, e);
    assert Network(e) - Network(pool) in BitsOf(pool, d);
  }

  lemma TenSlash(c: Cidr)
    requires c.V4? && c.addr == 0x0A00_0000 && 8 <= c.len
    ensures Network(c) == 0x0A00_0000
  {
    var len := c.len;
    assert Pow2(24) == 0x100_0000 by { Pow2Values(); Pow2Add(8, 8); Pow2Add(16, 8); }
    Pow2Divides(32 - len, 24);
    MultipleMod(Pow2(24), 10);
    Transitive(0x0A00_0000, Pow2(24), Pow2(32 - len));
  }

  lemma Sizes(d: Cidr, e: Cidr)
    requires d.V4? && d.len == 24 && e.V4? && e.len == 25
    ensures Size(d) == 256 && Size(e) == 128
  {
    Pow2Values();
  }

  lemma UpperHalf(pool: Cidr, d: Cidr, e: Cidr)
    requires pool.V4? && d.V4? && e.V4? && pool.addr == d.addr == e.addr == 0x0A00_0000
    requires pool.len == 16 && d.len == 24 && e.len == 25
    ensures Uncovered(pool, d, e, 128)
  {
    TenSlash(pool);
    TenSlash(d);
    TenSlash(e);
    Sizes(d, e);
    HalfUncovered(pool, d, e);
  }

  lemma HalfUncovered(pool: Cidr, d: Cidr, e: Cidr)
    requires pool.V4? && d.V4? && e.V4? && Network(pool) == Network(d) == Network(e)
    requires Size(d) == 256 && Size(e) == 128
    ensures Uncovered(pool, d, e, 128)
  {}

  /** A failing input: with 10.0.0.0/24 and 10.0.0.0/25 in use, the upper half of the /24 is marked or not depending on
      which of the two is visited first. */
  lemma NestedOrderMatters(pool: Cidr, d: Cidr, e: Cidr)
    requires pool == V4(0x0A00_0000, 16) && d == V4(0x0A00_0000, 24) && e == V4(0x0A00_0000, 25)
    ensures exists i :: i in MarkAll(pool, [d, e]) && i !in MarkAll(pool, [e, d])
    ensures Lists([d, e], {d, e}) && Lists([e, d], {d, e})
  {
    UpperHalf(pool, d, e);
    TwoOrders(pool, d, e, 128);
  }
}
