/** IP addresses as byte slices: the byte-by-byte arithmetic of the bitmap and of `netutil`,
    proved equal to integer arithmetic wherever the allocator uses it. */
module Bytes {
  import opened Powers

  type Byte = b: nat | b < 256

  /** Network byte order: the last byte is the least significant one. */
  function FromBytes(s: seq<nat>): nat {
    if s == [] then 0 else 256 * FromBytes(s[..|s| - 1]) + s[|s| - 1]
  }

  function ToBytes(n: nat, x: nat): (s: seq<Byte>)
    ensures |s| == n
  {
    if n == 0 then [] else ToBytes(n - 1, x / 256) + [x % 256]
  }

  /** Adding `offset` byte by byte, dropping every carry. */
  function AddDroppingCarry(ip: seq<Byte>, offset: nat): (r: seq<Byte>)
    ensures |r| == |ip|
  {
    if ip == [] then []
    else AddDroppingCarry(ip[..|ip| - 1], offset / 256) + [(ip[|ip| - 1] + offset % 256) % 256]
  }

  /** Subtracting byte by byte in wrapping eight-bit arithmetic, with no borrow between bytes. */
  function SubDroppingBorrow(ip: seq<Byte>, base: seq<Byte>): nat
    requires |ip| == |base|
  {
    if ip == [] then 0
    else
      var low: int := ip[|ip| - 1];
      256 * SubDroppingBorrow(ip[..|ip| - 1], base[..|base| - 1]) + (low - base[|base| - 1]) % 256
  }

  /** No byte of the addition exceeds 255. */
  predicate NoByteWraps(ip: seq<Byte>, offset: nat) {
    ip != [] ==> ip[|ip| - 1] + offset % 256 < 256 && NoByteWraps(ip[..|ip| - 1], offset / 256)
  }

  function BitOr(x: nat, y: nat): nat
    decreases x + y
  {
    if x == 0 && y == 0 then 0
    else 2 * BitOr(x / 2, y / 2) + (if x % 2 == 1 || y % 2 == 1 then 1 else 0)
  }

  /** A byte after or-ing its lowest `h` bits, at most eight, with ones. */
  function HostByte(b: nat, h: nat): nat {
    if h == 0 then b else BitOr(b, Pow2(Min(8, h)) - 1)
  }

  /** Or-ing the lowest `h` bits of a byte slice with ones, from the last byte on. */
  function SetLowBits(ip: seq<Byte>, h: nat): (r: seq<nat>)
    ensures |r| == |ip|
  {
    if ip == [] || h == 0 then ip
    else SetLowBits(ip[..|ip| - 1], h - Min(8, h)) + [HostByte(ip[|ip| - 1], h)]
  }

  lemma {:induction false} FromBytesBounded(s: seq<Byte>)
    ensures FromBytes(s) < Pow2(8 * |s|)
  {
    if s != [] {
      FromBytesBounded(s[..|s| - 1]);
      Pow2Byte(8 * |s|);
    }
  }

  lemma {:induction false} BytesRoundTrip(n: nat, x: nat)
    requires x < Pow2(8 * n)
    ensures FromBytes(ToBytes(n, x)) == x
  {
    if n > 0 {
      Pow2Byte(8 * n);
      BytesRoundTrip(n - 1, x / 256);
      assert ToBytes(n, x)[..n - 1] == ToBytes(n - 1, x / 256);
    }
  }

  lemma {:induction false} FromBytesInjective(s: seq<Byte>, t: seq<Byte>)
    requires |s| == |t| && FromBytes(s) == FromBytes(t)
    ensures s == t
  {
    if s != [] {
      FromBytesInjective(s[..|s| - 1], t[..|t| - 1]);
      assert s == s[..|s| - 1] + [s[|s| - 1]] && t == t[..|t| - 1] + [t[|t| - 1]];
    }
  }

  /** An aligned number split into a last byte and the rest: either the last byte is zero and the
      rest is aligned to what remains, or the alignment lies inside the last byte. */
  lemma AlignedSplit(hi: nat, b: Byte, k: nat)
    requires (256 * hi + b) % Pow2(k) == 0
    ensures k >= 8 ==> b == 0 && hi % Pow2(k - 8) == 0
    ensures k < 8 ==> b % Pow2(k) == 0 && b + Pow2(k) <= 256
  {
    if k >= 8 { AlignedHigh(hi, b, k); } else { AlignedLow(hi, b, k); }
  }

  lemma AlignedHigh(hi: nat, b: Byte, k: nat)
    requires k >= 8 && (256 * hi + b) % Pow2(k) == 0
    ensures b == 0 && hi % Pow2(k - 8) == 0
  {
    Pow2Byte(k);
    var x, m := 256 * hi + b, Pow2(k - 8);
    DivMod(x, Pow2(k));
    var q := x / Pow2(k);
    MulAssoc(256, m, q);
    var y := m * q;
    assert x == 256 * y;
    assert hi == y;
    MultipleMod(m, q);
  }

  lemma AlignedLow(hi: nat, b: Byte, k: nat)
    requires k < 8 && (256 * hi + b) % Pow2(k) == 0
    ensures b % Pow2(k) == 0 && b + Pow2(k) <= 256
  {
    assert Pow2(8) == 256 by { Pow2Values(); }
    Pow2Divides(k, 8);
    MultipleMod(256, hi);
    Transitive(256 * hi, 256, Pow2(k));
    SumAligned(256 * hi + b, 256 * hi, Pow2(k));
    AlignedGap(b, 256, Pow2(k));
  }

  lemma AddStep(hi: nat, b: Byte, k: nat, k': nat, offset: nat)
    requires (256 * hi + b) % Pow2(k) == 0 && offset < Pow2(k) && k' == (if k >= 8 then k - 8 else 0)
    ensures b + offset % 256 < 256
    ensures hi % Pow2(k') == 0 && offset / 256 < Pow2(k')
  {
    AlignedSplit(hi, b, k);
    if k >= 8 { Pow2Byte(k); } else { assert Pow2(0) == 1; }
  }

  /** When no byte wraps, the carry-free addition is integer addition. */
  lemma {:induction false} NoWrapIsAddition(base: seq<Byte>, offset: nat)
    requires NoByteWraps(base, offset) && offset < Pow2(8 * |base|)
    ensures FromBytes(AddDroppingCarry(base, offset)) == FromBytes(base) + offset
  {
    if base != [] {
      Pow2Byte(8 * |base|);
      NoWrapIsAddition(base[..|base| - 1], offset / 256);
      AddUnfold(base, offset);
    }
  }

  /** No byte wraps when the base is aligned to `2^k` and the offset is below `2^k`. */
  lemma {:induction false} AlignedNeverWraps(base: seq<Byte>, k: nat, offset: nat)
    requires FromBytes(base) % Pow2(k) == 0 && offset < Pow2(k)
    ensures NoByteWraps(base, offset)
  {
    if base != [] {
      var n, k' := |base| - 1, if k >= 8 then k - 8 else 0;
      AddStep(FromBytes(base[..n]), base[n], k, k', offset);
      AlignedNeverWraps(base[..n], k', offset / 256);
    }
  }

  /** The carry-free addition is integer addition, and no byte wraps, when the base is aligned to
      `2^k` and the offset is below `2^k`. */
  lemma AddIsAddition(base: seq<Byte>, k: nat, offset: nat)
    requires k <= 8 * |base| && FromBytes(base) % Pow2(k) == 0 && offset < Pow2(k)
    ensures FromBytes(AddDroppingCarry(base, offset)) == FromBytes(base) + offset
    ensures NoByteWraps(base, offset)
  {
    if k < 8 * |base| { Pow2Grows(k, 8 * |base|); }
    AlignedNeverWraps(base, k, offset);
    NoWrapIsAddition(base, offset);
  }

  lemma AddUnfold(base: seq<Byte>, offset: nat)
    requires base != []
    ensures var n := |base| - 1;
            FromBytes(AddDroppingCarry(base, offset)) ==
            256 * FromBytes(AddDroppingCarry(base[..n], offset / 256)) + (base[n] + offset % 256) % 256
  {
    var n := |base| - 1;
    assert AddDroppingCarry(base, offset)[..n] == AddDroppingCarry(base[..n], offset / 256);
  }

  /** The borrow-free subtraction undoes the carry-free addition, whatever the base. */
  lemma {:induction false} SubUndoesAdd(base: seq<Byte>, offset: nat)
    requires offset < Pow2(8 * |base|)
    ensures SubDroppingBorrow(AddDroppingCarry(base, offset), base) == offset
  {
    if base != [] {
      var n := |base| - 1;
      Pow2Byte(8 * n + 8);
      SubUndoesAdd(base[..n], offset / 256);
      assert AddDroppingCarry(base, offset)[..n] == AddDroppingCarry(base[..n], offset / 256);
    }
  }

  /** The borrow-free subtraction is integer subtraction inside an aligned block. */
  lemma SubIsSubtraction(ip: seq<Byte>, base: seq<Byte>, k: nat)
    requires |ip| == |base| && k <= 8 * |base| && FromBytes(base) % Pow2(k) == 0
    requires FromBytes(base) <= FromBytes(ip) < FromBytes(base) + Pow2(k)
    ensures SubDroppingBorrow(ip, base) == FromBytes(ip) - FromBytes(base)
  {
    var offset := FromBytes(ip) - FromBytes(base);
    AddIsAddition(base, k, offset);
    FromBytesInjective(ip, AddDroppingCarry(base, offset));
    FromBytesBounded(ip);
    SubUndoesAdd(base, offset);
  }

  lemma {:induction false} OrZero(x: nat)
    ensures BitOr(x, 0) == x
  {
    if x > 0 { OrZero(x / 2); }
  }

  lemma {:induction false} OrLowOnes(x: nat, k: nat)
    requires x % Pow2(k) == 0
    ensures BitOr(x, Pow2(k) - 1) == x + Pow2(k) - 1
  {
    if k == 0 {
      OrZero(x);
    } else {
      var m, q := Pow2(k - 1), x / Pow2(k);
      DivMod(x, Pow2(k));
      MulAssoc(2, m, q);
      assert x == 2 * (m * q);
      MultipleMod(m, q);
      OrLowOnes(x / 2, k - 1);
      assert (Pow2(k) - 1) / 2 == m - 1 && (Pow2(k) - 1) % 2 == 1;
    }
  }

  /** Setting the host bits of an aligned address adds `2^h - 1`; every byte stays a byte. */
  lemma {:induction false} SetLowBitsIsLast(ip: seq<Byte>, h: nat)
    requires h <= 8 * |ip| && FromBytes(ip) % Pow2(h) == 0
    ensures forall i :: 0 <= i < |ip| ==> SetLowBits(ip, h)[i] < 256
    ensures FromBytes(SetLowBits(ip, h)) == FromBytes(ip) + Pow2(h) - 1
  {
    if ip != [] && h > 0 {
      var n, m := |ip| - 1, Min(8, h);
      var r := SetLowBits(ip, h);
      AlignedSplit(FromBytes(ip[..n]), ip[n], h);
      if h >= 8 { Pow2Byte(h); OrLowOnes(0, 8); Pow2Values(); }
      SetLowBitsIsLast(ip[..n], h - m);
      OrLowOnes(ip[n], m);
      assert r[..n] == SetLowBits(ip[..n], h - m);
    }
  }
}
