/** `EncodeAllocationName`: the object name under which a Subnet is created, and so the key on
    which concurrent allocators collide. */
module Names {
  import opened Cidrs
  import opened Bytes
  import Powers

  type Digest = d: seq<Byte> | |d| == 20 witness seq(20, _ => 0)

  /** SHA-1 is a parameter of the model: nothing is assumed of it but its output length. */
  type Sha1 = string -> Digest

  const MAX_NAME: nat := 63
  const MAX_POOL_PREFIX: nat := 40

  function Digit(d: nat): char
    requires d < 10
  {
    "0123456789"[d]
  }

  function Decimal(n: nat): (s: string)
    ensures |s| >= 1
  {
    if n < 10 then [Digit(n)] else Decimal(n / 10) + [Digit(n % 10)]
  }

  function Hex(b: seq<Byte>): (s: string)
    ensures |s| == 2 * |b|
  {
    if b == [] then "" else
      var last := b[|b| - 1];
      Hex(b[..|b| - 1]) + ["0123456789abcdef"[last / 16], "0123456789abcdef"[last % 16]]
  }

  /** The text of a CIDR: four decimal bytes and a prefix length. */
  function Render(c: Cidr): string {
    if c.Foreign? then c.text else
      var ip := ToBytes(4, c.addr);
      Decimal(ip[0]) + "." + Decimal(ip[1]) + "." + Decimal(ip[2]) + "." + Decimal(ip[3]) + "/" + Decimal(c.len)
  }

  function ReplaceAll(s: string, from: char): (r: string)
    ensures |r| == |s|
  {
    seq(|s|, i requires 0 <= i < |s| => if s[i] == from then '-' else s[i])
  }

  function Normalize(s: string): (r: string)
    ensures |r| == |s|
  {
    ReplaceAll(ReplaceAll(ReplaceAll(s, '/'), '.'), ':')
  }

  function PlainName(pool: string, c: Cidr): string {
    pool + "-" + Normalize(Render(c))
  }

  predicate IsShort(pool: string, c: Cidr) {
    |PlainName(pool, c)| <= MAX_NAME
  }

  function EncodeAllocationName(sha1: Sha1, pool: string, c: Cidr): string {
    var name := PlainName(pool, c);
    if |name| <= MAX_NAME then name else
      var hash := Hex(sha1(name)[..8]);
      var prefix := if |pool| > MAX_POOL_PREFIX then pool[..MAX_POOL_PREFIX] else pool;
      var shortName := prefix + "-" + hash;
      if |shortName| > MAX_NAME then shortName[..MAX_NAME] else shortName
  }

  // ---------------------------------------------------------------- dash-separated chains

  predicate DashFree(s: string) {
    '-' !in s
  }

  function Chain(head: string, parts: seq<string>): string {
    if parts == [] then head else Chain(head, parts[..|parts| - 1]) + "-" + parts[|parts| - 1]
  }

  /** What follows the last dash is determined by the string. */
  lemma LastDash(p: string, x: string, q: string, y: string)
    requires p + "-" + x == q + "-" + y && DashFree(x) && DashFree(y)
    ensures p == q && x == y
  {
    var s, t := p + "-" + x, q + "-" + y;
    assert s[|p|] == '-' && t[|q|] == '-';
    assert |x| == |y|;
    assert p == s[..|p|] && q == t[..|q|];
    assert x == s[|p| + 1..] && y == t[|q| + 1..];
  }

  lemma {:induction false} ChainInjective(p: string, xs: seq<string>, q: string, ys: seq<string>)
    requires |xs| == |ys| && Chain(p, xs) == Chain(q, ys)
    requires forall i :: 0 <= i < |xs| ==> DashFree(xs[i]) && DashFree(ys[i])
    ensures p == q && xs == ys
  {
    if xs != [] {
      var n := |xs| - 1;
      LastDash(Chain(p, xs[..n]), xs[n], Chain(q, ys[..n]), ys[n]);
      ChainInjective(p, xs[..n], q, ys[..n]);
      assert xs == xs[..n] + [xs[n]] && ys == ys[..n] + [ys[n]];
    }
  }

  // ---------------------------------------------------------------- decimals

  predicate Digits(s: string) {
    forall i :: 0 <= i < |s| ==> s[i] in "0123456789"
  }

  lemma {:induction false} DecimalDigits(n: nat)
    ensures Digits(Decimal(n)) && DashFree(Decimal(n))
  {
    if n >= 10 { DecimalDigits(n / 10); }
  }

  lemma {:induction false} DecimalInjective(n: nat, m: nat)
    requires Decimal(n) == Decimal(m)
    ensures n == m
  {
    var s, t := Decimal(n), Decimal(m);
    assert s[|s| - 1] == Digit(n % 10) && t[|t| - 1] == Digit(m % 10);
    if n >= 10 && m >= 10 {
      assert s[..|s| - 1] == Decimal(n / 10) && t[..|t| - 1] == Decimal(m / 10);
      DecimalInjective(n / 10, m / 10);
    }
  }

  lemma DecimalLength(n: nat)
    ensures n < 100 ==> |Decimal(n)| <= 2
    ensures n < 256 ==> |Decimal(n)| <= 3
  {
    if n >= 10 {
      assert |Decimal(n)| == |Decimal(n / 10)| + 1;
      if n >= 100 { assert |Decimal(n / 10)| == |Decimal(n / 100)| + 1 by { assert n / 10 / 10 == n / 100; } }
    }
  }

  // ---------------------------------------------------------------- the encoded name as a chain

  function Parts(c: Cidr): (s: seq<string>)
    requires c.V4?
    ensures |s| == 5
  {
    var ip := ToBytes(4, c.addr);
    [Decimal(ip[0]), Decimal(ip[1]), Decimal(ip[2]), Decimal(ip[3]), Decimal(c.len)]
  }

  lemma NormalizeConcat(s: string, t: string)
    ensures Normalize(s + t) == Normalize(s) + Normalize(t)
  {}

  lemma NormalizeDigits(s: string)
    requires Digits(s)
    ensures Normalize(s) == s
  {}

  lemma NormalizeStep(s: string, sep: string, d: string)
    requires Digits(d) && (sep == "." || sep == "/")
    ensures Normalize(s + sep + d) == Normalize(s) + "-" + d
  {
    NormalizeConcat(s + sep, d);
    NormalizeConcat(s, sep);
    NormalizeDigits(d);
    assert Normalize(sep) == "-";
  }

  lemma PlainNameIsChain(pool: string, c: Cidr)
    requires c.V4?
    ensures PlainName(pool, c) == Chain(pool, Parts(c))
  {
    var p := Parts(c);
    NormalizedRender(c);
    ChainPrefix(pool, p[0], p[1..]);
    assert [p[0]] + p[1..] == p;
  }

  lemma NormalizedRender(c: Cidr)
    requires c.V4?
    ensures Normalize(Render(c)) == Chain(Parts(c)[0], Parts(c)[1..])
  {
    var p := Parts(c);
    var s1 := p[0] + "." + p[1];
    var s2 := s1 + "." + p[2];
    var s3 := s2 + "." + p[3];
    PartsDigits(c);
    NormalizeDigits(p[0]);
    NormalizeStep(p[0], ".", p[1]);
    NormalizeStep(s1, ".", p[2]);
    NormalizeStep(s2, ".", p[3]);
    NormalizeStep(s3, "/", p[4]);
    ChainOfFour(p[0], p[1], p[2], p[3], p[4]);
    assert p[1..] == [p[1], p[2], p[3], p[4]];
  }

  lemma ChainOfFour(h: string, a: string, b: string, c: string, d: string)
    ensures Chain(h, [a, b, c, d]) == h + "-" + a + "-" + b + "-" + c + "-" + d
  {
    assert Chain(h, []) == h;
    ChainStep(h, [], a);
    ChainStep(h, [a], b);
    ChainStep(h, [a, b], c);
    ChainStep(h, [a, b, c], d);
    assert [] + [a] == [a] && [a] + [b] == [a, b] && [a, b] + [c] == [a, b, c] && [a, b, c] + [d] == [a, b, c, d];
  }

  lemma ChainStep(h: string, xs: seq<string>, x: string)
    ensures Chain(h, xs + [x]) == Chain(h, xs) + "-" + x
  {
    assert (xs + [x])[..|xs|] == xs;
  }

  lemma {:induction false} ChainPrefix(h: string, x: string, xs: seq<string>)
    ensures Chain(h, [x] + xs) == h + "-" + Chain(x, xs)
  {
    if xs == [] {
      assert [x] + xs == [x];
    } else {
      var n := |xs| - 1;
      ChainPrefix(h, x, xs[..n]);
      assert ([x] + xs)[..n + 1] == [x] + xs[..n];
    }
  }

  lemma RenderLength(c: Cidr)
    requires c.V4?
    ensures |Render(c)| <= 18
  {
    var ip := ToBytes(4, c.addr);
    DecimalLength(ip[0]);
    DecimalLength(ip[1]);
    DecimalLength(ip[2]);
    DecimalLength(ip[3]);
    DecimalLength(c.len);
  }

  // ---------------------------------------------------------------- results

  /** Every name fits in 63 characters; pool names of at most 44 characters are never hashed;
      a hashed name has exactly 57 characters. */
  lemma NameLength(sha1: Sha1, pool: string, c: Cidr)
    requires c.V4?
    ensures |EncodeAllocationName(sha1, pool, c)| <= MAX_NAME
    ensures |pool| <= 44 ==> IsShort(pool, c)
    ensures !IsShort(pool, c) ==> |EncodeAllocationName(sha1, pool, c)| == 57
  {
    RenderLength(c);
  }

  /** The short form determines pool and CIDR, by decoding from the right. */
  lemma ShortNameInjective(sha1: Sha1, p: string, c: Cidr, q: string, d: Cidr)
    requires c.V4? && d.V4? && IsShort(p, c) && IsShort(q, d)
    requires EncodeAllocationName(sha1, p, c) == EncodeAllocationName(sha1, q, d)
    ensures p == q && c == d
  {
    PlainNameIsChain(p, c);
    PlainNameIsChain(q, d);
    PartsDigits(c);
    PartsDigits(d);
    ChainInjective(p, Parts(c), q, Parts(d));
    PartsInjective(c, d);
  }

  lemma PartsDigits(c: Cidr)
    requires c.V4?
    ensures forall i :: 0 <= i < 5 ==> Digits(Parts(c)[i]) && DashFree(Parts(c)[i])
  {
    var ip := ToBytes(4, c.addr);
    forall i | 0 <= i < 5 ensures Digits(Parts(c)[i]) && DashFree(Parts(c)[i]) {
      DecimalDigits(if i < 4 then ip[i] else c.len);
    }
  }

  lemma PartsInjective(c: Cidr, d: Cidr)
    requires c.V4? && d.V4? && Parts(c) == Parts(d)
    ensures c == d
  {
    var s, t := ToBytes(4, c.addr), ToBytes(4, d.addr);
    forall i | 0 <= i < 4 ensures s[i] == t[i] {
      assert Parts(c)[i] == Parts(d)[i];
      DecimalInjective(s[i], t[i]);
    }
    assert s == t;
    assert Parts(c)[4] == Parts(d)[4];
    DecimalInjective(c.len, d.len);
    AddressFromBytes(c.addr);
    AddressFromBytes(d.addr);
  }

  lemma AddressFromBytes(a: Address)
    ensures FromBytes(ToBytes(4, a)) == a
  {
    Powers.Pow2Values();
    BytesRoundTrip(4, a);
  }

  lemma {:induction false} HexDashFree(b: seq<Byte>)
    ensures DashFree(Hex(b))
  {
    if b != [] {
      HexDashFree(b[..|b| - 1]);
      assert forall i :: 0 <= i < 16 ==> "0123456789abcdef"[i] != '-';
    }
  }

  /** How every encoded name ends: a last dash, followed by one or two digits or by sixteen hex digits. */
  lemma NameEnding(sha1: Sha1, pool: string, c: Cidr) returns (head: string, tail: string)
    requires c.V4?
    ensures EncodeAllocationName(sha1, pool, c) == head + "-" + tail && DashFree(tail)
    ensures if IsShort(pool, c) then 1 <= |tail| <= 2 else |tail| == 16
  {
    if IsShort(pool, c) {
      PlainNameIsChain(pool, c);
      var p := Parts(c);
      head, tail := Chain(pool, p[..4]), p[4];
      PartsDigits(c);
      DecimalLength(c.len);
    } else {
      RenderLength(c);
      head, tail := pool[..MAX_POOL_PREFIX], Hex(sha1(PlainName(pool, c))[..8]);
      HexDashFree(sha1(PlainName(pool, c))[..8]);
    }
  }

  /** No short name equals a hashed one, whatever SHA-1 returns. */
  lemma ShortNeverHashed(sha1: Sha1, p: string, c: Cidr, q: string, d: Cidr)
    requires c.V4? && d.V4? && IsShort(p, c) && !IsShort(q, d)
    ensures EncodeAllocationName(sha1, p, c) != EncodeAllocationName(sha1, q, d)
  {
    var h, t := NameEnding(sha1, p, c);
    var h', t' := NameEnding(sha1, q, d);
    if h + "-" + t == h' + "-" + t' { LastDash(h, t, h', t'); }
  }

  /** A UUID, whose last group has twelve characters, is never an encoded name. */
  lemma UuidNeverEncoded(sha1: Sha1, pool: string, c: Cidr, head: string, group: string)
    requires c.V4? && DashFree(group) && |group| == 12
    ensures EncodeAllocationName(sha1, pool, c) != head + "-" + group
  {
    var h, t := NameEnding(sha1, pool, c);
    if h + "-" + t == head + "-" + group { LastDash(h, t, head, group); }
  }

  // ---------------------------------------------------------------- reading a name

  /** What a digit stands for, up to base 16; -1 for any other character. */
  function DigitValue(ch: char): int {
    if '0' <= ch <= '9' then ch as int - '0' as int
    else if 'a' <= ch <= 'f' then ch as int - 'a' as int + 10
    else -1
  }

  /** A numeral read from left to right. */
  function Value(s: string, base: nat): int {
    if s == "" then 0 else base * Value(s[..|s| - 1], base) + DigitValue(s[|s| - 1])
  }

  /** The decimal text of a number is read back as that number, and has no leading zero. */
  lemma {:induction false} DecimalReads(n: nat)
    ensures Value(Decimal(n), 10) == n
    ensures |Decimal(n)| > 1 ==> Decimal(n)[0] != '0'
    ensures n > 0 ==> Decimal(n)[0] != '0'
  {
    var s := Decimal(n);
    assert forall d :: 0 <= d < 10 ==> DigitValue("0123456789"[d]) == d;
    if n < 10 {
      assert s[..|s| - 1] == "";
    } else {
      DecimalReads(n / 10);
      assert s[..|s| - 1] == Decimal(n / 10);
    }
  }

  /** Two hex digits for each byte, in order. */
  lemma {:induction false} HexReads(b: seq<Byte>, i: nat)
    requires i < |b|
    ensures 16 * DigitValue(Hex(b)[2 * i]) + DigitValue(Hex(b)[2 * i + 1]) == b[i]
  {
    var n := |b| - 1;
    assert forall d :: 0 <= d < 16 ==> DigitValue("0123456789abcdef"[d]) == d;
    if i < n { HexReads(b[..n], i); }
  }

  /** The address and the prefix length as five numerals without leading zeros. */
  predicate Spells(c: Cidr, p: seq<string>) {
    && c.V4? && |p| == 5
    && (forall i :: 0 <= i < 5 ==> Digits(p[i]) && p[i] != "" && (|p[i]| > 1 ==> p[i][0] != '0'))
    && (forall i :: 0 <= i < 4 ==> 0 <= Value(p[i], 10) < 256)
    && 0x100_0000 * Value(p[0], 10) + 0x1_0000 * Value(p[1], 10) + 0x100 * Value(p[2], 10) + Value(p[3], 10) == c.addr
    && Value(p[4], 10) == c.len
  }

  lemma PartsSpell(c: Cidr)
    requires c.V4?
    ensures Spells(c, Parts(c))
  {
    var ip, p := ToBytes(4, c.addr), Parts(c);
    PartsDigits(c);
    forall i | 0 <= i < 5
      ensures Value(p[i], 10) == (if i < 4 then ip[i] else c.len) && (|p[i]| > 1 ==> p[i][0] != '0')
    {
      DecimalReads(if i < 4 then ip[i] else c.len);
    }
    AddressFromBytes(c.addr);
    FourBytes(ip);
  }

  lemma FourBytes(ip: seq<nat>)
    requires |ip| == 4
    ensures FromBytes(ip) == 0x100_0000 * ip[0] + 0x1_0000 * ip[1] + 0x100 * ip[2] + ip[3]
  {
    assert ip[..3][..2] == ip[..2] && ip[..2][..1] == ip[..1] && ip[..1][..0] == [];
    assert FromBytes(ip[..1]) == ip[0];
    assert FromBytes(ip[..2]) == 0x100 * ip[0] + ip[1];
    assert FromBytes(ip[..3]) == 0x1_0000 * ip[0] + 0x100 * ip[1] + ip[2];
  }

  /** The pool and the five numerals, separated by dashes. */
  function Dashed(pool: string, p: seq<string>): string
    requires |p| == 5
  {
    pool + "-" + p[0] + "-" + p[1] + "-" + p[2] + "-" + p[3] + "-" + p[4]
  }

  lemma PlainIsDashed(pool: string, c: Cidr)
    requires c.V4?
    ensures PlainName(pool, c) == Dashed(pool, Parts(c))
  {
    var p := Parts(c);
    PlainNameIsChain(pool, c);
    ChainOfFour(pool, p[0], p[1], p[2], p[3]);
    ChainStep(pool, [p[0], p[1], p[2], p[3]], p[4]);
    assert p == [p[0], p[1], p[2], p[3]] + [p[4]];
  }

  /** Forty characters of the pool, a dash, and the first eight bytes of the digest in hex. */
  predicate Hashed(name: string, pool: string, digest: Digest) {
    && |name| == 57 && |pool| > 40 && name[..40] == pool[..40] && name[40] == '-'
    && forall i :: 0 <= i < 8 ==> 16 * DigitValue(name[41 + 2 * i]) + DigitValue(name[42 + 2 * i]) == digest[i]
  }

  lemma HashedText(name: string, pool: string, digest: Digest)
    requires |pool| > 40 && name == pool[..40] + "-" + Hex(digest[..8])
    ensures Hashed(name, pool, digest)
  {
    var b := digest[..8];
    forall i | 0 <= i < 8 ensures 16 * DigitValue(name[41 + 2 * i]) + DigitValue(name[42 + 2 * i]) == digest[i] {
      HexReads(b, i);
      assert name[41 + 2 * i] == Hex(b)[2 * i] && name[42 + 2 * i] == Hex(b)[2 * i + 1];
    }
  }

  /** What an encoded name says: the pool, the four bytes of the address and the prefix length, separated by dashes, if
      that has at most 63 characters; otherwise the first 40 characters of the pool and the first eight bytes
      of the digest of that text. */
  lemma NameText(sha1: Sha1, pool: string, c: Cidr) returns (p: seq<string>)
    requires c.V4?
    ensures Spells(c, p)
    ensures var name, plain := EncodeAllocationName(sha1, pool, c), Dashed(pool, p);
            if |plain| <= 63 then name == plain else Hashed(name, pool, sha1(plain))
  {
    p := Parts(c);
    PartsSpell(c);
    PlainIsDashed(pool, c);
    RenderLength(c);
    if |Dashed(pool, p)| > 63 {
      HashedText(EncodeAllocationName(sha1, pool, c), pool, sha1(Dashed(pool, p)));
    }
  }
}
