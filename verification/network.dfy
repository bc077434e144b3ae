/** IP networks as Python's `ipaddress` represents them: a version, a network
    address and a prefix length, with the host bits of the address cleared
    (CIDR prefix notation, section 3.1 of RFC 4632), and the `overlaps` test
    between two of them. Addresses are unbounded naturals below 2^width;
    `addr & netmask` is written arithmetically as rounding down to a
    multiple of the block size. */
module Network {

  datatype Version = V4 | V6

  /** Address width in bits. */
  function Width(v: Version): nat {
    match v
    case V4 => 32
    case V6 => 128
  }

  function Pow2(k: nat): (r: nat)
    ensures r >= 1
  {
    if k == 0 then 1 else 2 * Pow2(k - 1)
  }

  lemma {:induction false} Pow2Add(a: nat, b: nat)
    ensures Pow2(a + b) == Pow2(a) * Pow2(b)
  {
    if a > 0 {
      Pow2Add(a - 1, b);
      assert Pow2(a + b) == 2 * Pow2(a - 1 + b);
    }
  }

  lemma {:induction false} Pow2Monotone(a: nat, b: nat)
    requires a <= b
    ensures Pow2(a) <= Pow2(b)
    decreases b
  {
    if a < b {
      Pow2Monotone(a, b - 1);
    }
  }

  lemma Pow2StrictMonotone(a: nat, b: nat)
    requires a < b
    ensures Pow2(a) < Pow2(b)
  {
    Pow2Monotone(a, b - 1);
  }

  lemma Pow2Values()
    ensures Pow2(8) == 0x100
    ensures Pow2(16) == 0x1_0000
    ensures Pow2(24) == 0x100_0000
    ensures Pow2(32) == 0x1_0000_0000
  {
    assert Pow2(8) == 0x100;
    Pow2Add(8, 8);
    Pow2Add(16, 8);
    Pow2Add(24, 8);
  }

  /** `addr & netmask` for a `prefix`-bit netmask on a `width`-bit address:
      the address with its `width - prefix` low bits cleared. */
  function Mask(addr: nat, prefix: nat, width: nat): (m: nat)
    requires prefix <= width
  {
    var s := Pow2(width - prefix);
    FloorBounds(addr, s);
    addr / s * s
  }

  datatype Net = Net(version: Version, base: nat, prefix: nat)

  /** Every network `ipaddress` builds: the prefix fits the width, the
      address fits the width, and no host bit of the address is set. */
  predicate Valid(n: Net) {
    && n.prefix <= Width(n.version)
    && n.base < Pow2(Width(n.version))
    && n.base % Pow2(Width(n.version) - n.prefix) == 0
  }

  type Network = n: Net | Valid(n) witness Net(V4, 0, 0)

  /** Number of addresses in the network. */
  function Size(n: Network): nat {
    Pow2(Width(n.version) - n.prefix)
  }

  /** `broadcast_address`: the last address of the network. */
  function Last(n: Network): nat {
    n.base + Size(n) - 1
  }

  /** Building a network from any in-range address and prefix, clearing the
      host bits as `strict=False` does, gives a valid network whose address
      is the largest aligned one not above the input. */
  function MakeNetwork(v: Version, addr: nat, prefix: nat): (n: Network)
    requires addr < Pow2(Width(v)) && prefix <= Width(v)
    ensures n.version == v && n.prefix == prefix
    ensures n.base <= addr < n.base + Size(n)
  {
    var s := Pow2(Width(v) - prefix);
    RoundDown(addr, s);
    Net(v, Mask(addr, prefix, Width(v)), prefix)
  }

  /** `addr in n`: same version, and masking `addr` with `n`'s netmask
      yields `n`'s network address. */
  predicate Contains(n: Network, v: Version, addr: nat) {
    n.version == v && Mask(addr, n.prefix, Width(v)) == n.base
  }

  /** `a.overlaps(b)`, as the library computes it: either network contains
      the other's first or last address. Networks of different versions
      never contain each other's addresses. */
  predicate Overlaps(a: Network, b: Network) {
    || Contains(b, a.version, a.base)
    || Contains(b, a.version, Last(a))
    || Contains(a, b.version, b.base)
    || Contains(a, b.version, Last(b))
  }

  /** `a` lies inside `b`. */
  predicate Within(a: Network, b: Network) {
    a.version == b.version && b.base <= a.base && Last(a) <= Last(b)
  }

  // ----- arithmetic helpers -----

  lemma MulMonotone(a: int, b: int, s: nat)
    requires a <= b
    ensures a * s <= b * s
  {
    assert b * s - a * s == (b - a) * s;
  }

  lemma DivMod(x: int, s: int)
    requires s > 0
    ensures x == x / s * s + x % s && 0 <= x % s < s
  {
  }

  lemma MulPred(x: int, s: int)
    ensures (x - 1) * s == x * s - s
  {
  }

  /** Rounding a natural down to a multiple of `s` stays natural. */
  lemma FloorBounds(x: nat, s: nat)
    requires s > 0
    ensures 0 <= x / s * s <= x
  {
    var q, r := x / s, x % s;
    assert x == q * s + r;
    if q < 0 {
      MulMonotone(q, -1, s);
    }
  }

  /** Euclidean division is determined by quotient and remainder bounds. */
  lemma DivModUnique(x: int, s: int, q: int, r: int)
    requires s > 0 && 0 <= r < s && x == q * s + r
    ensures x / s == q && x % s == r
  {
    var q', r' := x / s, x % s;
    assert x == q' * s + r';
    if q < q' {
      MulMonotone(q + 1, q', s);
    } else if q' < q {
      MulMonotone(q' + 1, q, s);
    }
  }

  lemma MulMod(k: nat, s: nat)
    requires s > 0
    ensures (k * s) % s == 0 && (k * s) / s == k
  {
    DivModUnique(k * s, s, k, 0);
  }

  /** Rounding down to a multiple of `s` loses less than `s`. */
  lemma RoundDown(x: nat, s: nat)
    requires s > 0
    ensures x / s * s <= x < x / s * s + s
    ensures (x / s * s) % s == 0
  {
    assert x == x / s * s + x % s;
    MulMod(x / s, s);
  }

  /** Two multiples of `s` that differ are at least `s` apart. */
  lemma AlignedGap(x: nat, y: nat, s: nat)
    requires s > 0 && x % s == 0 && y % s == 0 && x < y
    ensures x + s <= y
  {
    var i, j := x / s, y / s;
    assert x == i * s && y == j * s;
    if j <= i {
      MulMonotone(j, i, s);
    }
    MulMonotone(i + 1, j, s);
  }

  /** Rounding `x` down to a multiple of `s` hits the aligned `base`
      exactly when `x` lies in the block starting at `base`. */
  lemma AlignedRange(x: nat, base: nat, s: nat)
    requires s > 0 && base % s == 0
    ensures x / s * s == base <==> base <= x < base + s
  {
    var q := x / s;
    assert x == q * s + x % s;
    if base <= x < base + s && q * s != base {
      MulMod(q, s);
      if q * s < base {
        AlignedGap(q * s, base, s);
      } else {
        AlignedGap(base, q * s, s);
      }
    }
  }

  /** A multiple of `s * m` is a multiple of `s`. */
  lemma ModFactor(x: nat, s: nat, m: nat)
    requires s > 0 && m > 0 && x % (s * m) == 0
    ensures x % s == 0
  {
    var k := x / (s * m);
    assert x == k * (s * m);
    assert x == (k * m) * s;
    MulMod(k * m, s);
  }

  // ----- properties of networks -----

  /** Membership is the address range `[base, Last]`. */
  lemma ContainsIffInRange(n: Network, addr: nat)
    ensures Contains(n, n.version, addr) <==> n.base <= addr <= Last(n)
  {
    AlignedRange(addr, n.base, Size(n));
  }

  /** A valid network's address is already masked. */
  lemma MaskIdempotent(n: Network)
    ensures Mask(n.base, n.prefix, Width(n.version)) == n.base
  {
    ContainsIffInRange(n, n.base);
  }

  /** `overlaps` is interval intersection of the two address ranges. */
  lemma OverlapsIffIntersect(a: Network, b: Network)
    ensures Overlaps(a, b) <==> a.version == b.version && a.base <= Last(b) && b.base <= Last(a)
  {
    ContainsIffInRange(a, b.base);
    ContainsIffInRange(a, Last(b));
    ContainsIffInRange(b, a.base);
    ContainsIffInRange(b, Last(a));
  }

  lemma OverlapsSymmetric(a: Network, b: Network)
    ensures Overlaps(a, b) <==> Overlaps(b, a)
  {
    OverlapsIffIntersect(a, b);
    OverlapsIffIntersect(b, a);
  }

  lemma OverlapsSameVersion(a: Network, b: Network)
    requires Overlaps(a, b)
    ensures a.version == b.version
  {
  }

  lemma OverlapsReflexive(a: Network)
    ensures Overlaps(a, a)
  {
    OverlapsIffIntersect(a, a);
  }

  /** Aligned blocks `[x, x + sx)` and `[y, y + sy)` that meet, where `sx`
      divides `sy`, nest. */
  lemma AlignedBlocksNest(x: nat, sx: nat, y: nat, sy: nat, m: nat)
    requires sx > 0 && m > 0 && sy == sx * m
    requires x % sx == 0 && y % sy == 0
    requires x < y + sy && y < x + sx
    ensures y <= x && x + sx <= y + sy
  {
    ModFactor(y, sx, m);
    var i, j := y / sx, m;
    assert y == i * sx;
    assert y + sy == (i + j) * sx;
    MulMod(i + j, sx);
    if x < y {
      AlignedGap(x, y, sx);
    }
    AlignedGap(x, y + sy, sx);
  }

  /** A network with the longer prefix that meets another lies inside it. */
  lemma OverlapLongerPrefixWithin(a: Network, b: Network)
    requires Overlaps(a, b) && b.prefix <= a.prefix
    ensures Within(a, b)
  {
    assert a.version == b.version && a.base <= Last(b) && b.base <= Last(a) by {
      OverlapsIffIntersect(a, b);
    }
    var m := a.prefix - b.prefix;
    assert Size(b) == Size(a) * Pow2(m) by {
      var w := Width(a.version);
      assert w - b.prefix == (w - a.prefix) + m;
      Pow2Add(w - a.prefix, m);
    }
    AlignedBlocksNest(a.base, Size(a), b.base, Size(b), Pow2(m));
  }

  /** Two CIDR blocks overlap exactly when one contains the other. */
  lemma OverlapsIffNested(a: Network, b: Network)
    ensures Overlaps(a, b) <==> Within(a, b) || Within(b, a)
  {
    OverlapsIffIntersect(a, b);
    if Overlaps(a, b) {
      if b.prefix <= a.prefix {
        OverlapLongerPrefixWithin(a, b);
      } else {
        OverlapsSymmetric(a, b);
        OverlapLongerPrefixWithin(b, a);
      }
    }
  }
}
