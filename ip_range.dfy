/**
 * CIDR arithmetic over the 32-bit address family: network and broadcast
 * boundaries, membership, ordered enumeration by index, size and overlap.
 * Addresses are the integer values of IPv4 addresses.
 */
module IpRange {

  /** Number of addresses in the 32-bit family. */
  const AddressSpace: nat := 0x1_0000_0000

  /** An address of the 32-bit family, as its integer value. */
  type Ip = n: nat | n < 0x1_0000_0000

  /** A prefix length of a 32-bit CIDR block. */
  type PrefixLength = p: nat | p <= 32

  /**
   * A CIDR block as written `address/prefix`. The block it denotes starts at
   * `address` rounded down to a multiple of its size, as the CIDR library
   * normalises it.
   */
  datatype Cidr = Cidr(address: Ip, prefix: PrefixLength)

  /** The address `a.b.c.d`. */
  function Dotted(a: nat, b: nat, c: nat, d: nat): (ip: Ip)
    requires a < 256 && b < 256 && c < 256 && d < 256
    ensures ip % 256 == d && ip / 0x100_0000 == a
  {
    a * 0x100_0000 + b * 0x1_0000 + c * 0x100 + d
  }

  function Pow2(n: nat): (r: nat)
    ensures r >= 1
  {
    if n == 0 then 1 else 2 * Pow2(n - 1)
  }

  lemma {:induction false} Pow2Add(m: nat, n: nat)
    ensures Pow2(m + n) == Pow2(m) * Pow2(n)
  {
    if n > 0 {
      Pow2Add(m, n - 1);
      calc {
        Pow2(m + n);
        2 * Pow2(m + n - 1);
        2 * (Pow2(m) * Pow2(n - 1));
        Pow2(m) * (2 * Pow2(n - 1));
        Pow2(m) * Pow2(n);
      }
    }
  }

  lemma Pow2At32()
    ensures Pow2(32) == AddressSpace
  {
    assert Pow2(8) == 256 by {
      Pow2Add(4, 4);
      assert Pow2(4) == 16;
    }
    assert Pow2(16) == 0x1_0000 by {
      Pow2Add(8, 8);
    }
    Pow2Add(16, 16);
  }

  /** The number of addresses in block `r`. */
  function Size(r: Cidr): (n: nat)
    ensures 1 <= n
    ensures n * Pow2(r.prefix) == AddressSpace
  {
    Pow2Add(32 - r.prefix, r.prefix);
    Pow2At32();
    Pow2(32 - r.prefix)
  }

  lemma MulMonotone(s: nat, m: int, n: int)
    requires m <= n
    ensures s * m <= s * n
  {
    assert s * n - s * m == s * (n - m);
  }

  /**
   * The aligned block of `s` addresses holding `x` starts at `s * (x / s)`,
   * and ends within the address space when `s` divides it.
   */
  lemma AlignedBlockFits(x: nat, s: nat, k: nat)
    requires s >= 1 && x < AddressSpace && s * k == AddressSpace
    ensures s * (x / s) <= x < s * (x / s) + s
    ensures s * (x / s) + s <= AddressSpace
  {
    var q := x / s;
    assert q < k;
    MulMonotone(s, q + 1, k);
    assert s * (q + 1) == s * q + s;
  }

  /** A multiple of `s` leaves no remainder when divided by `s`. */
  lemma MultipleHasNoRemainder(s: int, q: int)
    requires s >= 1
    ensures (s * q) % s == 0
  {
    var x := s * q;
    var d := q - x / s;
    assert x == s * (x / s) + x % s;
    assert s * d == x % s by {
      MulDistributes(s, q, -(x / s));
    }
    if d >= 1 {
      MulMonotone(s, 1, d);
      assert false;
    }
    if d <= -1 {
      MulMonotone(s, d, -1);
      assert false;
    }
  }

  /** `x` rounded down to a multiple of `s`, where `s` divides the address space. */
  function AlignDown(x: Ip, s: nat, ghost k: nat): (a: Ip)
    requires s >= 1 && s * k == AddressSpace
    ensures a <= x < a + s
    ensures a + s <= AddressSpace
    ensures a % s == 0 && (a + s) % s == 0
  {
    AlignedBlockFits(x, s, k);
    MultipleHasNoRemainder(s, x / s);
    MultipleHasNoRemainder(s, x / s + 1);
    MulDistributes(s, x / s, 1);
    s * (x / s)
  }

  /**
   * The network address of `r`: the first address of its block, the multiple
   * of the block size at or below the written address.
   */
  function Network(r: Cidr): (a: Ip)
    ensures a <= r.address < a + Size(r)
    ensures a % Size(r) == 0
    ensures a + Size(r) <= AddressSpace
  {
    AlignDown(r.address, Size(r), Pow2(r.prefix))
  }

  /**
   * The broadcast address of `r`: the last address of its block, the one
   * after which the next block starts.
   */
  function Broadcast(r: Cidr): (a: Ip)
    ensures r.address <= a < r.address + Size(r)
    ensures (a + 1) % Size(r) == 0
  {
    Network(r) + Size(r) - 1
  }

  /** Two multiples of `s` whose blocks of `s` addresses both hold `x` are equal. */
  lemma AlignedStartsCoincide(s: int, b: int, n: int, x: int)
    requires s >= 1 && b % s == 0 && n % s == 0
    requires b <= x < b + s && n <= x < n + s
    ensures b == n
  {
    var p, q := b / s, n / s;
    assert b == s * p && n == s * q;
    if p < q {
      MulMonotone(s, p + 1, q);
      MulDistributes(s, p, 1);
      assert false;
    }
    if q < p {
      MulMonotone(s, q + 1, p);
      MulDistributes(s, q, 1);
      assert false;
    }
  }

  /**
   * The network address is the only multiple of the block size whose block
   * holds the written address: the alignment pins it down.
   */
  lemma NetworkIsOnlyAlignedStart(r: Cidr, b: int)
    requires b % Size(r) == 0 && b <= r.address < b + Size(r)
    ensures b == Network(r)
  {
    AlignedStartsCoincide(Size(r), b, Network(r), r.address);
  }

  /** Whether address `a` lies in block `r`, between its network and broadcast addresses. */
  predicate Contains(r: Cidr, a: int): (c: bool)
    ensures 0 <= a < AddressSpace ==> (c <==> AlignDown(a, Size(r), Pow2(r.prefix)) == Network(r))
  {
    RoundsDownToNetwork(r, a);
    Network(r) <= a <= Broadcast(r)
  }

  /** An address in the block of `r` rounds down to the network address of `r`. */
  lemma RoundsDownToNetwork(r: Cidr, a: int)
    ensures 0 <= a < AddressSpace && Network(r) <= a <= Broadcast(r) ==>
              AlignDown(a, Size(r), Pow2(r.prefix)) == Network(r)
  {
    if 0 <= a < AddressSpace && Network(r) <= a <= Broadcast(r) {
      AlignedStartsCoincide(Size(r), AlignDown(a, Size(r), Pow2(r.prefix)), Network(r), a);
    }
  }

  /** The address at ordinal `i` of `r`, counted from its network address. */
  function At(r: Cidr, i: nat): (a: Ip)
    requires i < Size(r)
    ensures Contains(r, a)
  {
    Network(r) + i
  }

  /** Whether the address intervals of `r` and `s` share at least one address. */
  predicate Overlaps(r: Cidr, s: Cidr): (o: bool)
    ensures o <==> Contains(r, Network(s)) || Contains(s, Network(r))
  {
    Network(r) <= Broadcast(s) && Network(s) <= Broadcast(r)
  }

  /** `At` enumerates the block exactly: every contained address has one index. */
  lemma AtEnumerates(r: Cidr, a: int)
    ensures Contains(r, a) <==> exists i :: 0 <= i < Size(r) && At(r, i) == a
  {
    if Contains(r, a) {
      var i := a - Network(r);
      assert At(r, i) == a;
    }
  }

  /** `At` is strictly increasing: enumeration is in ascending address order. */
  lemma AtAscending(r: Cidr, i: nat, j: nat)
    requires i < j < Size(r)
    ensures At(r, i) < At(r, j)
  {
  }

  /** Overlap is exactly the existence of a shared address. */
  lemma OverlapsIffSharedAddress(r: Cidr, s: Cidr)
    ensures Overlaps(r, s) <==> exists a: Ip :: Contains(r, a) && Contains(s, a)
  {
    if Overlaps(r, s) {
      var a: Ip := if Network(r) <= Network(s) then Network(s) else Network(r);
      assert Contains(r, a) && Contains(s, a);
    }
  }

  lemma OverlapsSymmetric(r: Cidr, s: Cidr)
    ensures Overlaps(r, s) == Overlaps(s, r)
  {
  }

  lemma MulDistributes(s: int, m: int, n: int)
    ensures s * (m + n) == s * m + s * n
  {
  }

  /** Aligned blocks of sizes `small` and `small * k` that share an address nest. */
  lemma AlignedIntervalsNest(small: nat, k: int, p: int, q: int)
    requires small >= 1
    requires small * p <= small * q + small - 1
    requires small * q <= small * p + small * k - 1
    ensures small * p <= small * q
    ensures small * q + small <= small * p + small * k
  {
    MulDistributes(small, q, 1);
    MulDistributes(small, p, k);
    if q < p {
      MulMonotone(small, q + 1, p);
      assert false;
    }
    MulMonotone(small, p, q);
    if q >= p + k {
      MulMonotone(small, p + k, q);
      assert false;
    }
    MulMonotone(small, q + 1, p + k);
  }

  lemma MulAssociates(a: int, b: int, c: int)
    ensures (a * b) * c == a * (b * c)
  {
  }

  /** Two aligned blocks either are disjoint or the one with the longer prefix lies inside the other. */
  lemma BlocksNestOrAreDisjoint(r: Cidr, s: Cidr)
    requires Overlaps(r, s) && r.prefix <= s.prefix
    ensures Network(r) <= Network(s) && Broadcast(s) <= Broadcast(r)
  {
    var big, small := Size(r), Size(s);
    var k := Pow2(s.prefix - r.prefix);
    assert big == small * k by {
      Pow2Add(32 - s.prefix, s.prefix - r.prefix);
    }
    var m, q := r.address / big, s.address / small;
    var nr, ns := Network(r), Network(s);
    assert nr == big * m;
    assert nr == small * (k * m) by {
      MulAssociates(small, k, m);
    }
    assert ns == small * q;
    AlignedIntervalsNest(small, k, k * m, q);
  }

  /** `192.168.0.0/24` and `192.168.1.0/24` do not overlap. */
  lemma AdjacentBlocksDoNotOverlap()
    ensures !Overlaps(Cidr(Dotted(192, 168, 0, 0), 24), Cidr(Dotted(192, 168, 1, 0), 24))
  {
    assert Pow2(8) == 256;
  }

  /** `192.168.0.0/24` overlaps `192.168.0.128/28`, which lies inside it. */
  lemma NestedBlockOverlaps()
    ensures Overlaps(Cidr(Dotted(192, 168, 0, 0), 24), Cidr(Dotted(192, 168, 0, 128), 28))
  {
    assert Pow2(8) == 256;
    assert Pow2(4) == 16;
  }
}
