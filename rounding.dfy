/** Power-of-two rounding and the capacity formula of the fd table
    (libglusterfs/src/fd.c, gf_roundup_power_of_two and the size
    computation of gf_fd_fdtable_expand). */
module Rounding {

  /** Slots in one 1024-byte block of `fd_t *` (1024 / sizeof (fd_t *) with
      the 8-byte pointers of LP64 platforms): the unit of table growth. */
  const Block: nat := 128

  /** One more than the largest `int32_t`: fd numbers are below it. */
  const Int32Top: nat := 0x8000_0000

  function Pow2(k: nat): (r: nat)
    ensures r >= 1
  {
    if k == 0 then 1 else 2 * Pow2(k - 1)
  }

  /** `n` is 1, 2, 4, 8, ... */
  predicate IsPow2(n: nat)
  {
    n == 1 || (n >= 2 && n % 2 == 0 && IsPow2(n / 2))
  }

  /** The smallest power of two that is at least `nr` (1 for 0 and 1). */
  function RoundUp(nr: nat): (r: nat)
    ensures IsPow2(r) && nr <= r
  {
    if nr <= 1 then 1 else 2 * RoundUp((nr + 1) / 2)
  }

  lemma {:induction false} Pow2IsPow2(k: nat)
    ensures IsPow2(Pow2(k))
  {
    if k > 0 {
      Pow2IsPow2(k - 1);
    }
  }

  /** RoundUp(nr) is below every power of two that is at least nr. */
  lemma {:induction false} RoundUpLeast(nr: nat, p: nat)
    requires IsPow2(p) && nr <= p
    ensures RoundUp(nr) <= p
  {
    if nr > 1 {
      assert p >= 2 && p % 2 == 0 && IsPow2(p / 2);
      RoundUpLeast((nr + 1) / 2, p / 2);
    }
  }

  /** A power of two is its own rounding. */
  lemma RoundUpOfPow2(nr: nat)
    requires IsPow2(nr)
    ensures RoundUp(nr) == nr
  {
    RoundUpLeast(nr, nr);
  }

  /** Two powers of two that differ differ by at least a factor of two. */
  lemma {:induction false} Pow2Gap(p: nat, q: nat)
    requires IsPow2(p) && IsPow2(q) && q < p
    ensures 2 * q <= p
  {
    if q != 1 {
      assert p >= 2 && p % 2 == 0 && IsPow2(p / 2);
      Pow2Gap(p / 2, q / 2);
    }
  }

  lemma {:induction false} Pow2Add(a: nat, b: nat)
    ensures Pow2(a + b) == Pow2(a) * Pow2(b)
  {
    if a > 0 {
      Pow2Add(a - 1, b);
      assert Pow2(a + b) == 2 * Pow2(a - 1 + b);
    }
  }

  lemma Pow2Values()
    ensures Pow2(7) == Block && Pow2(24) == 0x100_0000 && Pow2(31) == Int32Top
  {
    assert Pow2(4) == 16 by { assert Pow2(2) == 4; }
    assert Pow2(7) == 128 by { assert Pow2(3) == 8; Pow2Add(4, 3); }
    Pow2Add(4, 4);
    Pow2Add(8, 8);
    Pow2Add(16, 8);
    Pow2Add(24, 7);
  }

  lemma Int32TopIsPow2()
    ensures IsPow2(Int32Top)
  {
    Pow2Values();
    Pow2IsPow2(31);
  }

  /** One halving step of gf_roundup_power_of_two keeps `nr` between
      tmp * p and (tmp + 1) * p, and a bit is lost exactly when tmp is odd. */
  lemma HalveStep(tmp: nat, p: nat, nr: nat)
    requires tmp >= 2 && tmp * p <= nr < (tmp + 1) * p
    ensures (tmp / 2) * (2 * p) <= nr < (tmp / 2 + 1) * (2 * p)
    ensures (tmp / 2) * (2 * p) != nr <==> (tmp * p != nr || tmp % 2 == 1)
  {
    var h := tmp / 2;
    assert h * (2 * p) == 2 * (h * p);
    if tmp % 2 == 0 {
      assert tmp == 2 * h;
      assert tmp * p == 2 * (h * p);
      assert (tmp + 1) * p == tmp * p + p;
      assert (h + 1) * (2 * p) == 2 * (h * p) + 2 * p;
    } else {
      assert tmp == 2 * h + 1;
      assert tmp * p == 2 * (h * p) + p;
      assert (tmp + 1) * p == tmp * p + p;
      assert (h + 1) * (2 * p) == 2 * (h * p) + 2 * p;
    }
  }

  /** gf_roundup_power_of_two: halve `tmp` until it is 1, counting the
      halvings in `cnt` and noting in `remainder` whether a bit was lost;
      the result is `1 << (cnt + 1)` when a bit was lost and `nr` itself
      otherwise. For nr <= 2^31 the shift stays within 32 bits. */
  method RoundupPowerOfTwo(nr: nat) returns (result: nat)
    requires nr <= Int32Top
    ensures result == RoundUp(nr)
    ensures result <= Int32Top
  {
    result := nr;
    if nr == 0 || nr == 1 {
      result := 1;
    } else {
      var cnt: nat, tmp: nat := 0, nr;
      var remainder := false;
      ghost var p: nat := 1;
      while tmp != 1
        invariant tmp >= 1
        invariant p == Pow2(cnt)
        invariant tmp * p <= nr < (tmp + 1) * p
        invariant remainder <==> tmp * p != nr
        decreases tmp
      {
        HalveStep(tmp, p, nr);
        if tmp % 2 == 1 {
          remainder := true;
        }
        tmp := tmp / 2;
        cnt := cnt + 1;
        p := 2 * p;
      }
      Pow2IsPow2(cnt);
      Pow2IsPow2(cnt + 1);
      if remainder {
        result := Pow2(cnt + 1);
        RoundUpLeast(nr, result);
        Pow2Gap(RoundUp(nr), p);
      } else {
        RoundUpOfPow2(nr);
      }
    }
    Int32TopIsPow2();
    RoundUpLeast(nr, Int32Top);
  }

  /** A legal table size: a power-of-two number of blocks. */
  predicate IsCapacity(m: nat)
  {
    m % Block == 0 && IsPow2(m / Block)
  }

  /** The size gf_fd_fdtable_expand gives a table asked to hold `nr`:
      roundup(nr / Block + 1) * Block. */
  function ExpandedCapacity(nr: nat): (c: nat)
    ensures IsCapacity(c) && nr < c
  {
    var q := RoundUp(nr / Block + 1);
    assert (q * Block) / Block == q && (q * Block) % Block == 0;
    q * Block
  }

  /** ExpandedCapacity(nr) is the smallest legal size above nr. */
  lemma ExpandedCapacityLeast(nr: nat, c: nat)
    requires IsCapacity(c) && nr < c
    ensures ExpandedCapacity(nr) <= c
  {
    var p := c / Block;
    assert c == p * Block;
    assert nr / Block + 1 <= p;
    RoundUpLeast(nr / Block + 1, p);
  }

  lemma Int32TopIsCapacity()
    ensures IsCapacity(Int32Top)
  {
    assert Int32Top / Block == 0x100_0000;
    Pow2Values();
    Pow2IsPow2(24);
  }

  /** The table sizes of 2^29 and 2^30 slots (2^22 and 2^23 blocks). */
  lemma WideCapacities()
    ensures IsCapacity(0x2000_0000) && IsCapacity(0x4000_0000)
  {
    Pow2Values();
    assert Pow2(24) == 2 * Pow2(23);
    assert Pow2(23) == 2 * Pow2(22);
    assert 0x2000_0000 / Block == Pow2(22) && 0x4000_0000 / Block == Pow2(23);
    Pow2IsPow2(22);
    Pow2IsPow2(23);
  }

  /** Expanding for fewer than 2^31 slots never exceeds 2^31 slots, so the
      32-bit multiplication in gf_fd_fdtable_expand does not wrap. */
  lemma ExpandedCapacityBound(nr: nat)
    requires nr < Int32Top
    ensures ExpandedCapacity(nr) <= Int32Top
  {
    Int32TopIsCapacity();
    ExpandedCapacityLeast(nr, Int32Top);
  }

  /** Two legal sizes that differ differ by at least a factor of two. */
  lemma CapacityGap(m: nat, c: nat)
    requires IsCapacity(m) && IsCapacity(c) && m < c
    ensures 2 * m <= c
  {
    assert m == (m / Block) * Block && c == (c / Block) * Block;
    Pow2Gap(c / Block, m / Block);
  }

  /** Growing a full table (asking for max_fds + 1 slots) doubles it. */
  lemma ExpandFullDoubles(m: nat)
    requires IsCapacity(m)
    ensures ExpandedCapacity(m + 1) == 2 * m
  {
    var p := m / Block;
    assert m == Block * p;
    assert (m + 1) / Block == p;
    assert IsPow2(2 * p) by {
      assert (2 * p) / 2 == p;
    }
    RoundUpLeast(p + 1, 2 * p);
    Pow2Gap(RoundUp(p + 1), p);
    assert ExpandedCapacity(m + 1) == RoundUp(p + 1) * Block;
  }

  /** The size reached by the loop `while (max_fds < fd) expand(max_fds + 1)`
      started from size `m`. */
  function GrowUntil(m: nat, fd: nat): (c: nat)
    requires IsCapacity(m)
    ensures IsCapacity(c) && m <= c && fd <= c
    decreases fd - m
  {
    if fd <= m then m else GrowUntil(ExpandedCapacity(m + 1), fd)
  }

  /** The grow loop stops at the smallest legal size, no smaller than the
      starting one, that is at least fd. */
  lemma {:induction false} GrowUntilLeast(m: nat, fd: nat, c: nat)
    requires IsCapacity(m) && IsCapacity(c) && m <= c && fd <= c
    ensures GrowUntil(m, fd) <= c
    decreases fd - m
  {
    if m < fd {
      ExpandFullDoubles(m);
      CapacityGap(m, c);
      GrowUntilLeast(ExpandedCapacity(m + 1), fd, c);
    }
  }

  /** The grow loop of gf_fd_unused_get2 stops exactly at `fd` (leaving
      slot `fd` one past the end) iff `fd` is itself a legal size no smaller
      than the starting one. */
  lemma GrowUntilLandsOn(m: nat, fd: nat)
    requires IsCapacity(m)
    ensures GrowUntil(m, fd) == fd <==> (m <= fd && IsCapacity(fd))
  {
    if m <= fd && IsCapacity(fd) {
      GrowUntilLeast(m, fd, fd);
    }
  }

  /** Concrete case: on a fresh table (128 slots) a request for slot 128
      leaves the table at 128 slots. */
  lemma FreshTableStopsAtBlock()
    ensures IsCapacity(Block) && GrowUntil(Block, Block) == Block
  {
    assert Block / Block == 1;
  }

  /** With the bound `max_fds <= fd` instead, the loop always stops with
      slot `fd` inside the table, at the smallest legal size that holds it. */
  lemma GrowPastHoldsIndex(m: nat, fd: nat, c: nat)
    requires IsCapacity(m) && IsCapacity(c) && m <= c && fd < c
    ensures fd < GrowUntil(m, fd + 1) <= c
  {
    GrowUntilLeast(m, fd + 1, c);
  }

  /** Growth never leaves the 32-bit range when the index is an int32. */
  lemma GrowUntilBound(m: nat, fd: nat)
    requires IsCapacity(m) && m <= Int32Top && fd <= Int32Top
    ensures GrowUntil(m, fd) <= Int32Top
  {
    Int32TopIsCapacity();
    GrowUntilLeast(m, fd, Int32Top);
  }
}
