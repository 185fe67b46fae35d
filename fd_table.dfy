/** The fd table of libglusterfs/src/fd.c: a growable array of `fd_t *`
    slots indexed by small integers. The table mutex is not modelled; every
    operation is one atomic step. A slot holds an FdId of the fd store, or
    None for NULL. */
module FdTables {
  import opened Rounding
  import opened FdObjects

  type Slot = Option<FdId>

  /** EINVAL on Linux: what gf_fd_unused_get returns for a NULL argument. */
  const EINVAL: int := 22

  function Empties(n: nat): (s: seq<Slot>)
    ensures |s| == n && forall i :: 0 <= i < n ==> s[i] == None
  {
    seq(n, _ => None)
  }

  /** A table of `n` slots whose first `k` slots are those of `s` and
      whose other slots are empty. */
  function Kept(s: seq<Slot>, k: nat, n: nat): (r: seq<Slot>)
    requires k <= |s| && k <= n
    ensures |r| == n
    ensures forall i :: 0 <= i < k ==> r[i] == s[i]
    ensures forall i :: k <= i < n ==> r[i] == None
  {
    s[..k] + Empties(n - k)
  }

  /** Keeping every slot of a table and adding none leaves it as it was. */
  lemma KeptAll(s: seq<Slot>)
    ensures Kept(s, |s|, |s|) == s
  {
    assert s[..|s|] == s;
  }

  /** Keeping `c` slots of a table that kept `k` slots of `s` keeps the
      first Min(k, c) slots of `s`. */
  lemma KeptTwice(s: seq<Slot>, k: nat, n: nat, c: nat, n2: nat)
    requires k <= |s| && k <= n && c <= n && c <= n2
    ensures Kept(Kept(s, k, n), c, n2) == Kept(s, Min(k, c), n2)
  {
  }

  function Min(a: nat, b: nat): nat
  {
    if a <= b then a else b
  }

  /** 2^29 slots: their byte count, 8 * 2^29, is 2^32. */
  const CopyWrap: nat := 0x2000_0000

  /** The slots the memcpy of gf_fd_fdtable_expand copies from a table of
      `m` slots: the byte count `oldmax_fds * sizeof (fd_t *)` is stored in
      a `uint32_t`, so it is taken mod 2^32. */
  function CopiedSlots(m: nat): (k: nat)
    ensures k <= m
    ensures m < CopyWrap ==> k == m
  {
    ((m * 8) % 0x1_0000_0000) / 8
  }

  /** For every size a table can be expanded from, the copy moves every old
      slot below 2^29 slots and none at all from 2^29 or 2^30 slots. */
  lemma CapacityCopied(m: nat)
    requires IsCapacity(m) && m < Int32Top
    ensures CopiedSlots(m) == if m < CopyWrap then m else 0
  {
    if m >= CopyWrap {
      WideCapacities();
      if m > CopyWrap {
        CapacityGap(CopyWrap, m);
      }
      if m > 0x4000_0000 {
        CapacityGap(0x4000_0000, m);
      }
      assert m == CopyWrap || m == 0x4000_0000;
    }
  }

  /** The copy with the byte count held in 64 bits, as evidently intended:
      every slot of a table of up to 2^31 slots is copied. */
  function CopiedSlotsWide(m: nat): (k: nat)
    requires m <= Int32Top
    ensures k == m
  {
    ((m * 8) % 0x1_0000_0000_0000_0000) / 8
  }

  /** How many leading slots of a table of `m` slots survive the loop
      `while (max_fds < fd) expand(max_fds + 1)`: each expansion keeps
      only CopiedSlots of the size it starts from. */
  function GrowKept(m: nat, fd: nat): (k: nat)
    requires IsCapacity(m)
    ensures k <= m
    decreases fd - m
  {
    if fd <= m then m else Min(CopiedSlots(m), GrowKept(ExpandedCapacity(m + 1), fd))
  }

  /** The grow loop keeps every old slot unless it grows the table past
      2^29 slots, and then it keeps none. */
  lemma {:induction false} GrowKeptExactly(m: nat, fd: nat)
    requires IsCapacity(m) && m <= Int32Top && fd <= Int32Top
    ensures GrowKept(m, fd) == if m < fd && GrowUntil(m, fd) > CopyWrap then 0 else m
    decreases fd - m
  {
    if m < fd {
      var next := ExpandedCapacity(m + 1);
      ExpandFullDoubles(m);
      Int32TopIsCapacity();
      CapacityGap(m, Int32Top);
      CapacityCopied(m);
      GrowKeptExactly(next, fd);
      if m < CopyWrap {
        WideCapacities();
        CapacityGap(m, CopyWrap);
      }
    }
  }

  /** Growing for an index above 2^29 (on a fresh table, slot 2^30 - 1,
      which takes the table through 2^29 to 2^30 slots) loses every old
      slot. */
  lemma GrowPastCopyWrapLosesSlots(m: nat, fd: nat)
    requires IsCapacity(m) && m < fd <= Int32Top && CopyWrap < fd
    ensures GrowKept(m, fd) == 0
  {
    GrowKeptExactly(m, fd);
  }

  /** One pass of the grow loop: the slots kept so far are cut down to
      those the next expansion copies. */
  lemma GrowKeptStep(m: nat, fd: nat, kept: nat)
    requires IsCapacity(m) && m < fd
    ensures Min(Min(kept, CopiedSlots(m)), GrowKept(ExpandedCapacity(m + 1), fd)) == Min(kept, GrowKept(m, fd))
  {
  }

  /** The lowest empty slot of `s`, or |s| when every slot is taken. */
  function FirstFree(s: seq<Slot>): (k: nat)
    ensures k <= |s|
    ensures forall j :: 0 <= j < k ==> s[j].Some?
    ensures k < |s| ==> s[k].None?
  {
    if s == [] then 0
    else if s[0].None? then 0
    else
      var k := FirstFree(s[1..]);
      assert forall j :: 1 <= j < k + 1 ==> s[j] == s[1..][j - 1];
      1 + k
  }

  /** The scan of gf_fd_unused_get stops at the index FirstFree names. */
  lemma FirstFreeUnique(s: seq<Slot>, i: nat)
    requires i <= |s| && (forall j :: 0 <= j < i ==> s[j].Some?) && (i < |s| ==> s[i].None?)
    ensures FirstFree(s) == i
  {
  }

  class FdTable {
    var fds: array<Slot>
    var maxFds: nat

    /** The slot array has `maxFds` entries, a power-of-two number of
        blocks, and never more than the int32 fd numbers can address. */
    ghost predicate Valid()
      reads this
    {
      fds.Length == maxFds && IsCapacity(maxFds) && maxFds <= Int32Top
    }

    /** gf_fd_fdtable_alloc: a zeroed table expanded for 0 slots, which is
        one block of empty slots. */
    constructor ()
      ensures Valid() && fresh(fds)
      ensures maxFds == Block && fds[..] == Empties(Block)
    {
      fds := new Slot[0];
      maxFds := 0;
      new;
      Expand(0);
      assert ExpandedCapacity(0) == Block by {
        assert RoundUp(1) == 1;
      }
      assert fds[..] == Empties(Block);
    }

    /** gf_fd_fdtable_expand: a new zeroed array of
        roundup(nr / Block + 1) * Block slots into which the old slots are
        copied. The size arithmetic cannot wrap for nr < 2^31, but the byte
        count of the copy is a `uint32_t`, so from a table of 2^29 or more
        slots nothing is copied (CapacityCopied). */
    method Expand(nr: nat)
      requires fds.Length == maxFds && maxFds <= nr < Int32Top
      modifies this
      ensures fresh(fds) && fds.Length == maxFds
      ensures maxFds == ExpandedCapacity(nr) && old(maxFds) < maxFds <= Int32Top
      ensures fds[..] == Kept(old(fds[..]), CopiedSlots(old(maxFds)), maxFds)
    {
      var cpy := (maxFds * 8) % 0x1_0000_0000;
      Reallocate(nr, cpy / 8);
    }

    /** gf_fd_fdtable_expand with the byte count of the copy held in 64
        bits: every old slot is copied. */
    method ExpandFixed(nr: nat)
      requires fds.Length == maxFds && maxFds <= nr < Int32Top
      modifies this
      ensures fresh(fds) && fds.Length == maxFds
      ensures maxFds == ExpandedCapacity(nr) && old(maxFds) < maxFds <= Int32Top
      ensures fds[..] == old(fds[..]) + Empties(maxFds - old(maxFds))
    {
      var cpy := (maxFds * 8) % 0x1_0000_0000_0000_0000;
      assert cpy / 8 == CopiedSlotsWide(maxFds);
      Reallocate(nr, cpy / 8);
    }

    /** The body shared by both versions of the expansion: allocate the
        zeroed array of the rounded size and copy the first `keep` slots. */
    method Reallocate(nr: nat, keep: nat)
      requires fds.Length == maxFds && maxFds <= nr < Int32Top && keep <= maxFds
      modifies this
      ensures fresh(fds) && fds.Length == maxFds
      ensures maxFds == ExpandedCapacity(nr) && old(maxFds) < maxFds <= Int32Top
      ensures fds[..] == Kept(old(fds[..]), keep, maxFds)
    {
      var n := RoundupPowerOfTwo(nr / Block + 1);
      n := n * Block;
      ExpandedCapacityBound(nr);
      var oldfds := fds;
      var newfds := new Slot[n](_ => None);
      forall i | 0 <= i < keep {
        newfds[i] := oldfds[i];
      }
      fds := newfds;
      maxFds := n;
      assert fds[..] == Kept(oldfds[..], keep, n) by {
        forall i | 0 <= i < n
          ensures fds[i] == Kept(oldfds[..], keep, n)[i]
        {
        }
      }
    }

    /** gf_fd_unused_get: EINVAL for a NULL fd; otherwise put the fd in the
        lowest empty slot, growing a full table once (which doubles it and
        makes the old size the lowest empty slot; the old slots survive as
        far as CopiedSlots says). No reference is taken. */
    method UnusedGet(fdptr: Slot) returns (fd: int)
      requires Valid() && maxFds < Int32Top
      modifies this, fds
      ensures Valid() && (fds == old(fds) || fresh(fds))
      ensures fdptr.None? ==> fd == EINVAL && maxFds == old(maxFds) && fds == old(fds) && fds[..] == old(fds[..])
      ensures fdptr.Some? ==> fd == FirstFree(old(fds[..]))
      ensures fdptr.Some? && fd < old(maxFds) ==>
        maxFds == old(maxFds) && fds[..] == old(fds[..])[fd := fdptr]
      ensures fdptr.Some? && fd == old(maxFds) ==>
        maxFds == 2 * old(maxFds) && fds[..] == Kept(old(fds[..]), CopiedSlots(old(maxFds)), maxFds)[fd := fdptr]
    {
      if fdptr.None? {
        return EINVAL;
      }
      var i := 0;
      while i < maxFds
        invariant 0 <= i <= maxFds
        invariant forall j :: 0 <= j < i ==> fds[j].Some?
      {
        if fds[i].None? {
          break;
        }
        i := i + 1;
      }
      FirstFreeUnique(fds[..], i);
      if i < maxFds {
        fds[i] := fdptr;
        fd := i;
      } else {
        ExpandFullDoubles(maxFds);
        Expand(maxFds + 1);
        fds[i] := fdptr;
        fd := i;
      }
    }

    /** gf_fd_unused_get2, as written: -1 for a NULL fd or a negative
        index; otherwise grow while max_fds < fd, then fill the slot and take
        a reference if it is empty, or return -1 leaving everything as it
        was. Because the loop stops once max_fds >= fd, slot `fd` is past the
        end whenever growth lands exactly on `fd`; the second precondition
        excludes exactly those calls (see GrowUntilLandsOn). */
    method UnusedGet2(store: FdStore, fdptr: Slot, fd: int) returns (ret: int)
      requires Valid() && store.Valid() && fd < Int32Top
      requires fdptr.Some? && fd >= 0 ==> store.Live(fdptr.value) && GrowUntil(maxFds, fd) != fd
      modifies this, fds, store
      ensures Valid() && store.Valid() && (fds == old(fds) || fresh(fds))
      ensures fdptr.None? || fd < 0 ==>
        ret == -1 && maxFds == old(maxFds) && fds == old(fds) && fds[..] == old(fds[..])
        && store.State() == old(store.State())
      ensures fdptr.Some? && fd >= 0 ==> maxFds == GrowUntil(old(maxFds), fd) && fd < maxFds
      ensures fdptr.Some? && fd >= 0 && (fd >= old(maxFds) || old(fds[fd]).None?) ==>
        ret == fd && fds[..] == Kept(old(fds[..]), GrowKept(old(maxFds), fd), maxFds)[fd := fdptr]
        && store.State() == Refd(old(store.State()), fdptr.value)
      ensures fdptr.Some? && 0 <= fd < old(maxFds) && old(fds[fd]).Some? ==>
        ret == -1 && maxFds == old(maxFds) && fds[..] == old(fds[..])
        && store.State() == old(store.State())
    {
      if fdptr.None? || fd < 0 {
        return -1;
      }
      Grow(fd);
      GrowUntilLandsOn(old(maxFds), fd);
      if fd < old(maxFds) {
        KeptAll(old(fds[..]));
      }
      ret := Install(store, fdptr, fd);
    }

    /** The loop `while (max_fds < fd) expand(max_fds + 1)` of
        gf_fd_unused_get2; the corrected version runs it for fd + 1, which is
        `while (max_fds <= fd)`. */
    method Grow(fd: nat)
      requires Valid() && fd <= Int32Top
      modifies this
      ensures Valid() && maxFds == GrowUntil(old(maxFds), fd)
      ensures fds == old(fds) || fresh(fds)
      ensures fds[..] == Kept(old(fds[..]), GrowKept(old(maxFds), fd), maxFds)
    {
      ghost var kept: nat := maxFds;
      KeptAll(fds[..]);
      while maxFds < fd
        invariant Valid() && old(maxFds) <= maxFds && kept <= old(maxFds)
        invariant GrowUntil(maxFds, fd) == GrowUntil(old(maxFds), fd)
        invariant Min(kept, GrowKept(maxFds, fd)) == GrowKept(old(maxFds), fd)
        invariant fds == old(fds) || fresh(fds)
        invariant fds[..] == Kept(old(fds[..]), kept, maxFds)
        decreases fd - maxFds
      {
        kept := GrowOnce(old(fds[..]), kept, fd);
      }
    }

    /** One pass of the grow loop: expand for max_fds + 1 slots. */
    method GrowOnce(ghost orig: seq<Slot>, ghost kept: nat, fd: nat) returns (ghost kept2: nat)
      requires Valid() && maxFds < fd <= Int32Top && kept <= |orig| && kept <= maxFds
      requires fds[..] == Kept(orig, kept, maxFds)
      modifies this
      ensures Valid() && old(maxFds) < maxFds && fresh(fds) && kept2 <= kept
      ensures maxFds == ExpandedCapacity(old(maxFds) + 1)
      ensures GrowUntil(maxFds, fd) == GrowUntil(old(maxFds), fd)
      ensures Min(kept2, GrowKept(maxFds, fd)) == Min(kept, GrowKept(old(maxFds), fd))
      ensures fds[..] == Kept(orig, kept2, maxFds)
    {
      Int32TopIsCapacity();
      CapacityGap(maxFds, Int32Top);
      Expand(maxFds + 1);
      KeptTwice(orig, kept, old(maxFds), CopiedSlots(old(maxFds)), maxFds);
      GrowKeptStep(old(maxFds), fd, kept);
      kept2 := Min(kept, CopiedSlots(old(maxFds)));
    }

    /** gf_fd_unused_get2 with the grow loop bounded by `max_fds <= fd`, as
        evidently intended: every non-negative int32 index is in bounds
        after growth, so no precondition on the index is needed. */
    method UnusedGet2Fixed(store: FdStore, fdptr: Slot, fd: int) returns (ret: int)
      requires Valid() && store.Valid() && fd < Int32Top
      requires fdptr.Some? && fd >= 0 ==> store.Live(fdptr.value)
      modifies this, fds, store
      ensures Valid() && store.Valid() && (fds == old(fds) || fresh(fds))
      ensures fdptr.None? || fd < 0 ==>
        ret == -1 && maxFds == old(maxFds) && fds == old(fds) && fds[..] == old(fds[..])
        && store.State() == old(store.State())
      ensures fdptr.Some? && fd >= 0 ==> maxFds == GrowUntil(old(maxFds), fd + 1) && fd < maxFds
      ensures fdptr.Some? && fd >= 0 && (fd >= old(maxFds) || old(fds[fd]).None?) ==>
        ret == fd && fds[..] == Kept(old(fds[..]), GrowKept(old(maxFds), fd + 1), maxFds)[fd := fdptr]
        && store.State() == Refd(old(store.State()), fdptr.value)
      ensures fdptr.Some? && 0 <= fd < old(maxFds) && old(fds[fd]).Some? ==>
        ret == -1 && maxFds == old(maxFds) && fds[..] == old(fds[..])
        && store.State() == old(store.State())
    {
      if fdptr.None? || fd < 0 {
        return -1;
      }
      Int32TopIsCapacity();
      GrowPastHoldsIndex(maxFds, fd, Int32Top);
      Grow(fd + 1);
      if fd < old(maxFds) {
        KeptAll(old(fds[..]));
      }
      ret := Install(store, fdptr, fd);
    }

    /** The slot test shared by both versions of gf_fd_unused_get2: an
        empty slot receives the fd, which gains a reference, and the index
        is returned; an occupied slot is left alone and -1 is returned. */
    method Install(store: FdStore, fdptr: Slot, fd: nat) returns (ret: int)
      requires Valid() && store.Valid() && fd < maxFds && fdptr.Some? && store.Live(fdptr.value)
      modifies fds, store
      ensures store.Valid()
      ensures old(fds[fd]).None? ==>
        ret == fd && fds[..] == old(fds[..])[fd := fdptr] && store.State() == Refd(old(store.State()), fdptr.value)
      ensures old(fds[fd]).Some? ==>
        ret == -1 && fds[..] == old(fds[..]) && store.State() == old(store.State())
    {
      ret := -1;
      if fds[fd].None? {
        fds[fd] := fdptr;
        var _ := store.Ref(fdptr);
        ret := fd;
      }
    }

    /** gf_fd_put: nothing for an index outside the table; otherwise clear
        exactly that slot and drop a reference on the fd it held, if any. */
    method Put(store: FdStore, fd: int)
      requires Valid() && store.Valid()
      requires 0 <= fd < maxFds && fds[fd].Some? ==> store.Live(fds[fd].value)
      modifies fds, store
      ensures Valid() && store.Valid()
      ensures !(0 <= fd < maxFds) ==> fds[..] == old(fds[..]) && store.State() == old(store.State())
      ensures 0 <= fd < maxFds ==> fds[..] == old(fds[..])[fd := None]
      ensures 0 <= fd < maxFds && old(fds[fd]).None? ==> store.State() == old(store.State())
      ensures 0 <= fd < maxFds && old(fds[fd]).Some? ==>
        store.State() == Unrefd(old(store.State()), old(fds[fd]).value)
    {
      if fd < 0 {
        return;
      }
      if !(fd < maxFds) {
        return;
      }
      var fdptr := fds[fd];
      fds[fd] := None;
      if fdptr.Some? {
        store.Unref(fdptr);
      }
    }

    /** gf_fd_fdptr_get: NULL for an index outside the table; otherwise the
        slot's content, with a reference taken when it is not NULL. */
    method FdPtrGet(store: FdStore, fd: int) returns (fdptr: Slot)
      requires Valid() && store.Valid()
      requires 0 <= fd < maxFds && fds[fd].Some? ==> store.Live(fds[fd].value)
      modifies store
      ensures store.Valid()
      ensures !(0 <= fd < maxFds) ==> fdptr.None? && store.State() == old(store.State())
      ensures 0 <= fd < maxFds ==> fdptr == fds[fd]
      ensures fdptr.None? ==> store.State() == old(store.State())
      ensures fdptr.Some? ==> fdptr.value in old(store.fds) && store.State() == Refd(old(store.State()), fdptr.value)
    {
      if fd < 0 {
        return None;
      }
      if !(fd < maxFds) {
        return None;
      }
      fdptr := fds[fd];
      var _ := store.Ref(fdptr);
    }
  }
}
