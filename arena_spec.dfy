/**
 * The arena of src/arena.rs as a state machine over its four addresses
 * (`base_addr`, `end_addr`, `uncommitted_addr`, `bump_addr`).  The effect of
 * the OS calls `vm_commit` / `vm_uncommit` is recorded as the set of byte
 * addresses that are currently readable and writable.
 *
 * The OS makes only bytes of the reservation accessible: a commit that
 * reaches past `end_addr` commits its part inside the reservation.
 *
 * The transitions AllocRegion and FreeAll follow the code as written; Reset
 * and AllocRegionChecked are the corrected forms discussed in README.md.
 */
module ArenaSpec {
  import opened Align
  import opened Wrappers

  /** PAGES_PER_COMMIT */
  const PagesPerCommit: nat := 16

  /** alloc_granularity(): the size of one commit batch. */
  function Granularity(pageSize: nat): (g: nat)
    requires IsPow2(pageSize)
    ensures IsPow2(g) && g % pageSize == 0 && g >= pageSize
  {
    Pow2Times16(pageSize);
    MulMod(pageSize, 16);
    pageSize * PagesPerCommit
  }

  /** Names the membership test of Range, so that quantifiers over a range have a trigger. */
  predicate InRange(lo: nat, hi: nat, a: nat)
  {
    lo <= a < hi
  }

  /** The bytes [lo, hi). */
  function Range(lo: nat, hi: nat): set<nat>
  {
    set a: nat | lo <= a < hi && InRange(lo, hi, a)
  }

  datatype ArenaState = ArenaState(
    pageSize: nat,       // os_page_size()
    base: nat,           // base_addr: start of the reservation
    end: nat,            // end_addr: base + reserved size
    uncommitted: nat,    // uncommitted_addr: where the next commit starts
    bump: nat,           // bump_addr: next free byte
    committed: set<nat>  // bytes the OS has made read/write
  )

  /** What holds of every arena the code can reach, as written. */
  ghost predicate Valid(s: ArenaState)
  {
    && IsPow2(s.pageSize)
    && s.base % s.pageSize == 0
    && s.base <= s.end
    && (s.end - s.base) % s.pageSize == 0
    && s.base <= s.bump <= s.uncommitted
    && (s.uncommitted == s.base || s.uncommitted % Granularity(s.pageSize) == 0)
    && s.committed <= Range(s.base, s.uncommitted)
    && s.committed <= Range(s.base, s.end)
  }

  /** hi, or the end of the reservation when hi lies past it. */
  function Clip(s: ArenaState, hi: nat): nat
  {
    if hi <= s.end then hi else s.end
  }

  /** The bytes [addr, addr + size) are committed: writing them does not fault. */
  predicate Writable(s: ArenaState, addr: nat, size: nat)
  {
    Range(addr, addr + size) <= s.committed
  }

  /** Every byte handed out since the last reset is committed. */
  ghost predicate LiveCommitted(s: ArenaState)
  {
    forall a :: s.base <= a < s.bump ==> a in s.committed
  }

  /** `a` is a multiple of `align`. */
  predicate Aligned(a: nat, align: nat)
    requires align > 0
  {
    a % align == 0
  }

  /**
   * Arena::new: the requested size rounded up to whole pages, reserved at
   * `reservedAt` (the page-aligned address vm_reserve returns), nothing
   * committed, bump and commit boundary at the base.
   */
  function Init(pageSize: nat, reservedAt: nat, addrSpaceSize: nat): (s: ArenaState)
    requires IsPow2(pageSize) && reservedAt % pageSize == 0
    ensures Valid(s) && s.base == reservedAt
    ensures addrSpaceSize <= s.end - s.base < addrSpaceSize + pageSize
  {
    var size := CeilAlign(addrSpaceSize, pageSize);
    ArenaState(pageSize, reservedAt, reservedAt + size, reservedAt, reservedAt, {})
  }

  /**
   * alloc_region(size, align) as written: align the bump pointer, commit a
   * batch when the new bump reaches the commit boundary (`>=`), advance.
   * There is no check against `end` (the check is commented out).  The
   * commit reaches the bytes of the reservation only.
   * Returns the start of the region and the new state.
   */
  function AllocRegion(s: ArenaState, size: nat, align: nat): (r: (nat, ArenaState))
    requires Valid(s) && IsPow2(align)
    ensures Valid(r.1)
  {
    var addr := CeilAlign(s.bump, align);
    var next := addr + size;
    if next >= s.uncommitted then
      var boundary := CeilAlign(next, Granularity(s.pageSize));
      (addr, s.(uncommitted := boundary, bump := next,
                committed := s.committed + Range(s.uncommitted, Clip(s, boundary))))
    else
      (addr, s.(bump := next))
  }

  /**
   * free_all as written: uncommit [base, CeilAlign(bump, granularity)) and
   * rewind the bump pointer.  `uncommitted` is left where it was.
   */
  function FreeAll(s: ArenaState): (t: ArenaState)
    requires Valid(s)
    ensures Valid(t)
  {
    var upTo := CeilAlign(s.bump, Granularity(s.pageSize));
    s.(bump := s.base, committed := s.committed - Range(s.base, upTo))
  }

  // ---------------------------------------------------------------------
  // Properties of one allocation
  // ---------------------------------------------------------------------

  /**
   * The region starts at the first `align`-aligned address at or after the
   * old bump pointer, the bump pointer moves to its end, and base and end
   * do not move.
   */
  lemma AllocRegionPlacement(s: ArenaState, size: nat, align: nat)
    requires Valid(s) && IsPow2(align)
    ensures var (addr, t) := AllocRegion(s, size, align);
      && s.bump <= addr < s.bump + align
      && Aligned(addr, align)
      && (forall m :: s.bump <= m && Aligned(m, align) ==> addr <= m)
      && t.bump == addr + size
      && t.base == s.base && t.end == s.end && t.pageSize == s.pageSize
  {
    forall m | s.bump <= m && Aligned(m, align)
      ensures CeilAlign(s.bump, align) <= m
    {
      CeilAlignLeast(s.bump, align, m);
    }
  }

  /**
   * Committing: when the new bump reaches the boundary, exactly the bytes from
   * the old boundary up to the next multiple of the granularity become
   * committed; otherwise nothing changes.  Either way the bump pointer ends
   * at or below the boundary, and neither pointer moves backwards.
   */
  lemma AllocRegionCommits(s: ArenaState, size: nat, align: nat)
    requires Valid(s) && IsPow2(align)
    ensures var (addr, t) := AllocRegion(s, size, align);
      var g := Granularity(s.pageSize);
      && (addr + size >= s.uncommitted ==>
            && t.uncommitted % g == 0
            && t.uncommitted - g < addr + size <= t.uncommitted
            && t.committed == s.committed + Range(s.uncommitted, Clip(s, t.uncommitted)))
      && (addr + size < s.uncommitted ==>
            t.uncommitted == s.uncommitted && t.committed == s.committed)
      && s.bump <= t.bump <= t.uncommitted
      && s.uncommitted <= t.uncommitted
      && s.committed <= t.committed
  {
  }

  /**
   * The commit boundary is rounded on absolute addresses, so it can pass the
   * end of the reservation: a one-page arena asks for a whole 16-page batch on
   * its first allocation, of which only its one page gets committed.
   */
  lemma CommitCanPassEnd()
    ensures var s := Init(4096, 0x10000, 4096);
      var t := AllocRegion(s, 8, 8).1;
      t.bump <= t.end && t.uncommitted == 0x20000 && t.end == 0x11000
      && t.committed == Range(0x10000, 0x11000)
  {
  }

  // ---------------------------------------------------------------------
  // Sequences of allocations
  // ---------------------------------------------------------------------

  datatype Request = Request(size: nat, align: nat)

  predicate PowerOfTwoAligns(reqs: seq<Request>)
  {
    forall i :: 0 <= i < |reqs| ==> IsPow2(reqs[i].align)
  }

  /** Successive alloc_region calls: the regions' start addresses and the final state. */
  function AllocMany(s: ArenaState, reqs: seq<Request>): (r: (seq<nat>, ArenaState))
    requires Valid(s) && PowerOfTwoAligns(reqs)
    ensures Valid(r.1) && |r.0| == |reqs|
    decreases |reqs|
  {
    if reqs == [] then ([], s)
    else
      var (addr, s') := AllocRegion(s, reqs[0].size, reqs[0].align);
      var (rest, t) := AllocMany(s', reqs[1..]);
      ([addr] + rest, t)
  }

  /**
   * Between resets the regions handed out are aligned, lie between the old
   * and the new bump pointer, and do not overlap: each starts at or after the
   * end of every earlier one.
   */
  lemma {:induction false} AllocManyDisjoint(s: ArenaState, reqs: seq<Request>)
    requires Valid(s) && PowerOfTwoAligns(reqs)
    ensures var (addrs, t) := AllocMany(s, reqs);
      && (forall i :: 0 <= i < |reqs| ==>
            && s.bump <= addrs[i]
            && Aligned(addrs[i], reqs[i].align)
            && addrs[i] + reqs[i].size <= t.bump)
      && (forall i, j :: 0 <= i < j < |reqs| ==> addrs[i] + reqs[i].size <= addrs[j])
      && t.base == s.base && t.end == s.end && s.bump <= t.bump
    decreases |reqs|
  {
    if reqs != [] {
      var (addr, s') := AllocRegion(s, reqs[0].size, reqs[0].align);
      AllocRegionPlacement(s, reqs[0].size, reqs[0].align);
      AllocManyDisjoint(s', reqs[1..]);
      var (rest, t) := AllocMany(s', reqs[1..]);
      assert AllocMany(s, reqs).0 == [addr] + rest;
    }
  }

  /** An 8-byte, 8-aligned request at an 8-aligned bump pointer starts right there. */
  lemma EightAtBump(s: ArenaState)
    requires Valid(s) && s.bump % 8 == 0
    ensures AllocRegion(s, 8, 8).0 == s.bump && AllocRegion(s, 8, 8).1.bump == s.bump + 8
  {
    AllocRegionPlacement(s, 8, 8);
    CeilAlignFixesMultiples(s.bump, 8);
  }

  /** `n` requests of 8 bytes aligned to 8. */
  function Eights(n: nat): (reqs: seq<Request>)
    ensures |reqs| == n && PowerOfTwoAligns(reqs)
    ensures forall i :: 0 <= i < n ==> reqs[i] == Request(8, 8)
  {
    assert IsPow2(8) by { assert IsPow2(4) by { assert IsPow2(2); } }
    seq(n, _ => Request(8, 8))
  }

  /**
   * Starting from an 8-aligned bump pointer, successive 8-byte, 8-aligned
   * allocations are packed back to back.
   */
  lemma {:induction false} EightsArePacked(s: ArenaState, n: nat)
    requires Valid(s) && s.bump % 8 == 0
    ensures forall i :: 0 <= i < n ==> AllocMany(s, Eights(n)).0[i] == s.bump + 8 * i
    decreases n
  {
    if n > 0 {
      EightAtBump(s);
      var (addr, s') := AllocRegion(s, 8, 8);
      assert Eights(n)[1..] == Eights(n - 1);
      EightsArePacked(s', n - 1);
      assert AllocMany(s, Eights(n)).0 == [addr] + AllocMany(s', Eights(n - 1)).0;
    }
  }

  /** With 4096-byte pages the base is 8-aligned. */
  lemma BaseIsEightAligned(s: ArenaState)
    requires Valid(s) && s.pageSize == 4096
    ensures s.base % 8 == 0
  {
    Pow2Divides(8, 4096);
    ModTransitive(s.base, 4096, 8);
  }

  /**
   * Three 8-byte, 8-aligned allocations in a fresh arena with 4096-byte pages
   * start at offsets 0, 8 and 16 from the base.
   */
  lemma ThreeSmallAllocations(s: ArenaState, reqs: seq<Request>)
    requires Valid(s) && s.pageSize == 4096 && s.bump == s.base
    requires |reqs| == 3 && forall i :: 0 <= i < |reqs| ==> reqs[i] == Request(8, 8)
    ensures PowerOfTwoAligns(reqs) && AllocMany(s, reqs).0 == [s.base, s.base + 8, s.base + 16]
  {
    BaseIsEightAligned(s);
    assert reqs == Eights(|reqs|);
    EightsArePacked(s, |reqs|);
    SpacedByEight(AllocMany(s, reqs).0, s.base);
  }

  /** Three addresses spaced 8 bytes apart from b. */
  lemma SpacedByEight(addrs: seq<nat>, b: nat)
    requires |addrs| == 3 && forall i :: 0 <= i < 3 ==> addrs[i] == b + 8 * i
    ensures addrs == [b, b + 8, b + 16]
  {
    assert addrs[0] == b && addrs[1] == b + 8 && addrs[2] == b + 16;
  }

  // ---------------------------------------------------------------------
  // Reset
  // ---------------------------------------------------------------------

  /**
   * After free_all, an allocation whose alignment divides the page size
   * starts at the base again.
   */
  lemma FreeAllThenAllocReturnsBase(s: ArenaState, size: nat, align: nat)
    requires Valid(s) && IsPow2(align) && align <= s.pageSize
    ensures AllocRegion(FreeAll(s), size, align).0 == s.base
    ensures FreeAll(s).uncommitted == s.uncommitted
  {
    Pow2Divides(align, s.pageSize);
    ModTransitive(s.base, s.pageSize, align);
  }

  /**
   * As written, free_all followed by an allocation no larger than what was
   * allocated before: the region starts at the base, in a page free_all
   * uncommitted, and no commit happens because the boundary was not
   * rewound, so writing the region faults.
   */
  lemma FreeAllThenAllocFaults(s: ArenaState, size: nat, align: nat)
    requires Valid(s) && IsPow2(align) && align <= s.pageSize
    requires 0 < size <= s.bump - s.base
    ensures var (addr, t) := AllocRegion(FreeAll(s), size, align);
      addr == s.base && s.base !in t.committed && !Writable(t, addr, size)
  {
    FreeAllThenAllocReturnsBase(s, size, align);
    assert s.base in Range(s.base, CeilAlign(s.bump, Granularity(s.pageSize)));
    assert s.base in Range(s.base, s.base + size);
  }

  /**
   * The evidently intended reset: uncommit everything below the commit
   * boundary and rewind the boundary to the base together with the bump
   * pointer, so the next allocation commits again.
   */
  function Reset(s: ArenaState): (t: ArenaState)
    requires Valid(s)
    ensures Valid(t)
  {
    s.(bump := s.base, uncommitted := s.base,
       committed := s.committed - Range(s.base, s.uncommitted))
  }

  /**
   * The committed bytes are exactly the reservation's part of
   * [base, uncommitted), and the boundary is the bump pointer rounded up to
   * the granularity (or still at the base).
   */
  ghost predicate Tight(s: ArenaState)
  {
    && Valid(s)
    && s.committed == Range(s.base, Clip(s, s.uncommitted))
    && (s.uncommitted == s.base || s.uncommitted == CeilAlign(s.bump, Granularity(s.pageSize)))
  }

  /** Within the reservation, every byte below the bump pointer is committed. */
  lemma TightIsLive(s: ArenaState)
    requires Tight(s) && s.bump <= s.end
    ensures LiveCommitted(s)
  {
  }

  /** Adjacent ranges join. */
  lemma RangeJoin(lo: nat, mid: nat, hi: nat)
    requires lo <= mid <= hi
    ensures Range(lo, mid) + Range(mid, hi) == Range(lo, hi)
  {
  }

  lemma InitIsTight(pageSize: nat, reservedAt: nat, addrSpaceSize: nat)
    requires IsPow2(pageSize) && reservedAt % pageSize == 0
    ensures Tight(Init(pageSize, reservedAt, addrSpaceSize))
  {
    var s := Init(pageSize, reservedAt, addrSpaceSize);
    assert Range(s.base, s.base) == {};
  }

  lemma AllocRegionKeepsTight(s: ArenaState, size: nat, align: nat)
    requires Tight(s) && IsPow2(align)
    ensures Tight(AllocRegion(s, size, align).1)
  {
    var (addr, t) := AllocRegion(s, size, align);
    var g := Granularity(s.pageSize);
    var next := addr + size;
    if next >= s.uncommitted {
      assert t.uncommitted == CeilAlign(next, g) && t.bump == next;
      assert t.committed == s.committed + Range(s.uncommitted, Clip(s, t.uncommitted));
      if s.uncommitted <= s.end {
        RangeJoin(s.base, s.uncommitted, Clip(s, t.uncommitted));
      } else {
        assert Range(s.uncommitted, s.end) == {};
      }
    } else {
      assert t == s.(bump := next);
      CeilAlignMonotone(s.bump, next, g);
      CeilAlignLeast(next, g, s.uncommitted);
    }
  }

  /**
   * In an arena whose commits are tight, an allocation that ends inside the
   * reservation can be written, and the commits stay tight.
   */
  lemma TightAllocIsWritable(s: ArenaState, size: nat, align: nat)
    requires Tight(s) && IsPow2(align)
    ensures var (addr, t) := AllocRegion(s, size, align);
      Tight(t) && (addr + size <= s.end ==> Writable(t, addr, size))
  {
    var (addr, t) := AllocRegion(s, size, align);
    AllocRegionKeepsTight(s, size, align);
    if addr + size <= s.end {
      assert t.bump == addr + size;
      TightIsLive(t);
      assert Range(addr, addr + size) <= t.committed by {
        forall a | a in Range(addr, addr + size)
          ensures a in t.committed
        {
          assert t.base <= a < t.bump;
        }
      }
    }
  }

  lemma ResetKeepsTight(s: ArenaState)
    requires Tight(s)
    ensures Tight(Reset(s))
  {
    assert Range(s.base, s.base) == {};
  }

  // ---------------------------------------------------------------------
  // Runs of allocations and clears
  // ---------------------------------------------------------------------

  datatype Op = Alloc(size: nat, align: nat) | Clear

  predicate PowerOfTwoOps(ops: seq<Op>)
  {
    forall i :: 0 <= i < |ops| ==> ops[i].Alloc? ==> IsPow2(ops[i].align)
  }

  /** The arena after `ops`, with Clear as the source's free_all. */
  function Run(s: ArenaState, ops: seq<Op>): (t: ArenaState)
    requires Valid(s) && PowerOfTwoOps(ops)
    ensures Valid(t)
    decreases |ops|
  {
    if ops == [] then s
    else
      var s' := match ops[0]
        case Alloc(size, align) => AllocRegion(s, size, align).1
        case Clear => FreeAll(s);
      Run(s', ops[1..])
  }

  /**
   * The arena after `ops` with both corrections: allocations checked against
   * the reservation, and Clear as Reset.  None once an allocation is refused
   * (the restored check panics).
   */
  function RunCorrected(s: ArenaState, ops: seq<Op>): (r: Option<ArenaState>)
    requires Valid(s) && PowerOfTwoOps(ops)
    ensures r.Some? ==> Valid(r.value)
    decreases |ops|
  {
    if ops == [] then Some(s)
    else
      match ops[0]
      case Alloc(size, align) =>
        (match AllocRegionChecked(s, size, align)
         case None => None
         case Some((_, s')) => RunCorrected(s', ops[1..]))
      case Clear => RunCorrected(Reset(s), ops[1..])
  }

  /**
   * As written: allocate, free_all, allocate again.  The second region starts
   * at the base, but free_all uncommitted that page and the commit boundary
   * still lies beyond the new bump pointer, so nothing recommits it: the
   * live bytes are not accessible.
   */
  lemma FreeAllLeavesLiveBytesUncommitted()
    ensures var s := Init(4096, 0x10000, 0x10000);
      var ops := [Alloc(8, 8), Clear, Alloc(8, 8)];
      PowerOfTwoOps(ops)
      && Run(s, ops).bump == 0x10008
      && 0x10000 !in Run(s, ops).committed
      && !LiveCommitted(Run(s, ops))
  {
    var s := Init(4096, 0x10000, 0x10000);
    var ops := [Alloc(8, 8), Clear, Alloc(8, 8)];
    var s1 := AllocRegion(s, 8, 8).1;
    assert s1.bump == 0x10008 && s1.uncommitted == 0x20000;
    assert s1.committed == Range(0x10000, 0x20000);
    var s2 := FreeAll(s1);
    assert s2.bump == 0x10000 && s2.uncommitted == 0x20000 && s2.committed == {};
    var s3 := AllocRegion(s2, 8, 8).1;
    assert s3.bump == 0x10008 && s3.committed == {};
    assert ops[1..] == [Clear, Alloc(8, 8)] && ops[1..][1..] == [Alloc(8, 8)];
    assert ops[1..][1..][1..] == [];
    assert Run(s, ops) == s3;
  }

  /**
   * With the corrected reset and the capacity check, every run that does not
   * panic keeps the bump pointer inside the reservation and every live byte
   * committed.
   */
  lemma {:induction false} RunCorrectedKeepsLiveBytesCommitted(s: ArenaState, ops: seq<Op>)
    requires Tight(s) && s.bump <= s.end && PowerOfTwoOps(ops)
    ensures var r := RunCorrected(s, ops);
      r.Some? ==> Tight(r.value) && r.value.bump <= r.value.end && LiveCommitted(r.value)
    decreases |ops|
  {
    if ops == [] {
      TightIsLive(s);
    } else {
      match ops[0]
      case Alloc(size, align) =>
        match AllocRegionChecked(s, size, align) {
          case None =>
          case Some((_, s')) =>
            AllocRegionCheckedStaysInBounds(s, size, align);
            AllocRegionKeepsTight(s, size, align);
            RunCorrectedKeepsLiveBytesCommitted(s', ops[1..]);
        }
      case Clear =>
        ResetKeepsTight(s);
        RunCorrectedKeepsLiveBytesCommitted(Reset(s), ops[1..]);
    }
  }

  // ---------------------------------------------------------------------
  // Capacity
  // ---------------------------------------------------------------------

  /**
   * As written, an allocation larger than the reservation succeeds and moves
   * the bump pointer past `end`.
   */
  lemma AllocRegionOverrunsEnd()
    ensures var s := Init(4096, 0x10000, 4096);
      var (addr, t) := AllocRegion(s, 8192, 8);
      addr == 0x10000 && t.bump == 0x12000 && t.bump > t.end
  {
  }

  /**
   * The evidently intended alloc_region: with the commented-out check
   * restored, a region that would end past `end` is refused.
   */
  function AllocRegionChecked(s: ArenaState, size: nat, align: nat): (r: Option<(nat, ArenaState)>)
    requires Valid(s) && IsPow2(align)
    ensures r.Some? ==> Valid(r.value.1)
  {
    var addr := CeilAlign(s.bump, align);
    if addr + size > s.end then None else Some(AllocRegion(s, size, align))
  }

  /**
   * The checked allocation refuses exactly the requests that would overrun
   * the reservation, and keeps every live byte inside it.
   */
  lemma AllocRegionCheckedStaysInBounds(s: ArenaState, size: nat, align: nat)
    requires Valid(s) && IsPow2(align) && s.bump <= s.end
    ensures var r := AllocRegionChecked(s, size, align);
      && (r.None? <==> CeilAlign(s.bump, align) + size > s.end)
      && (r.Some? ==> r.value.1.bump <= r.value.1.end && r.value == AllocRegion(s, size, align))
  {
  }
}
