/**
 * The objects of src/arena.rs: `Arena`, whose bump and commit pointers are
 * updated in place (Cells in the source), and `ArenaVec<T>`, a vector whose
 * elements are laid out back to back from the arena's base address.
 *
 * Each state-changing method is tied to the transition of ArenaSpec it
 * performs; the OS reservation (vm_reserve) and page size are parameters.
 */
module BumpArena {
  import opened Align
  import opened Wrappers
  import ArenaSpec

  /** mem::size_of::<T>() and mem::align_of::<T>() of a type. */
  datatype Layout = Layout(size: nat, align: nat)

  /** A Rust layout: the alignment is a power of two and divides the size. */
  predicate ValidLayout(l: Layout)
  {
    IsPow2(l.align) && l.size % l.align == 0
  }

  /** `&mut T` as returned by Arena::alloc: the address and the value written there. */
  datatype Ref<T> = Ref(addr: nat, value: T)

  /** `&mut [T]` as returned by Arena::alloc_slice: start address and element count. */
  datatype Slice = Slice(addr: nat, len: nat)

  /** A store to an address whose page is not committed: the OS stops the process. */
  datatype Fault = WriteFault(addr: nat)

  class Arena {
    const pageSize: nat
    const base: nat
    const end: nat
    var uncommitted: nat
    var bump: nat
    /**
     * The page protection the OS keeps for the reservation: the bytes
     * vm_commit has made read/write and vm_uncommit has not taken back.
     * A store checks it.
     */
    var committed: set<nat>

    ghost function State(): ArenaSpec.ArenaState
      reads this
    {
      ArenaSpec.ArenaState(pageSize, base, end, uncommitted, bump, committed)
    }

    ghost predicate Valid()
      reads this
    {
      ArenaSpec.Valid(State())
    }

    /**
     * Arena::new.  `reservedAt` is the address vm_reserve returns for the
     * page-rounded size; `pageSize` is os_page_size().
     */
    constructor(addrSpaceSize: nat, pageSize: nat, reservedAt: nat)
      requires IsPow2(pageSize) && reservedAt % pageSize == 0
      ensures State() == ArenaSpec.Init(pageSize, reservedAt, addrSpaceSize)
      ensures Valid()
    {
      var size := CeilAlign(addrSpaceSize, pageSize);
      this.pageSize := pageSize;
      base := reservedAt;
      end := reservedAt + size;
      uncommitted := reservedAt;
      bump := reservedAt;
      committed := {};
    }

    /** alloc_region: align, commit a batch when the boundary is reached, bump. */
    method AllocRegion(size: nat, align: nat) returns (addr: nat)
      requires Valid() && IsPow2(align)
      modifies this
      ensures (addr, State()) == ArenaSpec.AllocRegion(old(State()), size, align)
      ensures Valid()
    {
      addr := CeilAlign(bump, align);
      var next := addr + size;
      if next >= uncommitted {
        var boundary := CeilAlign(next, ArenaSpec.Granularity(pageSize));
        // vm_commit(uncommitted, boundary - uncommitted): only the part
        // inside the reservation becomes accessible
        var reachable := if boundary <= end then boundary else end;
        committed := committed + ArenaSpec.Range(uncommitted, reachable);
        uncommitted := boundary;
      }
      bump := next;
    }

    /**
     * alloc: a region of the type's size and alignment, then `value` written
     * into it.  The write faults exactly when some byte of the region is not
     * committed.
     */
    method Alloc<T>(layout: Layout, value: T) returns (r: Result<Ref<T>, Fault>)
      requires Valid() && IsPow2(layout.align)
      modifies this
      ensures var (addr, t) := ArenaSpec.AllocRegion(old(State()), layout.size, layout.align);
        && State() == t
        && (r.Success? <==> ArenaSpec.Writable(t, addr, layout.size))
        && (r.Success? ==> r.value == Ref(addr, value))
        && (r.Failure? ==> r.error == WriteFault(addr))
      ensures Valid()
    {
      var addr := AllocRegion(layout.size, layout.align);
      // ptr.write(value)
      if ArenaSpec.Range(addr, addr + layout.size) <= committed {
        r := Success(Ref(addr, value));
      } else {
        r := Failure(WriteFault(addr));
      }
    }

    /** alloc_slice: room for `count` elements of the layout, not initialised. */
    method AllocSlice(layout: Layout, count: nat) returns (s: Slice)
      requires Valid() && IsPow2(layout.align)
      modifies this
      ensures (s.addr, State()) == ArenaSpec.AllocRegion(old(State()), count * layout.size, layout.align)
      ensures s.len == count
      ensures Valid()
    {
      var addr := AllocRegion(count * layout.size, layout.align);
      s := Slice(addr, count);
    }

    /** free_all: uncommit up to the granularity-rounded bump, rewind the bump. */
    method FreeAll()
      requires Valid()
      modifies this
      ensures State() == ArenaSpec.FreeAll(old(State()))
      ensures Valid()
    {
      var upTo := CeilAlign(bump, ArenaSpec.Granularity(pageSize));
      // vm_uncommit(base, upTo - base)
      committed := committed - ArenaSpec.Range(base, upTo);
      bump := base;
    }
  }

  /** The panic of Index / IndexMut: "Index out of bounds: {index} >= {len}". */
  datatype IndexPanic = IndexOutOfBounds(index: nat, len: nat)

  lemma DivExact(n: nat, size: nat)
    requires size > 0
    ensures (n * size) / size == n && (n * size) % size == 0
  {
    ModUnique(n * size, size, n, 0);
  }

  /** Element slots are ordered like their indices. */
  lemma SlotOrder(i: nat, j: nat, size: nat)
    requires i < j && size > 0
    ensures i * size + size <= j * size
  {
    MulMonotone(size, i + 1, j);
  }

  /** A multiple of the size is a multiple of the alignment. */
  lemma SlotAligned(base: nat, n: nat, l: Layout)
    requires ValidLayout(l) && base % l.align == 0
    ensures (base + n * l.size) % l.align == 0
  {
    var q := l.size / l.align;
    assert l.size == l.align * q;
    assert n * l.size == l.align * (q * n);
    var b := base / l.align;
    assert base + n * l.size == l.align * (b + q * n);
    MulMod(l.align, b + q * n);
  }

  class ArenaVec<T> {
    const arena: Arena
    const layout: Layout
    /** The values written into the arena, by address. */
    var cells: map<nat, T>
    /** The number of elements added since the last clear. */
    ghost var count: nat

    /** The address of element i: base_addr.byte_add(i * size_of::<T>()). */
    function Slot(i: nat): nat
    {
      arena.base + i * layout.size
    }

    ghost predicate Valid()
      reads this, arena
    {
      && arena.Valid()
      && ValidLayout(layout) && layout.size > 0
      && arena.pageSize % layout.align == 0
      && arena.bump == Slot(count)
      && (forall i :: 0 <= i < count ==> Slot(i) in cells)
      && forall i :: 0 <= i < count ==> ArenaSpec.Writable(arena.State(), Slot(i), layout.size)
    }

    /**
     * ArenaVec::new, for an element type with a nonzero size whose alignment
     * does not exceed the page size.
     */
    constructor(addrSpaceSize: nat, pageSize: nat, reservedAt: nat, layout: Layout)
      requires IsPow2(pageSize) && reservedAt % pageSize == 0
      requires ValidLayout(layout) && layout.size > 0 && layout.align <= pageSize
      ensures Valid() && fresh(arena) && this.layout == layout
      ensures arena.State() == ArenaSpec.Init(pageSize, reservedAt, addrSpaceSize)
      ensures AsSlice() == [] && Roomy()
    {
      arena := new Arena(addrSpaceSize, pageSize, reservedAt);
      this.layout := layout;
      cells := map[];
      count := 0;
      new;
      Pow2Divides(layout.align, pageSize);
      ArenaSpec.InitIsTight(pageSize, reservedAt, addrSpaceSize);
    }

    /**
     * The arena's commits are tight (it has not been cleared since it was
     * made), so every add whose slot ends inside the reservation succeeds.
     */
    ghost predicate Roomy()
      reads this, arena
    {
      ArenaSpec.Tight(arena.State())
    }

    /** len: the bytes between base and bump, in whole elements, is the element count. */
    function Len(): (n: nat)
      reads this, arena
      requires Valid()
      ensures n == count
    {
      DivExact(count, layout.size);
      (arena.bump - arena.base) / layout.size
    }

    /** as_slice: the elements, from the base address, in the order they were added. */
    function AsSlice(): (s: seq<T>)
      reads this, arena
      requires Valid()
      ensures |s| == count
      ensures forall i :: 0 <= i < |s| ==> s[i] == cells[Slot(i)]
    {
      var n := Len();
      var c := cells;
      var base, size := arena.base, layout.size;
      assert forall i :: 0 <= i < n ==> base + i * size in c by {
        forall i | 0 <= i < n
          ensures base + i * size in c
        {
          assert Slot(i) in cells;
        }
      }
      seq(n, i requires 0 <= i < n && base + i * size in c => c[base + i * size])
    }

    /** is_empty: len() == 0. */
    function IsEmpty(): (b: bool)
      reads this, arena
      requires Valid()
      ensures b <==> AsSlice() == []
    {
      Len() == 0
    }

    /** get: the element at idx, or None when idx >= len(). */
    function Get(idx: nat): (r: Option<T>)
      reads this, arena
      requires Valid()
      ensures r.None? <==> idx >= |AsSlice()|
      ensures r.Some? ==> r.value == AsSlice()[idx]
    {
      if idx >= Len() then None else Some(cells[Slot(idx)])
    }

    /** Index::index: the element at idx, panicking when get returns None. */
    function Index(idx: nat): (r: Result<T, IndexPanic>)
      reads this, arena
      requires Valid()
      ensures r.Failure? <==> idx >= |AsSlice()|
      ensures r.Success? ==> r.value == AsSlice()[idx]
      ensures r.Failure? ==> r.error == IndexOutOfBounds(idx, |AsSlice()|)
    {
      match Get(idx)
      case Some(v) => Success(v)
      case None => Failure(IndexOutOfBounds(idx, Len()))
    }

    /**
     * add: alloc(value) places the value directly after the last element,
     * because every element's address is a multiple of its alignment.  The
     * write into the new slot faults when the slot is not committed; the
     * elements are then untouched.
     */
    method Add(value: T) returns (r: Result<(), Fault>)
      requires Valid()
      modifies this, arena
      ensures arena.State() == ArenaSpec.AllocRegion(old(arena.State()), layout.size, layout.align).1
      ensures r.Success? <==> ArenaSpec.Writable(arena.State(), Slot(old(count)), layout.size)
      ensures r.Success? ==> Valid() && AsSlice() == old(AsSlice()) + [value]
      ensures r.Failure? ==> r.error == WriteFault(Slot(old(count))) && cells == old(cells) && count == old(count)
      ensures old(Roomy()) ==> Roomy()
      ensures old(Roomy()) && Slot(old(count) + 1) <= arena.end ==> r.Success?
    {
      ModTransitive(arena.base, arena.pageSize, layout.align);
      SlotAligned(arena.base, count, layout);
      CeilAlignFixesMultiples(arena.bump, layout.align);
      ghost var before := AsSlice();
      ghost var oldCells := cells;
      ghost var oldState := arena.State();
      ArenaSpec.AllocRegionPlacement(oldState, layout.size, layout.align);
      ArenaSpec.AllocRegionCommits(oldState, layout.size, layout.align);
      assert Slot(count + 1) == Slot(count) + layout.size by {
        assert (count + 1) * layout.size == count * layout.size + layout.size;
      }
      if Roomy() {
        ArenaSpec.TightAllocIsWritable(oldState, layout.size, layout.align);
      }
      var a := arena.Alloc(layout, value);
      if a.Failure? {
        r := Failure(a.error);
        return;
      }
      var ref := a.value;
      assert ref.addr == Slot(count);
      assert oldState.committed <= arena.committed;
      forall i | 0 <= i <= count
        ensures ArenaSpec.Writable(arena.State(), Slot(i), layout.size)
      {
        if i < count {
          assert ArenaSpec.Writable(oldState, Slot(i), layout.size);
        }
      }
      cells := cells[ref.addr := ref.value];
      count := count + 1;
      assert (count - 1) * layout.size + layout.size == count * layout.size;
      assert arena.bump == Slot(count);
      forall i | 0 <= i < count
        ensures Slot(i) in cells
      {
        if i < count - 1 {
          assert Slot(i) in oldCells;
        }
      }
      ghost var after := AsSlice();
      forall i | 0 <= i < count
        ensures after[i] == (before + [value])[i]
      {
        if i < count - 1 {
          SlotOrder(i, count - 1, layout.size);
        }
      }
      assert after == before + [value];
      r := Success(());
    }

    /** Assigning through `&mut self[idx]` after bounds are checked. */
    method Store(idx: nat, value: T)
      requires Valid() && idx < count
      modifies this
      ensures Valid() && count == old(count)
      ensures AsSlice() == old(AsSlice())[idx := value]
    {
      ghost var before := AsSlice();
      cells := cells[Slot(idx) := value];
      ghost var after := AsSlice();
      forall i | 0 <= i < count
        ensures after[i] == before[idx := value][i]
      {
        if i < idx {
          SlotOrder(i, idx, layout.size);
        } else if idx < i {
          SlotOrder(idx, i, layout.size);
        }
      }
      assert after == before[idx := value];
    }

    /**
     * get_mut(idx) followed by a write through the reference it returns:
     * nothing changes when idx >= len().
     */
    method GetMut(idx: nat, value: T) returns (found: bool)
      requires Valid()
      modifies this
      ensures Valid()
      ensures found <==> idx < |old(AsSlice())|
      ensures AsSlice() == if found then old(AsSlice())[idx := value] else old(AsSlice())
    {
      if idx >= Len() {
        found := false;
      } else {
        Store(idx, value);
        found := true;
      }
    }

    /** IndexMut::index_mut followed by a write: panics when idx >= len(). */
    method IndexMut(idx: nat, value: T) returns (r: Result<(), IndexPanic>)
      requires Valid()
      modifies this
      ensures Valid()
      ensures r.Failure? <==> idx >= |old(AsSlice())|
      ensures r.Failure? ==> r.error == IndexOutOfBounds(idx, |old(AsSlice())|) && AsSlice() == old(AsSlice())
      ensures r.Success? ==> AsSlice() == old(AsSlice())[idx := value]
    {
      var len := Len();
      if idx >= len {
        r := Failure(IndexOutOfBounds(idx, len));
      } else {
        Store(idx, value);
        r := Success(());
      }
    }

    /** clear: free_all on the arena, so the vector is empty. */
    method Clear()
      requires Valid()
      modifies this, arena
      ensures Valid() && AsSlice() == []
      ensures arena.State() == ArenaSpec.FreeAll(old(arena.State()))
    {
      arena.FreeAll();
      count := 0;
    }

    /**
     * clear followed by add on a vector that held an element: free_all
     * uncommitted the first page, the commit boundary stayed where it was,
     * so the write into slot 0 faults.
     */
    method ClearThenAdd(value: T) returns (r: Result<(), Fault>)
      requires Valid() && count > 0
      modifies this, arena
      ensures r == Failure(WriteFault(arena.base))
    {
      Clear();
      ghost var s := old(arena.State());
      assert layout.align <= arena.pageSize by {
        var q := arena.pageSize / layout.align;
        assert arena.pageSize == layout.align * q;
        MulMonotone(layout.align, 1, q);
      }
      assert layout.size <= s.bump - s.base by {
        MulMonotone(layout.size, 1, old(count));
      }
      ArenaSpec.FreeAllThenAllocFaults(s, layout.size, layout.align);
      r := Add(value);
    }
  }

  /**
   * ArenaVec::new followed by two adds of 8-byte values: both writes land in
   * committed memory and the vector holds the values in order.
   */
  method NewThenAddTwice() returns (v: ArenaVec<int>, r1: Result<(), Fault>, r2: Result<(), Fault>)
    ensures r1.Success? && r2.Success?
    ensures v.Valid() && v.Len() == 2 && v.AsSlice() == [7, 9]
  {
    assert IsPow2(4096) by {
      assert IsPow2(2) && IsPow2(4) && IsPow2(8) && IsPow2(16) && IsPow2(32) && IsPow2(64);
      assert IsPow2(128) && IsPow2(256) && IsPow2(512) && IsPow2(1024) && IsPow2(2048);
    }
    v := new ArenaVec<int>(0x10000, 4096, 0x100000, Layout(8, 8));
    r1 := v.Add(7);
    r2 := v.Add(9);
  }
}
