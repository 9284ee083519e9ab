/** A user address space as the kernel keeps it: a vector of areas and a page table, changed in
    place. Each method is proved against the functions on values of the other modules. */
module MemorySets {
  import opened Basics
  import opened PagedMemory
  import opened MapAreas
  import opened MunmapFrames
  import opened Spaces
  import opened AreaLists
  import opened ProtectAreas
  import opened AreaFaults
  import opened Reclaim
  import opened ForkSteps
  import opened MunmapSteps
  import opened CallOutcomes
  import opened MemoryRuns
  import opened TrustRuns

  /** What a call returns; `Panic` stands for a call in which the kernel stops. */
  datatype Errno = Success | EINVAL | ENOMEM | EACCES | EBADF | Panic

  /** What a mapping is backed by: nothing, an open file, or a descriptor that cannot be used. */
  datatype Backing = Anonymous | Backed(pos: FilePos) | Refused(errno: Errno)

  function FileOf(backing: Backing): Option<FilePos> {
    if backing.Backed? then Some(backing.pos) else None
  }

  /** The pages of [lo, hi) are new, with nothing behind them but perhaps a file; the others are what
      `munmap` leaves. */
  ghost predicate FreshRange(areas: seq<Area>, areas': seq<Area>, lo: nat, hi: nat, perm: Perm, file: Option<FilePos>)
    requires lo < hi && AllOk(areas)
  {
    forall v: nat {:trigger SlotAt(areas', v)} ::
      if lo <= v < hi then
        SlotAt(areas', v) == Some(Slot(perm, Unallocated, match file
                                                          case None => None
                                                          case Some(pos) => Some(FilePos(pos.file, pos.base, pos.page + (v - lo)))))
      else SlotAt(areas', v) == SlotAt(MunmapAreas(areas, lo, hi), v)
  }

  /** What MAP_FIXED leaves: the range is unmapped and then, unless the file is refused, holds a new area at
      its place in the order of the list. An area that was last and is clear of the range stays last if
      some area past those at or above `end` at the front starts no lower than the new one. */
  ghost predicate MapsFixed(s: Memory, s': Memory, lo: nat, hi: nat, perm: Perm, backing: Backing, end: nat)
    requires lo < hi && AllOk(s.areas)
  {
    && s'.table == s.table - Range(lo, hi)
    && (forall f :: Lowered(s.store, s'.store, f, PageCount(s.areas, lo, hi, f)))
    && var after := MunmapAreas(s.areas, lo, hi);
       if backing.Refused? then s'.areas == after
       else
         && FreshRange(s.areas, s'.areas, lo, hi, perm, if backing.Backed? then Some(backing.pos) else None)
         && PutInOrder(after, NewArea(lo, hi, perm, FileOf(backing)), s'.areas, end)
         && (LastClear(s.areas, lo, hi) && SomeAbove(after, lo, end) ==>
               s'.areas != [] && s'.areas[|s'.areas| - 1] == s.areas[|s.areas| - 1])
  }

  lemma FixedIs(s: Memory, s': Memory, lo: nat, hi: nat, perm: Perm, backing: Backing, end: nat)
    requires lo < hi && AllOk(s.areas) && !backing.Refused? && s'.table == s.table - Range(lo, hi)
    requires forall f :: Lowered(s.store, s'.store, f, PageCount(s.areas, lo, hi, f))
    requires FreshRange(s.areas, s'.areas, lo, hi, perm, FileOf(backing))
    requires PutInOrder(MunmapAreas(s.areas, lo, hi), NewArea(lo, hi, perm, FileOf(backing)), s'.areas, end)
    ensures MapsFixed(s, s', lo, hi, perm, backing, end)
  {
    NewLast(s.areas, s'.areas, lo, hi, perm, FileOf(backing), end);
  }

  predicate LastClear(areas: seq<Area>, lo: nat, hi: nat) {
    areas != [] && var last := areas[|areas| - 1]; last.End() <= lo || hi <= last.start < last.End()
  }

  lemma NewLast(areas: seq<Area>, areas': seq<Area>, lo: nat, hi: nat, perm: Perm, file: Option<FilePos>, end: nat)
    requires lo < hi && AllOk(areas) && PutInOrder(MunmapAreas(areas, lo, hi), NewArea(lo, hi, perm, file), areas', end)
    ensures LastClear(areas, lo, hi) && SomeAbove(MunmapAreas(areas, lo, hi), lo, end) ==>
              areas' != [] && areas'[|areas'| - 1] == areas[|areas| - 1]
  {
    var after, b := MunmapAreas(areas, lo, hi), NewArea(lo, hi, perm, file);
    forall j: nat | j < |after|
      ensures after[j] != b
    {
      MunmapClear(areas, lo, hi, j);
    }
    if LastClear(areas, lo, hi) {
      LastAfterMunmap(areas, lo, hi);
      LastStays(after, b, areas', end);
    }
  }

  lemma NewAreaAdds(areas: seq<Area>, areas': seq<Area>, b: Area, lo: nat, hi: nat)
    requires b.start == lo && b.End() == hi && forall j :: 0 <= j < |areas| ==> ClearOf(areas[j], lo, hi)
    requires forall v: nat :: SlotAt(areas', v) == if lo <= v < hi then Some(Slot(b.perm, Unallocated, b.FileAt(v))) else SlotAt(areas, v)
    ensures AddsArea(areas, areas', b)
  {
    forall u: nat | b.Has(u)
      ensures SlotAt(areas, u).None?
    {
      SlotAtNone(areas, u);
    }
  }

  /** A new area where `munmap` left none. */
  lemma AddKeeps(areas0: seq<Area>, s0: Memory, s: Memory, i: nat, b: Area, lo: nat, hi: nat, perm: Perm, file: Option<FilePos>)
    requires lo < hi && AllOk(areas0) && s.areas == MunmapAreas(areas0, lo, hi) && b == NewArea(lo, hi, perm, file) && i <= |s.areas|
    requires WellFormed(s.areas) && PagesOk(s.areas, s.table) && HeldOk(s.areas, s.store)
    requires OutsideKept(areas0, s0.store, s.areas, s.store) && AlwaysLeads(s0, s)
    ensures var areas' := Insert(s.areas, i, b);
            && WellFormed(areas') && PagesOk(areas', s.table) && HeldOk(areas', s.store)
            && OutsideKept(areas0, s0.store, areas', s.store) && AlwaysLeads(s0, s.(areas := areas'))
            && FreshRange(areas0, areas', lo, hi, perm, file)
  {
    var areas' := Insert(s.areas, i, b);
    forall j: nat | j < |s.areas|
      ensures ClearOf(s.areas[j], lo, hi)
    {
      MunmapClear(areas0, lo, hi, j);
    }
    InsertKeeps(s.areas, s.table, s.store, i, b, lo, hi, perm, file);
    OutsideTwice(areas0, s0.store, s.areas, s.store, areas', s.store);
    NewAreaAdds(s.areas, areas', b, lo, hi);
    InsertLeads(s, areas', b);
    AlwaysTwice(s0, s, s.(areas := areas'));
  }

  /** No entry of the page table changes; some go. */
  ghost predicate TableShrinks(table: map<nat, Pte>, table': map<nat, Pte>) {
    forall v :: v in table' ==> v in table && table'[v] == table[v]
  }

  /** What all address spaces share: the store behind frames, zram and swap trackers. */
  class PhysicalMemory {
    var store: Store

    /** Drop one handle of a tracker. */
    method Drop(f: Frame)
      modifies this
      ensures store == Release(old(store), f)
    {
      store := Release(store, f);
    }

    /** The id under which zram would store a page, if it has room. */
    method ZramId() returns (id: Option<nat>)
      ensures id.Some? ==> Compressed(id.value) !in store
    {
      if * {
        return None;
      }
      ghost var free := FreshId(store);
      var n: nat :| Compressed(n) !in store;
      id := Some(n);
    }

    /** The slot the swap device would write a page to. */
    method SwapId() returns (id: nat)
      ensures SwappedOut(id) !in store
    {
      ghost var free := FreshId(store);
      id :| SwappedOut(id) !in store;
    }
  }

  lemma SameSlot(slots: map<nat, Slot>, v: nat)
    requires v in slots
    ensures slots[v := slots[v].(frame := slots[v].frame)] == slots
  {
  }

  lemma FilledKeeps(areas: seq<Area>, i: nat, k: nat, ppn: nat)
    requires AllOk(areas) && i < |areas| && AreaOk(areas[i]) && k < |areas[i].frames| && !areas[i].frames[k].InMemory?
    ensures KeepActive(areas, areas[i := Filled(areas[i], k, ppn)])
  {
    if ActiveOk(areas[i].frames, areas[i].active) {
      FilledActive(areas[i], k, ppn);
    }
  }

  lemma ReframedKeeps(areas: seq<Area>, i: nat, k: nat, ppn: nat)
    requires i < |areas| && k < |areas[i].frames| && areas[i].frames[k].InMemory?
    ensures KeepActive(areas, areas[i := Reframed(areas[i], k, ppn)])
  {
    if ActiveOk(areas[i].frames, areas[i].active) {
      ReframedActive(areas[i], k, ppn);
    }
  }

  class MemorySet {
    var areas: seq<Area>
    var table: map<nat, Pte>

    /** An empty address space. */
    constructor ()
      ensures areas == [] && table == map[]
    {
      areas, table := [], map[];
    }

    ghost predicate Valid(mem: PhysicalMemory)
      reads this, mem
    {
      WellFormed(areas) && PagesOk(areas, table) && HeldOk(areas, mem.store) && Counted(mem.store)
    }

    /** The space as a part of the paging machine. */
    ghost function State(mem: PhysicalMemory): Memory
      reads this, mem
    {
      Memory(areas, table, mem.store)
    }

    /** Unmap the pages [lo, hi) of an area taken out of the vector, and drop what is behind them.
        The kernel drops frames in memory while unmapping and the other trackers when the vector is
        cut; the counts that result do not depend on that order. */
    method DropRange(a: Area, lo: nat, hi: nat, mem: PhysicalMemory) returns (b: Area)
      requires a.start <= lo <= hi <= a.End()
      requires forall v {:trigger MappedAt(a, table, v)} :: lo <= v < hi ==> MappedAt(a, table, v)
      modifies this`table, mem
      ensures table == old(table) - Range(lo, hi)
      ensures mem.store == DroppedStore(a, lo, hi, old(mem.store))
      ensures b == a.(frames := Emptied(a.frames, lo - a.start, hi - a.start),
                      active := Forget(a.active, a.frames, lo - a.start, hi - a.start, |a.active|))
    {
      var frames, active := a.frames, a.active;
      ForgetNone(a.active, a.frames, lo - a.start, |a.active|);
      for v := lo to hi
        invariant table == Unmapped(old(table), lo, v)
        invariant mem.store == DroppedStore(a, lo, v, old(mem.store))
        invariant frames == Emptied(a.frames, lo - a.start, v - a.start)
        invariant active == Forget(a.active, a.frames, lo - a.start, v - a.start, |a.active|)
      {
        var k := v - a.start;
        assert MappedAt(a, old(table), v);
        UnmappedHas(old(table), lo, v, v);
        RemoveAbsent(table, v);
        EmptiedAt(a.frames, lo - a.start, k, k);
        DroppingActive(a, lo - a.start, k, active, v in table);
        if v in table {
          active := Without(active, k, |active|);
          table := table - {v};
        }
        mem.Drop(frames[k]);
        frames := frames[k := Unallocated];
      }
      UnmappedIs(old(table), lo, hi);
      b := a.(frames := frames, active := active);
    }

    /** The pass of `munmap` over one area that is not split. */
    method TrimArea(i: nat, lo: nat, hi: nat, mem: PhysicalMemory) returns (whole: bool)
      requires i < |areas| && AreaOk(areas[i]) && lo < hi && !Middle(areas[i], lo, hi)
      requires forall v {:trigger MappedAt(areas[i], table, v)} ::
                 CutLo(areas[i], lo) <= v < CutHi(areas[i], lo, hi) ==> areas[i].Has(v) && MappedAt(areas[i], table, v)
      modifies this, mem
      ensures whole == Whole(old(areas)[i], lo, hi)
      ensures areas == old(areas)[i := Trim(old(areas)[i], lo, hi)]
      ensures var a := old(areas)[i];
              var s, e := CutLo(a, lo), CutHi(a, lo, hi);
              && table == old(table) - Range(s, e)
              && (if s <= a.End() then mem.store == DroppedStore(a, s, e, old(mem.store)) else mem.store == old(mem.store))
    {
      var a := areas[i];
      whole := false;
      match CheckOverlapping(a, lo, hi)
      case None =>
        assert Range(CutLo(a, lo), CutHi(a, lo, hi)) == {};
      case Some((s, e)) =>
        var b := DropRange(a, s, e, mem);
        TrimWays(a, lo, hi, s, e, b);
        if s == a.start && e == a.End() {
          whole := true;
          areas := areas[i := b];
        } else if s == a.start {
          areas := areas[i := b.(start := e, frames := Resize(Rotate(b.frames, e - s), |b.frames| - (e - s)))];
        } else {
          areas := areas[i := b.(frames := Resize(b.frames, s - a.start))];
        }
    }

    /** The areas a range meets, cut in place; what must still be deleted or split is returned. */
    method Pass(lo: nat, hi: nat, mem: PhysicalMemory) returns (found: bool, delete: seq<nat>, breakApart: Option<nat>)
      requires Valid(mem) && lo < hi
      modifies this, mem
      ensures found <==> exists i :: 0 <= i < |old(areas)| && CheckOverlapping(old(areas)[i], lo, hi).Some?
      ensures breakApart.None? <==> NoMiddle(old(areas), lo, hi)
      ensures breakApart.Some? ==>
                && breakApart.value < |areas| && Middle(areas[breakApart.value], lo, hi)
                && delete == [] && areas == old(areas) && table == old(table) && mem.store == old(mem.store)
      ensures breakApart.None? ==>
                Passed(old(areas), old(table), old(mem.store), lo, hi, areas, table, mem.store, delete, |old(areas)|)
    {
      found, delete, breakApart := false, [], None;
      ghost var olds, pages, store := areas, table, mem.store;
      ghost var split := !NoMiddle(areas, lo, hi);
      ghost var m := 0;
      if split {
        m :| 0 <= m < |areas| && Middle(areas[m], lo, hi);
      }
      PassedNone(olds, pages, store, lo, hi);
      for i := 0 to |areas|
        invariant |areas| == |olds|
        invariant found <==> exists j :: 0 <= j < i && CheckOverlapping(olds[j], lo, hi).Some?
        invariant split ==> areas == olds && table == pages && mem.store == store && delete == []
        invariant breakApart == if split && m < i then Some(m) else None
        invariant !split ==> Passed(olds, pages, store, lo, hi, areas, table, mem.store, delete, i)
      {
        assert !split ==> TrimmedAt(olds, areas, lo, hi, i, i);
        assert areas[i] == olds[i] && AreaOk(olds[i]);
        if split && i != m {
          OthersUntouched(olds, m, lo, hi, i);
        }
        match CheckOverlapping(areas[i], lo, hi)
        case None =>
          if !split {
            PassedBy(olds, pages, store, lo, hi, areas, table, mem.store, delete, i);
          }
        case Some(_) =>
          found := true;
          if Middle(areas[i], lo, hi) {
            breakApart := Some(i);
          } else {
            forall v | CutLo(olds[i], lo) <= v < CutHi(olds[i], lo, hi)
              ensures olds[i].Has(v) && MappedAt(olds[i], table, v)
            {
              NotGone(olds, pages, lo, hi, i, v);
            }
            PassedOne(olds, pages, store, lo, hi, areas, table, mem.store, delete, i);
            var whole := TrimArea(i, lo, hi, mem);
            if whole {
              delete := delete + [i];
            }
          }
      }
    }

    /** Delete, last first, the areas that go as a whole. */
    method Delete(delete: seq<nat>, ghost olds: seq<Area>, lo: nat, hi: nat)
      requires |olds| == |areas| && delete == Wholes(olds, lo, hi, |olds|)
      modifies this`areas
      ensures areas == KeptFrom(olds, old(areas), lo, hi, 0)
    {
      ghost var b: nat := |areas|;
      ghost var was := areas;
      assert areas == was[..b] + KeptFrom(olds, was, lo, hi, b);
      for k := |delete| downto 0
        invariant b <= |was|
        invariant delete[..k] == Wholes(olds, lo, hi, b)
        invariant areas == was[..b] + KeptFrom(olds, was, lo, hi, b)
      {
        b := LastWhole(olds, was, lo, hi, b, areas, delete[..k + 1]);
        assert delete[..k + 1] == delete[..k] + [delete[k]];
        areas := areas[..delete[k]] + areas[delete[k] + 1..];
      }
      b := LastWhole(olds, was, lo, hi, b, areas, []);
    }

    /** Take the pages [lo, hi) out of the middle of area `m`. */
    method BreakApart(m: nat, lo: nat, hi: nat, mem: PhysicalMemory)
      requires Valid(mem) && m < |areas| && Middle(areas[m], lo, hi)
      modifies this, mem
      ensures areas == MunmapAreas(old(areas), lo, hi)
      ensures table == old(table) - Range(lo, hi)
      ensures LoweredAll(old(mem.store), mem.store, old(areas), lo, hi, |old(areas)|) && Counted(mem.store)
    {
      SplitOut(areas, table, mem.store, m, lo, hi);
      var (first, second, third) := IntoThree(areas[m], lo, hi).value;
      var _ := DropRange(second, lo, hi, mem);
      areas := areas[..m] + ([first, third] + areas[m + 1..]);
    }

    /** `munmap`. With a length of zero nothing is unmapped; an address strictly inside an area makes the
        split fail and its caller unwrap the failure. */
    method Munmap(start: nat, len: nat, mem: PhysicalMemory) returns (r: Errno)
      requires Valid(mem)
      modifies this, mem
      ensures Valid(mem) && OutsideKept(old(areas), old(mem.store), areas, mem.store)
      ensures AlwaysLeads(old(State(mem)), State(mem))
      ensures start % 4096 != 0 || len == 0 ==> areas == old(areas) && table == old(table) && mem.store == old(mem.store)
      ensures start % 4096 != 0 ==> r == EINVAL
      ensures start % 4096 == 0 && len == 0 ==>
                && (r == EINVAL <==> forall i :: 0 <= i < |areas| ==> !areas[i].Has(start / 4096))
                && (r == Panic <==> exists i :: 0 <= i < |areas| && areas[i].Has(start / 4096) && areas[i].start != start / 4096)
                && (r == Success <==> exists i :: 0 <= i < |areas| && areas[i].Has(start / 4096) && areas[i].start == start / 4096)
      ensures start % 4096 == 0 && len > 0 ==>
                var lo, hi := start / 4096, (start + len + 4095) / 4096;
                && lo < hi
                && areas == MunmapAreas(old(areas), lo, hi)
                && table == old(table) - Range(lo, hi)
                && (forall f :: Lowered(old(mem.store), mem.store, f, PageCount(old(areas), lo, hi, f)))
                && r == (if SomeMeets(old(areas), lo, hi) then Success else EINVAL)
                && TrustKept(old(areas), Unmap(lo, hi), areas)
    {
      if start % 4096 != 0 || len == 0 {
        OutsideSame(areas, mem.store);
        AlwaysSame(State(mem));
        if start % 4096 != 0 {
          return EINVAL;
        }
        r := MunmapNone(start / 4096);
      } else {
        r := MunmapPages(start / 4096, (start + len + 4095) / 4096, mem);
      }
    }

    /** `munmap` of no page: the area that has the address is cut at its start, or split. */
    method MunmapNone(lo: nat) returns (r: Errno)
      requires WellFormed(areas)
      ensures r == EINVAL <==> forall i :: 0 <= i < |areas| ==> !areas[i].Has(lo)
      ensures r == Panic <==> exists i :: 0 <= i < |areas| && areas[i].Has(lo) && areas[i].start != lo
      ensures r == Success <==> exists i :: 0 <= i < |areas| && areas[i].Has(lo) && areas[i].start == lo
    {
      var found := FindArea(lo);
      match found
      case None =>
        r := EINVAL;
      case Some(i) =>
        OnlyArea(areas, i, lo);
        if areas[i].start == lo {
          assert ShrinkLower(areas[i], lo).frames == areas[i].frames;
          r := Success;
        } else {
          assert AreaOk(areas[i]);
          r := if IntoThree(areas[i], lo, lo).None? then Panic else Success;
        }
    }

    /** `munmap` of the pages [lo, hi). */
    method MunmapPages(lo: nat, hi: nat, mem: PhysicalMemory) returns (r: Errno)
      requires Valid(mem) && lo < hi
      modifies this, mem
      ensures Valid(mem) && OutsideKept(old(areas), old(mem.store), areas, mem.store)
      ensures AlwaysLeads(old(State(mem)), State(mem))
      ensures areas == MunmapAreas(old(areas), lo, hi) && table == old(table) - Range(lo, hi)
      ensures forall f :: Lowered(old(mem.store), mem.store, f, PageCount(old(areas), lo, hi, f))
      ensures r == if SomeMeets(old(areas), lo, hi) then Success else EINVAL
      ensures TrustKept(old(areas), Unmap(lo, hi), areas)
    {
      ghost var olds, pages, store := areas, table, mem.store;
      var found, delete, breakApart := Pass(lo, hi, mem);
      match breakApart {
        case None =>
          KeptIsMunmap(olds, areas, lo, hi, 0);
          GoneIsRange(olds, pages, lo, hi);
          Delete(delete, olds, lo, hi);
        case Some(m) =>
          BreakApart(m, lo, hi, mem);
      }
      MunmapKeeps(olds, pages, store, mem.store, lo, hi);
      forall f
        ensures Lowered(store, mem.store, f, PageCount(olds, lo, hi, f))
      {
        assert LoweredAt(store, mem.store, olds, lo, hi, |olds|, f);
        SumCutPages(olds, lo, hi, f);
      }
      MunmapLeads(Memory(olds, pages, store), mem.store, lo, hi);
      DidKept(olds, Unmap(lo, hi), areas);
      assert found <==> SomeMeets(olds, lo, hi);
      r := if found then Success else EINVAL;
    }

    method FindArea(v: nat) returns (found: Option<nat>)
      ensures found.None? <==> forall i :: 0 <= i < |areas| ==> !areas[i].Has(v)
      ensures found.Some? ==> found.value < |areas| && areas[found.value].Has(v)
    {
      for i := 0 to |areas|
        invariant forall j :: 0 <= j < i ==> !areas[j].Has(v)
      {
        if areas[i].Has(v) {
          return Some(i);
        }
      }
      return None;
    }

    /** Split area `i` so that one area covers exactly [lo, hi); its index is returned. */
    method SplitAt(i: nat, lo: nat, hi: nat) returns (j: nat)
      requires WellFormed(areas) && i < |areas| && AreaOk(areas[i]) && areas[i].start <= lo < hi <= areas[i].End()
      modifies this`areas
      ensures var (pieces, k) := Recut(old(areas)[i], lo, hi);
              j == i + k && areas == Splice(old(areas), i, pieces)
    {
      var a := areas[i];
      if lo == a.start && hi == a.End() {
        assert Splice(areas, i, [a]) == areas;
        j := i;
      } else if lo == a.start {
        var (first, second) := IntoTwo(a, hi).value;
        areas := areas[..i] + ([first, second] + areas[i + 1..]);
        j := i;
      } else if hi == a.End() {
        var (first, second) := IntoTwo(a, lo).value;
        areas := areas[..i] + ([first, second] + areas[i + 1..]);
        j := i + 1;
      } else {
        IntoThreeKeeps(a, lo, hi);
        var (first, second, third) := IntoThree(a, lo, hi).value;
        areas := areas[..i] + ([first, second, third] + areas[i + 1..]);
        j := i + 1;
      }
    }

    /** Entries in the range get the permission without W: pages gain W by copy-on-write. */
    method SetFlags(lo: nat, hi: nat, perm: Perm)
      requires lo <= hi
      modifies this`table
      ensures table == ProtectTable(old(table), lo, hi, perm)
    {
      for v := lo to hi
        invariant table == ProtectTable(old(table), lo, v, perm)
      {
        if v in table {
          table := table[v := table[v].(perm := perm.NoWrite())];
        }
      }
    }

    /** `mprotect`. Bits of `prot` that are no permission make the kernel panic, and so does a length of
        zero inside an area: the split is refused. */
    method Mprotect(addr: nat, len: nat, prot: nat, mem: PhysicalMemory) returns (r: Errno)
      requires Valid(mem)
      modifies this
      ensures Valid(mem) && OutsideKept(old(areas), mem.store, areas, mem.store)
      ensures AlwaysLeads(old(State(mem)), State(mem))
      ensures r != Success ==> areas == old(areas) && table == old(table)
      ensures var lo := addr / 4096;
              && (r == EINVAL <==> addr % 4096 != 0 || (prot % 128 < 16 && forall i :: 0 <= i < |old(areas)| ==> !old(areas)[i].Has(lo)))
              && (r == Panic <==> addr % 4096 == 0 && (prot % 128 >= 16 || (len == 0 && exists i :: 0 <= i < |old(areas)| && old(areas)[i].Has(lo))))
      ensures var lo, hi := addr / 4096, (addr + len + 4095) / 4096;
              forall i :: 0 <= i < |old(areas)| && old(areas)[i].Has(lo) && addr % 4096 == 0 && len > 0 && prot % 128 < 16 ==>
                if hi > old(areas)[i].End() then r == ENOMEM
                else && r == Success && lo < hi && AreaOk(old(areas)[i])
                     && areas == Protected(old(areas), i, lo, hi, PermOf(prot))
                     && TrustKept(old(areas), Protect(i, lo, hi, PermOf(prot)), areas)
                     && table == ProtectTable(old(table), lo, hi, PermOf(prot))
                     && Protects(old(areas), old(table), areas, table, lo, hi, prot)
    {
      OutsideSame(areas, mem.store);
      AlwaysSame(State(mem));
      if addr % 4096 != 0 {
        return EINVAL;
      }
      if prot % 128 >= 16 {
        return Panic;
      }
      var lo, hi := addr / 4096, (addr + len + 4095) / 4096;
      var found := FindArea(lo);
      match found
      case None =>
        return EINVAL;
      case Some(i) =>
        OnlyArea(areas, i, lo);
        if hi > areas[i].End() {
          return ENOMEM;
        }
        if len == 0 {
          assert AreaOk(areas[i]);
          var refused := if lo == areas[i].start then IntoTwo(areas[i], hi).None? else IntoThree(areas[i], lo, hi).None?;
          return if refused then Panic else Success;
        }
        assert AreaOk(areas[i]);
        ProtectedBits(areas, table, i, lo, hi, prot);
        ProtectPages(i, lo, hi, PermOf(prot), mem);
        r := Success;
    }

    /** The pages [lo, hi) of area `i` get the permission. */
    method ProtectPages(i: nat, lo: nat, hi: nat, perm: Perm, mem: PhysicalMemory)
      requires Valid(mem) && i < |areas| && areas[i].start <= lo < hi <= areas[i].End()
      modifies this
      ensures Valid(mem) && OutsideKept(old(areas), mem.store, areas, mem.store) && AreaOk(old(areas)[i])
      ensures AlwaysLeads(old(State(mem)), State(mem))
      ensures areas == Protected(old(areas), i, lo, hi, perm) && table == ProtectTable(old(table), lo, hi, perm)
      ensures TrustKept(old(areas), Protect(i, lo, hi, perm), areas)
    {
      assert AreaOk(areas[i]);
      ProtectedOk(areas, i, lo, hi, perm);
      ProtectedPages(areas, table, i, lo, hi, perm);
      ProtectedHandles(areas, mem.store, i, lo, hi, perm);
      MprotectLeads(State(mem), i, lo, hi, perm);
      SplitKeeps(areas, i, lo, hi);
      var j := SplitAt(i, lo, hi);
      SetFlags(lo, hi, perm);
      areas := areas[j := areas[j].(perm := perm)];
      DidKept(old(areas), Protect(i, lo, hi, perm), areas);
    }

    /** Where a new area goes: before the first that starts no lower, after those at or above
        `mmapEnd` at the front of the list. */
    method InsertionPoint(start: nat, mmapEnd: nat) returns (i: nat, ghost lead: nat)
      ensures Leading(areas, mmapEnd, lead) && lead <= i <= |areas|
      ensures (forall k :: lead <= k < i ==> areas[k].start < start) && (i < |areas| ==> areas[i].start >= start)
    {
      i := 0;
      while i < |areas| && areas[i].start >= mmapEnd
        invariant i <= |areas| && forall k :: 0 <= k < i ==> areas[k].start >= mmapEnd
      {
        i := i + 1;
      }
      lead := i;
      while i < |areas| && areas[i].start < start
        invariant lead <= i <= |areas| && forall k :: lead <= k < i ==> areas[k].start < start
      {
        i := i + 1;
      }
    }

    /** `mmap` with MAP_FIXED: whatever was in the range goes, even if the file is then refused. If no area
        was there, `munmap` reports an error and the kernel unwraps it unchecked, which Rust leaves
        undefined; without `defined` the rest is what the code does if that passes. */
    method MmapFixed(start: nat, len: nat, perm: Perm, backing: Backing, mmapEnd: nat, mem: PhysicalMemory)
      returns (r: Errno, defined: bool)
      requires Valid(mem)
      modifies this, mem
      ensures Valid(mem) && OutsideKept(old(areas), old(mem.store), areas, mem.store)
      ensures AlwaysLeads(old(State(mem)), State(mem))
      ensures start % 4096 != 0 ==> defined && r == EINVAL && areas == old(areas) && table == old(table) && mem.store == old(mem.store)
      ensures start % 4096 == 0 ==>
                var lo, hi := start / 4096, (start + (if len == 0 then 4096 else len) + 4095) / 4096;
                && lo < hi && MapsFixed(old(State(mem)), State(mem), lo, hi, perm, backing, mmapEnd)
                && r == (if backing.Refused? then backing.errno else Success)
                && (defined <==> SomeMeets(old(areas), lo, hi))
                && TrustKept(old(areas), if backing.Refused? then Unmap(lo, hi) else Map(lo, hi, perm, FileOf(backing)), areas)
    {
      if start % 4096 != 0 {
        OutsideSame(areas, mem.store);
        AlwaysSame(State(mem));
        return EINVAL, true;
      }
      var size := if len == 0 then 4096 else len;
      r, defined := MmapPages(start / 4096, (start + size + 4095) / 4096, perm, backing, mmapEnd, mem);
    }

    method MmapPages(lo: nat, hi: nat, perm: Perm, backing: Backing, mmapEnd: nat, mem: PhysicalMemory)
      returns (r: Errno, defined: bool)
      requires Valid(mem) && lo < hi
      modifies this, mem
      ensures Valid(mem) && OutsideKept(old(areas), old(mem.store), areas, mem.store)
      ensures AlwaysLeads(old(State(mem)), State(mem))
      ensures MapsFixed(old(State(mem)), State(mem), lo, hi, perm, backing, mmapEnd)
      ensures r == (if backing.Refused? then backing.errno else Success) && (defined <==> SomeMeets(old(areas), lo, hi))
      ensures TrustKept(old(areas), if backing.Refused? then Unmap(lo, hi) else Map(lo, hi, perm, FileOf(backing)), areas)
    {
      var unmapped := MunmapPages(lo, hi, mem);
      defined := unmapped == Success;
      match backing {
        case Refused(errno) =>
          r := errno;
          return;
        case _ =>
          AddArea(lo, hi, perm, FileOf(backing), mmapEnd, mem, old(areas), old(State(mem)));
          FixedIs(old(State(mem)), State(mem), lo, hi, perm, backing, mmapEnd);
      }
      r := Success;
    }

    method AddArea(lo: nat, hi: nat, perm: Perm, file: Option<FilePos>, mmapEnd: nat, mem: PhysicalMemory,
                   ghost areas0: seq<Area>, ghost s0: Memory)
      requires Valid(mem) && lo < hi && AllOk(areas0) && areas == MunmapAreas(areas0, lo, hi)
      requires OutsideKept(areas0, s0.store, areas, mem.store) && AlwaysLeads(s0, State(mem))
      modifies this`areas
      ensures Valid(mem) && OutsideKept(areas0, s0.store, areas, mem.store) && AlwaysLeads(s0, State(mem))
      ensures FreshRange(areas0, areas, lo, hi, perm, file) && TrustKept(areas0, Map(lo, hi, perm, file), areas)
      ensures PutInOrder(old(areas), NewArea(lo, hi, perm, file), areas, mmapEnd)
    {
      var b := NewArea(lo, hi, perm, file);
      var i, lead := InsertionPoint(lo, mmapEnd);
      AddKeeps(areas0, s0, State(mem), i, b, lo, hi, perm, file);
      areas := areas[..i] + ([b] + areas[i..]);
      assert PutAt(old(areas), b, areas, mmapEnd, lead, i);
      assert Inserted(old(areas), b, areas);
      DidKept(areas0, Map(lo, hi, perm, file), areas);
    }

    // -------------------------------------------------------------- page faults

    ghost function Now(mem: PhysicalMemory): View
      reads this, mem
    {
      View(Space(areas, table), mem.store)
    }

    /** A page that was not in memory gets the frame `ppn` with the bytes `page`. */
    method MapPage(i: nat, v: nat, ppn: nat, page: Page, mem: PhysicalMemory)
      requires Valid(mem) && i < |areas| && areas[i].Has(v) && !areas[i].frames[v - areas[i].start].InMemory?
      requires InMemory(ppn) !in mem.store && AreaOk(areas[i])
      modifies this, mem
      ensures Valid(mem) && v in Slots(old(areas)) && Now(mem) == BringIn(old(Now(mem)), v, ppn, page)
      ensures OutsideKept(old(areas), old(mem.store), areas, mem.store)
      ensures areas == old(areas)[i := Filled(old(areas)[i], v - old(areas)[i].start, ppn)]
    {
      var a, k := areas[i], v - areas[i].start;
      var b := Filled(a, k, ppn);
      FilledOk(a, k, ppn);
      ReplaceOk(areas, i, b);
      RebindSpace(areas, table, i, b, v, InMemory(ppn), Some(Pte(ppn, a.perm)));
      RebindPages(areas, table, i, b, v, InMemory(ppn), Some(Pte(ppn, a.perm)));
      MovedHandles(areas, mem.store, i, b, k, InMemory(ppn), page);
      mem.store := Fresh(Release(mem.store, a.frames[k]), InMemory(ppn), page);
      table := table[v := Pte(ppn, a.perm)];
      areas := areas[i := b];
    }

    /** A page of a file is mapped read-only to the frame of the page cache. */
    method MapCachedPage(i: nat, v: nat, ppn: nat, mem: PhysicalMemory)
      requires Valid(mem) && i < |areas| && areas[i].Has(v) && areas[i].frames[v - areas[i].start] == Unallocated
      requires InMemory(ppn) in mem.store && AreaOk(areas[i])
      modifies this, mem
      ensures Valid(mem) && v in Slots(old(areas)) && Now(mem) == MapCached(old(Now(mem)), v, ppn)
      ensures OutsideKept(old(areas), old(mem.store), areas, mem.store)
      ensures areas == old(areas)[i := Filled(old(areas)[i], v - old(areas)[i].start, ppn)]
    {
      var a, k := areas[i], v - areas[i].start;
      var b := Filled(a, k, ppn);
      FilledOk(a, k, ppn);
      ReplaceOk(areas, i, b);
      RebindSpace(areas, table, i, b, v, InMemory(ppn), Some(Pte(ppn, a.perm)));
      RebindPages(areas, table, i, b, v, InMemory(ppn), Some(Pte(ppn, a.perm)));
      SharedHandles(areas, mem.store, i, b, k, InMemory(ppn));
      mem.store := Retain(mem.store, InMemory(ppn));
      table := table[v := Pte(ppn, a.perm)];
      areas := areas[i := b];
    }

    /** `copy_on_write`: a frame with one handle is made writable again, a shared one is copied. */
    method CopyOnWrite(i: nat, v: nat, ppn: nat, mem: PhysicalMemory)
      requires Valid(mem) && i < |areas| && areas[i].Has(v) && v in table && InMemory(ppn) !in mem.store && AreaOk(areas[i])
      modifies this, mem
      ensures Valid(mem) && OutsideKept(old(areas), old(mem.store), areas, mem.store)
      ensures v in Slots(old(areas)) && Slots(old(areas))[v].frame in old(mem.store)
      ensures Slots(old(areas))[v].frame.InMemory?
      ensures var f := Slots(old(areas))[v].frame;
              Now(mem) == if old(mem.store)[f].refs == 1 then Unprotect(old(Now(mem)), v)
                          else BringIn(old(Now(mem)), v, ppn, AsPage(old(mem.store)[f].data))
      ensures var f := Slots(old(areas))[v].frame;
              var to := if old(mem.store)[f].refs == 1 then f.ppn else ppn;
              areas == old(areas)[i := Reframed(old(areas)[i], v - old(areas)[i].start, to)]
    {
      var a, k := areas[i], v - areas[i].start;
      var f := a.frames[k];
      assert PageOk(areas, table, v);
      SlotAtIndex(areas, i, v);
      SpaceIsOk(areas, table, mem.store);
      if mem.store[f].refs == 1 {
        var b := Reframed(a, k, f.ppn);
        var pte := table[v].(perm := a.perm);
        ReframedOk(a, k, f.ppn);
        ReplaceOk(areas, i, b);
        RebindSpace(areas, table, i, b, v, f, Some(pte));
        RebindPages(areas, table, i, b, v, f, Some(pte));
        SameHandles(areas, mem.store, i, b, k);
        SameSlot(Slots(areas), v);
        table := table[v := pte];
        areas := areas[i := b];
      } else {
        var b := Reframed(a, k, ppn);
        ReframedOk(a, k, ppn);
        ReplaceOk(areas, i, b);
        RebindSpace(areas, table, i, b, v, InMemory(ppn), Some(Pte(ppn, a.perm)));
        RebindPages(areas, table, i, b, v, InMemory(ppn), Some(Pte(ppn, a.perm)));
        MovedHandles(areas, mem.store, i, b, k, InMemory(ppn), AsPage(mem.store[f].data));
        mem.store := Fresh(Release(mem.store, f), InMemory(ppn), AsPage(mem.store[f].data));
        table := table[v := Pte(ppn, a.perm)];
        areas := areas[i := b];
      }
    }

    method FindUserArea(v: nat) returns (found: Option<nat>)
      ensures found.None? <==> forall i :: 0 <= i < |areas| ==> !UserArea(areas[i], v)
      ensures found.Some? ==> found.value < |areas| && UserArea(areas[found.value], v)
    {
      for i := 0 to |areas|
        invariant forall j :: 0 <= j < i ==> !UserArea(areas[j], v)
      {
        if areas[i].perm.r && areas[i].perm.u && areas[i].Has(v) {
          return Some(i);
        }
      }
      return None;
    }

    /** `do_page_fault`: `ppn` is the frame the allocator would hand out, `cached` the frame in
        which the page cache holds the page of the file. */
    method PageFault(env: Env, v: nat, ppn: nat, cached: nat, mem: PhysicalMemory) returns (error: Option<MemoryError>)
      requires Valid(mem) && InMemory(ppn) !in mem.store
      requires SlotAt(areas, v).Some? && SlotAt(areas, v).value.file.Some? ==> InMemory(cached) in mem.store
      modifies this, mem
      ensures Valid(mem) && TrustKept(old(areas), Touch, areas) && OutsideKept(old(areas), old(mem.store), areas, mem.store)
      ensures env.codec.Lossless() ==> Leads(env.codec, FaultNeeds(env, old(areas), v, cached), old(State(mem)), State(mem))
      ensures match FaultOutcome(env, old(areas), old(table), old(mem.store), v, ppn, cached)
              case Fixed(view) => error == None && Now(mem) == view
              case Failed(e) => error == Some(e) && areas == old(areas) && table == old(table) && mem.store == old(mem.store)
      ensures RefusedAs(env, old(areas), old(table), v, error)
      ensures error.None? ==>
                && Serves(env, old(areas), old(table), old(mem.store), areas, table, mem.store, v, ppn, cached)
                && exists i: nat :: Relisted(old(areas), areas, v, i)
    {
      ghost var s0 := State(mem);
      FaultRefused(env, areas, table, mem.store, v, ppn, cached);
      error := HandleFault(env, v, ppn, cached, mem);
      DidKept(s0.areas, Touch, areas);
      if error.None? {
        FaultServes(env, s0.areas, s0.table, s0.store, areas, table, mem.store, v, ppn, cached);
      }
      if env.codec.Lossless() {
        SpaceIsOk(s0.areas, s0.table, s0.store);
        if error.None? {
          FaultLeads(env, s0, State(mem), v, ppn, cached);
        } else {
          LeadsSame(env.codec, FaultNeeds(env, s0.areas, v, cached), s0, State(mem));
        }
      }
    }

    method HandleFault(env: Env, v: nat, ppn: nat, cached: nat, mem: PhysicalMemory) returns (error: Option<MemoryError>)
      requires Valid(mem) && InMemory(ppn) !in mem.store
      requires SlotAt(areas, v).Some? && SlotAt(areas, v).value.file.Some? ==> InMemory(cached) in mem.store
      modifies this, mem
      ensures Valid(mem) && KeepActive(old(areas), areas) && OutsideKept(old(areas), old(mem.store), areas, mem.store)
      ensures match FaultOutcome(env, old(areas), old(table), old(mem.store), v, ppn, cached)
              case Fixed(view) => error == None && Now(mem) == view
              case Failed(e) => error == Some(e) && areas == old(areas) && table == old(table) && mem.store == old(mem.store)
      ensures error.None? ==> exists i: nat :: Relisted(old(areas), areas, v, i)
    {
      SpaceIsOk(areas, table, mem.store);
      OutsideSame(areas, mem.store);
      var found := FindUserArea(v);
      match found
      case None =>
        NoUserPage(areas, v);
        error := Some(BadAddress);
      case Some(i) =>
        var a := areas[i];
        SlotAtIndex(areas, i, v);
        assert AreaOk(a) && PageOk(areas, table, v);
        if v !in table {
          error := LoadPage(env, i, v, ppn, cached, mem);
        } else if a.perm.w {
          WriteFault(env, i, v, ppn, cached, mem);
          error := None;
        } else {
          error := Some(NoPermission);
        }
    }

    /** The page is in memory, but its entry lacks the W its area has. */
    method WriteFault(env: Env, i: nat, v: nat, ppn: nat, ghost cached: nat, mem: PhysicalMemory)
      requires Valid(mem) && InMemory(ppn) !in mem.store
      requires i < |areas| && areas[i].Has(v) && v in table && AreaOk(areas[i])
      requires areas[i].perm.r && areas[i].perm.u && areas[i].perm.w
      modifies this, mem
      ensures Valid(mem) && KeepActive(old(areas), areas) && OutsideKept(old(areas), old(mem.store), areas, mem.store)
      ensures FaultOutcome(env, old(areas), old(table), old(mem.store), v, ppn, cached) == Fixed(Now(mem))
      ensures Relisted(old(areas), areas, v, i)
    {
      var k := v - areas[i].start;
      SpaceIsOk(areas, table, mem.store);
      SlotAtIndex(areas, i, v);
      assert PageOk(areas, table, v);
      ReframedKeeps(areas, i, k, ppn);
      ReframedKeeps(areas, i, k, areas[i].frames[k].ppn);
      ReframedRelisted(areas, i, k, ppn);
      ReframedRelisted(areas, i, k, areas[i].frames[k].ppn);
      CopyOnWrite(i, v, ppn, mem);
    }

    /** The page is not in memory: it is read from its file, ... */
    method LoadPage(env: Env, i: nat, v: nat, ppn: nat, cached: nat, mem: PhysicalMemory) returns (error: Option<MemoryError>)
      requires Valid(mem) && InMemory(ppn) !in mem.store
      requires SlotAt(areas, v).Some? && SlotAt(areas, v).value.file.Some? ==> InMemory(cached) in mem.store
      requires i < |areas| && areas[i].Has(v) && v !in table && areas[i].perm.r && areas[i].perm.u && AreaOk(areas[i])
      modifies this, mem
      ensures Valid(mem) && KeepActive(old(areas), areas) && OutsideKept(old(areas), old(mem.store), areas, mem.store)
      ensures match FaultOutcome(env, old(areas), old(table), old(mem.store), v, ppn, cached)
              case Fixed(view) => error == None && Now(mem) == view
              case Failed(e) => error == Some(e) && areas == old(areas) && table == old(table) && mem.store == old(mem.store)
      ensures error.None? ==> exists i: nat :: Relisted(old(areas), areas, v, i)
    {
      SpaceIsOk(areas, table, mem.store);
      SlotAtIndex(areas, i, v);
      assert PageOk(areas, table, v);
      OutsideSame(areas, mem.store);
      error := None;
      match areas[i].FileAt(v)
      case Some(pos) =>
        if pos.Offset() > RoundUp(env.fileSize(pos.file)) {
          error := Some(BeyondEOF);
        } else {
          ReadFilePage(env, i, v, ppn, cached, pos, mem);
        }
      case None =>
        RestorePage(env, i, v, ppn, cached, mem);
    }

    /** (a copy of it if the page can be written, the frame of the page cache if not) */
    method ReadFilePage(env: Env, i: nat, v: nat, ppn: nat, cached: nat, pos: FilePos, mem: PhysicalMemory)
      requires Valid(mem) && InMemory(ppn) !in mem.store && InMemory(cached) in mem.store
      requires i < |areas| && areas[i].Has(v) && v !in table && areas[i].perm.r && areas[i].perm.u && AreaOk(areas[i])
      requires areas[i].FileAt(v) == Some(pos) && pos.Offset() <= RoundUp(env.fileSize(pos.file))
      modifies this, mem
      ensures Valid(mem) && KeepActive(old(areas), areas) && OutsideKept(old(areas), old(mem.store), areas, mem.store)
      ensures FaultOutcome(env, old(areas), old(table), old(mem.store), v, ppn, cached) == Fixed(Now(mem))
      ensures Relisted(old(areas), areas, v, i)
    {
      SpaceIsOk(areas, table, mem.store);
      SlotAtIndex(areas, i, v);
      assert PageOk(areas, table, v);
      FilledKeeps(areas, i, v - areas[i].start, ppn);
      FilledKeeps(areas, i, v - areas[i].start, cached);
      FilledRelisted(areas, i, v - areas[i].start, ppn);
      FilledRelisted(areas, i, v - areas[i].start, cached);
      if areas[i].perm.w {
        MapPage(i, v, ppn, env.filePage(pos), mem);
      } else {
        MapCachedPage(i, v, cached, mem);
      }
    }

    /** ... or zeroed, decompressed or swapped in. */
    method RestorePage(env: Env, i: nat, v: nat, ppn: nat, ghost cached: nat, mem: PhysicalMemory)
      requires Valid(mem) && InMemory(ppn) !in mem.store
      requires i < |areas| && areas[i].Has(v) && v !in table && areas[i].perm.r && areas[i].perm.u && AreaOk(areas[i])
      requires areas[i].file.None?
      modifies this, mem
      ensures Valid(mem) && KeepActive(old(areas), areas) && OutsideKept(old(areas), old(mem.store), areas, mem.store)
      ensures FaultOutcome(env, old(areas), old(table), old(mem.store), v, ppn, cached) == Fixed(Now(mem))
      ensures Relisted(old(areas), areas, v, i)
    {
      var f := areas[i].frames[v - areas[i].start];
      SpaceIsOk(areas, table, mem.store);
      SlotAtIndex(areas, i, v);
      assert PageOk(areas, table, v);
      FilledKeeps(areas, i, v - areas[i].start, ppn);
      FilledRelisted(areas, i, v - areas[i].start, ppn);
      match f
      case Unallocated => MapPage(i, v, ppn, ZeroPage(), mem);
      case Compressed(_) => MapPage(i, v, ppn, env.codec.decompress(mem.store[f].data), mem);
      case SwappedOut(_) => MapPage(i, v, ppn, AsPage(mem.store[f].data), mem);
    }

    // -------------------------------------------------------------- reclaiming memory

    /** The page with index `k` leaves memory for the new tracker `to`. */
    method EvictPage(env: Env, i: nat, k: nat, to: Frame, ghost force: bool, mem: PhysicalMemory)
      requires env.codec.Lossless() && Valid(mem) && i < |areas| && k < |areas[i].frames| && areas[i].frames[k].InMemory? && areas[i].file.None?
      requires (to.SwappedOut? || (to.Compressed? && !force)) && to !in mem.store && AreaOk(areas[i])
      requires areas[i].frames[k] in mem.store && (force || mem.store[areas[i].frames[k]].refs == 1)
      modifies this, mem
      ensures Leads(env.codec, Nothing, old(State(mem)), State(mem))
      ensures Valid(mem) && OutsideKept(old(areas), old(mem.store), areas, mem.store)
      ensures areas == old(areas)[i := Evicted(old(areas)[i], k, to)]
      ensures var a := old(areas)[i];
              && a.frames[k] in old(mem.store)
              && table == old(table) - {a.start + k}
              && mem.store == Fresh(Release(old(mem.store), a.frames[k]), to,
                                    Packed(env.codec, to, AsPage(old(mem.store)[a.frames[k]].data)))
    {
      var a, v := areas[i], areas[i].start + k;
      var b, f := Evicted(a, k, to), a.frames[k];
      EvictLeads(env.codec, State(mem), i, k, to, force);
      SlotAtIndex(areas, i, v);
      EvictedOk(a, k, to);
      ReplaceOk(areas, i, b);
      RebindPages(areas, table, i, b, v, to, None);
      MovedHandles(areas, mem.store, i, b, k, to, Packed(env.codec, to, AsPage(mem.store[f].data)));
      mem.store := Fresh(Release(mem.store, f), to, Packed(env.codec, to, AsPage(mem.store[f].data)));
      table := table - {v};
      areas := areas[i := b];
    }

    /** `do_oom` on area `i`: listed pages with no other holder are compressed or, if zram is full,
        swapped out. The result counts them. */
    method DoOom(env: Env, i: nat, mem: PhysicalMemory) returns (n: nat)
      requires env.codec.Lossless() && Valid(mem) && i < |areas| && areas[i].file.None?
      requires ActiveOk(areas[i].frames, areas[i].active)
      modifies this, mem
      ensures Valid(mem) && OutsideKept(old(areas), old(mem.store), areas, mem.store)
      ensures TrustKept(old(areas), Reclaim(i), areas)
      ensures SameBytes(env, old(areas), old(mem.store), areas, mem.store)
      ensures SparesShared(old(mem.store), mem.store)
      ensures Sifted(old(areas)[i].frames, old(mem.store), old(areas)[i].active, areas[i].frames, [])
      ensures n == OutOfMemory(areas[i].frames) - OutOfMemory(old(areas)[i].frames) && SameSlack(old(areas)[i], areas[i])
      ensures TableShrinks(old(table), table) && Leads(env.codec, Nothing, old(State(mem)), State(mem))
    {
      n := 0;
      LeadsSame(env.codec, Nothing, State(mem), State(mem));
      SameBytesNone(env, areas, mem.store);
      OutsideSame(areas, mem.store);
      SiftedNone(areas, mem.store, i);
      while areas[i].active != []
        invariant Valid(mem) && |areas| == |old(areas)| && areas == old(areas)[i := areas[i]]
        invariant Oom(env, i, old(areas), old(mem.store), areas, mem.store)
        invariant n == OutOfMemory(areas[i].frames) - OutOfMemory(old(areas)[i].frames) && SameSlack(old(areas)[i], areas[i])
        invariant TableShrinks(old(table), table) && Leads(env.codec, Nothing, old(State(mem)), State(mem))
        decreases |areas[i].active|
      {
        ghost var now := State(mem);
        var evicted := OomStep(env, i, mem, old(areas), old(mem.store));
        LeadsTwice(env.codec, Nothing, old(State(mem)), now, State(mem));
        if evicted {
          n := n + 1;
        }
      }
      DidKept(old(areas), Reclaim(i), areas);
    }

    /** Pop one index and evict its page if it can be. */
    method OomStep(env: Env, i: nat, mem: PhysicalMemory, ghost areas0: seq<Area>, ghost store0: Store) returns (evicted: bool)
      requires env.codec.Lossless() && Valid(mem) && i < |areas0| == |areas| && areas[i].active != []
      requires Oom(env, i, areas0, store0, areas, mem.store)
      modifies this, mem
      ensures Valid(mem) && |areas| == |old(areas)| && areas == old(areas)[i := areas[i]]
      ensures areas[i].active == old(areas)[i].active[1..] && SameSlack(old(areas)[i], areas[i])
      ensures Oom(env, i, areas0, store0, areas, mem.store)
      ensures OutOfMemory(areas[i].frames) == OutOfMemory(old(areas)[i].frames) + if evicted then 1 else 0
      ensures TableShrinks(old(table), table) && Leads(env.codec, Nothing, old(State(mem)), State(mem))
    {
      var a, k := areas[i], areas[i].active[0];
      ghost var before := areas;
      PopOk(areas, table, mem.store, i);
      ActiveLeads(env.codec, State(mem), i, a.active[1..]);
      areas := areas[i := a.(active := a.active[1..])];
      ghost var popped := State(mem);
      if mem.store[a.frames[k]].refs != 1 {
        OomSkip(env, i, areas0, store0, before, table, mem.store);
        return false;
      }
      var id := mem.ZramId();
      var to;
      match id {
        case Some(zram) => to := Compressed(zram);
        case None =>
          var swap := mem.SwapId();
          to := SwappedOut(swap);
      }
      OomEvict(env, i, areas0, store0, before, table, mem.store, to);
      EvictedSlack(a, k, to, a.active[1..]);
      EvictedOk(areas[i], k, to);
      EvictPage(env, i, k, to, false, mem);
      LeadsTwice(env.codec, Nothing, old(State(mem)), popped, State(mem));
      evicted := true;
    }

    /** `force_swap` on area `i`: all listed pages are swapped out, shared or not. */
    method ForceSwap(env: Env, i: nat, mem: PhysicalMemory) returns (n: nat)
      requires env.codec.Lossless() && Valid(mem) && i < |areas| && areas[i].file.None?
      requires ActiveOk(areas[i].frames, areas[i].active)
      modifies this, mem
      ensures Valid(mem) && OutsideKept(old(areas), old(mem.store), areas, mem.store)
      ensures TrustKept(old(areas), Reclaim(i), areas)
      ensures SameBytes(env, old(areas), old(mem.store), areas, mem.store)
      ensures forall x :: x in old(areas)[i].active ==> x < |areas[i].frames| && areas[i].frames[x].SwappedOut?
      ensures n == |old(areas)[i].active| && SameSlack(old(areas)[i], areas[i])
      ensures TableShrinks(old(table), table) && Leads(env.codec, Nothing, old(State(mem)), State(mem))
    {
      n := 0;
      LeadsSame(env.codec, Nothing, State(mem), State(mem));
      SameBytesNone(env, areas, mem.store);
      OutsideSame(areas, mem.store);
      assert forall x :: x in areas[i].active ==> Reclaimable(areas[i].frames, x);
      while areas[i].active != []
        invariant Valid(mem) && |areas| == |old(areas)| && areas == old(areas)[i := areas[i]]
        invariant Forced(env, i, old(areas), old(mem.store), areas, mem.store)
        invariant n + |areas[i].active| == |old(areas)[i].active| && SameSlack(old(areas)[i], areas[i])
        invariant TableShrinks(old(table), table) && Leads(env.codec, Nothing, old(State(mem)), State(mem))
        decreases |areas[i].active|
      {
        ghost var now := State(mem);
        ForceStep(env, i, mem, old(areas), old(mem.store));
        LeadsTwice(env.codec, Nothing, old(State(mem)), now, State(mem));
        n := n + 1;
      }
      DidKept(old(areas), Reclaim(i), areas);
      forall x | x in old(areas)[i].active
        ensures x < |areas[i].frames| && areas[i].frames[x].SwappedOut?
      {
        assert ForcedAt(areas[i].frames, [], x);
      }
    }

    /** Pop one index and swap out its page. */
    method ForceStep(env: Env, i: nat, mem: PhysicalMemory, ghost areas0: seq<Area>, ghost store0: Store)
      requires env.codec.Lossless() && Valid(mem) && i < |areas0| == |areas| && areas[i].active != []
      requires Forced(env, i, areas0, store0, areas, mem.store)
      modifies this, mem
      ensures Valid(mem) && |areas| == |old(areas)| && areas == old(areas)[i := areas[i]]
      ensures areas[i].active == old(areas)[i].active[1..] && SameSlack(old(areas)[i], areas[i])
      ensures Forced(env, i, areas0, store0, areas, mem.store)
      ensures TableShrinks(old(table), table) && Leads(env.codec, Nothing, old(State(mem)), State(mem))
    {
      var a, k := areas[i], areas[i].active[0];
      PopOk(areas, table, mem.store, i);
      var swap := mem.SwapId();
      ForceEvict(env, i, areas0, store0, areas, mem.store, SwappedOut(swap));
      EvictedSlack(a, k, SwappedOut(swap), a.active[1..]);
      ActiveLeads(env.codec, State(mem), i, a.active[1..]);
      areas := areas[i := a.(active := a.active[1..])];
      ghost var popped := State(mem);
      EvictPage(env, i, k, SwappedOut(swap), true, mem);
      LeadsTwice(env.codec, Nothing, old(State(mem)), popped, State(mem));
    }

    // -------------------------------------------------------------- fork

    /** A clone of an area has a handle more of every tracker. */
    method CloneArea(i: nat, mem: PhysicalMemory) returns (a: Area)
      requires i < |areas|
      modifies mem
      ensures a == areas[i] && mem.store == Cloned(old(mem.store), a.frames, |a.frames|)
    {
      a := areas[i];
      for n := 0 to |a.frames|
        invariant mem.store == Cloned(old(mem.store), a.frames, n)
      {
        mem.store := Retain(mem.store, a.frames[n]);
      }
    }

    /** `map_from_existing_page_table`: entries of the area lose W here and appear, without W, in
        the child. */
    method ShareEntries(a: Area, child: MemorySet)
      requires this != child && forall v :: a.Has(v) ==> v !in child.table
      modifies this`table, child`table
      ensures table == BlockTable(old(table), a.start, a.End())
      ensures child.table == CopyTable(old(table), old(child.table), a.start, a.End(), a.perm)
    {
      for v := a.start to a.End()
        invariant table == BlockTable(old(table), a.start, v)
        invariant child.table == CopyTable(old(table), old(child.table), a.start, v, a.perm)
      {
        BlockTableAt(old(table), a.start, v, v);
        CopyTableAt(old(table), old(child.table), a.start, v, a.perm, v);
        if v in table {
          table := table[v := table[v].(perm := table[v].perm.NoWrite())];
          assert v !in child.table;
          child.table := child.table[v := Pte(table[v].ppn, a.perm.NoWrite())];
        }
      }
    }

    /** The loop of `from_existing_user` over all areas but the last. */
    method ShareAreas(child: MemorySet, mem: PhysicalMemory)
      requires this != child && WellFormed(areas) && areas != [] && child.areas == [] && child.table == map[]
      modifies this`table, child, mem
      ensures child.areas == areas[..|areas| - 1]
      ensures Forked(areas[..|areas| - 1], old(table), table, child.table)
      ensures RaisedAll(old(mem.store), mem.store, areas[..|areas| - 1])
    {
      var n := |areas| - 1;
      for i := 0 to n
        invariant areas == old(areas) && child.areas == areas[..i]
        invariant Forked(areas[..i], old(table), table, child.table)
        invariant RaisedAll(old(mem.store), mem.store, areas[..i])
      {
        RaisedStep(old(mem.store), mem.store, areas[..i], areas[i]);
        assert areas[..i] + [areas[i]] == areas[..i + 1];
        ForkedStep(areas, i, old(table), table, child.table);
        forall v: nat | areas[i].Has(v)
          ensures v !in child.table
        {
          assert ForkedAt(areas[..i], old(table), table, child.table, v);
          NotBefore(areas, i, v);
        }
        var a := CloneArea(i, mem);
        ShareEntries(a, child);
        child.areas := child.areas + [a];
      }
    }

    /** `from_existing_user`: `ppn` is the frame for the child's trap context, `page` its bytes. */
    method Fork(env: Env, ppn: nat, page: Page, mem: PhysicalMemory) returns (child: MemorySet)
      requires Valid(mem) && HasTrap(areas) && InMemory(ppn) !in mem.store
      modifies this, mem
      ensures fresh(child) && Valid(mem) && child.Valid(mem)
      ensures areas == old(areas) && child.areas == Child(areas, ppn)
      ensures TrustKept(areas, Birth(ppn), child.areas)
      ensures var n := |areas| - 1;
              exists shared :: Forked(areas[..n], old(table), table, shared)
                               && child.table == shared[areas[n].start := Pte(ppn, areas[n].perm)]
      ensures ForksPages(areas, old(table), table, child.areas, child.table, ppn)
      ensures |child.areas| == |areas| && child.areas[..|areas| - 1] == areas[..|areas| - 1]
      ensures var trap := child.areas[|areas| - 1]; trap.active == [0] && trap.compressed == 0 && trap.swapped == 0
      ensures exists store1 :: RaisedAll(old(mem.store), store1, areas[..|areas| - 1]) && mem.store == Fresh(store1, InMemory(ppn), page)
      ensures Forks(old(State(mem)), State(mem), child.State(mem))
      ensures OutsideKept(areas, old(mem.store), areas + child.areas, mem.store)
      ensures SameBytes(env, areas, old(mem.store), areas, mem.store)
      ensures forall v: nat :: v != areas[|areas| - 1].start ==>
                SameBytesAt(env, areas, old(mem.store), child.areas, mem.store, v)
    {
      child := new MemorySet();
      var n := |areas| - 1;
      ShareAreas(child, mem);
      ghost var shared := child.table;
      var trap := TrapArea(areas[n], ppn);
      ForkPages(areas, old(table), table, child.table, ppn);
      ForkedPages(areas, old(table), table, child.table, ppn);
      ForkHandles(areas, old(mem.store), mem.store, ppn, page);
      ChildOk(areas, ppn);
      ForkLeads(old(State(mem)), table, child.table, mem.store, ppn, page);
      forall v: nat
        ensures SameBytesAt(env, areas, old(mem.store), areas, Fresh(mem.store, InMemory(ppn), page), v)
        ensures v != areas[n].start ==> SameBytesAt(env, areas, old(mem.store), Child(areas, ppn), Fresh(mem.store, InMemory(ppn), page), v)
      {
        ForkBytes(env, areas, old(mem.store), mem.store, ppn, page, v);
      }
      mem.store := Fresh(mem.store, InMemory(ppn), page);
      child.table := child.table[trap.start := Pte(ppn, trap.perm)];
      child.areas := child.areas + [trap];
      assert child.areas == Child(areas, ppn);
      assert Forked(areas[..n], old(table), table, shared);
      DidKept(areas, Birth(ppn), child.areas);
    }
  }
}
