/** One page of an area changes its frame: what a page fault and the reclaimer do to the area, its
    active list and its counters, and what that is on the pages of the address space. */
module AreaFaults {
  import opened Basics
  import opened PagedMemory
  import opened MapAreas
  import opened MunmapFrames
  import opened AreaLists
  import opened Spaces

  function Name(k: nat): U16 { k % 65536 }

  /** A page that was not in memory gets a frame; its index, cut to 16 bits, becomes active. */
  function Filled(a: Area, k: nat, ppn: nat): Area
    requires AreaOk(a) && k < |a.frames| && !a.frames[k].InMemory?
  {
    CounterBounds(a, k);
    a.(frames := a.frames[k := InMemory(ppn)], active := a.active + [Name(k)],
       compressed := if a.frames[k].Compressed? then a.compressed - 1 else a.compressed,
       swapped := if a.frames[k].SwappedOut? then a.swapped - 1 else a.swapped)
  }

  /** A page in memory gets another frame, or the same one again. */
  function Reframed(a: Area, k: nat, ppn: nat): Area
    requires k < |a.frames|
  {
    a.(frames := a.frames[k := InMemory(ppn)], active := Without(a.active, k, |a.active|) + [Name(k)])
  }

  // ---------------------------------------------------------------- counters

  lemma {:induction false} CountersUpdate(frames: seq<Frame>, k: nat, g: Frame, n: nat)
    requires k < |frames| && n <= |frames|
    ensures CountCompressed(frames[k := g], 0, n) + (if k < n && frames[k].Compressed? then 1 else 0) ==
            CountCompressed(frames, 0, n) + (if k < n && g.Compressed? then 1 else 0)
    ensures CountSwapped(frames[k := g], 0, n) + (if k < n && frames[k].SwappedOut? then 1 else 0) ==
            CountSwapped(frames, 0, n) + (if k < n && g.SwappedOut? then 1 else 0)
  {
    if n > 0 {
      CountersUpdate(frames, k, g, n - 1);
    }
  }

  /** The counter that is decremented is positive. */
  lemma CounterBounds(a: Area, k: nat)
    requires AreaOk(a) && k < |a.frames|
    ensures a.frames[k].Compressed? ==> a.compressed > 0
    ensures a.frames[k].SwappedOut? ==> a.swapped > 0
  {
    CountersUpdate(a.frames, k, Unallocated, |a.frames|);
  }

  lemma FilledOk(a: Area, k: nat, ppn: nat)
    requires AreaOk(a) && k < |a.frames| && !a.frames[k].InMemory?
    ensures AreaOk(Filled(a, k, ppn))
  {
    CountersUpdate(a.frames, k, InMemory(ppn), |a.frames|);
  }

  lemma ReframedOk(a: Area, k: nat, ppn: nat)
    requires AreaOk(a) && k < |a.frames| && a.frames[k].InMemory?
    ensures AreaOk(Reframed(a, k, ppn))
  {
    CountersUpdate(a.frames, k, InMemory(ppn), |a.frames|);
  }

  // ---------------------------------------------------------------- the active list

  lemma {:induction false} WithoutHas(active: seq<U16>, x: nat, n: nat, y: nat)
    requires n <= |active|
    ensures y in Without(active, x, n) <==> y != x && Before(active, n, y)
  {
    if n > 0 {
      WithoutHas(active, x, n - 1, y);
      BeforeStep(active, n, y);
    }
  }

  lemma {:induction false} WithoutDistinct(active: seq<U16>, x: nat, n: nat)
    requires Distinct(active) && n <= |active|
    ensures Distinct(Without(active, x, n))
  {
    if n > 0 {
      WithoutDistinct(active, x, n - 1);
      WithoutHas(active, x, n - 1, active[n - 1]);
      if active[n - 1] != x {
        DistinctAppend(Without(active, x, n - 1), active[n - 1]);
      }
    }
  }

  /** The index that becomes active names the page, or happens to name another page in memory that
      is not active. */
  predicate NamesWell(a: Area, k: nat)
    requires k < |a.frames|
  {
    k < 65536 || (a.frames[Name(k)].InMemory? && Name(k) !in a.active)
  }

  lemma AppendActive(frames: seq<Frame>, active: seq<U16>, y: U16)
    requires ActiveOk(frames, active)
    ensures ActiveOk(frames, active + [y]) <==> Reclaimable(frames, y) && y !in active
  {
    var after := active + [y];
    assert after[|active|] == y && y in after;
    assert ActiveOk(frames, after) ==> Reclaimable(frames, y);
    if i :| 0 <= i < |active| && active[i] == y {
      assert after[i] == after[|active|];
    }
    if Reclaimable(frames, y) && y !in active {
      DistinctAppend(active, y);
      assert forall x :: x in after ==> x in active || x == y;
    }
  }

  lemma ActiveGrows(frames: seq<Frame>, active: seq<U16>, k: nat, ppn: nat)
    requires ActiveOk(frames, active) && k < |frames|
    ensures ActiveOk(frames[k := InMemory(ppn)], active)
  {
    forall x | x in active
      ensures Reclaimable(frames[k := InMemory(ppn)], x)
    {
      assert Reclaimable(frames, x);
    }
  }

  /** The list stays right after a page came in exactly if its index fits 16 bits or, cut to them,
      happens to name a page in memory that is not listed. */
  lemma FilledActive(a: Area, k: nat, ppn: nat)
    requires AreaOk(a) && ActiveOk(a.frames, a.active) && k < |a.frames| && !a.frames[k].InMemory?
    ensures var b := Filled(a, k, ppn); ActiveOk(b.frames, b.active) <==> NamesWell(a, k)
  {
    ActiveGrows(a.frames, a.active, k, ppn);
    AppendActive(a.frames[k := InMemory(ppn)], a.active, Name(k));
    assert k in a.active ==> Reclaimable(a.frames, k);
  }

  lemma ReframedActive(a: Area, k: nat, ppn: nat)
    requires ActiveOk(a.frames, a.active) && k < |a.frames| && a.frames[k].InMemory?
    ensures var b := Reframed(a, k, ppn); ActiveOk(b.frames, b.active) <==> NamesWell(a, k)
  {
    var frames, active := a.frames[k := InMemory(ppn)], Without(a.active, k, |a.active|);
    ActiveGrows(a.frames, a.active, k, ppn);
    WithoutDistinct(a.active, k, |a.active|);
    forall x: nat
      ensures x in active <==> x in a.active && x != k
      ensures x in active ==> Reclaimable(frames, x)
    {
      WithoutHas(a.active, k, |a.active|, x);
      BeforeAll(a.active, x);
      assert x in a.active ==> Reclaimable(frames, x);
    }
    AppendActive(frames, active, Name(k));
  }

  /** In an area of more than 65536 pages the first page past them names page 0 instead. */
  lemma BigAreaBreaksActive()
    ensures var a := Area(0, seq(65537, _ => Unallocated), Perm(true, true, false, true), None, [], 0, 0);
            AreaOk(a) && ActiveOk(a.frames, a.active) && !ActiveOk(Filled(a, 65536, 7).frames, Filled(a, 65536, 7).active)
  {
    var a := Area(0, seq(65537, _ => Unallocated), Perm(true, true, false, true), None, [], 0, 0);
    NoCounts(a.frames, 65537);
    FilledActive(a, 65536, 7);
  }

  lemma {:induction false} NoCounts(frames: seq<Frame>, n: nat)
    requires n <= |frames| && forall i :: 0 <= i < n ==> frames[i].Unallocated? || frames[i].InMemory?
    ensures CountCompressed(frames, 0, n) == CountSwapped(frames, 0, n) == 0
  {
    if n > 0 {
      NoCounts(frames, n - 1);
    }
  }

  // ---------------------------------------------------------------- on the pages of the space

  /** `b` is `a` with another frame behind page `k`. */
  predicate Rebinds(a: Area, b: Area, k: nat, g: Frame) {
    k < |a.frames| && b.start == a.start && b.frames == a.frames[k := g] && b.perm == a.perm && b.file == a.file
  }

  lemma RebindSlot(areas: seq<Area>, i: nat, b: Area, v: nat, g: Frame, u: nat)
    requires WellFormed(areas) && i < |areas| && areas[i].Has(v) && Rebinds(areas[i], b, v - areas[i].start, g)
    ensures SlotAt(areas, v) == Some(areas[i].SlotOf(v))
    ensures SlotAt(areas[i := b], u) == if u == v then Some(areas[i].SlotOf(v).(frame := g)) else SlotAt(areas, u)
  {
    SlotAtIndex(areas, i, v);
    ReplaceSlot(areas, i, b, u);
    if areas[i].Has(u) {
      SlotAtIndex(areas, i, u);
    }
  }

  lemma RebindSpace(areas: seq<Area>, table: map<nat, Pte>, i: nat, b: Area, v: nat, g: Frame, pte: Option<Pte>)
    requires WellFormed(areas) && i < |areas| && areas[i].Has(v) && Rebinds(areas[i], b, v - areas[i].start, g)
    ensures SlotAt(areas, v) == Some(areas[i].SlotOf(v))
    ensures Space(areas[i := b], SetPte(table, v, pte)) == PutFrame(Space(areas, table), v, g, pte)
  {
    RebindSlot(areas, i, b, v, g, v);
    var slots, slots' := Slots(areas), Slots(areas[i := b]);
    forall u: nat
      ensures u in slots' <==> u in slots
      ensures u in slots ==> slots'[u] == if u == v then slots[u].(frame := g) else slots[u]
    {
      RebindSlot(areas, i, b, v, g, u);
    }
    assert slots' == slots[v := slots[v].(frame := g)];
  }

  lemma RebindPages(areas: seq<Area>, table: map<nat, Pte>, i: nat, b: Area, v: nat, g: Frame, pte: Option<Pte>)
    requires WellFormed(areas) && i < |areas| && areas[i].Has(v) && Rebinds(areas[i], b, v - areas[i].start, g)
    requires PagesOk(areas, table)
    requires g.InMemory? <==> pte.Some?
    requires pte.Some? ==> pte.value.ppn == g.ppn
    requires b.file.Some? ==> g.InMemory? || g.Unallocated?
    ensures PagesOk(areas[i := b], SetPte(table, v, pte))
  {
    var areas', table' := areas[i := b], SetPte(table, v, pte);
    forall u: nat
      ensures PageOk(areas', table', u)
    {
      assert PageOk(areas, table, u);
      RebindSlot(areas, i, b, v, g, u);
    }
  }

  lemma RebindHeld(areas: seq<Area>, i: nat, b: Area, k: nat, g: Frame, f: Frame)
    requires i < |areas| && Rebinds(areas[i], b, k, g)
    ensures Held(areas[i := b], f) + (if areas[i].frames[k] == f then 1 else 0) == Held(areas, f) + (if g == f then 1 else 0)
  {
    ReplaceHeld(areas, i, b, f);
    CountUpdate(areas[i].frames, k, g, f, |areas[i].frames|);
  }

  lemma OwnHeld(areas: seq<Area>, i: nat, k: nat)
    requires i < |areas| && k < |areas[i].frames|
    ensures Held(areas, areas[i].frames[k]) > 0
  {
    var g := if areas[i].frames[k] == Unallocated then SwappedOut(0) else Unallocated;
    RebindHeld(areas, i, areas[i].(frames := areas[i].frames[k := g]), k, g, areas[i].frames[k]);
  }

  /** The page moves to a new tracker and drops the old one. */
  lemma MovedHandles(areas: seq<Area>, store: Store, i: nat, b: Area, k: nat, g: Frame, data: seq<bv8>)
    requires i < |areas| && Rebinds(areas[i], b, k, g) && HeldOk(areas, store) && Counted(store)
    requires g != Unallocated && g !in store
    ensures var store' := Fresh(Release(store, areas[i].frames[k]), g, data);
            OutsideKept(areas, store, areas[i := b], store') && HeldOk(areas[i := b], store') && Counted(store')
  {
    var store', areas' := Fresh(Release(store, areas[i].frames[k]), g, data), areas[i := b];
    OwnHeld(areas, i, k);
    assert HeldAt(areas, store, areas[i].frames[k]);
    forall f
      ensures OutsideAt(areas, store, areas', store', f)
    {
      assert HeldAt(areas, store, f);
      RebindHeld(areas, i, b, k, g, f);
    }
    OutsideHeld(areas, store, areas', store');
  }

  /** A page with nothing behind it gets a handle of a live tracker. */
  lemma SharedHandles(areas: seq<Area>, store: Store, i: nat, b: Area, k: nat, g: Frame)
    requires i < |areas| && Rebinds(areas[i], b, k, g) && HeldOk(areas, store) && Counted(store)
    requires areas[i].frames[k] == Unallocated && g in store
    ensures OutsideKept(areas, store, areas[i := b], Retain(store, g))
    ensures HeldOk(areas[i := b], Retain(store, g)) && Counted(Retain(store, g))
  {
    var store', areas' := Retain(store, g), areas[i := b];
    forall f
      ensures OutsideAt(areas, store, areas', store', f)
    {
      assert HeldAt(areas, store, f);
      RebindHeld(areas, i, b, k, g, f);
    }
    OutsideHeld(areas, store, areas', store');
  }

  /** The page keeps its frame. */
  lemma SameHandles(areas: seq<Area>, store: Store, i: nat, b: Area, k: nat)
    requires i < |areas| && k < |areas[i].frames| && Rebinds(areas[i], b, k, areas[i].frames[k]) && HeldOk(areas, store)
    ensures OutsideKept(areas, store, areas[i := b], store) && HeldOk(areas[i := b], store)
  {
    var areas' := areas[i := b];
    forall f
      ensures OutsideAt(areas, store, areas', store, f)
    {
      RebindHeld(areas, i, b, k, areas[i].frames[k], f);
    }
    OutsideHeld(areas, store, areas', store);
  }

  // ---------------------------------------------------------------- a new area

  /** `MapArea::new`: nothing is behind its pages yet. */
  function NewArea(lo: nat, hi: nat, perm: Perm, file: Option<FilePos>): Area
    requires lo <= hi
  {
    Area(lo, seq(hi - lo, _ => Unallocated), perm, file, [], 0, 0)
  }

  lemma {:induction false} NewCount(frames: seq<Frame>, f: Frame, n: nat)
    requires n <= |frames| && f != Unallocated && forall i :: 0 <= i < n ==> frames[i] == Unallocated
    ensures Count(frames, f, 0, n) == 0
  {
    if n > 0 {
      NewCount(frames, f, n - 1);
    }
  }

  /** A new area where nothing is mapped: its pages appear, no handle is taken. */
  lemma InsertKeeps(areas: seq<Area>, table: map<nat, Pte>, store: Store, i: nat, b: Area, lo: nat, hi: nat, perm: Perm, file: Option<FilePos>)
    requires lo < hi && WellFormed(areas) && PagesOk(areas, table) && HeldOk(areas, store) && i <= |areas|
    requires b == NewArea(lo, hi, perm, file) && forall j :: 0 <= j < |areas| ==> ClearOf(areas[j], lo, hi)
    ensures WellFormed(Insert(areas, i, b)) && PagesOk(Insert(areas, i, b), table) && Trusted(b)
    ensures OutsideKept(areas, store, Insert(areas, i, b), store) && HeldOk(Insert(areas, i, b), store)
    ensures forall v: nat :: SlotAt(Insert(areas, i, b), v) ==
              if lo <= v < hi then Some(Slot(perm, Unallocated, b.FileAt(v))) else SlotAt(areas, v)
  {
    var after := Insert(areas, i, b);
    NoCounts(b.frames, |b.frames|);
    forall j | 0 <= j < |areas|
      ensures Separate(areas[j], b)
    {
    }
    InsertOk(areas, i, b);
    forall v: nat
      ensures SlotAt(after, v) == if lo <= v < hi then Some(Slot(perm, Unallocated, b.FileAt(v))) else SlotAt(areas, v)
      ensures PageOk(after, table, v)
    {
      assert PageOk(areas, table, v);
      InsertSlot(areas, i, b, v);
      if lo <= v < hi {
        SlotAtNone(areas, v);
      }
    }
    forall f
      ensures OutsideAt(areas, store, after, store, f)
    {
      InsertHeld(areas, i, b, f);
      if f != Unallocated {
        NewCount(b.frames, f, |b.frames|);
      }
    }
    OutsideHeld(areas, store, after, store);
  }
}
