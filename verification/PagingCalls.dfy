/** What the system calls do to an address space of areas is a run of the paging machine, so what
    holds in every run of the machine holds of every sequence of calls. */
module PagingCalls {
  import opened Basics
  import opened PagedMemory
  import opened PagingMachine
  import opened PagingRuns
  import opened MapAreas
  import opened MunmapFrames
  import opened Spaces
  import ProtectAreas
  import Reclaim
  import opened AreaFaults
  import opened ForkSteps

  ghost predicate RunFrom(codec: Codec, m: Machine, ms: seq<Machine>, steps: seq<Step>, m': Machine) {
    Run(codec, ms, steps) && ms[0] == m && ms[|steps|] == m'
  }

  ghost predicate Reaches(codec: Codec, m: Machine, m': Machine) {
    exists ms, steps :: RunFrom(codec, m, ms, steps, m')
  }

  lemma ReachesSelf(codec: Codec, m: Machine)
    requires Inv(m)
    ensures Reaches(codec, m, m)
  {
    assert RunFrom(codec, m, [m], [], m);
  }

  lemma ReachesStep(codec: Codec, m: Machine, now: Machine, step: Step, next: Machine)
    requires codec.Lossless() && Reaches(codec, m, now) && Next(codec, now, step, next)
    ensures Reaches(codec, m, next) && Inv(next)
  {
    var ms, steps :| RunFrom(codec, m, ms, steps, now);
    RunAppend(codec, ms, steps, step, next);
    assert RunFrom(codec, m, ms + [next], steps + [step], next);
    RunInv(codec, ms, steps, |steps|);
    StepInv(codec, now, step, next);
  }

  /** One run after the other is a run. */
  lemma {:induction false} ReachesRun(codec: Codec, m: Machine, now: Machine, ms: seq<Machine>, steps: seq<Step>, k: nat)
    requires codec.Lossless() && Reaches(codec, m, now) && Run(codec, ms, steps) && ms[0] == now && k <= |steps|
    ensures Reaches(codec, m, ms[k]) && Inv(ms[k])
  {
    RunInv(codec, ms, steps, k);
    if k > 0 {
      ReachesRun(codec, m, now, ms, steps, k - 1);
      assert StepAt(codec, ms, steps, k - 1);
      ReachesStep(codec, m, ms[k - 1], steps[k - 1], ms[k]);
    }
  }

  lemma ReachesTwice(codec: Codec, m: Machine, now: Machine, next: Machine)
    requires codec.Lossless() && Reaches(codec, m, now) && Reaches(codec, now, next)
    ensures Reaches(codec, m, next) && Inv(next)
  {
    var ms, steps :| RunFrom(codec, now, ms, steps, next);
    ReachesRun(codec, m, now, ms, steps, |steps|);
  }

  // ---------------------------------------------------------------- munmap

  function RemovedTo(v: View, lo: nat, hi: nat): View
    decreases hi
  {
    if lo >= hi then v else RemovePage(RemovedTo(v, lo, hi - 1), hi - 1)
  }

  lemma {:induction false} RemoveReaches(codec: Codec, m: Machine, p: nat, lo: nat, hi: nat)
    requires codec.Lossless() && Inv(m) && p in m.spaces
    ensures var m' := WithView(m, p, RemovedTo(ViewOf(m, p), lo, hi)); Reaches(codec, m, m') && Inv(m')
    decreases hi
  {
    if lo >= hi {
      ReachesSelf(codec, m);
      assert WithView(m, p, ViewOf(m, p)) == m;
    } else {
      RemoveReaches(codec, m, p, lo, hi - 1);
      var now := WithView(m, p, RemovedTo(ViewOf(m, p), lo, hi - 1));
      var next := WithView(m, p, RemovedTo(ViewOf(m, p), lo, hi));
      if hi - 1 in now.spaces[p].slots {
        assert next == Removed(now, p, hi - 1);
        ReachesStep(codec, m, now, Remove(p, hi - 1), next);
      } else {
        assert next == now;
      }
    }
  }

  lemma {:induction false} RemovedToAt(v: View, lo: nat, hi: nat, u: nat)
    requires v.space.table.Keys <= v.space.slots.Keys
    ensures var w := RemovedTo(v, lo, hi).space;
            && (u in w.slots <==> u in v.space.slots && !(lo <= u < hi))
            && (u in w.slots ==> w.slots[u] == v.space.slots[u])
            && (u in w.table <==> u in v.space.table && !(lo <= u < hi))
            && (u in w.table ==> w.table[u] == v.space.table[u])
    decreases hi
  {
    if lo < hi {
      RemovedToAt(v, lo, hi - 1, u);
    }
  }

  function SlotCount(slots: map<nat, Slot>, lo: nat, hi: nat, f: Frame): nat
    decreases hi
  {
    if lo >= hi then 0
    else SlotCount(slots, lo, hi - 1, f) + (if hi - 1 in slots && slots[hi - 1].frame == f then 1 else 0)
  }

  lemma {:induction false} SlotCountIs(areas: seq<Area>, lo: nat, hi: nat, f: Frame)
    ensures SlotCount(Slots(areas), lo, hi, f) == PageCount(areas, lo, hi, f)
    decreases hi
  {
    if lo < hi {
      SlotCountIs(areas, lo, hi - 1, f);
      assert SlotAt(areas, hi - 1).Some? <==> hi - 1 in Slots(areas);
    }
  }

  lemma {:induction false} RemovedToStore(v: View, lo: nat, hi: nat, f: Frame)
    requires v.space.table.Keys <= v.space.slots.Keys && Counted(v.store)
    ensures Counted(RemovedTo(v, lo, hi).store)
    ensures Lowered(v.store, RemovedTo(v, lo, hi).store, f, SlotCount(v.space.slots, lo, hi, f))
    decreases hi
  {
    if lo < hi {
      RemovedToStore(v, lo, hi - 1, f);
      RemovedToAt(v, lo, hi - 1, hi - 1);
      var w := RemovedTo(v, lo, hi - 1);
      if hi - 1 in v.space.slots {
        var g := v.space.slots[hi - 1].frame;
        ReleaseLowers(w.store, g, f);
        LoweredTwice(v.store, w.store, Release(w.store, g), f, SlotCount(v.space.slots, lo, hi - 1, f), if f == g then 1 else 0);
      }
    }
  }

  lemma MachineCounted(m: Machine)
    requires Inv(m)
    ensures Counted(m.store)
  {
    forall f | f in m.store
      ensures m.store[f].refs > 0 && f != Unallocated
    {
      assert CellOk(m, f);
    }
  }

  /** Page `u` is the same, or only its file position differs. */
  ghost predicate MovesAt(slots: map<nat, Slot>, slots': map<nat, Slot>, u: nat) {
    && (u in slots' <==> u in slots)
    && (u in slots && slots'[u] != slots[u] ==>
          slots[u].file.Some? && slots'[u].file.Some? && slots'[u] == slots[u].(file := slots'[u].file))
  }

  ghost predicate Moves(slots: map<nat, Slot>, slots': map<nat, Slot>) {
    forall u: nat {:trigger MovesAt(slots, slots', u)} :: MovesAt(slots, slots', u)
  }

  /** The pages below `n` have their new positions. */
  ghost function Mixed(slots: map<nat, Slot>, slots': map<nat, Slot>, n: nat): map<nat, Slot> {
    map u | u in slots :: if u < n && u in slots' then slots'[u] else slots[u]
  }

  /** The machine with other pages in space `p`. */
  ghost function WithSlots(m: Machine, p: nat, slots: map<nat, Slot>): Machine
    requires p in m.spaces
  {
    WithView(m, p, View(m.spaces[p].(slots := slots), m.store))
  }

  lemma SlotsTwice(m: Machine, p: nat, a: map<nat, Slot>, b: map<nat, Slot>)
    requires p in m.spaces
    ensures WithSlots(WithSlots(m, p, a), p, b) == WithSlots(m, p, b)
    ensures WithSlots(m, p, m.spaces[p].slots) == m
  {
    assert m.spaces[p := m.spaces[p]] == m.spaces;
  }

  lemma {:induction false} RefileReaches(codec: Codec, m: Machine, p: nat, slots': map<nat, Slot>, n: nat)
    requires codec.Lossless() && Inv(m) && p in m.spaces && Moves(m.spaces[p].slots, slots')
    ensures var m' := WithSlots(m, p, Mixed(m.spaces[p].slots, slots', n)); Reaches(codec, m, m') && Inv(m')
  {
    var slots := m.spaces[p].slots;
    MixedStep(slots, slots', n);
    if n == 0 {
      ReachesSelf(codec, m);
      SlotsTwice(m, p, slots, slots);
    } else {
      RefileReaches(codec, m, p, slots', n - 1);
      assert MovesAt(slots, slots', n - 1);
      if n - 1 in slots && slots'[n - 1] != slots[n - 1] {
        var now, pos := WithSlots(m, p, Mixed(slots, slots', n - 1)), slots'[n - 1].file.value;
        SlotsTwice(m, p, Mixed(slots, slots', n - 1), Mixed(slots, slots', n));
        ReachesStep(codec, m, now, Refile(p, n - 1, pos), Refiled(now, p, n - 1, pos));
      }
    }
  }

  lemma MixedStep(slots: map<nat, Slot>, slots': map<nat, Slot>, n: nat)
    ensures n == 0 ==> Mixed(slots, slots', n) == slots
    ensures n > 0 && n - 1 in slots && n - 1 in slots' ==> Mixed(slots, slots', n) == Mixed(slots, slots', n - 1)[n - 1 := slots'[n - 1]]
    ensures n > 0 && (n - 1 in slots && n - 1 in slots' ==> slots'[n - 1] == slots[n - 1]) ==>
              Mixed(slots, slots', n) == Mixed(slots, slots', n - 1)
  {
  }

  /** The pages `munmap` leaves are the old ones outside the range, some with another file position. */
  lemma MunmapMoves(areas: seq<Area>, table: map<nat, Pte>, store: Store, lo: nat, hi: nat)
    requires WellFormed(areas) && lo < hi && table.Keys <= Slots(areas).Keys
    ensures var w := RemovedTo(View(Space(areas, table), store), lo, hi).space;
            Moves(w.slots, Slots(MunmapAreas(areas, lo, hi))) && w.table == table - Range(lo, hi)
  {
    var v := View(Space(areas, table), store);
    var w, slots' := RemovedTo(v, lo, hi).space, Slots(MunmapAreas(areas, lo, hi));
    forall u: nat
      ensures MovesAt(w.slots, slots', u)
      ensures (u in w.table <==> u in table - Range(lo, hi)) && (u in w.table ==> w.table[u] == table[u])
    {
      RemovedToAt(v, lo, hi, u);
      MunmapSlotAt(areas, lo, hi, u);
      assert SlotAt(areas, u).Some? <==> u in Slots(areas);
      assert SlotAt(MunmapAreas(areas, lo, hi), u).Some? <==> u in slots';
    }
  }

  lemma MunmapSlotAt(areas: seq<Area>, lo: nat, hi: nat, u: nat)
    requires AllOk(areas) && lo < hi
    ensures var s, s' := SlotAt(areas, u), SlotAt(MunmapAreas(areas, lo, hi), u);
            && (s'.Some? <==> s.Some? && !(lo <= u < hi))
            && (s'.Some? && s' != s ==> s.value.file.Some? && s'.value.file.Some? && s'.value == s.value.(file := s'.value.file))
  {
    MunmapSlots(areas, lo, hi, u);
    AreaAtSlot(areas, u);
  }

  lemma MunmapStore(areas: seq<Area>, table: map<nat, Pte>, store: Store, store': Store, lo: nat, hi: nat)
    requires table.Keys <= Slots(areas).Keys && Counted(store)
    requires forall f :: Lowered(store, store', f, PageCount(areas, lo, hi, f))
    ensures RemovedTo(View(Space(areas, table), store), lo, hi).store == store'
  {
    var v := View(Space(areas, table), store);
    forall f
      ensures Lowered(store, RemovedTo(v, lo, hi).store, f, PageCount(areas, lo, hi, f))
    {
      RemovedToStore(v, lo, hi, f);
      SlotCountIs(areas, lo, hi, f);
    }
    LoweredSame(store, RemovedTo(v, lo, hi).store, store', f => PageCount(areas, lo, hi, f));
  }

  /** Once all pages have their new position, the slots are the new ones. */
  lemma MixedAll(areas: seq<Area>, slots: map<nat, Slot>) returns (n: nat)
    requires Moves(slots, Slots(areas))
    ensures Mixed(slots, Slots(areas), n) == Slots(areas)
  {
    n := PagesBound(areas);
    var mixed, slots' := Mixed(slots, Slots(areas), n), Slots(areas);
    forall u: nat
      ensures (u in mixed <==> u in slots') && (u in slots' ==> mixed[u] == slots'[u])
    {
      assert MovesAt(slots, slots', u);
      assert SlotAt(areas, u).Some? <==> u in slots';
      BelowBound(areas, n, u);
    }
  }

  /** `munmap` as the memory-set method leaves things is a run that removes the pages, and then moves
      the file positions of the pages above a cut in a file-backed area. */
  lemma MunmapRuns(codec: Codec, m: Machine, p: nat, areas: seq<Area>, table: map<nat, Pte>, store': Store, lo: nat, hi: nat)
    requires codec.Lossless() && Inv(m) && p in m.spaces && m.spaces[p] == Space(areas, table)
    requires WellFormed(areas) && lo < hi
    requires forall f :: Lowered(m.store, store', f, PageCount(areas, lo, hi, f))
    ensures Reaches(codec, m, WithView(m, p, View(Space(MunmapAreas(areas, lo, hi), table - Range(lo, hi)), store')))
  {
    assert TableOk(m, p);
    MachineCounted(m);
    RemoveReaches(codec, m, p, lo, hi);
    MunmapMoves(areas, table, m.store, lo, hi);
    MunmapStore(areas, table, m.store, store', lo, hi);
    var view := RemovedTo(ViewOf(m, p), lo, hi);
    var now, after := WithView(m, p, view), MunmapAreas(areas, lo, hi);
    MovesReaches(codec, now, p, after);
    var next := WithSlots(now, p, Slots(after));
    ReachesTwice(codec, m, now, next);
    ViewTwice(m, p, view, View(Space(after, table - Range(lo, hi)), store'));
  }

  lemma ViewTwice(m: Machine, p: nat, a: View, b: View)
    ensures WithView(WithView(m, p, a), p, b) == WithView(m, p, b)
  {
  }

  lemma MovesReaches(codec: Codec, m: Machine, p: nat, areas: seq<Area>)
    requires codec.Lossless() && Inv(m) && p in m.spaces && Moves(m.spaces[p].slots, Slots(areas))
    ensures Reaches(codec, m, WithSlots(m, p, Slots(areas)))
  {
    var n := MixedAll(areas, m.spaces[p].slots);
    RefileReaches(codec, m, p, Slots(areas), n);
  }

  // ---------------------------------------------------------------- mprotect

  function ProtectedTo(space: AddrSpace, lo: nat, hi: nat, perm: Perm): AddrSpace
    decreases hi
  {
    if lo >= hi then space
    else
      var s := ProtectedTo(space, lo, hi - 1, perm);
      if hi - 1 in s.slots then ProtectPage(s, hi - 1, perm) else s
  }

  lemma {:induction false} ProtectReaches(codec: Codec, m: Machine, p: nat, lo: nat, hi: nat, perm: Perm)
    requires codec.Lossless() && Inv(m) && p in m.spaces
    ensures var m' := WithView(m, p, View(ProtectedTo(m.spaces[p], lo, hi, perm), m.store)); Reaches(codec, m, m') && Inv(m')
    decreases hi
  {
    if lo >= hi {
      ReachesSelf(codec, m);
      assert WithView(m, p, ViewOf(m, p)) == m;
    } else {
      ProtectReaches(codec, m, p, lo, hi - 1, perm);
      var now := WithView(m, p, View(ProtectedTo(m.spaces[p], lo, hi - 1, perm), m.store));
      var next := WithView(m, p, View(ProtectedTo(m.spaces[p], lo, hi, perm), m.store));
      if hi - 1 in now.spaces[p].slots {
        assert next == Protected(now, p, hi - 1, perm);
        ReachesStep(codec, m, now, Protect(p, hi - 1, perm), next);
      } else {
        assert next == now;
      }
    }
  }

  lemma {:induction false} ProtectedToAt(space: AddrSpace, lo: nat, hi: nat, perm: Perm, u: nat)
    requires space.table.Keys <= space.slots.Keys
    ensures var w := ProtectedTo(space, lo, hi, perm);
            && (u in w.slots <==> u in space.slots)
            && (u in w.slots ==> w.slots[u] == if lo <= u < hi then space.slots[u].(perm := perm) else space.slots[u])
            && (u in w.table <==> u in space.table)
            && (u in w.table ==> w.table[u] == if lo <= u < hi then space.table[u].(perm := perm.NoWrite()) else space.table[u])
    decreases hi
  {
    if lo < hi {
      ProtectedToAt(space, lo, hi - 1, perm, u);
    }
  }

  lemma ProtectView(areas: seq<Area>, table: map<nat, Pte>, i: nat, lo: nat, hi: nat, perm: Perm)
    requires WellFormed(areas) && i < |areas| && AreaOk(areas[i]) && areas[i].start <= lo < hi <= areas[i].End()
    requires table.Keys <= Slots(areas).Keys
    ensures ProtectedTo(Space(areas, table), lo, hi, perm) ==
            Space(ProtectAreas.Protected(areas, i, lo, hi, perm), ProtectAreas.ProtectTable(table, lo, hi, perm))
  {
    var w := ProtectedTo(Space(areas, table), lo, hi, perm);
    var after := Space(ProtectAreas.Protected(areas, i, lo, hi, perm), ProtectAreas.ProtectTable(table, lo, hi, perm));
    forall u: nat
      ensures (u in w.slots <==> u in after.slots) && (u in after.slots ==> w.slots[u] == after.slots[u])
      ensures (u in w.table <==> u in after.table) && (u in after.table ==> w.table[u] == after.table[u])
    {
      ProtectedToAt(Space(areas, table), lo, hi, perm, u);
      ProtectAreas.ProtectedSlot(areas, i, lo, hi, perm, u);
      ProtectAreas.ProtectTableAt(table, lo, hi, perm, u);
    }
    assert w.slots == after.slots && w.table == after.table;
  }

  /** `mprotect` is a run that changes the permission of its pages one by one. */
  lemma MprotectRuns(codec: Codec, m: Machine, p: nat, areas: seq<Area>, table: map<nat, Pte>, i: nat, lo: nat, hi: nat, perm: Perm)
    requires codec.Lossless() && Inv(m) && p in m.spaces && m.spaces[p] == Space(areas, table)
    requires WellFormed(areas) && i < |areas| && AreaOk(areas[i]) && areas[i].start <= lo < hi <= areas[i].End()
    ensures Reaches(codec, m, WithView(m, p, View(Space(ProtectAreas.Protected(areas, i, lo, hi, perm),
                                                      ProtectAreas.ProtectTable(table, lo, hi, perm)), m.store)))
  {
    assert TableOk(m, p);
    ProtectReaches(codec, m, p, lo, hi, perm);
    ProtectView(areas, table, i, lo, hi, perm);
  }

  // ---------------------------------------------------------------- mmap

  /** The pages of [lo, hi) of a new area are entered. */
  ghost function ReservedTo(slots: map<nat, Slot>, b: Area, hi: nat): map<nat, Slot>
    requires hi <= b.End()
    decreases hi
  {
    if b.start >= hi then slots else ReservedTo(slots, b, hi - 1)[hi - 1 := Slot(b.perm, Unallocated, b.FileAt(hi - 1))]
  }

  lemma {:induction false} ReservedToAt(slots: map<nat, Slot>, b: Area, hi: nat, u: nat)
    requires hi <= b.End()
    ensures var r := ReservedTo(slots, b, hi);
            && (u in r <==> u in slots || b.start <= u < hi)
            && (u in r ==> r[u] == if b.start <= u < hi then Slot(b.perm, Unallocated, b.FileAt(u)) else slots[u])
    decreases hi
  {
    if b.start < hi {
      ReservedToAt(slots, b, hi - 1, u);
    }
  }

  lemma {:induction false} ReserveReaches(codec: Codec, m: Machine, p: nat, b: Area, hi: nat)
    requires codec.Lossless() && Inv(m) && p in m.spaces && hi <= b.End()
    requires forall u: nat :: b.Has(u) ==> u !in m.spaces[p].slots
    ensures var m' := WithSlots(m, p, ReservedTo(m.spaces[p].slots, b, hi)); Reaches(codec, m, m') && Inv(m')
    decreases hi
  {
    var slots := m.spaces[p].slots;
    if b.start >= hi {
      ReachesSelf(codec, m);
      SlotsTwice(m, p, slots, slots);
    } else {
      ReserveReaches(codec, m, p, b, hi - 1);
      ReservedToAt(slots, b, hi - 1, hi - 1);
      assert b.Has(hi - 1);
      var now := WithSlots(m, p, ReservedTo(slots, b, hi - 1));
      SlotsTwice(m, p, ReservedTo(slots, b, hi - 1), ReservedTo(slots, b, hi));
      ReachesStep(codec, m, now, Reserve(p, hi - 1, b.perm, b.FileAt(hi - 1)), Reserved(now, p, hi - 1, b.perm, b.FileAt(hi - 1)));
    }
  }

  /** A new area in a range where there is none is a run that enters its pages. */
  lemma InsertRuns(codec: Codec, m: Machine, p: nat, areas: seq<Area>, areas': seq<Area>, table: map<nat, Pte>, b: Area)
    requires codec.Lossless() && Inv(m) && p in m.spaces && m.spaces[p] == Space(areas, table)
    requires forall u: nat :: b.Has(u) ==> SlotAt(areas, u).None?
    requires forall u: nat :: SlotAt(areas', u) == if b.Has(u) then Some(Slot(b.perm, Unallocated, b.FileAt(u))) else SlotAt(areas, u)
    ensures Reaches(codec, m, WithView(m, p, View(Space(areas', table), m.store)))
  {
    forall u: nat | b.Has(u)
      ensures u !in m.spaces[p].slots
    {
      assert SlotAt(areas, u).Some? <==> u in Slots(areas);
    }
    ReserveReaches(codec, m, p, b, b.End());
    var r, slots' := ReservedTo(Slots(areas), b, b.End()), Slots(areas');
    forall u: nat
      ensures (u in r <==> u in slots') && (u in r ==> r[u] == slots'[u])
    {
      ReservedToAt(Slots(areas), b, b.End(), u);
      assert SlotAt(areas, u).Some? <==> u in Slots(areas);
      assert SlotAt(areas', u).Some? <==> u in slots';
    }
    assert r == slots';
  }

  // ---------------------------------------------------------------- fork

  /** Page `u` after the pages below `n`, except `trap`, are shared with the new space `q`. */
  ghost predicate SharedAt(m: Machine, m': Machine, p: nat, q: nat, n: nat, trap: nat, u: nat)
    requires p in m.spaces && p in m'.spaces && q in m'.spaces
  {
    var before, parent, child := m.spaces[p], m'.spaces[p], m'.spaces[q];
    var shared := u < n && u != trap && u in before.slots;
    && (u in parent.table <==> u in before.table)
    && (u in before.table ==>
          parent.table[u] == if shared then before.table[u].(perm := before.table[u].perm.NoWrite()) else before.table[u])
    && (u in child.slots <==> shared)
    && (shared ==> child.slots[u] == before.slots[u])
    && (u in child.table <==> shared && u in before.table)
    && (shared && u in before.table ==> child.table[u] == Pte(before.table[u].ppn, before.slots[u].perm.NoWrite()))
  }

  function ShareCount(slots: map<nat, Slot>, n: nat, trap: nat, f: Frame): nat {
    if n == 0 then 0
    else ShareCount(slots, n - 1, trap, f) + (if n - 1 != trap && n - 1 in slots && slots[n - 1].frame == f then 1 else 0)
  }

  ghost predicate CountAt(m: Machine, m': Machine, p: nat, n: nat, trap: nat, f: Frame)
    requires p in m.spaces
  {
    Raised(m.store, m'.store, f, ShareCount(m.spaces[p].slots, n, trap, f))
  }

  ghost predicate Sharing(m: Machine, m': Machine, p: nat, q: nat, n: nat, trap: nat)
    requires p in m.spaces
  {
    && p in m'.spaces && q in m'.spaces
    && m'.others == m.others && m'.cache == m.cache && m'.files == m.files
    && m'.spaces == m.spaces[p := m'.spaces[p]][q := m'.spaces[q]]
    && m'.spaces[p].slots == m.spaces[p].slots
    && (forall u: nat {:trigger SharedAt(m, m', p, q, n, trap, u)} :: SharedAt(m, m', p, q, n, trap, u))
    && (forall f {:trigger CountAt(m, m', p, n, trap, f)} :: CountAt(m, m', p, n, trap, f))
  }

  /** One more page is shared: its entry loses W and the child gets a handle. */
  ghost function SharedNow(now: Machine, p: nat, q: nat, n: nat): Machine
    requires p in now.spaces && q in now.spaces && n in now.spaces[p].slots
  {
    var parent := WriteProtect(now.spaces[p], n);
    var child := SharePage(parent, View(now.spaces[q], now.store), n);
    now.(spaces := now.spaces[p := parent][q := child.space], store := child.store)
  }

  lemma SharingNext(m: Machine, now: Machine, p: nat, q: nat, n: nat, trap: nat)
    requires p in m.spaces && p != q && Sharing(m, now, p, q, n, trap) && n != trap && n in m.spaces[p].slots
    requires Unallocated !in m.store && (m.spaces[p].slots[n].frame != Unallocated ==> m.spaces[p].slots[n].frame in m.store)
    ensures Sharing(m, SharedNow(now, p, q, n), p, q, n + 1, trap)
  {
    var next, n' := SharedNow(now, p, q, n), n + 1;
    forall u: nat
      ensures SharedAt(m, next, p, q, n', trap, u)
    {
      assert SharedAt(m, now, p, q, n, trap, u) && SharedAt(m, now, p, q, n, trap, n);
    }
    forall f
      ensures CountAt(m, next, p, n', trap, f)
    {
      assert CountAt(m, now, p, n, trap, f);
    }
  }

  lemma SharingStep(now: Machine, p: nat, q: nat, n: nat)
    requires Inv(now) && p in now.spaces && q in now.spaces && p != q && n in now.spaces[p].slots && n !in now.spaces[q].slots
    requires Inv(Blocked(now, p, n))
    ensures CanShare(Blocked(now, p, n), q, n, p)
    ensures Shared(Blocked(now, p, n), q, n, p) == SharedNow(now, p, q, n)
  {
  }

  lemma SharingSkip(m: Machine, now: Machine, p: nat, q: nat, n: nat, trap: nat)
    requires p in m.spaces && Sharing(m, now, p, q, n, trap) && (n == trap || n !in m.spaces[p].slots)
    ensures Sharing(m, now, p, q, n + 1, trap)
  {
    var n' := n + 1;
    forall u: nat
      ensures SharedAt(m, now, p, q, n', trap, u)
    {
      assert SharedAt(m, now, p, q, n, trap, u);
    }
    forall f
      ensures CountAt(m, now, p, n', trap, f)
    {
      assert CountAt(m, now, p, n, trap, f);
    }
  }

  lemma SharingNone(m: Machine, p: nat, q: nat, trap: nat)
    requires p in m.spaces && p != q
    ensures Sharing(m, m.(spaces := m.spaces[q := AddrSpace(map[], map[])]), p, q, 0, trap)
  {
    var m' := m.(spaces := m.spaces[q := AddrSpace(map[], map[])]);
    forall u: nat
      ensures SharedAt(m, m', p, q, 0, trap, u)
    {
    }
    forall f
      ensures CountAt(m, m', p, 0, trap, f)
    {
    }
    assert m.spaces[p := m'.spaces[p]] == m.spaces;
  }

  /** Sharing page after page is a run. */
  lemma {:induction false} ShareReaches(codec: Codec, m: Machine, p: nat, q: nat, n: nat, trap: nat) returns (m': Machine)
    requires codec.Lossless() && Inv(m) && p in m.spaces && q !in m.spaces
    ensures Reaches(codec, m, m') && Inv(m') && Sharing(m, m', p, q, n, trap)
  {
    if n == 0 {
      m' := m.(spaces := m.spaces[q := AddrSpace(map[], map[])]);
      ReachesSelf(codec, m);
      ReachesStep(codec, m, m, Open(q), m');
      SharingNone(m, p, q, trap);
    } else {
      var now := ShareReaches(codec, m, p, q, n - 1, trap);
      if n - 1 == trap || n - 1 !in m.spaces[p].slots {
        SharingSkip(m, now, p, q, n - 1, trap);
        m' := now;
      } else {
        var blocked := Blocked(now, p, n - 1);
        ReachesStep(codec, m, now, BlockWrite(p, n - 1), blocked);
        assert SharedAt(m, now, p, q, n - 1, trap, n - 1);
        SharingStep(now, p, q, n - 1);
        StoreShape(m, p, n - 1);
        SharingNext(m, now, p, q, n - 1, trap);
        m' := Shared(blocked, q, n - 1, p);
        ReachesStep(codec, m, blocked, Share(q, n - 1, p), m');
      }
    }
  }

  /** The pages of the areas are below some bound. */
  lemma {:induction false} PagesBound(areas: seq<Area>) returns (n: nat)
    ensures forall i :: 0 <= i < |areas| ==> areas[i].End() <= n
  {
    n := 0;
    if areas != [] {
      var m := PagesBound(areas[1..]);
      n := if m < areas[0].End() then areas[0].End() else m;
      assert forall i :: 0 < i < |areas| ==> areas[i] == areas[1..][i - 1];
    }
  }

  lemma {:induction false} ShareCountIs(areas: seq<Area>, shared: seq<Area>, n: nat, trap: nat, f: Frame)
    requires forall u: nat {:trigger SlotAt(shared, u)} :: SlotAt(shared, u) == if u == trap then None else SlotAt(areas, u)
    ensures ShareCount(Slots(areas), n, trap, f) == PageCount(shared, 0, n, f)
  {
    if n > 0 {
      ShareCountIs(areas, shared, n - 1, trap, f);
      assert SlotAt(areas, n - 1).Some? <==> n - 1 in Slots(areas);
      assert SlotAt(shared, n - 1) == if n - 1 == trap then None else SlotAt(areas, n - 1);
    }
  }

  /** All handles of the areas are behind pages below the bound. */
  lemma {:induction false} HeldIsCut(areas: seq<Area>, n: nat, f: Frame)
    requires forall i :: 0 <= i < |areas| ==> areas[i].End() <= n
    ensures CutCount(areas, 0, n, f) == Held(areas, f)
  {
    if areas != [] {
      HeldIsCut(areas[1..], n, f);
      assert Clip(areas[0], 0) == 0 && Clip(areas[0], n) == |areas[0].frames|;
    }
  }

  lemma PageCountIsHeld(areas: seq<Area>, n: nat, f: Frame)
    requires WellFormed(areas) && forall i :: 0 <= i < |areas| ==> areas[i].End() <= n
    ensures PageCount(areas, 0, n, f) == Held(areas, f)
  {
    SumCutPages(areas, 0, n, f);
    SumCutIsCutCount(areas, 0, n, f);
    HeldIsCut(areas, n, f);
  }

  /** Once every page is shared, the tables are those `from_existing_user` leaves. */
  lemma SharedSpaces(m: Machine, m': Machine, p: nat, q: nat, n: nat, areas: seq<Area>, table: map<nat, Pte>,
                     parent: map<nat, Pte>, child: map<nat, Pte>, ppn: nat)
    requires p in m.spaces && m.spaces[p] == Space(areas, table) && WellFormed(areas) && HasTrap(areas)
    requires Sharing(m, m', p, q, n, areas[|areas| - 1].start) && Forked(areas[..|areas| - 1], table, parent, child)
    requires forall i :: 0 <= i < |areas| ==> areas[i].End() <= n
    requires table.Keys <= Slots(areas).Keys
    ensures m'.spaces[p] == Space(areas, parent)
    ensures m'.spaces[q] == AddrSpace(Slots(areas[..|areas| - 1]), child)
  {
    var trap, shared := areas[|areas| - 1].start, areas[..|areas| - 1];
    var s, t := m'.spaces[p], m'.spaces[q];
    forall u: nat
      ensures (u in s.table <==> u in parent) && (u in parent ==> s.table[u] == parent[u])
      ensures (u in t.slots <==> u in Slots(shared)) && (u in Slots(shared) ==> t.slots[u] == Slots(shared)[u])
      ensures (u in t.table <==> u in child) && (u in child ==> t.table[u] == child[u])
    {
      assert SharedAt(m, m', p, q, n, trap, u) && ForkedAt(shared, table, parent, child, u);
      ChildSlot(areas, ppn, u);
      assert SlotAt(areas, u).Some? <==> u in Slots(areas);
      assert SlotAt(shared, u).Some? <==> u in Slots(shared);
      BelowBound(areas, n, u);
    }
    assert s.table == parent && t.slots == Slots(shared) && t.table == child;
  }

  lemma BelowBound(areas: seq<Area>, n: nat, u: nat)
    requires forall i :: 0 <= i < |areas| ==> areas[i].End() <= n
    ensures SlotAt(areas, u).Some? ==> u < n
  {
    if u >= n {
      SlotAtNone(areas, u);
    }
  }

  lemma SharedStore(m: Machine, m': Machine, p: nat, q: nat, n: nat, areas: seq<Area>, table: map<nat, Pte>, store': Store, ppn: nat)
    requires p in m.spaces && m.spaces[p] == Space(areas, table) && WellFormed(areas) && HasTrap(areas)
    requires Sharing(m, m', p, q, n, areas[|areas| - 1].start) && RaisedAll(m.store, store', areas[..|areas| - 1])
    requires WellFormed(areas[..|areas| - 1]) && forall i :: 0 <= i < |areas| ==> areas[i].End() <= n
    ensures m'.store == store'
  {
    var trap, shared := areas[|areas| - 1].start, areas[..|areas| - 1];
    forall u: nat
      ensures SlotAt(shared, u) == if u == trap then None else SlotAt(areas, u)
    {
      ChildSlot(areas, ppn, u);
    }
    forall f
      ensures (f in m'.store <==> f in store') && (f in store' ==> m'.store[f] == store'[f])
    {
      assert CountAt(m, m', p, n, trap, f) && RaisedAt(m.store, store', shared, f);
      ShareCountIs(areas, shared, n, trap, f);
      PageCountIsHeld(shared, n, f);
    }
  }

  lemma WellFormedPrefix(areas: seq<Area>, n: nat)
    requires WellFormed(areas) && n <= |areas|
    ensures WellFormed(areas[..n])
  {
    var xs := areas[..n];
    forall i | 0 <= i < n
      ensures AreaOk(xs[i])
    {
      assert AreaOk(areas[i]);
    }
    forall i, j | 0 <= i < j < n
      ensures Separate(xs[i], xs[j])
    {
      assert Separate(areas[i], areas[j]);
    }
  }

  /** The last step of a fork gives the child its own trap-context page. */
  lemma ChildSpace(areas: seq<Area>, child: map<nat, Pte>, ppn: nat)
    requires WellFormed(areas) && HasTrap(areas)
    ensures var trap := areas[|areas| - 1];
            Space(Child(areas, ppn), child[trap.start := Pte(ppn, trap.perm)]) ==
            AddrSpace(Slots(areas[..|areas| - 1])[trap.start := Slot(trap.perm, InMemory(ppn), trap.FileAt(trap.start))],
                      child[trap.start := Pte(ppn, trap.perm)])
  {
    var trap := areas[|areas| - 1];
    var slot := Slot(trap.perm, InMemory(ppn), trap.FileAt(trap.start));
    var a, b := Slots(Child(areas, ppn)), Slots(areas[..|areas| - 1])[trap.start := slot];
    forall u: nat
      ensures (u in a <==> u in b) && (u in a ==> a[u] == b[u])
    {
      ChildSlot(areas, ppn, u);
      assert SlotAt(areas[..|areas| - 1], u).Some? <==> u in Slots(areas[..|areas| - 1]);
      assert SlotAt(Child(areas, ppn), u).Some? <==> u in a;
    }
    assert a == b;
  }

  lemma PopulateReaches(codec: Codec, m: Machine, now: Machine, q: nat, v: nat, perm: Perm, file: Option<FilePos>,
                        ppn: nat, page: Page, t: AddrSpace)
    requires codec.Lossless() && Reaches(codec, m, now) && CanEnter(now, q, v) && InMemory(ppn) !in now.store
    requires t == AddrSpace(now.spaces[q].slots[v := Slot(perm, InMemory(ppn), file)], now.spaces[q].table[v := Pte(ppn, perm)])
    ensures Reaches(codec, m, now.(spaces := now.spaces[q := t], store := Fresh(now.store, InMemory(ppn), page)))
  {
    ReachesStep(codec, m, now, Populate(q, v, perm, file, ppn, page), Populated(now, q, v, perm, file, ppn, page));
  }

  /** `from_existing_user` is a run: open a space, share every page but the trap context with both
      entries losing W, then give the child a trap context of its own. */
  lemma ForkRuns(codec: Codec, m: Machine, p: nat, q: nat, areas: seq<Area>, table: map<nat, Pte>,
                 parent: map<nat, Pte>, child: map<nat, Pte>, store': Store, ppn: nat, page: Page)
    requires codec.Lossless() && Inv(m) && p in m.spaces && q !in m.spaces && m.spaces[p] == Space(areas, table)
    requires WellFormed(areas) && HasTrap(areas) && InMemory(ppn) !in m.store
    requires Forked(areas[..|areas| - 1], table, parent, child) && RaisedAll(m.store, store', areas[..|areas| - 1])
    ensures var trap := areas[|areas| - 1];
            var spaces := m.spaces[p := Space(areas, parent)][q := Space(Child(areas, ppn), child[trap.start := Pte(ppn, trap.perm)])];
            Reaches(codec, m, m.(spaces := spaces, store := Fresh(store', InMemory(ppn), page)))
  {
    var n := PagesBound(areas);
    var trap := areas[|areas| - 1];
    assert TableOk(m, p);
    WellFormedPrefix(areas, |areas| - 1);
    var now := ShareReaches(codec, m, p, q, n, trap.start);
    SharedSpaces(m, now, p, q, n, areas, table, parent, child, ppn);
    SharedStore(m, now, p, q, n, areas, table, store', ppn);
    ChildSpace(areas, child, ppn);
    ChildSlot(areas, ppn, trap.start);
    assert RaisedAt(m.store, store', areas[..|areas| - 1], InMemory(ppn));
    assert CanEnter(now, q, trap.start) && InMemory(ppn) !in now.store;
    var file := trap.FileAt(trap.start);
    var t := Space(Child(areas, ppn), child[trap.start := Pte(ppn, trap.perm)]);
    PopulateReaches(codec, m, now, q, trap.start, trap.perm, file, ppn, page, t);
    assert now.spaces[q := t] == m.spaces[p := Space(areas, parent)][q := t];
  }

  // ---------------------------------------------------------------- faults and reclaiming

  /** What the fault handler is told of the file behind page `v` is what the machine has: the contents,
      and the frame of the page cache if the fault maps it. */
  ghost predicate Serves(env: Env, m: Machine, p: nat, v: nat, cached: nat) {
    p in m.spaces && v in m.spaces[p].slots && m.spaces[p].slots[v].file.Some? ==>
      var pos := m.spaces[p].slots[v].file.value;
      && env.filePage(pos) == FileBytes(m, pos)
      && (MapsCached(m, p, v, env.fileSize(pos.file)) ==> Aligned(pos) && KeyOf(pos) in m.cache && m.cache[KeyOf(pos)] == cached)
  }

  ghost function SizeFor(env: Env, m: Machine, p: nat, v: nat): nat {
    if p in m.spaces && v in m.spaces[p].slots && m.spaces[p].slots[v].file.Some?
    then env.fileSize(m.spaces[p].slots[v].file.value.file) else 0
  }

  lemma FaultSame(env: Env, m: Machine, p: nat, v: nat, ppn: nat, cached: nat)
    requires Inv(m) && p in m.spaces && Serves(env, m, p, v, cached) && SpaceOk(m.spaces[p])
    requires forall u :: u in m.spaces[p].slots && m.spaces[p].slots[u].frame != Unallocated ==> m.spaces[p].slots[u].frame in m.store
    ensures DoPageFault(env, ViewOf(m, p), v, ppn, cached) ==
            DoPageFault(EnvNow(env.codec, m, SizeFor(env, m, p, v)), ViewOf(m, p), v, ppn, CachedFrame(m, p, v))
  {
  }

  /** A fault served on the areas is a fault step. */
  lemma FaultRuns(env: Env, m: Machine, p: nat, areas: seq<Area>, table: map<nat, Pte>, v: nat, ppn: nat, cached: nat)
    requires env.codec.Lossless() && Inv(m) && p in m.spaces && m.spaces[p] == Space(areas, table)
    requires InMemory(ppn) !in m.store && Serves(env, m, p, v, cached)
    requires PagesOk(areas, table) && HeldOk(areas, m.store)
    ensures SpaceOk(Space(areas, table))
    ensures forall u :: u in Slots(areas) && Slots(areas)[u].frame != Unallocated ==> Slots(areas)[u].frame in m.store
    ensures var r := DoPageFault(env, View(Space(areas, table), m.store), v, ppn, cached);
            r.Fixed? ==> Reaches(env.codec, m, WithView(m, p, r.view))
  {
    var size := SizeFor(env, m, p, v);
    SpaceIsOk(areas, table, m.store);
    FaultReady(m, p);
    FaultSame(env, m, p, v, ppn, cached);
    ReachesSelf(env.codec, m);
    ReachesStep(env.codec, m, m, Fault(p, v, ppn, size), Faulted(env.codec, m, p, v, ppn, size));
  }

  /** Moving a page out of memory is an eviction step, forced or not. */
  lemma EvictRuns(codec: Codec, m: Machine, p: nat, areas: seq<Area>, table: map<nat, Pte>, i: nat, k: nat, to: Frame, force: bool)
    requires codec.Lossless() && Inv(m) && p in m.spaces && m.spaces[p] == Space(areas, table)
    requires WellFormed(areas) && i < |areas| && k < |areas[i].frames| && areas[i].frames[k] in m.store
    requires CanEvict(m, p, areas[i].start + k, to, force)
    ensures var f := areas[i].frames[k];
            Reaches(codec, m, WithView(m, p, View(Space(areas[i := Reclaim.Evicted(areas[i], k, to)], table - {areas[i].start + k}),
                                                Fresh(Release(m.store, f), to, Reclaim.Packed(codec, to, AsPage(m.store[f].data))))))
  {
    var v := areas[i].start + k;
    SlotAtIndex(areas, i, v);
    RebindSpace(areas, table, i, Reclaim.Evicted(areas[i], k, to), v, to, None);
    ReachesSelf(codec, m);
    ReachesStep(codec, m, m, Evict(p, v, to, force), Evicted(codec, m, p, v, to, force));
  }
}
