/** What `mprotect`, fork, a page fault and MAP_FIXED leave, read off areas, page table and store field
    by field, and when a fault is refused. */
module CallOutcomes {
  import opened Basics
  import opened PagedMemory
  import opened MapAreas
  import opened MunmapFrames
  import opened Spaces
  import opened AreaLists
  import opened ProtectAreas
  import opened AreaFaults
  import opened ForkSteps
  import opened MunmapSteps

  /** The page and its entry are what they were. */
  ghost predicate Untouched(areas: seq<Area>, table: map<nat, Pte>, areas': seq<Area>, table': map<nat, Pte>, v: nat) {
    SlotAt(areas', v) == SlotAt(areas, v) && (v in table' <==> v in table) && (v in table ==> table'[v] == table[v])
  }

  /** Some area ends above `lo` and starts no higher than `hi`: to touch it from below is enough. */
  ghost predicate SomeMeets(areas: seq<Area>, lo: nat, hi: nat) {
    exists i :: 0 <= i < |areas| && lo < areas[i].start + |areas[i].frames| && areas[i].start <= hi
  }

  // ---------------------------------------------------------------- mprotect

  /** Bit 0 of `prot` is R, bit 1 is W, bit 2 is X. The page gets them with U and keeps its frame and its
      file position; its entry, if it has one, gets them without W and keeps its frame. */
  ghost predicate GetsBits(areas: seq<Area>, table: map<nat, Pte>, areas': seq<Area>, table': map<nat, Pte>, prot: nat, v: nat) {
    && (v in table' <==> v in table)
    && (v in table ==>
          && table'[v].ppn == table[v].ppn
          && (table'[v].perm.r <==> prot % 2 == 1) && !table'[v].perm.w && (table'[v].perm.x <==> prot / 4 % 2 == 1)
          && table'[v].perm.u)
    && SlotAt(areas, v).Some? && SlotAt(areas', v).Some?
    && var s, s' := SlotAt(areas, v).value, SlotAt(areas', v).value;
       && s'.frame == s.frame && s'.file == s.file
       && (s'.perm.r <==> prot % 2 == 1) && (s'.perm.w <==> prot / 2 % 2 == 1) && (s'.perm.x <==> prot / 4 % 2 == 1) && s'.perm.u
  }

  ghost predicate ProtectsAt(areas: seq<Area>, table: map<nat, Pte>, areas': seq<Area>, table': map<nat, Pte>,
                             lo: nat, hi: nat, prot: nat, v: nat)
  {
    if lo <= v < hi then GetsBits(areas, table, areas', table', prot, v) else Untouched(areas, table, areas', table', v)
  }

  /** What a successful `mprotect` of the pages [lo, hi) does. */
  ghost predicate Protects(areas: seq<Area>, table: map<nat, Pte>, areas': seq<Area>, table': map<nat, Pte>, lo: nat, hi: nat, prot: nat) {
    forall v: nat {:trigger ProtectsAt(areas, table, areas', table', lo, hi, prot, v)} ::
      ProtectsAt(areas, table, areas', table', lo, hi, prot, v)
  }

  /** The permission bits of an `mprotect` call; user access is always added. */
  function PermOf(prot: nat): Perm {
    Perm(prot % 2 == 1, prot / 2 % 2 == 1, prot / 4 % 2 == 1, true)
  }

  lemma ProtectedBits(areas: seq<Area>, table: map<nat, Pte>, i: nat, lo: nat, hi: nat, prot: nat)
    requires WellFormed(areas) && i < |areas| && AreaOk(areas[i]) && areas[i].start <= lo < hi <= areas[i].End()
    ensures Protects(areas, table, Protected(areas, i, lo, hi, PermOf(prot)), ProtectTable(table, lo, hi, PermOf(prot)), lo, hi, prot)
  {
    var areas', table' := Protected(areas, i, lo, hi, PermOf(prot)), ProtectTable(table, lo, hi, PermOf(prot));
    forall v: nat
      ensures ProtectsAt(areas, table, areas', table', lo, hi, prot, v)
    {
      ProtectedSlot(areas, i, lo, hi, PermOf(prot), v);
      ProtectTableAt(table, lo, hi, PermOf(prot), v);
    }
  }

  // ---------------------------------------------------------------- fork

  /** An entry that lost W and nothing else. */
  predicate OnlyLosesW(e: Pte, e': Pte) {
    e'.ppn == e.ppn && (e'.perm.r <==> e.perm.r) && !e'.perm.w && (e'.perm.x <==> e.perm.x) && (e'.perm.u <==> e.perm.u)
  }

  /** A page other than the trap context: the child has it in the same frame; an entry of the parent loses
      W, and the child's has the permission of the area without W. */
  ghost predicate SharesAt(areas: seq<Area>, table: map<nat, Pte>, table': map<nat, Pte>,
                           childAreas: seq<Area>, childTable: map<nat, Pte>, v: nat)
  {
    && SlotAt(childAreas, v) == SlotAt(areas, v)
    && (v in table' <==> v in table) && (v in childTable <==> v in table)
    && (v in table ==>
          && SlotAt(areas, v).Some? && OnlyLosesW(table[v], table'[v])
          && childTable[v].ppn == table[v].ppn
          && OnlyLosesW(Pte(table[v].ppn, SlotAt(areas, v).value.perm), childTable[v]))
  }

  /** The trap context: the parent's is as before, the child's is in a frame of its own. */
  ghost predicate TrapAt(areas: seq<Area>, table: map<nat, Pte>, table': map<nat, Pte>,
                         childAreas: seq<Area>, childTable: map<nat, Pte>, ppn: nat, v: nat)
  {
    && (v in table' <==> v in table) && (v in table ==> table'[v] == table[v])
    && SlotAt(areas, v).Some? && v in childTable
    && var s := SlotAt(areas, v).value;
       SlotAt(childAreas, v) == Some(Slot(s.perm, InMemory(ppn), s.file)) && childTable[v] == Pte(ppn, s.perm)
  }

  ghost predicate ForksAt(areas: seq<Area>, table: map<nat, Pte>, table': map<nat, Pte>,
                          childAreas: seq<Area>, childTable: map<nat, Pte>, ppn: nat, v: nat)
  {
    areas != [] &&
    if v == areas[|areas| - 1].start then TrapAt(areas, table, table', childAreas, childTable, ppn, v)
    else SharesAt(areas, table, table', childAreas, childTable, v)
  }

  /** What a fork does to the two page tables and gives the child. */
  ghost predicate ForksPages(areas: seq<Area>, table: map<nat, Pte>, table': map<nat, Pte>,
                             childAreas: seq<Area>, childTable: map<nat, Pte>, ppn: nat)
  {
    forall v: nat {:trigger ForksAt(areas, table, table', childAreas, childTable, ppn, v)} ::
      ForksAt(areas, table, table', childAreas, childTable, ppn, v)
  }

  lemma ForkedPages(areas: seq<Area>, table: map<nat, Pte>, parent: map<nat, Pte>, child: map<nat, Pte>, ppn: nat)
    requires WellFormed(areas) && HasTrap(areas) && PagesOk(areas, table)
    requires Forked(areas[..|areas| - 1], table, parent, child)
    ensures var trap := areas[|areas| - 1];
            ForksPages(areas, table, parent, Child(areas, ppn), child[trap.start := Pte(ppn, trap.perm)], ppn)
  {
    var trap := areas[|areas| - 1];
    var child' := child[trap.start := Pte(ppn, trap.perm)];
    forall v: nat
      ensures ForksAt(areas, table, parent, Child(areas, ppn), child', ppn, v)
    {
      assert ForkedAt(areas[..|areas| - 1], table, parent, child, v) && PageOk(areas, table, v);
      ChildSlot(areas, ppn, v);
      if v == trap.start {
        SlotAtIndex(areas, |areas| - 1, v);
      }
    }
  }

  // ---------------------------------------------------------------- when a fault is refused

  /** The area has the page and lets programs read it. */
  predicate UserArea(a: Area, v: nat) {
    a.perm.r && a.perm.u && a.start <= v < a.start + |a.frames|
  }

  /** The page lies past the end of its file, rounded up to whole pages. */
  predicate PastEnd(a: Area, v: nat, size: nat -> nat)
    requires a.start <= v
  {
    a.file.Some? &&
    a.file.value.base + (a.file.value.page + (v - a.start)) * 4096 > (size(a.file.value.file) + 4095) / 4096 * 4096
  }

  /** What the fault handler does on the pages of an address space. */
  ghost function FaultOutcome(env: Env, areas: seq<Area>, table: map<nat, Pte>, store: Store, v: nat, ppn: nat, cached: nat): FaultResult
    requires PagesOk(areas, table) && HeldOk(areas, store)
  {
    SpaceIsOk(areas, table, store);
    DoPageFault(env, View(Space(areas, table), store), v, ppn, cached)
  }

  lemma NoUserPage(areas: seq<Area>, v: nat)
    requires WellFormed(areas) && forall i :: 0 <= i < |areas| ==> !UserArea(areas[i], v)
    ensures SlotAt(areas, v).Some? ==> !(SlotAt(areas, v).value.perm.r && SlotAt(areas, v).value.perm.u)
  {
    if i :| 0 <= i < |areas| && areas[i].Has(v) {
      SlotAtIndex(areas, i, v);
    } else {
      SlotAtNone(areas, v);
    }
  }

  /** Refused, and how: no area with R and U has the page; the page is not mapped and past the end of its
      file; it is mapped and its area lacks W. Every other fault is served. */
  ghost predicate RefusedAs(env: Env, areas: seq<Area>, table: map<nat, Pte>, v: nat, error: Option<MemoryError>) {
    && (error == Some(BadAddress) <==> forall i :: 0 <= i < |areas| ==> !UserArea(areas[i], v))
    && (error == Some(BeyondEOF) <==>
          exists i :: 0 <= i < |areas| && UserArea(areas[i], v) && v !in table && PastEnd(areas[i], v, env.fileSize))
    && (error == Some(NoPermission) <==> exists i :: 0 <= i < |areas| && UserArea(areas[i], v) && v in table && !areas[i].perm.w)
    && (error == None <==>
          exists i :: 0 <= i < |areas| && UserArea(areas[i], v) &&
            if v in table then areas[i].perm.w else !PastEnd(areas[i], v, env.fileSize))
  }

  lemma OneUserArea(areas: seq<Area>, v: nat, i: nat, j: nat)
    requires WellFormed(areas) && i < |areas| && j < |areas| && UserArea(areas[i], v) && UserArea(areas[j], v)
    ensures i == j
  {
    assert i < j ==> Separate(areas[i], areas[j]);
    assert j < i ==> Separate(areas[j], areas[i]);
  }

  lemma FaultRefused(env: Env, areas: seq<Area>, table: map<nat, Pte>, store: Store, v: nat, ppn: nat, cached: nat)
    requires WellFormed(areas) && PagesOk(areas, table) && HeldOk(areas, store)
    ensures RefusedAs(env, areas, table, v, match FaultOutcome(env, areas, table, store, v, ppn, cached)
                                            case Fixed(_) => None case Failed(e) => Some(e))
  {
    SpaceIsOk(areas, table, store);
    assert PageOk(areas, table, v);
    if i :| 0 <= i < |areas| && UserArea(areas[i], v) {
      SlotAtIndex(areas, i, v);
      forall j | 0 <= j < |areas| && UserArea(areas[j], v)
        ensures j == i
      {
        OneUserArea(areas, v, i, j);
      }
    } else {
      NoUserPage(areas, v);
    }
  }

  // ---------------------------------------------------------------- what a served fault leaves

  /** One handle more of `f`, and nothing else. */
  ghost predicate OneMore(store: Store, store': Store, f: Frame) {
    forall g {:trigger g in store'} :: (g in store' <==> g in store) &&
      (g in store ==> store'[g].data == store[g].data && store'[g].refs == store[g].refs + if g == f then 1 else 0)
  }

  /** A tracker `to` of one handle with `data`, one handle less of `from`, and nothing else. */
  ghost predicate Moves(store: Store, store': Store, from: Frame, to: Frame, data: seq<bv8>) {
    && to in store' && store'[to] == Cell(1, data)
    && forall g {:trigger Lowered(store, store', g, if g == from then 1 else 0)} ::
         g != to ==> Lowered(store, store', g, if g == from then 1 else 0)
  }

  /** The bytes a page comes in with: those of its frame, of its file, zeros, or those of its tracker. */
  ghost predicate ComesWith(env: Env, store: Store, s: Slot, mapped: bool, data: seq<bv8>) {
    if mapped || s.frame.SwappedOut? then s.frame in store && (|store[s.frame].data| == 4096 ==> data == store[s.frame].data)
    else if s.file.Some? then data == env.filePage(s.file.value)
    else if s.frame.Compressed? then s.frame in store && data == env.codec.decompress(store[s.frame].data)
    else |data| == 4096 && forall k :: 0 <= k < 4096 ==> data[k] == 0
  }

  /** The page is mapped with all permissions of its area: in the frame it had, if that has no other
      handle; in the frame of the page cache, if it is a page of a file that cannot be written; else in
      the new frame `ppn`. No other page or entry changes. */
  ghost predicate Serves(env: Env, areas: seq<Area>, table: map<nat, Pte>, store: Store,
                         areas': seq<Area>, table': map<nat, Pte>, store': Store, v: nat, ppn: nat, cached: nat)
  {
    && SlotAt(areas, v).Some? && v in table'
    && (forall u: nat {:trigger Untouched(areas, table, areas', table', u)} :: u != v ==> Untouched(areas, table, areas', table', u))
    && var s, now := SlotAt(areas, v).value, table'[v].ppn;
       && table'[v].perm == s.perm && SlotAt(areas', v) == Some(Slot(s.perm, InMemory(now), s.file))
       && if v in table && s.frame in store && store[s.frame].refs == 1 then now == table[v].ppn && store' == store
          else if v !in table && s.file.Some? && !s.perm.w then now == cached && OneMore(store, store', InMemory(cached))
          else now == ppn && exists data :: ComesWith(env, store, s, v in table, data) && Moves(store, store', s.frame, InMemory(ppn), data)
  }

  lemma SpaceSame(areas: seq<Area>, areas': seq<Area>, u: nat)
    requires (u in Slots(areas') <==> u in Slots(areas)) && (u in Slots(areas) ==> Slots(areas')[u] == Slots(areas)[u])
    ensures SlotAt(areas', u) == SlotAt(areas, u)
  {
    assert SlotAt(areas, u).Some? <==> u in Slots(areas);
    assert SlotAt(areas', u).Some? <==> u in Slots(areas');
  }

  lemma BringInMoves(store: Store, from: Frame, ppn: nat, data: seq<bv8>)
    requires Counted(store) && InMemory(ppn) !in store
    ensures Moves(store, Fresh(Release(store, from), InMemory(ppn), data), from, InMemory(ppn), data)
  {
  }

  /** One page has another frame and entry. */
  lemma RestUntouched(areas: seq<Area>, table: map<nat, Pte>, areas': seq<Area>, table': map<nat, Pte>, v: nat, f: Frame, e: Pte)
    requires v in Slots(areas) && AddrSpace(Slots(areas'), table') == PutFrame(Space(areas, table), v, f, Some(e))
    ensures SlotAt(areas', v) == Some(SlotAt(areas, v).value.(frame := f)) && v in table' && table'[v] == e
    ensures forall u: nat {:trigger Untouched(areas, table, areas', table', u)} :: u != v ==> Untouched(areas, table, areas', table', u)
  {
    forall u: nat | u != v
      ensures Untouched(areas, table, areas', table', u)
    {
      SpaceSame(areas, areas', u);
    }
    assert SlotAt(areas', v).Some? <==> v in Slots(areas');
  }

  lemma FaultServes(env: Env, areas: seq<Area>, table: map<nat, Pte>, store: Store,
                    areas': seq<Area>, table': map<nat, Pte>, store': Store, v: nat, ppn: nat, cached: nat)
    requires WellFormed(areas) && PagesOk(areas, table) && HeldOk(areas, store) && Counted(store) && InMemory(ppn) !in store
    requires FaultOutcome(env, areas, table, store, v, ppn, cached) == Fixed(View(Space(areas', table'), store'))
    requires SlotAt(areas, v).Some? && SlotAt(areas, v).value.file.Some? ==> InMemory(cached) in store
    ensures Serves(env, areas, table, store, areas', table', store', v, ppn, cached)
  {
    SpaceIsOk(areas, table, store);
    assert PageOk(areas, table, v);
    assert SlotAt(areas, v).Some? <==> v in Slots(areas);
    var s := SlotAt(areas, v).value;
    if v in table && store[s.frame].refs == 1 {
      var e := table[v].(perm := s.perm);
      assert Slots(areas)[v := s.(frame := s.frame)] == Slots(areas);
      RestUntouched(areas, table, areas', table', v, s.frame, e);
    } else if v !in table && s.file.Some? && !s.perm.w {
      RestUntouched(areas, table, areas', table', v, InMemory(cached), Pte(cached, s.perm));
    } else {
      RestUntouched(areas, table, areas', table', v, InMemory(ppn), Pte(ppn, s.perm));
      var data := store'[InMemory(ppn)].data;
      BringInMoves(store, s.frame, ppn, data);
      assert ComesWith(env, store, s, v in table, data);
    }
  }

  // ---------------------------------------------------------------- the bookkeeping of the area

  /** One area has other frames; its page `v` is listed as reclaimable, under its index cut to 16 bits, what
      was listed still is, and the counters say one page less of the kind it was. */
  ghost predicate Relisted(areas: seq<Area>, areas': seq<Area>, v: nat, i: nat) {
    && i < |areas| && areas[i].Has(v) && |areas'| == |areas| && areas' == areas[i := areas'[i]]
    && var k, a, a' := v - areas[i].start, areas[i], areas'[i];
       && k % 65536 in a'.active && (forall x :: x in a.active ==> x in a'.active || x == k)
       && a'.compressed == a.compressed - (if a.frames[k].Compressed? then 1 else 0)
       && a'.swapped == a.swapped - (if a.frames[k].SwappedOut? then 1 else 0)
  }

  lemma FilledRelisted(areas: seq<Area>, i: nat, k: nat, ppn: nat)
    requires i < |areas| && AreaOk(areas[i]) && k < |areas[i].frames| && !areas[i].frames[k].InMemory?
    ensures Relisted(areas, areas[i := Filled(areas[i], k, ppn)], areas[i].start + k, i)
  {
    CounterBounds(areas[i], k);
    assert (areas[i].active + [Name(k)])[|areas[i].active|] == k % 65536;
  }

  lemma ReframedRelisted(areas: seq<Area>, i: nat, k: nat, ppn: nat)
    requires i < |areas| && k < |areas[i].frames| && areas[i].frames[k].InMemory?
    ensures Relisted(areas, areas[i := Reframed(areas[i], k, ppn)], areas[i].start + k, i)
  {
    var a := areas[i];
    var without := Without(a.active, k, |a.active|);
    forall x: nat
      ensures x in without <==> x in a.active && x != k
    {
      WithoutHas(a.active, k, |a.active|, x);
      BeforeAll(a.active, x);
    }
    assert (without + [Name(k)])[|without|] == k % 65536;
  }

  // ---------------------------------------------------------------- where a new area goes

  /** `lead` areas at the front start at or above `end`. */
  predicate Leading(areas: seq<Area>, end: nat, lead: nat) {
    && lead <= |areas| && (forall k :: 0 <= k < lead ==> areas[k].start >= end)
    && (lead < |areas| ==> areas[lead].start < end)
  }

  /** The new area is before the first area, past the leading ones, that starts no lower; else at the end. */
  ghost predicate PutAt(areas: seq<Area>, b: Area, areas': seq<Area>, end: nat, lead: nat, i: nat) {
    && Leading(areas, end, lead) && lead <= i <= |areas|
    && (forall k :: lead <= k < i ==> areas[k].start < b.start) && (i < |areas| ==> areas[i].start >= b.start)
    && areas' == areas[..i] + ([b] + areas[i..])
  }

  ghost predicate PutInOrder(areas: seq<Area>, b: Area, areas': seq<Area>, end: nat) {
    exists lead: nat, i: nat :: PutAt(areas, b, areas', end, lead, i)
  }

  ghost predicate SortedFrom(areas: seq<Area>, lead: nat) {
    forall j, k :: lead <= j < k < |areas| ==> areas[j].start <= areas[k].start
  }

  /** The order past the leading areas is kept. */
  lemma OrderKept(areas: seq<Area>, b: Area, areas': seq<Area>, end: nat, lead: nat, i: nat)
    requires PutAt(areas, b, areas', end, lead, i) && SortedFrom(areas, lead)
    ensures SortedFrom(areas', lead)
  {
    forall j, k | lead <= j < k < |areas'|
      ensures areas'[j].start <= areas'[k].start
    {
      assert areas'[j] == if j < i then areas[j] else if j == i then b else areas[j - 1];
      assert areas'[k] == if k < i then areas[k] else if k == i then b else areas[k - 1];
    }
  }

  /** Some area past the leading ones starts no lower than `start`. */
  ghost predicate SomeAbove(areas: seq<Area>, start: nat, end: nat) {
    exists lead: nat, k: nat :: Leading(areas, end, lead) && lead <= k < |areas| && areas[k].start >= start
  }

  /** Exactly then the area that was last stays last. */
  lemma LastStays(areas: seq<Area>, b: Area, areas': seq<Area>, end: nat)
    requires PutInOrder(areas, b, areas', end) && areas != [] && b !in areas
    ensures areas'[|areas'| - 1] == areas[|areas| - 1] <==> SomeAbove(areas, b.start, end)
  {
    var lead: nat, i: nat :| PutAt(areas, b, areas', end, lead, i);
    assert areas'[|areas'| - 1] == if i == |areas| then b else areas[|areas| - 1];
    if i < |areas| {
      assert Leading(areas, end, lead) && areas[i].start >= b.start;
    }
    forall other: nat | Leading(areas, end, other)
      ensures other == lead
    {
    }
  }

  /** An area that the range does not reach is left alone, so if it was last it is last after `munmap`. */
  lemma LastAfterMunmap(areas: seq<Area>, lo: nat, hi: nat)
    requires lo < hi && AllOk(areas) && areas != []
    requires var last := areas[|areas| - 1]; last.End() <= lo || (hi <= last.start < last.End())
    ensures var after := MunmapAreas(areas, lo, hi); after != [] && after[|after| - 1] == areas[|areas| - 1]
  {
    var n := |areas| - 1;
    var init, last := areas[..n], areas[n];
    assert areas == init + [last];
    assert AreaOk(last);
    forall k | 0 <= k < n
      ensures AreaOk(init[k])
    {
      assert AreaOk(areas[k]);
    }
    MunmapConcat(init, [last], lo, hi);
    assert [last][1..] == [];
    assert MunmapAreas([last], lo, hi) == Cut(last, lo, hi) + MunmapAreas([], lo, hi);
    if hi == last.start {
      ForgetNone(last.active, last.frames, 0, |last.active|);
      assert last.active[..|last.active|] == last.active && last.frames[0..] == last.frames;
    }
    assert Cut(last, lo, hi) == [last];
  }
}
