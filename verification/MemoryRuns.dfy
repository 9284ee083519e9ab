/** One address space inside the paging machine. A change of its areas, table and the store is sound if,
    in every machine that holds the space, the machine reaches the changed state by a run of its steps;
    such changes compose, so every sequence of calls is a run. */
module MemoryRuns {
  import opened Basics
  import opened PagedMemory
  import opened PagingMachine
  import opened PagingRuns
  import opened PagingCalls
  import opened MapAreas
  import opened MunmapFrames
  import opened AreaLists
  import opened Spaces
  import ProtectAreas
  import Reclaim
  import opened ForkSteps

  /** An address space and the store all spaces share. */
  datatype Memory = Memory(areas: seq<Area>, table: map<nat, Pte>, store: Store)

  /** Space `p` of the machine is this one. */
  ghost predicate Matches(m: Machine, p: nat, s: Memory) {
    Inv(m) && p in m.spaces && m.spaces[p] == Space(s.areas, s.table) && m.store == s.store
  }

  ghost function Updated(m: Machine, p: nat, s: Memory): Machine {
    WithView(m, p, View(Space(s.areas, s.table), s.store))
  }

  /** What a call relies on outside the space: nothing, the contents of a file, or also the frame in which
      the page cache holds them. */
  datatype Need = Nothing | FileHas(pos: FilePos, page: Page) | CacheHas(pos: FilePos, page: Page, ppn: nat)

  ghost predicate Meets(m: Machine, need: Need) {
    match need
    case Nothing => true
    case FileHas(pos, page) => FileBytes(m, pos) == page
    case CacheHas(pos, page, ppn) =>
      FileBytes(m, pos) == page && Aligned(pos) && KeyOf(pos) in m.cache && m.cache[KeyOf(pos)] == ppn
  }

  ghost predicate LeadsAt(codec: Codec, need: Need, s: Memory, s': Memory, m: Machine, p: nat) {
    Matches(m, p, s) && Meets(m, need) ==> Reaches(codec, m, Updated(m, p, s')) && Matches(Updated(m, p, s'), p, s')
  }

  /** In every machine with this space that has what is needed, the change from `s` to `s'` is a run. */
  ghost predicate Leads(codec: Codec, need: Need, s: Memory, s': Memory) {
    forall m: Machine, p: nat {:trigger LeadsAt(codec, need, s, s', m, p)} :: LeadsAt(codec, need, s, s', m, p)
  }

  /** The same for every compressor, with nothing needed. */
  ghost predicate AlwaysLeads(s: Memory, s': Memory) {
    forall codec: Codec {:trigger Leads(codec, Nothing, s, s')} :: codec.Lossless() ==> Leads(codec, Nothing, s, s')
  }

  lemma ReachesMatches(codec: Codec, m: Machine, p: nat, s: Memory)
    requires codec.Lossless() && p in m.spaces && Reaches(codec, m, Updated(m, p, s))
    ensures Matches(Updated(m, p, s), p, s)
  {
    var m' := Updated(m, p, s);
    var ms, steps :| RunFrom(codec, m, ms, steps, m');
    RunInv(codec, ms, steps, |steps|);
  }

  lemma LeadsSame(codec: Codec, need: Need, s: Memory, s': Memory)
    requires codec.Lossless() && s'.store == s.store && Space(s'.areas, s'.table) == Space(s.areas, s.table)
    ensures Leads(codec, need, s, s')
  {
    forall m: Machine, p: nat
      ensures LeadsAt(codec, need, s, s', m, p)
    {
      if Matches(m, p, s) {
        assert Updated(m, p, s') == m;
        ReachesSelf(codec, m);
      }
    }
  }

  lemma AlwaysSame(s: Memory)
    ensures AlwaysLeads(s, s)
  {
    forall codec: Codec | codec.Lossless()
      ensures Leads(codec, Nothing, s, s)
    {
      LeadsSame(codec, Nothing, s, s);
    }
  }

  /** Changes compose. */
  lemma LeadsTwice(codec: Codec, need: Need, s: Memory, t: Memory, u: Memory)
    requires codec.Lossless() && Leads(codec, need, s, t) && Leads(codec, Nothing, t, u)
    ensures Leads(codec, need, s, u)
  {
    forall m: Machine, p: nat
      ensures LeadsAt(codec, need, s, u, m, p)
    {
      if Matches(m, p, s) && Meets(m, need) {
        assert LeadsAt(codec, need, s, t, m, p);
        var now := Updated(m, p, t);
        assert LeadsAt(codec, Nothing, t, u, now, p);
        assert Updated(now, p, u) == Updated(m, p, u);
        ReachesTwice(codec, m, now, Updated(m, p, u));
      }
    }
  }

  lemma AlwaysTwice(s: Memory, t: Memory, u: Memory)
    requires AlwaysLeads(s, t) && AlwaysLeads(t, u)
    ensures AlwaysLeads(s, u)
  {
    forall codec: Codec | codec.Lossless()
      ensures Leads(codec, Nothing, s, u)
    {
      assert Leads(codec, Nothing, s, t) && Leads(codec, Nothing, t, u);
      LeadsTwice(codec, Nothing, s, t, u);
    }
  }

  // ---------------------------------------------------------------- each method

  lemma MunmapLeads(s: Memory, store': Store, lo: nat, hi: nat)
    requires WellFormed(s.areas) && lo < hi && forall f :: Lowered(s.store, store', f, PageCount(s.areas, lo, hi, f))
    ensures AlwaysLeads(s, Memory(MunmapAreas(s.areas, lo, hi), s.table - Range(lo, hi), store'))
  {
    var s' := Memory(MunmapAreas(s.areas, lo, hi), s.table - Range(lo, hi), store');
    forall codec: Codec | codec.Lossless()
      ensures Leads(codec, Nothing, s, s')
    {
      forall m: Machine, p: nat
        ensures LeadsAt(codec, Nothing, s, s', m, p)
      {
        if Matches(m, p, s) {
          MunmapRuns(codec, m, p, s.areas, s.table, store', lo, hi);
          ReachesMatches(codec, m, p, s');
        }
      }
    }
  }

  lemma MprotectLeads(s: Memory, i: nat, lo: nat, hi: nat, perm: Perm)
    requires WellFormed(s.areas) && i < |s.areas| && AreaOk(s.areas[i]) && s.areas[i].start <= lo < hi <= s.areas[i].End()
    ensures AlwaysLeads(s, Memory(ProtectAreas.Protected(s.areas, i, lo, hi, perm),
                                  ProtectAreas.ProtectTable(s.table, lo, hi, perm), s.store))
  {
    var s' := Memory(ProtectAreas.Protected(s.areas, i, lo, hi, perm), ProtectAreas.ProtectTable(s.table, lo, hi, perm), s.store);
    forall codec: Codec | codec.Lossless()
      ensures Leads(codec, Nothing, s, s')
    {
      forall m: Machine, p: nat
        ensures LeadsAt(codec, Nothing, s, s', m, p)
      {
        if Matches(m, p, s) {
          MprotectRuns(codec, m, p, s.areas, s.table, i, lo, hi, perm);
          ReachesMatches(codec, m, p, s');
        }
      }
    }
  }

  /** The pages of a new area, and nothing else, are added. */
  ghost predicate AddsArea(areas: seq<Area>, areas': seq<Area>, b: Area) {
    && (forall u: nat :: b.Has(u) ==> SlotAt(areas, u).None?)
    && (forall u: nat :: SlotAt(areas', u) == if b.Has(u) then Some(Slot(b.perm, Unallocated, b.FileAt(u))) else SlotAt(areas, u))
  }

  lemma InsertLeads(s: Memory, areas': seq<Area>, b: Area)
    requires AddsArea(s.areas, areas', b)
    ensures AlwaysLeads(s, s.(areas := areas'))
  {
    var s' := s.(areas := areas');
    forall codec: Codec | codec.Lossless()
      ensures Leads(codec, Nothing, s, s')
    {
      forall m: Machine, p: nat
        ensures LeadsAt(codec, Nothing, s, s', m, p)
      {
        if Matches(m, p, s) {
          InsertRuns(codec, m, p, s.areas, areas', s.table, b);
          ReachesMatches(codec, m, p, s');
        }
      }
    }
  }

  /** What a fault at `v` needs of the file behind it. */
  ghost function FaultNeeds(env: Env, areas: seq<Area>, v: nat, cached: nat): Need {
    match SlotAt(areas, v)
    case None => Nothing
    case Some(s) =>
      if s.file.None? then Nothing
      else if s.perm.w then FileHas(s.file.value, env.filePage(s.file.value))
      else CacheHas(s.file.value, env.filePage(s.file.value), cached)
  }

  lemma FaultLeads(env: Env, s: Memory, s': Memory, v: nat, ppn: nat, cached: nat)
    requires env.codec.Lossless() && PagesOk(s.areas, s.table) && HeldOk(s.areas, s.store) && InMemory(ppn) !in s.store
    requires SpaceOk(Space(s.areas, s.table))
    requires forall u :: u in Slots(s.areas) && Slots(s.areas)[u].frame != Unallocated ==> Slots(s.areas)[u].frame in s.store
    requires DoPageFault(env, View(Space(s.areas, s.table), s.store), v, ppn, cached) ==
             Fixed(View(Space(s'.areas, s'.table), s'.store))
    ensures Leads(env.codec, FaultNeeds(env, s.areas, v, cached), s, s')
  {
    var need := FaultNeeds(env, s.areas, v, cached);
    forall m: Machine, p: nat
      ensures LeadsAt(env.codec, need, s, s', m, p)
    {
      if Matches(m, p, s) && Meets(m, need) {
        assert SlotAt(s.areas, v).Some? <==> v in Slots(s.areas);
        assert Serves(env, m, p, v, cached);
        FaultRuns(env, m, p, s.areas, s.table, v, ppn, cached);
        ReachesMatches(env.codec, m, p, s');
      }
    }
  }

  /** Moving page `k` of area `i` out of memory, forced or because its frame has one handle. */
  lemma EvictLeads(codec: Codec, s: Memory, i: nat, k: nat, to: Frame, force: bool)
    requires codec.Lossless() && WellFormed(s.areas) && i < |s.areas| && k < |s.areas[i].frames| && s.areas[i].file.None?
    requires s.areas[i].frames[k].InMemory? && s.areas[i].frames[k] in s.store
    requires force || s.store[s.areas[i].frames[k]].refs == 1
    requires to !in s.store && (to.SwappedOut? || (to.Compressed? && !force))
    ensures var f := s.areas[i].frames[k];
            Leads(codec, Nothing, s, Memory(s.areas[i := Reclaim.Evicted(s.areas[i], k, to)], s.table - {s.areas[i].start + k},
                                     Fresh(Release(s.store, f), to, Reclaim.Packed(codec, to, AsPage(s.store[f].data)))))
  {
    var f, v := s.areas[i].frames[k], s.areas[i].start + k;
    var s' := Memory(s.areas[i := Reclaim.Evicted(s.areas[i], k, to)], s.table - {v},
                     Fresh(Release(s.store, f), to, Reclaim.Packed(codec, to, AsPage(s.store[f].data))));
    forall m: Machine, p: nat
      ensures LeadsAt(codec, Nothing, s, s', m, p)
    {
      if Matches(m, p, s) {
        SlotAtIndex(s.areas, i, v);
        assert SlotAt(s.areas, v).Some? <==> v in Slots(s.areas);
        EvictRuns(codec, m, p, s.areas, s.table, i, k, to, force);
        ReachesMatches(codec, m, p, s');
      }
    }
  }

  /** A list of reclaimable pages is no part of any page. */
  lemma ActiveLeads(codec: Codec, s: Memory, i: nat, active: seq<U16>)
    requires codec.Lossless() && WellFormed(s.areas) && i < |s.areas|
    ensures Leads(codec, Nothing, s, s.(areas := s.areas[i := s.areas[i].(active := active)]))
  {
    var areas' := s.areas[i := s.areas[i].(active := active)];
    var a, b := Slots(s.areas), Slots(areas');
    forall u: nat
      ensures (u in a <==> u in b) && (u in a ==> a[u] == b[u])
    {
      ReplaceSlot(s.areas, i, s.areas[i].(active := active), u);
      if s.areas[i].Has(u) {
        SlotAtIndex(s.areas, i, u);
      }
      assert SlotAt(s.areas, u).Some? <==> u in a;
      assert SlotAt(areas', u).Some? <==> u in b;
    }
    assert a == b;
    LeadsSame(codec, Nothing, s, s.(areas := areas'));
  }

  // ---------------------------------------------------------------- fork

  ghost function Split(m: Machine, p: nat, parent: Memory, q: nat, child: Memory): Machine {
    m.(spaces := m.spaces[p := Space(parent.areas, parent.table)][q := Space(child.areas, child.table)], store := child.store)
  }

  ghost predicate ForksAt(codec: Codec, s: Memory, parent: Memory, child: Memory, m: Machine, p: nat, q: nat) {
    codec.Lossless() && Matches(m, p, s) && q !in m.spaces ==>
      var m' := Split(m, p, parent, q, child);
      Reaches(codec, m, m') && Matches(m', p, parent) && Matches(m', q, child)
  }

  /** In every machine with this space, the fork into `parent` and `child` is a run. */
  ghost predicate Forks(s: Memory, parent: Memory, child: Memory) {
    && parent.store == child.store
    && forall codec: Codec, m: Machine, p: nat, q: nat {:trigger ForksAt(codec, s, parent, child, m, p, q)} ::
         ForksAt(codec, s, parent, child, m, p, q)
  }

  lemma ForkLeads(s: Memory, parent: map<nat, Pte>, shared: map<nat, Pte>, store1: Store, ppn: nat, page: Page)
    requires WellFormed(s.areas) && HasTrap(s.areas) && InMemory(ppn) !in s.store
    requires Forked(s.areas[..|s.areas| - 1], s.table, parent, shared) && RaisedAll(s.store, store1, s.areas[..|s.areas| - 1])
    ensures var trap, store' := s.areas[|s.areas| - 1], Fresh(store1, InMemory(ppn), page);
            Forks(s, Memory(s.areas, parent, store'),
                  Memory(Child(s.areas, ppn), shared[trap.start := Pte(ppn, trap.perm)], store'))
  {
    var trap, store' := s.areas[|s.areas| - 1], Fresh(store1, InMemory(ppn), page);
    var s1, s2 := Memory(s.areas, parent, store'), Memory(Child(s.areas, ppn), shared[trap.start := Pte(ppn, trap.perm)], store');
    forall codec: Codec, m: Machine, p: nat, q: nat
      ensures ForksAt(codec, s, s1, s2, m, p, q)
    {
      if codec.Lossless() && Matches(m, p, s) && q !in m.spaces {
        ForkRuns(codec, m, p, q, s.areas, s.table, parent, shared, store1, ppn, page);
        var m' := Split(m, p, s1, q, s2);
        var ms, steps :| RunFrom(codec, m, ms, steps, m');
        RunInv(codec, ms, steps, |steps|);
      }
    }
  }

  // ---------------------------------------------------------------- any sequence of calls

  /** What one space does in one call, as a method of the memory set leaves it. */
  ghost predicate CallBy(codec: Codec, m: Machine, m': Machine, p: nat, need: Need, s: Memory, s': Memory) {
    Matches(m, p, s) && Meets(m, need) && Leads(codec, need, s, s') && m' == Updated(m, p, s')
  }

  ghost predicate ForkBy(m: Machine, m': Machine, p: nat, q: nat, s: Memory, parent: Memory, child: Memory) {
    Matches(m, p, s) && q !in m.spaces && Forks(s, parent, child) && m' == Split(m, p, parent, q, child)
  }

  /** A call of some space, a fork, or a single step: a store by a program or by the kernel for it, a
      write to a file, the page cache at work. */
  ghost predicate Acts(codec: Codec, m: Machine, m': Machine) {
    || (exists p, need, s, s' :: CallBy(codec, m, m', p, need, s, s'))
    || (exists p, q, s, parent, child :: ForkBy(m, m', p, q, s, parent, child))
    || (exists step :: Next(codec, m, step, m'))
  }

  lemma ActReaches(codec: Codec, m: Machine, m': Machine)
    requires codec.Lossless() && Inv(m) && Acts(codec, m, m')
    ensures Reaches(codec, m, m')
  {
    if p, need, s, s' :| CallBy(codec, m, m', p, need, s, s') {
      assert LeadsAt(codec, need, s, s', m, p);
    } else if p, q, s, parent, child :| ForkBy(m, m', p, q, s, parent, child) {
      assert ForksAt(codec, s, parent, child, m, p, q);
    } else {
      var step :| Next(codec, m, step, m');
      ReachesSelf(codec, m);
      ReachesStep(codec, m, m, step, m');
    }
  }

  ghost predicate ActAt(codec: Codec, ms: seq<Machine>, i: nat)
    requires i + 1 < |ms|
  {
    Acts(codec, ms[i], ms[i + 1])
  }

  /** Any sequence of calls by any spaces, in any order, is a run of the machine. */
  lemma {:induction false} CallsReach(codec: Codec, ms: seq<Machine>, k: nat)
    requires codec.Lossless() && k < |ms| && Inv(ms[0])
    requires forall i: nat {:trigger ActAt(codec, ms, i)} :: i + 1 < |ms| ==> ActAt(codec, ms, i)
    ensures Reaches(codec, ms[0], ms[k]) && Inv(ms[k])
  {
    if k == 0 {
      ReachesSelf(codec, ms[0]);
    } else {
      CallsReach(codec, ms, k - 1);
      assert ActAt(codec, ms, k - 1);
      ActReaches(codec, ms[k - 1], ms[k]);
      ReachesTwice(codec, ms[0], ms[k - 1], ms[k]);
    }
  }

  /** So after any sequence of calls a writable entry leads to a frame with exactly one handle, and a
      page has an entry exactly if it is in memory. */
  lemma CallsSafe(codec: Codec, ms: seq<Machine>, k: nat, p: nat, v: nat)
    requires codec.Lossless() && k < |ms| && Inv(ms[0])
    requires forall i: nat {:trigger ActAt(codec, ms, i)} :: i + 1 < |ms| ==> ActAt(codec, ms, i)
    requires p in ms[k].spaces && v in ms[k].spaces[p].slots
    ensures v in ms[k].spaces[p].table <==> ms[k].spaces[p].slots[v].frame.InMemory?
    ensures v in ms[k].spaces[p].table && ms[k].spaces[p].table[v].perm.w ==>
              var m, f := ms[k], InMemory(ms[k].spaces[p].table[v].ppn);
              f in m.store && m.store[f].refs == 1 && Holders(m, f) == {(p, v)} && Others(m, f) == 0
  {
    CallsReach(codec, ms, k);
    assert SlotOk(ms[k], p, v);
    if v in ms[k].spaces[p].table && ms[k].spaces[p].table[v].perm.w {
      WritableIsSole(ms[k], p, v);
    }
  }
}
