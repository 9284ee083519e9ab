/** `from_existing_user` on values: areas are cloned one by one, with a handle more for every
    tracker; both page tables end up without W on the shared pages. */
module ForkSteps {
  import opened Basics
  import opened PagedMemory
  import opened MapAreas
  import opened MunmapFrames
  import opened AreaLists
  import opened Spaces
  import opened AreaFaults
  import opened Reclaim

  // ---------------------------------------------------------------- handles

  /** `n` handles of `f` were cloned. */
  predicate Raised(store: Store, store': Store, f: Frame, n: nat) {
    && (f in store' <==> f in store)
    && (f in store ==> store'[f] == store[f].(refs := store[f].refs + n))
  }

  /** The store after the first `n` frames of a vector were cloned. */
  function Cloned(store: Store, frames: seq<Frame>, n: nat): Store
    requires n <= |frames|
  {
    if n == 0 then store else Retain(Cloned(store, frames, n - 1), frames[n - 1])
  }

  lemma {:induction false} ClonedRaises(store: Store, frames: seq<Frame>, n: nat, f: Frame)
    requires n <= |frames|
    ensures Raised(store, Cloned(store, frames, n), f, Count(frames, f, 0, n))
  {
    if n > 0 {
      ClonedRaises(store, frames, n - 1, f);
    }
  }

  ghost predicate RaisedAt(store: Store, store': Store, areas: seq<Area>, f: Frame) {
    Raised(store, store', f, Held(areas, f))
  }

  ghost predicate RaisedAll(store: Store, store': Store, areas: seq<Area>) {
    forall f {:trigger RaisedAt(store, store', areas, f)} :: RaisedAt(store, store', areas, f)
  }

  lemma RaisedStep(store: Store, store': Store, areas: seq<Area>, a: Area)
    requires RaisedAll(store, store', areas)
    ensures RaisedAll(store, Cloned(store', a.frames, |a.frames|), areas + [a])
  {
    var store'', areas' := Cloned(store', a.frames, |a.frames|), areas + [a];
    forall f
      ensures RaisedAt(store, store'', areas', f)
    {
      assert RaisedAt(store, store', areas, f);
      ClonedRaises(store', a.frames, |a.frames|, f);
      HeldConcat(areas, [a], f);
      HeldOne(a, f);
    }
  }

  // ---------------------------------------------------------------- page tables

  /** The parent's table after the entries of [lo, hi) lost W. */
  function BlockTable(table: map<nat, Pte>, lo: nat, hi: nat): map<nat, Pte>
    requires lo <= hi
    decreases hi
  {
    if lo == hi then table
    else
      var t := BlockTable(table, lo, hi - 1);
      if hi - 1 in t then t[hi - 1 := t[hi - 1].(perm := t[hi - 1].perm.NoWrite())] else t
  }

  lemma {:induction false} BlockTableAt(table: map<nat, Pte>, lo: nat, hi: nat, v: nat)
    requires lo <= hi
    ensures v in BlockTable(table, lo, hi) <==> v in table
    ensures v in table ==> BlockTable(table, lo, hi)[v] ==
                           if lo <= v < hi then table[v].(perm := table[v].perm.NoWrite()) else table[v]
    decreases hi
  {
    if lo < hi {
      BlockTableAt(table, lo, hi - 1, v);
    }
  }

  /** The child's table after the entries of [lo, hi) were copied, with the area's permission
      without W. */
  function CopyTable(src: map<nat, Pte>, dst: map<nat, Pte>, lo: nat, hi: nat, perm: Perm): map<nat, Pte>
    requires lo <= hi
    decreases hi
  {
    if lo == hi then dst
    else
      var t := CopyTable(src, dst, lo, hi - 1, perm);
      if hi - 1 in src then t[hi - 1 := Pte(src[hi - 1].ppn, perm.NoWrite())] else t
  }

  lemma {:induction false} CopyTableAt(src: map<nat, Pte>, dst: map<nat, Pte>, lo: nat, hi: nat, perm: Perm, v: nat)
    requires lo <= hi
    ensures lo <= v < hi && v in src ==>
              v in CopyTable(src, dst, lo, hi, perm) && CopyTable(src, dst, lo, hi, perm)[v] == Pte(src[v].ppn, perm.NoWrite())
    ensures !(lo <= v < hi && v in src) ==>
              && (v in CopyTable(src, dst, lo, hi, perm) <==> v in dst)
              && (v in dst ==> CopyTable(src, dst, lo, hi, perm)[v] == dst[v])
    decreases hi
  {
    if lo < hi {
      CopyTableAt(src, dst, lo, hi - 1, perm, v);
    }
  }

  /** Page `v` in the two tables after the areas `shared` were cloned. */
  ghost predicate ForkedAt(shared: seq<Area>, table: map<nat, Pte>, parent: map<nat, Pte>, child: map<nat, Pte>, v: nat) {
    && (v in parent <==> v in table)
    && match SlotAt(shared, v)
       case None => (v in table ==> parent[v] == table[v]) && v !in child
       case Some(s) =>
         && (v in child <==> v in table)
         && (v in table ==> parent[v] == table[v].(perm := table[v].perm.NoWrite())
                            && child[v] == Pte(table[v].ppn, s.perm.NoWrite()))
  }

  ghost predicate Forked(shared: seq<Area>, table: map<nat, Pte>, parent: map<nat, Pte>, child: map<nat, Pte>) {
    forall v: nat {:trigger ForkedAt(shared, table, parent, child, v)} :: ForkedAt(shared, table, parent, child, v)
  }

  lemma ForkedStep(areas: seq<Area>, i: nat, table: map<nat, Pte>, parent: map<nat, Pte>, child: map<nat, Pte>)
    requires WellFormed(areas) && i < |areas| && Forked(areas[..i], table, parent, child)
    ensures var a := areas[i];
            Forked(areas[..i + 1], table, BlockTable(parent, a.start, a.End()), CopyTable(parent, child, a.start, a.End(), a.perm))
  {
    var a, shared := areas[i], areas[..i + 1];
    var parent', child' := BlockTable(parent, a.start, a.End()), CopyTable(parent, child, a.start, a.End(), a.perm);
    assert shared == areas[..i] + [a];
    forall v: nat
      ensures ForkedAt(shared, table, parent', child', v)
    {
      assert ForkedAt(areas[..i], table, parent, child, v);
      SlotAtConcat(areas[..i], [a], v);
      SingleSlot(a, v);
      BlockTableAt(parent, a.start, a.End(), v);
      CopyTableAt(parent, child, a.start, a.End(), a.perm, v);
      if a.Has(v) {
        NotBefore(areas, i, v);
      }
    }
  }

  lemma NotBefore(areas: seq<Area>, i: nat, v: nat)
    requires WellFormed(areas) && i < |areas| && areas[i].Has(v)
    ensures SlotAt(areas[..i], v) == None
  {
    OnlyArea(areas, i, v);
    SlotAtNone(areas[..i], v);
  }

  // ---------------------------------------------------------------- the child

  /** The child's own trap-context area: one page in a new frame. */
  function TrapArea(trap: Area, ppn: nat): Area {
    trap.(frames := [InMemory(ppn)], active := [0], compressed := 0, swapped := 0)
  }

  function Child(areas: seq<Area>, ppn: nat): seq<Area>
    requires areas != []
  {
    areas[|areas| - 1 := TrapArea(areas[|areas| - 1], ppn)]
  }

  /** The last area is the trap-context page, in memory. */
  predicate HasTrap(areas: seq<Area>) {
    areas != [] && |areas[|areas| - 1].frames| == 1 && areas[|areas| - 1].frames[0].InMemory?
  }

  lemma ChildSlot(areas: seq<Area>, ppn: nat, v: nat)
    requires WellFormed(areas) && HasTrap(areas)
    ensures var n := |areas| - 1;
            SlotAt(Child(areas, ppn), v) ==
            if v == areas[n].start then Some(areas[n].SlotOf(v).(frame := InMemory(ppn))) else SlotAt(areas[..n], v)
    ensures v != areas[|areas| - 1].start ==> SlotAt(areas[..|areas| - 1], v) == SlotAt(areas, v)
    ensures v == areas[|areas| - 1].start ==> SlotAt(areas[..|areas| - 1], v) == None
  {
    var n := |areas| - 1;
    ReplaceSlot(areas, n, TrapArea(areas[n], ppn), v);
    assert areas == areas[..n] + [areas[n]];
    SlotAtConcat(areas[..n], [areas[n]], v);
    SingleSlot(areas[n], v);
    if v == areas[n].start {
      NotBefore(areas, n, v);
    }
  }

  lemma ChildHeld(areas: seq<Area>, ppn: nat, f: Frame)
    requires HasTrap(areas)
    ensures Held(Child(areas, ppn), f) == Held(areas[..|areas| - 1], f) + if f == InMemory(ppn) then 1 else 0
  {
    var n := |areas| - 1;
    assert Child(areas, ppn) == areas[..n] + [TrapArea(areas[n], ppn)];
    HeldConcat(areas[..n], [TrapArea(areas[n], ppn)], f);
    HeldOne(TrapArea(areas[n], ppn), f);
    assert Count([InMemory(ppn)], f, 0, 1) == Count([InMemory(ppn)], f, 0, 0) + if f == InMemory(ppn) then 1 else 0;
  }

  lemma ChildOk(areas: seq<Area>, ppn: nat)
    requires WellFormed(areas) && HasTrap(areas)
    ensures WellFormed(Child(areas, ppn))
  {
    var n := |areas| - 1;
    NoCounts([InMemory(ppn)], 1);
    ReplaceOk(areas, n, TrapArea(areas[n], ppn));
  }

  lemma ForkPages(areas: seq<Area>, table: map<nat, Pte>, parent: map<nat, Pte>, child: map<nat, Pte>, ppn: nat)
    requires WellFormed(areas) && HasTrap(areas) && PagesOk(areas, table)
    requires Forked(areas[..|areas| - 1], table, parent, child)
    ensures PagesOk(areas, parent)
    ensures var trap := areas[|areas| - 1]; PagesOk(Child(areas, ppn), child[trap.start := Pte(ppn, trap.perm)])
  {
    var n := |areas| - 1;
    var areas', child' := Child(areas, ppn), child[areas[n].start := Pte(ppn, areas[n].perm)];
    forall v: nat
      ensures PageOk(areas, parent, v) && PageOk(areas', child', v)
    {
      assert PageOk(areas, table, v) && ForkedAt(areas[..n], table, parent, child, v);
      ChildSlot(areas, ppn, v);
    }
  }

  /** Every handle is accounted for: those of parent and child, and the ones outside, which are as
      many as before. */
  lemma ForkHandles(areas: seq<Area>, store: Store, store': Store, ppn: nat, page: seq<bv8>)
    requires HasTrap(areas) && HeldOk(areas, store) && Counted(store) && InMemory(ppn) !in store
    requires RaisedAll(store, store', areas[..|areas| - 1])
    ensures var after := Fresh(store', InMemory(ppn), page);
            && OutsideKept(areas, store, areas + Child(areas, ppn), after) && Counted(after)
            && HeldOk(areas, after) && HeldOk(Child(areas, ppn), after)
  {
    var after, both, child := Fresh(store', InMemory(ppn), page), areas + Child(areas, ppn), Child(areas, ppn);
    var shared := areas[..|areas| - 1];
    assert areas == shared + [areas[|areas| - 1]];
    forall f
      ensures OutsideAt(areas, store, both, after, f) && HeldAt(areas, after, f) && HeldAt(child, after, f)
      ensures f in after ==> after[f].refs > 0
    {
      assert HeldAt(areas, store, f) && RaisedAt(store, store', shared, f);
      HeldConcat(areas, child, f);
      HeldConcat(shared, [areas[|areas| - 1]], f);
      ChildHeld(areas, ppn, f);
    }
    assert RaisedAt(store, store', shared, Unallocated);
  }

  /** Parent and child find the same bytes in every page they share. */
  lemma ForkBytes(env: Env, areas: seq<Area>, store: Store, store': Store, ppn: nat, page: seq<bv8>, v: nat)
    requires WellFormed(areas) && HasTrap(areas) && HeldOk(areas, store) && InMemory(ppn) !in store
    requires RaisedAll(store, store', areas[..|areas| - 1])
    ensures var after := Fresh(store', InMemory(ppn), page);
            && SameBytesAt(env, areas, store, areas, after, v)
            && (v != areas[|areas| - 1].start ==> SameBytesAt(env, areas, store, Child(areas, ppn), after, v))
  {
    ChildSlot(areas, ppn, v);
    if SlotAt(areas, v).Some? && SlotAt(areas, v).value.frame != Unallocated {
      SlotAlive(areas, store, v);
      assert RaisedAt(store, store', areas[..|areas| - 1], SlotAt(areas, v).value.frame);
    }
  }

  lemma ChildTrusted(areas: seq<Area>, ppn: nat)
    requires HasTrap(areas) && AllTrusted(areas)
    ensures AllTrusted(Child(areas, ppn))
  {
    var trap := TrapArea(areas[|areas| - 1], ppn);
    assert Reclaimable(trap.frames, 0);
    assert Trusted(trap);
    TrustedReplace(areas, |areas| - 1, trap);
  }
}
