/** An address space of areas and a page table, seen as pages. */
module Spaces {
  import opened Basics
  import opened PagedMemory
  import opened MapAreas
  import opened MunmapFrames

  /** The pages of a list of areas. */
  function Pages(areas: seq<Area>): set<nat> {
    if areas == [] then {} else Range(areas[0].start, areas[0].End()) + Pages(areas[1..])
  }

  lemma {:induction false} PagesHas(areas: seq<Area>, v: nat)
    ensures v in Pages(areas) <==> SlotAt(areas, v).Some?
  {
    if areas != [] {
      PagesHas(areas[1..], v);
    }
  }

  function Slots(areas: seq<Area>): (r: map<nat, Slot>)
    ensures forall v: nat {:trigger SlotAt(areas, v)} :: v in r <==> SlotAt(areas, v).Some?
    ensures forall v :: v in r ==> SlotAt(areas, v) == Some(r[v])
  {
    assert forall v: nat {:trigger SlotAt(areas, v)} :: v in Pages(areas) <==> SlotAt(areas, v).Some? by {
      forall v: nat
        ensures v in Pages(areas) <==> SlotAt(areas, v).Some?
      {
        PagesHas(areas, v);
      }
    }
    map v | v in Pages(areas) :: SlotAt(areas, v).value
  }

  /** An entry exists exactly for a page in memory, with its frame; a page of a file is never
      compressed or swapped out. */
  ghost predicate PageOk(areas: seq<Area>, table: map<nat, Pte>, v: nat) {
    match SlotAt(areas, v)
    case None => v !in table
    case Some(s) =>
      && (v in table <==> s.frame.InMemory?)
      && (v in table ==> table[v].ppn == s.frame.ppn)
      && (s.file.Some? ==> s.frame.InMemory? || s.frame.Unallocated?)
  }

  ghost predicate PagesOk(areas: seq<Area>, table: map<nat, Pte>) {
    forall v: nat {:trigger PageOk(areas, table, v)} :: PageOk(areas, table, v)
  }

  /** How many handles of a tracker are not behind pages of these areas: held by other address
      spaces, the page cache or the kernel. */
  function Outside(areas: seq<Area>, store: Store, f: Frame): int {
    (if f in store then store[f].refs else 0) - Held(areas, f)
  }

  /** A tracker has a handle for each of the pages it is behind, and maybe others. */
  ghost predicate HeldAt(areas: seq<Area>, store: Store, f: Frame) {
    f != Unallocated ==> Outside(areas, store, f) >= 0
  }

  ghost predicate HeldOk(areas: seq<Area>, store: Store) {
    forall f {:trigger HeldAt(areas, store, f)} :: HeldAt(areas, store, f)
  }

  /** The handles outside are as many as before, and what they track is alive with its data. */
  ghost predicate OutsideAt(areas: seq<Area>, store: Store, areas': seq<Area>, store': Store, f: Frame) {
    f != Unallocated ==>
      && Outside(areas', store', f) == Outside(areas, store, f)
      && (Outside(areas, store, f) > 0 && f in store ==> f in store' && store'[f].data == store[f].data)
  }

  ghost predicate OutsideKept(areas: seq<Area>, store: Store, areas': seq<Area>, store': Store) {
    forall f {:trigger OutsideAt(areas, store, areas', store', f)} :: OutsideAt(areas, store, areas', store', f)
  }

  lemma OutsideHeld(areas: seq<Area>, store: Store, areas': seq<Area>, store': Store)
    requires HeldOk(areas, store) && OutsideKept(areas, store, areas', store')
    ensures HeldOk(areas', store')
  {
    forall f
      ensures HeldAt(areas', store', f)
    {
      assert HeldAt(areas, store, f) && OutsideAt(areas, store, areas', store', f);
    }
  }

  lemma OutsideSame(areas: seq<Area>, store: Store)
    ensures OutsideKept(areas, store, areas, store)
  {
  }

  lemma OutsideTwice(a0: seq<Area>, s0: Store, a1: seq<Area>, s1: Store, a2: seq<Area>, s2: Store)
    requires OutsideKept(a0, s0, a1, s1) && OutsideKept(a1, s1, a2, s2)
    ensures OutsideKept(a0, s0, a2, s2)
  {
    forall f
      ensures OutsideAt(a0, s0, a2, s2, f)
    {
      assert OutsideAt(a0, s0, a1, s1, f) && OutsideAt(a1, s1, a2, s2, f);
    }
  }

  function Space(areas: seq<Area>, table: map<nat, Pte>): AddrSpace {
    AddrSpace(Slots(areas), table)
  }

  /** What the fault handler relies on. */
  lemma SpaceIsOk(areas: seq<Area>, table: map<nat, Pte>, store: Store)
    requires PagesOk(areas, table) && HeldOk(areas, store)
    ensures SpaceOk(Space(areas, table))
    ensures forall u :: u in Slots(areas) && Slots(areas)[u].frame != Unallocated ==> Slots(areas)[u].frame in store
  {
    forall u: nat
      ensures u in table ==> u in Slots(areas)
      ensures PageOk(areas, table, u)
    {
      assert PageOk(areas, table, u);
    }
    forall u | u in Slots(areas) && Slots(areas)[u].frame != Unallocated
      ensures Slots(areas)[u].frame in store
    {
      SlotIsHeld(areas, u);
      assert HeldAt(areas, store, Slots(areas)[u].frame);
    }
  }
}
