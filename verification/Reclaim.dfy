/** Pages leave memory for zram or the swap device: what that does to an area, and that no page of
    the address space changes its bytes. */
module Reclaim {
  import opened Basics
  import opened PagedMemory
  import opened MapAreas
  import opened MunmapFrames
  import opened AreaLists
  import opened Spaces
  import opened AreaFaults

  function Evicted(a: Area, k: nat, to: Frame): Area
    requires k < |a.frames|
  {
    a.(frames := a.frames[k := to],
       compressed := if to.Compressed? then a.compressed + 1 else a.compressed,
       swapped := if to.SwappedOut? then a.swapped + 1 else a.swapped)
  }

  /** The counters differ from the frames they count by as much as before. */
  predicate SameSlack(a: Area, b: Area) {
    && b.compressed - CountCompressed(b.frames, 0, |b.frames|) == a.compressed - CountCompressed(a.frames, 0, |a.frames|)
    && b.swapped - CountSwapped(b.frames, 0, |b.frames|) == a.swapped - CountSwapped(a.frames, 0, |a.frames|)
  }

  lemma EvictedSlack(a: Area, k: nat, to: Frame, active: seq<U16>)
    requires k < |a.frames| && a.frames[k].InMemory?
    ensures SameSlack(a, Evicted(a.(active := active), k, to))
  {
    CountersUpdate(a.frames, k, to, |a.frames|);
  }

  /** What is written behind the new tracker. */
  function Packed(codec: Codec, to: Frame, page: Page): seq<bv8> {
    if to.Compressed? then codec.compress(page) else page
  }

  function OutOfMemory(frames: seq<Frame>): nat {
    CountCompressed(frames, 0, |frames|) + CountSwapped(frames, 0, |frames|)
  }

  lemma EvictedOk(a: Area, k: nat, to: Frame)
    requires AreaOk(a) && k < |a.frames| && a.frames[k].InMemory? && (to.Compressed? || to.SwappedOut?)
    ensures AreaOk(Evicted(a, k, to)) && OutOfMemory(Evicted(a, k, to).frames) == OutOfMemory(a.frames) + 1
  {
    CountersUpdate(a.frames, k, to, |a.frames|);
  }

  /** The index popped from the front names a page in memory; the rest of the list stays right. */
  lemma PopActive(frames: seq<Frame>, active: seq<U16>)
    requires ActiveOk(frames, active) && active != []
    ensures Reclaimable(frames, active[0]) && active[0] !in active[1..] && ActiveOk(frames, active[1..])
  {
    assert active[0] in active && Reclaimable(frames, active[0]);
    forall x | x in active[1..]
      ensures Reclaimable(frames, x) && x != active[0]
    {
      assert x in active && Reclaimable(frames, x);
      var j :| 0 <= j < |active[1..]| && active[1..][j] == x;
      assert active[j + 1] == x;
    }
  }

  lemma LeaveActive(frames: seq<Frame>, active: seq<U16>, k: nat, to: Frame)
    requires ActiveOk(frames, active) && k < |frames| && k !in active
    ensures ActiveOk(frames[k := to], active)
  {
    forall x | x in active
      ensures Reclaimable(frames[k := to], x)
    {
      assert Reclaimable(frames, x);
    }
  }

  /** The page `v` has the same permission, file and bytes. */
  ghost predicate SameBytesAt(env: Env, areas: seq<Area>, store: Store, areas': seq<Area>, store': Store, v: nat) {
    match (SlotAt(areas, v), SlotAt(areas', v))
    case (None, None) => true
    case (Some(s), Some(t)) =>
      && t.perm == s.perm && t.file == s.file
      && (s.frame != Unallocated ==> s.frame in store) && (t.frame != Unallocated ==> t.frame in store')
      && SlotBytes(env, store, s) == SlotBytes(env, store', t)
    case _ => false
  }

  ghost predicate SameBytes(env: Env, areas: seq<Area>, store: Store, areas': seq<Area>, store': Store) {
    forall v: nat {:trigger SameBytesAt(env, areas, store, areas', store', v)} :: SameBytesAt(env, areas, store, areas', store', v)
  }

  lemma SlotAlive(areas: seq<Area>, store: Store, v: nat)
    requires HeldOk(areas, store) && SlotAt(areas, v).Some? && SlotAt(areas, v).value.frame != Unallocated
    ensures var f := SlotAt(areas, v).value.frame; f in store && 0 < Held(areas, f) <= store[f].refs
  {
    SlotIsHeld(areas, v);
    assert HeldAt(areas, store, SlotAt(areas, v).value.frame);
  }

  lemma SameBytesNone(env: Env, areas: seq<Area>, store: Store)
    requires HeldOk(areas, store)
    ensures SameBytes(env, areas, store, areas, store)
  {
    forall v: nat
      ensures SameBytesAt(env, areas, store, areas, store, v)
    {
      if SlotAt(areas, v).Some? && SlotAt(areas, v).value.frame != Unallocated {
        SlotAlive(areas, store, v);
      }
    }
  }

  /** Two pages behind one tracker are two handles. */
  lemma TwoHandles(areas: seq<Area>, i: nat, v: nat, u: nat)
    requires WellFormed(areas) && i < |areas| && areas[i].Has(v) && u != v
    requires SlotAt(areas, u).Some? && SlotAt(areas, u).value.frame == areas[i].frames[v - areas[i].start]
    ensures Held(areas, areas[i].frames[v - areas[i].start]) >= 2
  {
    var f, k := areas[i].frames[v - areas[i].start], v - areas[i].start;
    var g := if f == Unallocated then SwappedOut(0) else Unallocated;
    var b := areas[i].(frames := areas[i].frames[k := g]);
    RebindSlot(areas, i, b, v, g, u);
    SlotIsHeld(areas[i := b], u);
    RebindHeld(areas, i, b, k, g, f);
  }

  /** Moving one page out of memory changes the bytes of no page. */
  lemma EvictKeepsBytes(env: Env, areas: seq<Area>, store: Store, i: nat, v: nat, b: Area, to: Frame, u: nat)
    requires env.codec.Lossless() && WellFormed(areas) && HeldOk(areas, store) && Counted(store)
    requires i < |areas| && areas[i].Has(v) && Rebinds(areas[i], b, v - areas[i].start, to) && areas[i].frames[v - areas[i].start].InMemory?
    requires to !in store && (to.Compressed? || to.SwappedOut?) && areas[i].frames[v - areas[i].start] in store
    ensures var f := areas[i].frames[v - areas[i].start];
            SameBytesAt(env, areas, store, areas[i := b],
                        Fresh(Release(store, f), to, Packed(env.codec, to, AsPage(store[f].data))), u)
  {
    var f := areas[i].frames[v - areas[i].start];
    RebindSlot(areas, i, b, v, to, u);
    if u != v && SlotAt(areas, u).Some? && SlotAt(areas, u).value.frame != Unallocated {
      SlotAlive(areas, store, u);
      if SlotAt(areas, u).value.frame == f {
        TwoHandles(areas, i, v, u);
      }
    }
  }

  lemma SameBytesStep(env: Env, areas0: seq<Area>, store0: Store, areas: seq<Area>, store: Store, i: nat, v: nat, b: Area, to: Frame)
    requires env.codec.Lossless() && WellFormed(areas) && HeldOk(areas, store) && Counted(store)
    requires i < |areas| && areas[i].Has(v) && Rebinds(areas[i], b, v - areas[i].start, to) && areas[i].frames[v - areas[i].start].InMemory?
    requires to !in store && (to.Compressed? || to.SwappedOut?) && areas[i].frames[v - areas[i].start] in store
    requires SameBytes(env, areas0, store0, areas, store)
    ensures var f := areas[i].frames[v - areas[i].start];
            SameBytes(env, areas0, store0, areas[i := b], Fresh(Release(store, f), to, Packed(env.codec, to, AsPage(store[f].data))))
  {
    var f := areas[i].frames[v - areas[i].start];
    var areas', store' := areas[i := b], Fresh(Release(store, f), to, Packed(env.codec, to, AsPage(store[f].data)));
    forall u: nat
      ensures SameBytesAt(env, areas0, store0, areas', store', u)
    {
      assert SameBytesAt(env, areas0, store0, areas, store, u);
      EvictKeepsBytes(env, areas, store, i, v, b, to, u);
    }
  }

  /** The active list is popped, nothing else. */
  lemma SameBytesPop(env: Env, areas0: seq<Area>, store0: Store, areas: seq<Area>, store: Store, i: nat, active: seq<U16>)
    requires WellFormed(areas) && i < |areas| && SameBytes(env, areas0, store0, areas, store)
    ensures SameBytes(env, areas0, store0, areas[i := areas[i].(active := active)], store)
  {
    var areas' := areas[i := areas[i].(active := active)];
    forall u: nat
      ensures SameBytesAt(env, areas0, store0, areas', store, u)
    {
      assert SameBytesAt(env, areas0, store0, areas, store, u);
      ReplaceSlot(areas, i, areas[i].(active := active), u);
      if areas[i].Has(u) {
        SlotAtIndex(areas, i, u);
      }
    }
  }

  lemma PopPages(areas: seq<Area>, table: map<nat, Pte>, store: Store, i: nat, active: seq<U16>)
    requires WellFormed(areas) && i < |areas| && PagesOk(areas, table) && HeldOk(areas, store)
    ensures PagesOk(areas[i := areas[i].(active := active)], table)
    ensures OutsideKept(areas, store, areas[i := areas[i].(active := active)], store)
    ensures HeldOk(areas[i := areas[i].(active := active)], store)
  {
    var areas' := areas[i := areas[i].(active := active)];
    forall u: nat
      ensures PageOk(areas', table, u)
    {
      assert PageOk(areas, table, u);
      ReplaceSlot(areas, i, areas[i].(active := active), u);
      if areas[i].Has(u) {
        SlotAtIndex(areas, i, u);
      }
    }
    forall f
      ensures OutsideAt(areas, store, areas', store, f)
    {
      ReplaceHeld(areas, i, areas[i].(active := active), f);
    }
    OutsideHeld(areas, store, areas', store);
  }

  // ---------------------------------------------------------------- the rest of the machine

  /** A tracker either is as it was or, if it was a frame with one handle, is gone. */
  ghost predicate SpareAt(store: Store, store': Store, f: Frame) {
    f in store ==>
      && (f in store' ==> store'[f] == store[f])
      && (f !in store' ==> f.InMemory? && store[f].refs == 1)
  }

  ghost predicate SparesShared(store: Store, store': Store) {
    forall f {:trigger SpareAt(store, store', f)} :: SpareAt(store, store', f)
  }

  lemma SparesStep(store0: Store, store: Store, f: Frame, to: Frame, data: seq<bv8>)
    requires SparesShared(store0, store) && to !in store && !to.InMemory? && f.InMemory? && f in store && store[f].refs == 1
    ensures SparesShared(store0, Fresh(Release(store, f), to, data))
  {
    var store' := Fresh(Release(store, f), to, data);
    forall g
      ensures SpareAt(store0, store', g)
    {
      assert SpareAt(store0, store, g);
    }
  }

  /** A page still listed is as it was; a page popped left memory if its frame had one handle. */
  ghost predicate SiftedAt(frames0: seq<Frame>, store0: Store, frames: seq<Frame>, active: seq<U16>, x: nat) {
    && x < |frames| == |frames0| && frames0[x] in store0
    && if x in active then frames[x] == frames0[x]
       else (frames[x].InMemory? <==> store0[frames0[x]].refs != 1)
  }

  ghost predicate Sifted(frames0: seq<Frame>, store0: Store, active0: seq<U16>, frames: seq<Frame>, active: seq<U16>) {
    forall x {:trigger SiftedAt(frames0, store0, frames, active, x)} :: x in active0 ==> SiftedAt(frames0, store0, frames, active, x)
  }

  lemma SiftedStep(frames0: seq<Frame>, store0: Store, active0: seq<U16>, frames: seq<Frame>, active: seq<U16>, f: Frame)
    requires ActiveOk(frames, active) && active != [] && Sifted(frames0, store0, active0, frames, active)
    requires active[0] in active0 && active[0] < |frames| == |frames0| && frames0[active[0]] in store0
    requires f.InMemory? <==> store0[frames0[active[0]]].refs != 1
    ensures Sifted(frames0, store0, active0, frames[active[0] := f], active[1..])
  {
    PopActive(frames, active);
    var frames', active' := frames[active[0] := f], active[1..];
    forall x | x in active0
      ensures SiftedAt(frames0, store0, frames', active', x)
    {
      assert SiftedAt(frames0, store0, frames, active, x);
      assert x in active' ==> x in active;
      assert x in active && x != active[0] ==> x in active';
    }
  }

  // ---------------------------------------------------------------- reclaiming an area

  /** What `do_oom` has done to area `i` when `active` of it are still to be looked at. */
  ghost predicate Oom(env: Env, i: nat, areas0: seq<Area>, store0: Store, areas: seq<Area>, store: Store)
    requires i < |areas0| && i < |areas|
  {
    && areas[i].file.None? && ActiveOk(areas[i].frames, areas[i].active)
    && (forall x :: x in areas[i].active ==> x in areas0[i].active)
    && OutsideKept(areas0, store0, areas, store)
    && SameBytes(env, areas0, store0, areas, store)
    && SparesShared(store0, store)
    && Sifted(areas0[i].frames, store0, areas0[i].active, areas[i].frames, areas[i].active)
  }

  lemma SiftedNone(areas: seq<Area>, store: Store, i: nat)
    requires WellFormed(areas) && HeldOk(areas, store) && i < |areas| && ActiveOk(areas[i].frames, areas[i].active)
    ensures Sifted(areas[i].frames, store, areas[i].active, areas[i].frames, areas[i].active)
    ensures SparesShared(store, store)
  {
    forall x | x in areas[i].active
      ensures SiftedAt(areas[i].frames, store, areas[i].frames, areas[i].active, x)
    {
      assert Reclaimable(areas[i].frames, x);
      SlotAtIndex(areas, i, areas[i].start + x);
      SlotAlive(areas, store, areas[i].start + x);
    }
  }

  lemma PopOk(areas: seq<Area>, table: map<nat, Pte>, store: Store, i: nat)
    requires WellFormed(areas) && i < |areas| && PagesOk(areas, table) && HeldOk(areas, store)
    requires ActiveOk(areas[i].frames, areas[i].active) && areas[i].active != []
    ensures var areas' := areas[i := areas[i].(active := areas[i].active[1..])];
            WellFormed(areas') && PagesOk(areas', table) && HeldOk(areas', store) && AreaOk(areas'[i])
    ensures Reclaimable(areas[i].frames, areas[i].active[0]) && areas[i].frames[areas[i].active[0]] in store
  {
    PopActive(areas[i].frames, areas[i].active);
    assert AreaOk(areas[i]);
    ReplaceOk(areas, i, areas[i].(active := areas[i].active[1..]));
    PopPages(areas, table, store, i, areas[i].active[1..]);
    SlotAtIndex(areas, i, areas[i].start + areas[i].active[0]);
    SlotAlive(areas, store, areas[i].start + areas[i].active[0]);
  }

  lemma OomOwn(env: Env, i: nat, areas0: seq<Area>, store0: Store, areas: seq<Area>, store: Store)
    requires i < |areas0| && i < |areas| && Oom(env, i, areas0, store0, areas, store) && areas[i].active != []
    requires areas[i].active[0] < |areas[i].frames| && areas[i].frames[areas[i].active[0]] in store
    ensures var k := areas[i].active[0];
            && k in areas0[i].active && k < |areas[i].frames| == |areas0[i].frames|
            && areas0[i].frames[k] == areas[i].frames[k] && areas0[i].frames[k] in store0
            && store0[areas0[i].frames[k]].refs == store[areas[i].frames[k]].refs
  {
    var k := areas[i].active[0];
    assert k in areas[i].active;
    assert SiftedAt(areas0[i].frames, store0, areas[i].frames, areas[i].active, k);
    assert SpareAt(store0, store, areas[i].frames[k]);
  }

  /** A page with other holders is only popped. */
  lemma OomSkip(env: Env, i: nat, areas0: seq<Area>, store0: Store, areas: seq<Area>, table: map<nat, Pte>, store: Store)
    requires i < |areas0| && i < |areas| && Oom(env, i, areas0, store0, areas, store) && areas[i].active != []
    requires WellFormed(areas) && PagesOk(areas, table) && HeldOk(areas, store)
    requires areas[i].active[0] < |areas[i].frames| && areas[i].frames[areas[i].active[0]] in store
    requires store[areas[i].frames[areas[i].active[0]]].refs != 1
    ensures Oom(env, i, areas0, store0, areas[i := areas[i].(active := areas[i].active[1..])], store)
  {
    var a := areas[i];
    var k, rest := a.active[0], a.active[1..];
    OomOwn(env, i, areas0, store0, areas, store);
    PopActive(a.frames, a.active);
    assert a.frames[k := a.frames[k]] == a.frames;
    SiftedStep(areas0[i].frames, store0, areas0[i].active, a.frames, a.active, a.frames[k]);
    PopPages(areas, table, store, i, rest);
    OutsideTwice(areas0, store0, areas, store, areas[i := a.(active := rest)], store);
    SameBytesPop(env, areas0, store0, areas, store, i, rest);
    assert forall x :: x in rest ==> x in a.active;
  }

  /** A page with one holder is popped and leaves memory. */
  lemma OomEvict(env: Env, i: nat, areas0: seq<Area>, store0: Store, areas: seq<Area>, table: map<nat, Pte>, store: Store, to: Frame)
    requires i < |areas0| && i < |areas| && Oom(env, i, areas0, store0, areas, store) && areas[i].active != []
    requires env.codec.Lossless() && WellFormed(areas) && PagesOk(areas, table) && HeldOk(areas, store) && Counted(store)
    requires areas[i].active[0] < |areas[i].frames| && areas[i].frames[areas[i].active[0]] in store
    requires store[areas[i].frames[areas[i].active[0]]].refs == 1 && to !in store && (to.Compressed? || to.SwappedOut?)
    ensures var popped := areas[i].(active := areas[i].active[1..]);
            var k := areas[i].active[0];
            var f := areas[i].frames[k];
            Oom(env, i, areas0, store0, areas[i := Evicted(popped, k, to)],
                Fresh(Release(store, f), to, Packed(env.codec, to, AsPage(store[f].data))))
  {
    var a := areas[i];
    var k, rest := a.active[0], a.active[1..];
    var f, b := a.frames[k], Evicted(a.(active := rest), k, to);
    var store' := Fresh(Release(store, f), to, Packed(env.codec, to, AsPage(store[f].data)));
    OomOwn(env, i, areas0, store0, areas, store);
    PopActive(a.frames, a.active);
    LeaveActive(a.frames, rest, k, to);
    SiftedStep(areas0[i].frames, store0, areas0[i].active, a.frames, a.active, to);
    MovedHandles(areas, store, i, b, k, to, Packed(env.codec, to, AsPage(store[f].data)));
    OutsideTwice(areas0, store0, areas, store, areas[i := b], store');
    SameBytesStep(env, areas0, store0, areas, store, i, a.start + k, b, to);
    SparesStep(store0, store, f, to, Packed(env.codec, to, AsPage(store[f].data)));
    assert forall x :: x in rest ==> x in a.active;
  }

  /** A page popped by `force_swap` is on the swap device. */
  ghost predicate ForcedAt(frames: seq<Frame>, active: seq<U16>, x: nat) {
    x < |frames| && (x in active || frames[x].SwappedOut?)
  }

  /** What `force_swap` has done to area `i`; shared frames leave too. */
  ghost predicate Forced(env: Env, i: nat, areas0: seq<Area>, store0: Store, areas: seq<Area>, store: Store)
    requires i < |areas0| && i < |areas|
  {
    && areas[i].file.None? && ActiveOk(areas[i].frames, areas[i].active)
    && OutsideKept(areas0, store0, areas, store)
    && SameBytes(env, areas0, store0, areas, store)
    && (forall x {:trigger ForcedAt(areas[i].frames, areas[i].active, x)} ::
          x in areas0[i].active ==> ForcedAt(areas[i].frames, areas[i].active, x))
  }

  lemma ForceEvict(env: Env, i: nat, areas0: seq<Area>, store0: Store, areas: seq<Area>, store: Store, to: Frame)
    requires i < |areas0| && i < |areas| && Forced(env, i, areas0, store0, areas, store) && areas[i].active != []
    requires env.codec.Lossless() && WellFormed(areas) && HeldOk(areas, store) && Counted(store)
    requires areas[i].active[0] < |areas[i].frames| && areas[i].frames[areas[i].active[0]] in store
    requires to !in store && to.SwappedOut?
    ensures var popped := areas[i].(active := areas[i].active[1..]);
            var k := areas[i].active[0];
            var f := areas[i].frames[k];
            Forced(env, i, areas0, store0, areas[i := Evicted(popped, k, to)],
                   Fresh(Release(store, f), to, Packed(env.codec, to, AsPage(store[f].data))))
  {
    var a := areas[i];
    var k, rest := a.active[0], a.active[1..];
    var f, b := a.frames[k], Evicted(a.(active := rest), k, to);
    var store' := Fresh(Release(store, f), to, Packed(env.codec, to, AsPage(store[f].data)));
    PopActive(a.frames, a.active);
    LeaveActive(a.frames, rest, k, to);
    MovedHandles(areas, store, i, b, k, to, Packed(env.codec, to, AsPage(store[f].data)));
    OutsideTwice(areas0, store0, areas, store, areas[i := b], store');
    SameBytesStep(env, areas0, store0, areas, store, i, a.start + k, b, to);
    forall x | x in areas0[i].active
      ensures ForcedAt(b.frames, b.active, x)
    {
      assert ForcedAt(a.frames, a.active, x);
      assert x in a.active && x != k ==> x in rest;
    }
  }

  // ---------------------------------------------------------------- a tracker that is not in use

  function Zrams(store: Store): set<nat> {
    set f | f in store && f.Compressed? :: f.zram
  }

  function Swaps(store: Store): set<nat> {
    set f | f in store && f.SwappedOut? :: f.swap
  }

  lemma {:induction false} SomeOutside(s: set<nat>) returns (n: nat)
    ensures forall x :: x in s ==> x < n
  {
    if s == {} {
      n := 0;
    } else {
      var y :| y in s;
      var m := SomeOutside(s - {y});
      n := if y < m then m else y + 1;
      assert forall x :: x in s ==> x == y || x in s - {y};
    }
  }

  lemma FreshId(store: Store) returns (n: nat)
    ensures Compressed(n) !in store && SwappedOut(n) !in store
  {
    n := SomeOutside(Zrams(store) + Swaps(store));
    assert Compressed(n) in store ==> n in Zrams(store);
    assert SwappedOut(n) in store ==> n in Swaps(store);
  }
}
