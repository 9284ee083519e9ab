/** What the kernel copies from and to user memory: a translation, then loads, or stores one after the
    other, and all of it a run of the paging machine. */
module KernelCopies {
  import opened Basics
  import opened PagedMemory
  import opened PagingMachine
  import opened PagingStores
  import opened PagingRuns
  import opened PagingCalls
  import opened TranslationWalks
  import UserBuffers

  ghost predicate SameFrame(m: Machine, frames: UserBuffers.Frames, ppn: nat) {
    && (ppn in frames <==> InMemory(ppn) in m.store)
    && (ppn in frames ==> frames[ppn] == m.store[InMemory(ppn)].data)
  }

  /** The frames in memory, as the copying routines see them. */
  ghost predicate SeesFrames(m: Machine, frames: UserBuffers.Frames) {
    forall ppn: nat {:trigger SameFrame(m, frames, ppn)} :: SameFrame(m, frames, ppn)
  }

  /** The present entries of a space, as `translate` sees them: without their permissions. */
  ghost predicate SeesTable(m: Machine, p: nat, pages: map<nat, nat>) {
    p in m.spaces && forall v: nat {:trigger v in pages} :: v in pages ==>
      v in m.spaces[p].table && m.spaces[p].table[v].ppn == pages[v]
  }

  lemma SeenFramesOk(m: Machine, frames: UserBuffers.Frames, p: nat, pages: map<nat, nat>)
    requires Inv(m) && SeesFrames(m, frames) && SeesTable(m, p, pages)
    ensures UserBuffers.Backed(frames, pages)
  {
    forall ppn | ppn in frames
      ensures |frames[ppn]| == 4096
    {
      assert SameFrame(m, frames, ppn);
      assert CellOk(m, InMemory(ppn));
    }
    forall v | v in pages
      ensures pages[v] in frames
    {
      MappedFrame(m, p, v);
      assert SameFrame(m, frames, pages[v]);
    }
  }

  /** One byte more. */
  lemma CopyStep(m: Machine, p: nat, frames: UserBuffers.Frames, pages: map<nat, nat>, a: nat, byte: bv8)
    requires Inv(m) && SeesFrames(m, frames) && SeesTable(m, p, pages) && a / 4096 in pages
    requires UserBuffers.Backed(frames, pages)
    ensures CanKernelStore(m, p, a / 4096, a % 4096)
    ensures var m' := KernelStored(m, p, a / 4096, a % 4096, byte);
            && SeesFrames(m', UserBuffers.Poke(frames, pages, a, byte)) && SeesTable(m', p, pages)
            && m'.spaces == m.spaces && m'.others == m.others
  {
    MappedFrame(m, p, a / 4096);
    var m', frames' := KernelStored(m, p, a / 4096, a % 4096, byte), UserBuffers.Poke(frames, pages, a, byte);
    assert SameFrame(m, frames, pages[a / 4096]);
    forall q: nat
      ensures SameFrame(m', frames', q)
    {
      assert SameFrame(m, frames, q);
    }
  }

  lemma CopyOne(codec: Codec, m: Machine, now: Machine, p: nat, frames: UserBuffers.Frames, pages: map<nat, nat>, a: nat, byte: bv8)
    returns (m': Machine)
    requires codec.Lossless() && Reaches(codec, m, now) && Inv(now) && SeesFrames(now, frames) && SeesTable(now, p, pages)
    requires a / 4096 in pages && UserBuffers.Backed(frames, pages)
    ensures Reaches(codec, m, m') && Inv(m') && m'.spaces == now.spaces && m'.others == now.others
    ensures SeesFrames(m', UserBuffers.Poke(frames, pages, a, byte)) && SeesTable(m', p, pages)
  {
    CopyStep(now, p, frames, pages, a, byte);
    m' := KernelStored(now, p, a / 4096, a % 4096, byte);
    ReachesStep(codec, m, now, KernelWrite(p, a / 4096, a % 4096, byte), m');
  }

  /** The stores of `copy_to_user_array`: when the table has the pages in the frames taken for them, storing byte by byte is a run of the machine, whatever permissions the entries have, and
      touches nothing but the contents of frames. */
  lemma {:induction false} CopyRuns(codec: Codec, m: Machine, p: nat, frames: UserBuffers.Frames, pages: map<nat, nat>,
                                    start: nat, data: seq<bv8>, n: nat) returns (m': Machine)
    requires codec.Lossless() && Inv(m) && SeesFrames(m, frames) && SeesTable(m, p, pages) && n <= |data|
    requires UserBuffers.Mapped(pages, start, start + n)
    ensures UserBuffers.Backed(frames, pages)
    ensures Reaches(codec, m, m') && Inv(m') && m'.spaces == m.spaces && m'.others == m.others
    ensures SeesFrames(m', UserBuffers.Poked(frames, pages, start, data, n)) && SeesTable(m', p, pages)
  {
    SeenFramesOk(m, frames, p, pages);
    if n == 0 {
      m' := m;
      ReachesSelf(codec, m);
    } else {
      var now := CopyRuns(codec, m, p, frames, pages, start, data, n - 1);
      var a, before := start + (n - 1), UserBuffers.Poked(frames, pages, start, data, n - 1);
      assert a / 4096 in pages;
      m' := CopyOne(codec, m, now, p, before, pages, a, data[n - 1]);
    }
  }

  // ---------------------------------------------------------------- after a translation

  /** A translation is a run. */
  lemma {:induction false} WalkReaches(codec: Codec, m: Machine, a: Ask, ts: seq<Turn>, k: nat)
    requires codec.Lossless() && Walk(codec, m, a, ts) && k <= |ts|
    ensures Reaches(codec, m, StateAt(m, ts, k)) && Inv(StateAt(m, ts, k))
  {
    if k == 0 {
      ReachesSelf(codec, m);
    } else {
      WalkReaches(codec, m, a, ts, k - 1);
      TurnEnds(codec, m, a, ts, k - 1);
      ReachesRun(codec, m, StateAt(m, ts, k - 1), ts[k - 1].ms, ts[k - 1].steps, |ts[k - 1].steps|);
    }
  }

  lemma {:induction false} TurnHolds(codec: Codec, a: Ask, i: nat, t: Turn, k: nat, q: nat, u: nat, page: Page)
    requires codec.Lossless() && TurnOk(codec, a, i, t) && k <= |t.steps| && Holding(codec, t.ms[0], q, u, page)
    ensures Holding(codec, t.ms[k], q, u, page)
  {
    if k > 0 {
      TurnHolds(codec, a, i, t, k - 1, q, u, page);
      assert WalkStep(a, i, t, k - 1);
      HoldingAt(codec, t.ms, t.steps, k, q, u, page, page);
    }
  }

  /** A translation changes the bytes of no page, whatever is reclaimed in it. */
  lemma {:induction false} WalkHolds(codec: Codec, m: Machine, a: Ask, ts: seq<Turn>, k: nat, q: nat, u: nat, page: Page)
    requires codec.Lossless() && Walk(codec, m, a, ts) && k <= |ts| && Holding(codec, m, q, u, page)
    ensures Holding(codec, StateAt(m, ts, k), q, u, page)
  {
    if k > 0 {
      WalkHolds(codec, m, a, ts, k - 1, q, u, page);
      TurnEnds(codec, m, a, ts, k - 1);
      TurnHolds(codec, a, k - 1, ts[k - 1], |ts[k - 1].steps|, q, u, page);
    }
  }

  /** The frames taken, page by page: the table that the pieces are made from. */
  function WalkPages(a: Ask, ts: seq<Turn>): map<nat, nat> {
    map v: nat | a.lo <= v < a.lo + |ts| :: FrameTaken(a, ts, v)
  }

  function FrameTaken(a: Ask, ts: seq<Turn>, v: nat): nat
    requires a.lo <= v < a.lo + |ts|
  {
    ts[v - a.lo].ppn
  }

  lemma RightSees(m: Machine, a: Ask, ts: seq<Turn>)
    requires a.p in StateAt(m, ts, |ts|).spaces
    ensures Right(m, a, ts) <==> SeesTable(StateAt(m, ts, |ts|), a.p, WalkPages(a, ts))
  {
    var pages := WalkPages(a, ts);
    if SeesTable(StateAt(m, ts, |ts|), a.p, pages) {
      forall i: nat | i < |ts|
        ensures RightAt(m, a, ts, i)
      {
        assert a.lo + i in pages;
      }
    }
    if Right(m, a, ts) {
      forall v: nat | v in pages
        ensures Entry(StateAt(m, ts, |ts|), a.p, v) == Some(pages[v])
      {
        assert RightAt(m, a, ts, v - a.lo);
      }
    }
  }

  /** A byte of a page in memory is the byte of its frame. */
  lemma SeenByte(codec: Codec, m: Machine, p: nat, frames: UserBuffers.Frames, pages: map<nat, nat>, b: nat)
    requires Inv(m) && SeesFrames(m, frames) && SeesTable(m, p, pages) && b / 4096 in pages
    ensures UserBuffers.Backed(frames, pages) && HasPage(m, p, b / 4096)
    ensures UserBuffers.VirtualByte(frames, pages, b) == Bytes(codec, m, p, b / 4096)[b % 4096]
  {
    SeenFramesOk(m, frames, p, pages);
    MappedFrame(m, p, b / 4096);
    assert SameFrame(m, frames, pages[b / 4096]);
  }

  /** After a translation that is right, what the pieces show is what the pages held when it began. */
  lemma TranslationReads(codec: Codec, m: Machine, a: Ask, ts: seq<Turn>, frames: UserBuffers.Frames, b: nat)
    requires codec.Lossless() && Walk(codec, m, a, ts) && AllPages(m, a) && Right(m, a, ts)
    requires SeesFrames(StateAt(m, ts, |ts|), frames) && b / 4096 in WalkPages(a, ts)
    ensures UserBuffers.Backed(frames, WalkPages(a, ts)) && HasPage(m, a.p, b / 4096)
    ensures UserBuffers.VirtualByte(frames, WalkPages(a, ts), b) == Bytes(codec, m, a.p, b / 4096)[b % 4096]
  {
    var v := b / 4096;
    assert PageAt(m, a, v - a.lo);
    WalkReaches(codec, m, a, ts, |ts|);
    WalkHolds(codec, m, a, ts, |ts|, a.p, v, Bytes(codec, m, a.p, v));
    RightSees(m, a, ts);
    SeenByte(codec, StateAt(m, ts, |ts|), a.p, frames, WalkPages(a, ts), b);
  }

  /** ... and the stores through the pieces are a run from there that puts the bytes into the pages. */
  lemma TranslationWrites(codec: Codec, m: Machine, a: Ask, ts: seq<Turn>, frames: UserBuffers.Frames, start: nat, data: seq<bv8>)
    returns (m': Machine)
    requires codec.Lossless() && Walk(codec, m, a, ts) && Right(m, a, ts) && SeesFrames(StateAt(m, ts, |ts|), frames)
    requires UserBuffers.Mapped(WalkPages(a, ts), start, start + |data|)
    ensures Reaches(codec, m, m') && Inv(m') && UserBuffers.Backed(frames, WalkPages(a, ts))
    ensures forall b: nat {:trigger b / 4096 in WalkPages(a, ts)} :: b / 4096 in WalkPages(a, ts) ==>
              && HasPage(m', a.p, b / 4096)
              && Bytes(codec, m', a.p, b / 4096)[b % 4096] ==
                 UserBuffers.VirtualByte(UserBuffers.Poked(frames, WalkPages(a, ts), start, data, |data|), WalkPages(a, ts), b)
  {
    var now, pages := StateAt(m, ts, |ts|), WalkPages(a, ts);
    WalkReaches(codec, m, a, ts, |ts|);
    WalkSpace(codec, m, a, ts);
    RightSees(m, a, ts);
    m' := CopyRuns(codec, now, a.p, frames, pages, start, data, |data|);
    ReachesTwice(codec, m, now, m');
    var after := UserBuffers.Poked(frames, pages, start, data, |data|);
    forall b: nat | b / 4096 in pages
      ensures HasPage(m', a.p, b / 4096) && Bytes(codec, m', a.p, b / 4096)[b % 4096] == UserBuffers.VirtualByte(after, pages, b)
    {
      SeenByte(codec, m', a.p, after, pages, b);
    }
  }

  lemma WalkSpace(codec: Codec, m: Machine, a: Ask, ts: seq<Turn>)
    requires codec.Lossless() && Walk(codec, m, a, ts)
    ensures a.p in StateAt(m, ts, |ts|).spaces
  {
    if |ts| > 0 {
      TurnHasPage(codec, m, a, ts, |ts| - 1);
    }
  }

  // ---------------------------------------------------------------- a translation that is not right

  /** A page that was reclaimed after its turn is out of memory. If its frame is another page's by now, a
      store through the piece taken for the one changes the other, and only that. */
  lemma StoreStrays(codec: Codec, m: Machine, p: nat, v: nat, w: nat, offset: nat, byte: bv8)
    requires HasPage(m, p, v) && Entry(m, p, v).None? && m.spaces[p].slots[v].file.None?
    requires Entry(m, p, w).Some? && offset < PAGE_SIZE
    ensures CanKernelStore(m, p, w, offset) && HasPage(m, p, w)
    ensures Holding(codec, KernelStored(m, p, w, offset, byte), p, v, Bytes(codec, m, p, v))
    ensures Holding(codec, KernelStored(m, p, w, offset, byte), p, w, Bytes(codec, m, p, w)[offset := byte])
  {
    MappedFrame(m, p, w);
    assert SlotOk(m, p, v);
    KernelStoreBytes(codec, m, p, w, offset, byte, p, v);
    KernelStoreBytes(codec, m, p, w, offset, byte, p, w);
  }

  /** Two anonymous pages, the first in frame 0, the second not yet touched. */
  function TwoPageMachine(perm: Perm): Machine {
    Machine(map[0 := AddrSpace(map[0 := Slot(perm, InMemory(0), None), 1 := Slot(perm, Unallocated, None)], map[0 := Pte(0, perm)])],
            map[InMemory(0) := Cell(1, ZeroPage())], map[], map[], map[])
  }

  lemma TwoPageInv(perm: Perm)
    ensures Inv(TwoPageMachine(perm))
  {
    var m := TwoPageMachine(perm);
    forall q, u | q in m.spaces && u in m.spaces[q].slots
      ensures SlotOk(m, q, u)
    {
    }
    forall x | x in Holders(m, InMemory(0))
      ensures x == (0, 0)
    {
      HoldersHas(m, x.0, x.1, InMemory(0));
    }
    HoldersHas(m, 0, 0, InMemory(0));
    assert Holders(m, InMemory(0)) == {(0, 0)};
    assert CellOk(m, InMemory(0)) && TableOk(m, 0);
  }

  /** The turn of the second page: the first is swapped out and its frame handed out again. */
  lemma ReusingTurn(codec: Codec, perm: Perm, a: Ask) returns (t: Turn)
    requires codec.Lossless() && perm.r && perm.u && a == Ask(0, 0, {0}, [0, 0])
    ensures TurnOk(codec, a, 1, t) && t.ms[0] == TwoPageMachine(perm) && t.ppn == 0
    ensures t.steps == [Evict(0, 0, SwappedOut(0), false), Fault(0, 1, 0, 0)]
  {
    TwoPageInv(perm);
    var m := TwoPageMachine(perm);
    var out := Evicted(codec, m, 0, 0, SwappedOut(0), false);
    StepInv(codec, m, Evict(0, 0, SwappedOut(0), false), out);
    assert out.spaces[0].slots[1] == Slot(perm, Unallocated, None) && 1 !in out.spaces[0].table && InMemory(0) !in out.store;
    FaultReady(out, 0);
    var back := Faulted(codec, out, 0, 1, 0, 0);
    RunTwo(codec, m, Evict(0, 0, SwappedOut(0), false), out, Fault(0, 1, 0, 0), back);
    t := Turn([m, out, back], [Evict(0, 0, SwappedOut(0), false), Fault(0, 1, 0, 0)], 0);
    assert WalkStep(a, 1, t, 0) && WalkStep(a, 1, t, 1);
  }

  /** Both pages are translated with no frame free, and both pieces are frame 0. */
  lemma ReusingWalk(codec: Codec, perm: Perm, a: Ask) returns (ts: seq<Turn>)
    requires codec.Lossless() && perm.r && perm.u && a == Ask(0, 0, {0}, [0, 0])
    ensures |ts| == 2 && Walk(codec, TwoPageMachine(perm), a, ts) && WalkPages(a, ts) == map[0 := 0, 1 := 0]
    ensures Entry(StateAt(TwoPageMachine(perm), ts, 2), 0, 0).None? && Entry(StateAt(TwoPageMachine(perm), ts, 2), 0, 1) == Some(0)
  {
    TwoPageInv(perm);
    var m := TwoPageMachine(perm);
    var first := Turn([m], [], 0);
    var second := ReusingTurn(codec, perm, a);
    ts := [first, second];
    assert TurnOk(codec, a, 0, first);
    assert TurnAt(codec, m, a, ts, 0) && TurnAt(codec, m, a, ts, 1);
    assert Evicts(second.steps[0], 0, 0) && EvictedIn(ts[1], 0, 0);
    assert LostBy(a, ts, 0, 2);
    WalkEntry(codec, m, a, ts, 0, 2);
    WalkEntry(codec, m, a, ts, 1, 2);
  }

  /** The input: a byte stored through the piece of the first page is found in the second. */
  lemma ReclaimInput(codec: Codec, perm: Perm) returns (a: Ask, ts: seq<Turn>)
    requires codec.Lossless() && perm.r && perm.u
    ensures |ts| == 2 && Walk(codec, TwoPageMachine(perm), a, ts) && !Right(TwoPageMachine(perm), a, ts)
    ensures WalkPages(a, ts) == map[0 := 0, 1 := 0]
    ensures var now := StateAt(TwoPageMachine(perm), ts, 2);
            && CanKernelStore(now, 0, 1, 0) && Entry(now, 0, 1) == Some(0)
            && Holding(codec, KernelStored(now, 0, 1, 0, 1), 0, 0, ZeroPage())
            && Holding(codec, KernelStored(now, 0, 1, 0, 1), 0, 1, ZeroPage()[0 := 1])
  {
    var m := TwoPageMachine(perm);
    a := Ask(0, 0, {0}, [0, 0]);
    ts := ReusingWalk(codec, perm, a);
    assert !RightAt(m, a, ts, 0);
    WalkHolds(codec, m, a, ts, 2, 0, 0, ZeroPage());
    WalkHolds(codec, m, a, ts, 2, 0, 1, ZeroPage());
    WalkAlike(codec, m, a, ts, 2, 0);
    StoreStrays(codec, StateAt(m, ts, 2), 0, 0, 1, 0, 1);
  }
}
