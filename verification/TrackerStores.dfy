/** The store of trackers that paging works on is what the devices hold: a slot is in use exactly
    while a tracker for it is alive, so new trackers get slots no other tracker has, and the devices
    are only ever asked to free slots in use. */
module TrackerStores {
  import opened PagedMemory
  import Zram
  import Swap

  // ---------------------------------------------------------------- zram

  ghost predicate ZramAt(store: Store, s: Zram.State, id: nat) {
    && (Compressed(id) in store <==> id in Zram.Contents(s))
    && (Compressed(id) in store ==> store[Compressed(id)].data == Zram.Contents(s)[id])
  }

  /** Live zram trackers are the ids in use, with their data. */
  ghost predicate ZramAgrees(store: Store, s: Zram.State) {
    Zram.Valid(s) && forall id: nat {:trigger ZramAt(store, s, id)} :: ZramAt(store, s, id)
  }

  /** Writing a page to zram makes a tracker that is not in the store. */
  lemma ZramWrite(store: Store, s: Zram.State, data: seq<bv8>)
    requires ZramAgrees(store, s) && Zram.NextId(s).Some?
    ensures Zram.NextId(s).value < |s.compressed|
    ensures var f := Compressed(Zram.NextId(s).value);
            f !in store && ZramAgrees(Fresh(store, f, data), Zram.Inserted(s, data))
  {
    Zram.NextIdFree(s);
    Zram.InsertedKeeps(s, data);
    var id := Zram.NextId(s).value;
    assert Zram.SlotOk(s, id) && ZramAt(store, s, id);
    var store', s' := Fresh(store, Compressed(id), data), Zram.Inserted(s, data);
    forall i: nat
      ensures ZramAt(store', s', i)
    {
      assert ZramAt(store, s, i);
    }
  }

  /** Dropping a handle frees the slot with the last one, and then the slot is in use. */
  lemma ZramDrop(store: Store, s: Zram.State, id: nat)
    requires ZramAgrees(store, s) && Counted(store) && Compressed(id) in store
    ensures id < |s.compressed| && Zram.InUse(s, id)
    ensures ZramAgrees(Release(store, Compressed(id)), if store[Compressed(id)].refs == 1 then Zram.Removed(s, id) else s)
  {
    assert ZramAt(store, s, id) && Zram.SlotOk(s, id);
    Zram.RemovedKeeps(s, id);
    var store', s' := Release(store, Compressed(id)), if store[Compressed(id)].refs == 1 then Zram.Removed(s, id) else s;
    forall i: nat
      ensures ZramAt(store', s', i)
    {
      assert ZramAt(store, s, i);
    }
  }

  // ---------------------------------------------------------------- swap

  /** The bytes of a page on the disk, block after block. */
  function Joined(blocks: seq<Swap.Block>, n: nat): seq<bv8>
    requires n <= |blocks|
  {
    if n == 0 then [] else Joined(blocks, n - 1) + blocks[n - 1]
  }

  ghost predicate SwapAt(store: Store, stored: map<nat, seq<Swap.Block>>, id: nat) {
    && (SwappedOut(id) in store <==> id in stored)
    && (SwappedOut(id) in store ==> store[SwappedOut(id)].data == Joined(stored[id], |stored[id]|))
  }

  ghost predicate SwapAgrees(store: Store, stored: map<nat, seq<Swap.Block>>) {
    forall id: nat {:trigger SwapAt(store, stored, id)} :: SwapAt(store, stored, id)
  }

  /** `stored'` is what `write` leaves, under the id it returns. */
  lemma SwapWrite(store: Store, stored: map<nat, seq<Swap.Block>>, id: nat, page: seq<Swap.Block>)
    requires SwapAgrees(store, stored) && id !in stored
    ensures SwappedOut(id) !in store
    ensures SwapAgrees(Fresh(store, SwappedOut(id), Joined(page, |page|)), stored[id := page])
  {
    assert SwapAt(store, stored, id);
    var store', stored' := Fresh(store, SwappedOut(id), Joined(page, |page|)), stored[id := page];
    forall i: nat
      ensures SwapAt(store', stored', i)
    {
      assert SwapAt(store, stored, i);
    }
  }

  lemma SwapDrop(store: Store, stored: map<nat, seq<Swap.Block>>, id: nat)
    requires SwapAgrees(store, stored) && Counted(store) && SwappedOut(id) in store
    ensures id in stored
    ensures SwapAgrees(Release(store, SwappedOut(id)), if store[SwappedOut(id)].refs == 1 then stored - {id} else stored)
  {
    assert SwapAt(store, stored, id);
    var store', stored' := Release(store, SwappedOut(id)), if store[SwappedOut(id)].refs == 1 then stored - {id} else stored;
    forall i: nat
      ensures SwapAt(store', stored', i)
    {
      assert SwapAt(store, stored, i);
    }
  }

  // ---------------------------------------------------------------- frames

  /** Live frame trackers are the frames handed out. */
  ghost predicate FrameUsed(store: Store, used: set<nat>, ppn: nat) {
    InMemory(ppn) in store <==> ppn in used
  }

  ghost predicate FramesAgree(store: Store, used: set<nat>) {
    forall ppn: nat {:trigger FrameUsed(store, used, ppn)} :: FrameUsed(store, used, ppn)
  }

  lemma FrameAlloc(store: Store, used: set<nat>, ppn: nat, data: seq<bv8>)
    requires FramesAgree(store, used) && ppn !in used
    ensures InMemory(ppn) !in store && FramesAgree(Fresh(store, InMemory(ppn), data), used + {ppn})
  {
    assert FrameUsed(store, used, ppn);
    var store', used' := Fresh(store, InMemory(ppn), data), used + {ppn};
    forall p: nat
      ensures FrameUsed(store', used', p)
    {
      assert FrameUsed(store, used, p);
    }
  }

  lemma FrameDrop(store: Store, used: set<nat>, ppn: nat)
    requires FramesAgree(store, used) && Counted(store) && InMemory(ppn) in store
    ensures ppn in used
    ensures FramesAgree(Release(store, InMemory(ppn)), if store[InMemory(ppn)].refs == 1 then used - {ppn} else used)
  {
    assert FrameUsed(store, used, ppn);
    var store', used' := Release(store, InMemory(ppn)), if store[InMemory(ppn)].refs == 1 then used - {ppn} else used;
    forall p: nat
      ensures FrameUsed(store', used', p)
    {
      assert FrameUsed(store, used, p);
    }
  }
}
