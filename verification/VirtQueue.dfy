/** The driver side of a virtqueue, working in place on the descriptor table and the two rings,
    and the two steps of an honest device on the same memory. Each method is proved to make exactly
    the step of module SplitRing. */
module VirtQueues {
  import opened Basics
  import opened SplitRing

  datatype Error = BufferTooSmall | NotReady | AlreadyUsed | InvalidParam

  datatype Result<+T> = Ok(value: T) | Err(error: Error)

  /** `freeHead` once `k` descriptors are taken; past the last one it is whatever its link holds. */
  ghost function HeadAfter(w: World, k: nat): (r: U16)
    requires Inv(w) && k <= |w.b.free|
    ensures k < |w.b.free| ==> r == w.b.free[k]
  {
    if k == 0 then w.q.freeHead else
    NextFree(w, k - 1); w.q.desc[w.b.free[k - 1]].next
  }

  /** The first `k` free descriptors filled, NEXT set on all of them. */
  ghost function PartFill(desc: seq<Descriptor>, place: seq<Place>, inputs: seq<Buffer>, outputs: seq<Buffer>, k: nat)
    : (r: seq<Descriptor>)
    requires |desc| == |place| && k <= |inputs| + |outputs|
    ensures |r| == |desc|
    ensures k == 0 ==> r == desc
  {
    seq(|desc|, d requires 0 <= d < |desc| =>
      if place[d].Free? && place[d].pos < k
      then Filled(inputs, outputs, place[d].pos, desc[d].next).(hasNext := true)
      else desc[d])
  }

  /** A free descriptor is in the table and links to the one after it. */
  lemma NextFree(w: World, k: nat)
    requires Inv(w) && k < |w.b.free|
    ensures w.b.free[k] < |w.q.desc| == |w.b.place| && w.b.place[w.b.free[k]] == Free(k)
    ensures k + 1 < |w.b.free| ==> w.q.desc[w.b.free[k]].next == w.b.free[k + 1]
    ensures k == 0 ==> w.q.freeHead == w.b.free[0]
  {
    assert FreeEntryOk(w.b, k) && LinkOk(w.q.desc, w.b, w.b.free[k]);
  }

  lemma PartFillStep(desc: seq<Descriptor>, b: Book, inputs: seq<Buffer>, outputs: seq<Buffer>, k: nat)
    requires |desc| == |b.place| && Partitioned(b)
    requires k < |inputs| + |outputs| <= |b.free|
    ensures b.free[k] < |desc|
    ensures PartFill(desc, b.place, inputs, outputs, k + 1) ==
            PartFill(desc, b.place, inputs, outputs, k)[b.free[k] :=
              Filled(inputs, outputs, k, desc[b.free[k]].next).(hasNext := true)]
  {
    assert FreeEntryOk(b, k);
    var next := PartFill(desc, b.place, inputs, outputs, k)[b.free[k] :=
      Filled(inputs, outputs, k, desc[b.free[k]].next).(hasNext := true)];
    forall d | 0 <= d < |next|
      ensures PartFill(desc, b.place, inputs, outputs, k + 1)[d] == next[d]
    {
      assert PlaceOk(b, d);
    }
  }

  lemma PartFillEnd(desc: seq<Descriptor>, b: Book, inputs: seq<Buffer>, outputs: seq<Buffer>)
    requires |desc| == |b.place| && Partitioned(b)
    requires 0 < |inputs| + |outputs| <= |b.free|
    ensures var last := b.free[|inputs| + |outputs| - 1];
            && last < |desc|
            && var part := PartFill(desc, b.place, inputs, outputs, |inputs| + |outputs|);
               Fill(desc, b.place, inputs, outputs) == part[last := part[last].(hasNext := false)]
  {
    var last := b.free[|inputs| + |outputs| - 1];
    assert FreeEntryOk(b, |inputs| + |outputs| - 1);
    var part := PartFill(desc, b.place, inputs, outputs, |inputs| + |outputs|);
    var filled := part[last := part[last].(hasNext := false)];
    forall d | 0 <= d < |filled|
      ensures Fill(desc, b.place, inputs, outputs)[d] == filled[d]
    {
      assert PlaceOk(b, d);
    }
  }

  class VirtQueue {
    const size: nat
    const desc: array<Descriptor>
    const availRing: array<U16>
    const usedRing: array<UsedElem>
    var availShared: U16
    var usedShared: U16
    var numUsed: nat
    var freeHead: U16
    var availIdx: U16
    var lastUsedIdx: U16
    ghost var book: Book

    ghost function State(): World
      reads this, desc, availRing, usedRing
    {
      World(Queue(size, desc[..], freeHead, numUsed, availIdx, lastUsedIdx,
                  availRing[..], availShared, usedRing[..], usedShared), book)
    }

    ghost predicate Valid()
      reads this, desc, availRing, usedRing
    {
      Inv(State())
    }

    /** Descriptors linked in index order; what the last link and the rings hold is arbitrary. */
    constructor (size: U16)
      requires QueueSize(size)
      ensures Made(State()) && this.size == size
      ensures RingSize(size) ==> Valid() && Init(State())
      ensures fresh(desc) && fresh(availRing) && fresh(usedRing)
    {
      this.size := size;
      desc := new Descriptor[size];
      availRing := new U16[RING_ENTRIES];
      usedRing := new UsedElem[RING_ENTRIES];
      availShared, usedShared, numUsed, freeHead, availIdx, lastUsedIdx := 0, 0, 0, 0, 0, 0;
      book := Book(FirstFree(size), map[], AllFree(size), [], 0, [], 0, map[]);
      new;
      for i := 0 to size - 1
        invariant forall j :: 0 <= j < i ==> desc[j].next == j + 1
        invariant book == Book(FirstFree(size), map[], AllFree(size), [], 0, [], 0, map[])
        invariant availShared == usedShared == numUsed == freeHead == availIdx == lastUsedIdx == 0
      {
        desc[i] := desc[i].(next := i + 1);
      }
      if RingSize(size) {
        InitInv(State());
      }
    }

    /** `VirtQueue::new`, with what the device header reports as parameters. A queue longer than the
        declared rings is made all the same, but it is not in order (SplitRing.RingBound). */
    static method Create(queueUsed: bool, maxSize: nat, size: U16) returns (r: Result<VirtQueue>)
      ensures r == Err(AlreadyUsed) <==> queueUsed
      ensures r == Err(InvalidParam) <==> !queueUsed && (!QueueSize(size) || maxSize < size)
      ensures r.Ok? <==> !queueUsed && QueueSize(size) && size <= maxSize
      ensures r.Ok? ==> fresh(r.value) && fresh(r.value.desc) && fresh(r.value.availRing) && fresh(r.value.usedRing)
      ensures r.Ok? ==> Made(r.value.State()) && r.value.size == size
      ensures r.Ok? ==> (r.value.Valid() <==> size <= RING_ENTRIES) && (size <= RING_ENTRIES ==> Init(r.value.State()))
    {
      if queueUsed {
        return Err(AlreadyUsed);
      }
      if !QueueSize(size) || maxSize < size {
        return Err(InvalidParam);
      }
      var queue := new VirtQueue(size);
      r := Ok(queue);
    }

    /** Add buffers; on success the token of the new chain. */
    method Add(inputs: seq<Buffer>, outputs: seq<Buffer>) returns (r: Result<U16>)
      requires Valid()
      modifies this, desc, availRing
      ensures Valid()
      ensures r == Err(InvalidParam) <==> |inputs| + |outputs| == 0
      ensures r == Err(BufferTooSmall) <==> |inputs| + |outputs| > 0 && |inputs| + |outputs| + old(numUsed) > size
      ensures r.Err? ==> State() == old(State())
      ensures r.Ok? <==> CanAdd(old(State()), inputs, outputs)
      ensures r.Ok? ==> r.value == old(book).free[0] && State() == Added(old(State()), inputs, outputs)
      ensures r.Ok? ==> Lends(desc[..], r.value, inputs, outputs)
    {
      if |inputs| == 0 && |outputs| == 0 {
        return Err(InvalidParam);
      }
      if |inputs| + |outputs| + numUsed > size {
        return Err(BufferTooSmall);
      }
      ghost var w := State();
      NextFree(w, 0);
      var head := FillChain(inputs, outputs);
      numUsed := numUsed + |inputs| + |outputs|;
      Publish(head);
      ghost var w' := Added(w, inputs, outputs);
      book := w'.b;
      assert State() == w';
      AddInv(w, inputs, outputs);
      AddLends(w, inputs, outputs);
      r := Ok(head);
    }

    /** The part of `add` that takes descriptors from the free list. */
    method FillChain(inputs: seq<Buffer>, outputs: seq<Buffer>) returns (head: U16)
      requires CanAdd(State(), inputs, outputs)
      modifies this`freeHead, desc
      ensures var w := old(State());
              && CanAdd(w, inputs, outputs) && head == w.b.free[0]
              && State().q == w.q.(desc := Fill(w.q.desc, w.b.place, inputs, outputs),
                                   freeHead := HeadAfter(w, |inputs| + |outputs|))
    {
      ghost var w := State();
      NextFree(w, 0);
      head := freeHead;
      var last := freeHead;
      last := FillAll(inputs, false, last, w, inputs, outputs, 0);
      last := FillAll(outputs, true, last, w, inputs, outputs, |inputs|);
      EndChain(last, w, inputs, outputs);
    }

    /** Clear NEXT of the last descriptor filled. */
    method EndChain(last: U16, ghost w: World, ghost inputs: seq<Buffer>, ghost outputs: seq<Buffer>)
      requires |inputs| + |outputs| > 0 && Filling(w, inputs, outputs, |inputs| + |outputs|, last)
      modifies desc
      ensures State().q == w.q.(desc := Fill(w.q.desc, w.b.place, inputs, outputs),
                                freeHead := HeadAfter(w, |inputs| + |outputs|))
    {
      NextFree(w, |inputs| + |outputs| - 1);
      PartFillEnd(w.q.desc, w.b, inputs, outputs);
      desc[last] := desc[last].(hasNext := false);
      assert desc[..] == Fill(w.q.desc, w.b.place, inputs, outputs);
    }

    /** The part of `add` that makes the chain available. */
    method Publish(head: U16)
      requires RingSize(size) && availRing.Length == RING_ENTRIES
      requires availIdx == Wrap(|book.log|)
      modifies this`availIdx, this`availShared, availRing
      ensures availRing[..] == old(availRing[..])[Slot(|book.log|, size) := head]
      ensures availIdx == availShared == Wrap(|book.log| + 1)
    {
      WrapKeepsSlot(|book.log|, size);
      availRing[Slot(availIdx, size)] := head;
      availIdx := (availIdx + 1) % 0x1_0000;
      availShared := availIdx;
    }

    /** After `k` buffers only the descriptor table and `freeHead` have changed. */
    ghost predicate Filling(w: World, inputs: seq<Buffer>, outputs: seq<Buffer>, k: nat, last: U16)
      reads this, desc, availRing, usedRing
    {
      && CanAdd(w, inputs, outputs) && k <= |inputs| + |outputs|
      && State() == World(w.q.(desc := PartFill(w.q.desc, w.b.place, inputs, outputs, k), freeHead := HeadAfter(w, k)), w.b)
      && (k > 0 ==> last == w.b.free[k - 1])
    }

    /** Either loop of `add`: fill one descriptor for each buffer of `bufs`. */
    method FillAll(bufs: seq<Buffer>, deviceWrites: bool, prev: U16,
                   ghost w: World, ghost inputs: seq<Buffer>, ghost outputs: seq<Buffer>, ghost start: nat)
      returns (last: U16)
      requires Filling(w, inputs, outputs, start, prev)
      requires if deviceWrites then bufs == outputs && start == |inputs| else bufs == inputs && start == 0
      modifies this`freeHead, desc
      ensures Filling(w, inputs, outputs, start + |bufs|, last)
    {
      last := prev;
      for k := 0 to |bufs|
        invariant Filling(w, inputs, outputs, start + k, last)
      {
        last := FillNext(bufs[k], deviceWrites, w, inputs, outputs, start + k, last);
      }
    }

    /** One turn of that loop. */
    method FillNext(buf: Buffer, deviceWrites: bool,
                    ghost w: World, ghost inputs: seq<Buffer>, ghost outputs: seq<Buffer>, ghost k: nat, ghost prev: U16)
      returns (last: U16)
      requires k < |inputs| + |outputs| && Filling(w, inputs, outputs, k, prev)
      requires buf == (inputs + outputs)[k] && deviceWrites == (k >= |inputs|)
      modifies this`freeHead, desc
      ensures Filling(w, inputs, outputs, k + 1, last)
    {
      NextFree(w, k);
      PartFillStep(w.q.desc, w.b, inputs, outputs, k);
      var d := desc[freeHead];
      desc[freeHead] := Descriptor(buf.addr, buf.len, true, deviceWrites, d.next);
      assert desc[..] == PartFill(w.q.desc, w.b.place, inputs, outputs, k + 1);
      last := freeHead;
      freeHead := d.next;
    }

    /** `can_pop`. */
    predicate HasUsed()
      reads this
    {
      lastUsedIdx != usedShared
    }

    /** Put the chain of `token` in front of the free list. */
    method RecycleDescriptors(token: U16)
      requires Valid() && token in book.chains
      modifies this`freeHead, this`numUsed, desc
      ensures var w := old(State());
              && token in w.b.chains && 0 < |w.b.chains[token]| <= w.q.numUsed
              && var last := w.b.chains[token][|w.b.chains[token]| - 1];
              && last < |w.q.desc|
              && State().q == w.q.(desc := w.q.desc[last := w.q.desc[last].(next := w.q.freeHead)],
                                   freeHead := token,
                                   numUsed := w.q.numUsed - |w.b.chains[token]|)
    {
      ghost var w := State();
      ghost var chain := book.chains[token];
      ghost var i := 0;
      ChainFits(w, token);
      var head := token;
      var originFreeHead := freeHead;
      freeHead := head;
      ChainLink(w, token, 0);
      while desc[head].hasNext
        invariant 0 <= i < |chain| && head == chain[i] < desc.Length
        invariant numUsed == w.q.numUsed - i
        invariant State().q == w.q.(freeHead := token, numUsed := numUsed)
        invariant desc[head].hasNext <==> i + 1 < |chain|
        decreases |chain| - i
      {
        numUsed := numUsed - 1;
        ChainLink(w, token, i);
        head := desc[head].next;
        i := i + 1;
        ChainLink(w, token, i);
      }
      numUsed := numUsed - 1;
      desc[head] := desc[head].(next := originFreeHead);
    }

    /** Take the oldest completion: its token and the length the device reported. */
    method PopUsed() returns (r: Result<(U16, nat)>)
      requires Valid()
      modifies this, desc
      ensures Valid()
      ensures r.Ok? <==> CanPop(old(State()))
      ensures r.Err? ==> r.error == NotReady && State() == old(State())
      ensures r.Ok? ==> r.value == (old(book).comp[old(book).popped].id, old(book).comp[old(book).popped].len)
      ensures r.Ok? ==> State() == Popped(old(State()))
    {
      ghost var w := State();
      UsedExact(w);
      if !HasUsed() {
        return Err(NotReady);
      }
      var index, len := ReadUsed();
      RecycleDescriptors(index);
      lastUsedIdx := (lastUsedIdx + 1) % 0x1_0000;
      WrapStep(book.popped);
      ghost var w' := Popped(w);
      book := w'.b;
      assert State() == w';
      PopInv(w);
      r := Ok((index, len));
    }

    /** The part of `pop_used` that reads the used ring; the 32-bit id is cut to 16 bits. */
    method ReadUsed() returns (index: U16, len: nat)
      requires CanPop(State())
      ensures index == book.comp[book.popped].id && len == book.comp[book.popped].len
      ensures index in book.chains
    {
      WrapKeepsSlot(book.popped, size);
      Oldest(State());
      var slot := Slot(lastUsedIdx, size);
      index := usedRing[slot].id % 0x1_0000;
      len := usedRing[slot].len;
    }

    /** An honest device reads the next available token; `lastAvail` is its private ring index. */
    method DeviceFetch(lastAvail: U16) returns (token: U16)
      requires Valid() && book.fetched < |book.log| && lastAvail == Wrap(book.fetched)
      modifies this`book
      ensures Valid() && token == old(book).log[old(book).fetched] && State() == Fetched(old(State()))
    {
      ghost var w := State();
      assert AvailEntryOk(w, book.fetched);
      WrapKeepsSlot(book.fetched, size);
      token := availRing[Slot(lastAvail, size)];
      book := Fetched(w).b;
      FetchInv(w);
    }

    /** An honest device completes any chain it has fetched, in any order. */
    method DeviceComplete(token: nat, len: nat)
      requires CanComplete(State(), token)
      modifies this`usedShared, this`book, usedRing
      ensures Valid() && State() == Completed(old(State()), token, len)
    {
      ghost var w := State();
      WrapKeepsSlot(|book.comp|, size);
      usedRing[Slot(usedShared, size)] := UsedElem(token, len);
      usedShared := (usedShared + 1) % 0x1_0000;
      WrapStep(|book.comp|);
      ghost var w' := Completed(w, token, len);
      book := w'.b;
      assert State() == w';
      CompleteInv(w, token, len);
    }
  }

  /** Comparing the wrapped indices tells exactly whether a completion waits. */
  lemma UsedExact(w: World)
    requires Inv(w)
    ensures w.q.lastUsedIdx != w.q.usedShared <==> CanPop(w)
  {
    TokensFit(w);
    DoneFit(w.b);
    WrapSum(w.b.popped, |w.b.comp| - w.b.popped);
  }

  lemma WrapStep(n: nat)
    ensures (Wrap(n) + 1) % 0x1_0000 == Wrap(n + 1)
  {
  }

  /** The oldest completion is in its slot and names an outstanding chain. */
  lemma Oldest(w: World)
    requires CanPop(w)
    ensures var e := w.b.comp[w.b.popped];
            w.q.usedRing[Slot(w.b.popped, w.q.size)] == e && e.id in w.b.chains && e.id < w.q.size
  {
    var e := w.b.comp[w.b.popped];
    assert UsedEntryOk(w, w.b.popped) && DoneOk(w.b, w.b.popped);
    assert HeadOk(w.b, e.id) && ChainEntryOk(w.b, e.id, 0);
  }

  /** What a pop returns is the entry of the used ring that the index of the driver masks to. */
  lemma PopReads(w: World)
    requires CanPop(w)
    ensures var e, q' := w.b.comp[w.b.popped], Popped(w).q;
            && w.q.size > 0 && w.q.lastUsedIdx % w.q.size < |w.q.usedRing|
            && w.q.usedRing[w.q.lastUsedIdx % w.q.size] == e
            && q'.lastUsedIdx == (w.q.lastUsedIdx + 1) % 0x1_0000 && q'.freeHead == e.id && q'.numUsed < w.q.numUsed
  {
    Oldest(w);
    WrapKeepsSlot(w.b.popped, w.q.size);
    SlotIsModulo(w.q.lastUsedIdx, w.q.size);
    WrapStep(w.b.popped);
    assert HeadOk(w.b, w.b.comp[w.b.popped].id);
  }

  lemma ChainLink(w: World, token: nat, i: nat)
    requires Inv(w) && token in w.b.chains && (i == 0 || i < |w.b.chains[token]|)
    ensures var chain := w.b.chains[token];
            && |chain| > 0 && chain[0] == token
            && chain[i] < |w.q.desc|
            && (w.q.desc[chain[i]].hasNext <==> i + 1 < |chain|)
            && (i + 1 < |chain| ==> w.q.desc[chain[i]].next == chain[i + 1])
  {
    assert HeadOk(w.b, token);
    assert ChainEntryOk(w.b, token, i) && LinkOk(w.q.desc, w.b, w.b.chains[token][i]);
  }
}
