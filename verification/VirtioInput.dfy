/** The virtio input driver: 32 event slots, all of them lent to the device all the time. */
module VirtioInput {
  import opened Basics
  import opened SplitRing
  import opened VirtQueues

  datatype InputEvent = InputEvent(eventType: U16, code: U16, value: nat)

  const QUEUE_SIZE := 32
  const EVENT_BYTES := 8

  function EventBuffer(base: nat, i: nat): Buffer {
    Buffer(base + EVENT_BYTES * i, EVENT_BYTES)
  }

  /** Token `t` is the single descriptor `t`, and that descriptor is event slot `t`, writable. */
  ghost predicate Lent(w: World, base: nat, t: nat) {
    && t in w.b.chains && w.b.chains[t] == [t]
    && t < |w.q.desc|
    && w.q.desc[t].addr == base + 8 * t && w.q.desc[t].len == 8 && !w.q.desc[t].hasNext && w.q.desc[t].deviceWrites
  }

  ghost predicate AllLent(w: World, base: nat) {
    && Inv(w) && w.q.size == QUEUE_SIZE && w.b.free == []
    && forall t :: 0 <= t < QUEUE_SIZE ==> Lent(w, base, t)
  }

  /** With every slot lent, the descriptor a pop frees is the only free one, so adding it again
      hands out the token just popped and lends every slot again. */
  lemma Requeue(w: World, base: nat)
    requires AllLent(w, base) && CanPop(w)
    ensures var t := w.b.comp[w.b.popped].id;
            && t < QUEUE_SIZE
            && CanAdd(Popped(w), [], [EventBuffer(base, t)])
            && Popped(w).b.free == [t]
            && AllLent(Added(Popped(w), [], [EventBuffer(base, t)]), base)
  {
    var t := w.b.comp[w.b.popped].id;
    assert DoneOk(w.b, w.b.popped) && HeadOk(w.b, t) && ChainEntryOk(w.b, t, 0);
    assert Lent(w, base, t);
    var w1 := Popped(w);
    PopInv(w);
    var w2 := Added(w1, [], [EventBuffer(base, t)]);
    AddInv(w1, [], [EventBuffer(base, t)]);
    forall u | 0 <= u < QUEUE_SIZE
      ensures Lent(w2, base, u)
    {
      assert Lent(w, base, u);
      assert ChainEntryOk(w.b, u, 0);
      assert u != t ==> w1.b.place[u] == Used(u, 0);
      assert PlaceOk(w1.b, t);
    }
  }

  /** Filling the queue: with the first `i` slots lent the next token is `i`. */
  ghost predicate Lending(w: World, base: nat, i: nat) {
    && Inv(w) && w.q.size == QUEUE_SIZE && i <= QUEUE_SIZE
    && |w.b.free| == QUEUE_SIZE - i && w.b.comp == []
    && (forall k :: 0 <= k < |w.b.free| ==> w.b.free[k] == i + k)
    && forall t :: 0 <= t < i ==> Lent(w, base, t)
  }

  lemma LendStart(w: World, base: nat)
    requires Init(w) && w.q.size == QUEUE_SIZE
    ensures Lending(w, base, 0)
  {
    InitInv(w);
  }

  lemma LendNext(w: World, base: nat, i: nat)
    requires Lending(w, base, i) && i < QUEUE_SIZE
    ensures CanAdd(w, [], [EventBuffer(base, i)])
    ensures Lending(Added(w, [], [EventBuffer(base, i)]), base, i + 1)
  {
    var w' := Added(w, [], [EventBuffer(base, i)]);
    AddInv(w, [], [EventBuffer(base, i)]);
    assert FreeEntryOk(w.b, 0);
    forall t | 0 <= t < i + 1
      ensures Lent(w', base, t)
    {
      if t < i {
        assert Lent(w, base, t);
        assert ChainEntryOk(w.b, t, 0);
      } else {
        assert w'.b.chains[i] == [i];
      }
    }
  }

  class InputDriver {
    const queue: VirtQueue
    const events: array<InputEvent>
    const base: nat
    /** The event of every completion the device has published, in order. */
    ghost var delivered: seq<InputEvent>

    ghost predicate EventKept(k: nat)
      reads this, queue, events
    {
      && k < |queue.book.comp| == |delivered|
      && queue.book.comp[k].id < events.Length
      && events[queue.book.comp[k].id] == delivered[k]
    }

    ghost predicate Valid()
      reads this, queue, queue.desc, queue.availRing, queue.usedRing, events
    {
      && AllLent(queue.State(), base) && events.Length == QUEUE_SIZE
      && events as object !in {this, queue, queue.desc, queue.availRing, queue.usedRing}
      && |queue.book.comp| == |delivered|
      && forall k :: queue.book.popped <= k < |queue.book.comp| ==> EventKept(k)
    }

    constructor (base: nat)
      ensures Valid() && delivered == []
      ensures fresh(queue) && fresh(queue.desc) && fresh(queue.availRing) && fresh(queue.usedRing) && fresh(events)
    {
      queue := new VirtQueue(QUEUE_SIZE);
      events := new InputEvent[QUEUE_SIZE](_ => InputEvent(0, 0, 0));
      this.base := base;
      delivered := [];
      new;
      LendAll();
    }

    /** The loop of `new` that hands every slot to the device, with its check of the token. */
    method LendAll()
      requires Init(queue.State()) && queue.Valid() && queue.size == QUEUE_SIZE
      modifies queue, queue.desc, queue.availRing
      ensures AllLent(queue.State(), base) && queue.book.comp == []
    {
      LendStart(queue.State(), base);
      for i := 0 to QUEUE_SIZE
        invariant Lending(queue.State(), base, i)
      {
        LendNext(queue.State(), base, i);
        var token := queue.Add([], [EventBuffer(base, i)]);
        assert token == Ok(i);
      }
    }

    /** The event of the oldest completion not yet taken, if any; its slot is lent again. */
    method PopPendingEvent() returns (r: Option<InputEvent>)
      requires Valid()
      modifies queue, queue.desc, queue.availRing
      ensures Valid()
      ensures r.Some? <==> old(queue.book.popped < |queue.book.comp|)
      ensures r.Some? ==> r.value == delivered[old(queue.book.popped)]
      ensures queue.book.popped == old(queue.book.popped) + (if r.Some? then 1 else 0)
    {
      ghost var w := queue.State();
      var used := queue.PopUsed();
      if used.Err? {
        return None;
      }
      var token := used.value.0;
      Requeue(w, base);
      assert EventKept(w.b.popped);
      var again := queue.Add([], [EventBuffer(base, token)]);
      assert again == Ok(token);
      forall k | queue.book.popped <= k < |queue.book.comp|
        ensures EventKept(k)
      {
        assert old(EventKept(k));
      }
      if again.Ok? {
        return Some(events[token]);
      }
      r := None;
    }

    /** The device writes an event into any slot it holds and completes it. */
    method DeviceEvent(token: nat, event: InputEvent)
      requires Valid() && CanComplete(queue.State(), token)
      modifies this`delivered, events, queue`usedShared, queue`book, queue.usedRing
      ensures Valid() && delivered == old(delivered) + [event]
    {
      ghost var w := queue.State();
      assert HeadOk(w.b, token) && ChainEntryOk(w.b, token, 0);
      events[token] := event;
      delivered := delivered + [event];
      queue.DeviceComplete(token, EVENT_BYTES);
      forall t | 0 <= t < QUEUE_SIZE
        ensures Lent(queue.State(), base, t)
      {
        assert Lent(w, base, t);
      }
      forall k | queue.book.popped <= k < |queue.book.comp|
        ensures EventKept(k)
      {
        if k < |w.b.comp| {
          assert old(EventKept(k)) && DoneOk(w.b, k);
        }
      }
    }
  }
}
