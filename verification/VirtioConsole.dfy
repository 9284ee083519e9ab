/** Receive side of the virtio console: one page-sized buffer that is either with the device or
    being read out byte by byte. */
module VirtioConsole {
  import opened Basics
  import opened SplitRing
  import opened VirtQueues

  const PAGE_SIZE := 0x1000

  class Console {
    const rx: VirtQueue
    const buf: array<bv8>
    const bufAddr: nat
    var cursor: nat
    var pendingLen: nat
    /** All bytes the device has put in the buffer, and all bytes handed to callers. */
    ghost var delivered: seq<bv8>
    ghost var taken: seq<bv8>

    /** The buffer is with the device, all of it and for the device to write, and nothing is pending, or it is with the driver and some
        bytes of it are still unread. Together with the bytes already taken, the unread bytes are
        everything the device ever delivered. */
    ghost predicate Valid()
      reads this, rx, rx.desc, rx.availRing, rx.usedRing, buf
    {
      && rx.Valid() && rx.size == 2 && buf.Length == PAGE_SIZE
      && buf as object !in {this, rx, rx.desc, rx.availRing, rx.usedRing}
      && (forall t :: t in rx.book.chains ==> Lends(rx.desc[..], t, [], [Buffer(bufAddr, PAGE_SIZE)]))
      && var b := rx.book;
      && if b.popped < |b.comp| then
           && |b.chains| == 1 && |b.comp| == b.popped + 1 && cursor == pendingLen
           && 0 < b.comp[b.popped].len <= buf.Length
           && delivered == taken + buf[..b.comp[b.popped].len]
         else if |b.chains| > 0 then
           |b.chains| == 1 && cursor == pendingLen && delivered == taken
         else
           cursor < pendingLen <= buf.Length && delivered == taken + buf[cursor..pendingLen]
    }

    constructor (bufAddr: nat)
      ensures Valid() && |rx.book.chains| == 1 && delivered == taken == []
      ensures fresh(rx) && fresh(rx.desc) && fresh(rx.availRing) && fresh(rx.usedRing) && fresh(buf)
    {
      rx := new VirtQueue(2);
      this.bufAddr := bufAddr;
      buf := new bv8[PAGE_SIZE];
      cursor, pendingLen := 0, 0;
      delivered, taken := [], [];
      new;
      var r := rx.Add([], [Buffer(bufAddr, PAGE_SIZE)]);
      assert r.Ok?;
    }

    /** Give the buffer back to the device. */
    method PollRetrieve() returns (r: Result<()>)
      requires rx.Valid() && rx.size == 2 && |rx.book.chains| == 0
      modifies rx, rx.desc, rx.availRing
      ensures r.Ok? && rx.Valid()
      ensures |rx.book.chains| == 1 && rx.book.comp == old(rx.book.comp) && rx.book.popped == old(rx.book.popped)
      ensures forall t :: t in rx.book.chains ==> Lends(rx.desc[..], t, [], [Buffer(bufAddr, PAGE_SIZE)])
    {
      NothingUsed(rx.State());
      var added := rx.Add([], [Buffer(bufAddr, PAGE_SIZE)]);
      match added
      case Ok(_) => r := Ok(());
      case Err(error) => r := Err(error);
    }

    /** Collect what the device has delivered; `ack` is the interrupt status read from the header. */
    method AckInterrupt(ack: bool) returns (flag: bool)
      requires Valid()
      modifies this`cursor, this`pendingLen, rx, rx.desc
      ensures Valid()
      ensures flag <==> ack && old(rx.book.popped < |rx.book.comp|)
      ensures flag ==> cursor == 0 && pendingLen == old(rx.book.comp[rx.book.popped].len)
      ensures !flag ==> cursor == old(cursor) && pendingLen == old(pendingLen) && rx.State() == old(rx.State())
    {
      if !ack {
        return false;
      }
      flag := false;
      var used := rx.PopUsed();
      while used.Ok?
        invariant rx.Valid() && (used.Ok? ==> !flag)
        invariant !flag && used.Err? ==> rx.State() == old(rx.State()) && cursor == old(cursor) && pendingLen == old(pendingLen)
        invariant !flag && used.Ok? ==> CanPop(old(rx.State())) && rx.State() == Popped(old(rx.State()))
        invariant used.Ok? ==> used.value.1 == old(rx.book.comp[rx.book.popped].len)
        invariant flag ==> CanPop(old(rx.State())) && rx.State() == Popped(old(rx.State()))
        invariant flag ==> cursor == 0 && pendingLen == old(rx.book.comp[rx.book.popped].len)
        invariant used.Err? ==> (flag <==> CanPop(old(rx.State())))
        decreases !flag
      {
        assert !flag;
        flag := true;
        assert used.value.1 != 0;
        cursor := 0;
        pendingLen := used.value.1;
        used := rx.PopUsed();
      }
    }

    /** The next unread byte, if any; with `pop` it is consumed, and after the last one the buffer
        goes back to the device. */
    method Recv(pop: bool) returns (r: Result<Option<bv8>>)
      requires Valid()
      modifies this`cursor, this`taken, rx, rx.desc, rx.availRing
      ensures Valid() && r.Ok?
      ensures r.value.None? <==> old(cursor == pendingLen)
      ensures r.value.Some? ==> |old(taken)| < |delivered| && r.value.value == delivered[|old(taken)|]
      ensures taken == if pop && r.value.Some? then old(taken) + [r.value.value] else old(taken)
    {
      if cursor == pendingLen {
        return Ok(None);
      }
      var ch := buf[cursor];
      assert delivered == taken + [ch] + buf[cursor + 1..pendingLen];
      if pop {
        cursor := cursor + 1;
        taken := taken + [ch];
        if cursor == pendingLen {
          var again := PollRetrieve();
          match again
          case Ok(_) =>
          case Err(error) => return Err(error);
        }
      }
      r := Ok(Some(ch));
    }

    /** The device fills the buffer it holds with 1 to 4096 bytes and completes it. */
    method DeviceDeliver(token: nat, data: seq<bv8>)
      requires Valid() && CanComplete(rx.State(), token) && 0 < |data| <= PAGE_SIZE
      modifies this`delivered, buf, rx`usedShared, rx`book, rx.usedRing
      ensures Valid() && delivered == old(delivered) + data
    {
      ghost var b := rx.book;
      HeldAlone(b, token);
      forall i | 0 <= i < |data| {
        buf[i] := data[i];
      }
      delivered := delivered + data;
      rx.DeviceComplete(token, |data|);
      assert buf[..|data|] == data;
    }
  }

  /** With no chain outstanding every descriptor is free. */
  lemma NothingUsed(w: World)
    requires Inv(w) && |w.b.chains| == 0
    ensures w.q.numUsed == 0
  {
    forall d | d in Range(0, w.q.size)
      ensures d in Elements(w.b.free)
    {
      assert PlaceOk(w.b, d);
      assert w.b.chains.Keys == {};
    }
    FreeDistinct(w.b);
    DistinctSize(w.b.free);
    RangeSize(0, w.q.size);
    SubsetSize(Range(0, w.q.size), Elements(w.b.free));
  }

  /** The only outstanding chain is in the device's hands, so no completion waits. */
  lemma HeldAlone(b: Book, token: nat)
    requires StagesOk(b) && |b.chains| == 1 && token in b.stage && b.stage[token].Held?
    ensures b.popped == |b.comp|
  {
    DoneFit(b);
  }
}
