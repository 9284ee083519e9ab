/** Runs of the paging machine in which frames and slots come from the devices: what the frame
    allocator, zram and the swap device hold is what the live trackers stand for, in every state. */
module DeviceRuns {
  import opened Basics
  import opened PagedMemory
  import opened PagingMachine
  import opened PagingRuns
  import opened TrackerStores
  import Zram
  import Swap

  /** What zram holds, the pages on the swap device by id, and the frames handed out. */
  datatype Devices = Devices(zram: Zram.State, swap: map<nat, seq<Swap.Block>>, used: set<nat>)

  ghost predicate Agree(store: Store, d: Devices) {
    ZramAgrees(store, d.zram) && SwapAgrees(store, d.swap) && FramesAgree(store, d.used)
  }

  // ---------------------------------------------------------------- trackers come and go

  /** A page cut into the blocks of the disk. */
  function Cut(page: Page): (r: seq<Swap.Block>)
    ensures |r| == 8
  {
    seq(8, i requires 0 <= i < 8 => page[512 * i..512 * i + 512])
  }

  lemma {:induction false} JoinCut(page: Page, n: nat)
    requires n <= 8
    ensures Joined(Cut(page), n) == page[..512 * n]
  {
    if n > 0 {
      JoinCut(page, n - 1);
      assert page[..512 * n] == page[..512 * (n - 1)] + page[512 * (n - 1)..512 * n];
    }
  }

  /** The device would hand this out next: a frame not in use, the id zram takes, a free swap page. */
  ghost predicate Offered(d: Devices, f: Frame) {
    match f
    case InMemory(ppn) => ppn !in d.used
    case Compressed(id) => Zram.Valid(d.zram) && Zram.NextId(d.zram) == Some(id) && id < |d.zram.compressed|
    case SwappedOut(id) => id !in d.swap
    case Unallocated => false
  }

  function Taken(d: Devices, f: Frame, data: seq<bv8>): Devices {
    match f
    case InMemory(ppn) => d.(used := d.used + {ppn})
    case Compressed(id) =>
      if Zram.NextId(d.zram) == Some(id) && id < |d.zram.compressed| <= 65535 then d.(zram := Zram.Inserted(d.zram, data)) else d
    case SwappedOut(id) => d.(swap := d.swap[id := Cut(AsPage(data))])
    case Unallocated => d
  }

  /** A handle is dropped; with the last one the tracker gives back what it has. */
  function Dropped(d: Devices, store: Store, f: Frame): Devices {
    if f !in store || store[f].refs != 1 then d
    else
      match f
      case InMemory(ppn) => d.(used := d.used - {ppn})
      case Compressed(id) => if id < |d.zram.compressed| <= 65535 then d.(zram := Zram.Removed(d.zram, id)) else d
      case SwappedOut(id) => d.(swap := d.swap - {id})
      case Unallocated => d
  }

  /** Same trackers, and no compressed or swapped-out page changed. */
  ghost predicate SameTrackers(store: Store, store': Store) {
    forall f {:trigger f in store'} :: (f in store' <==> f in store) &&
      (f in store && (f.Compressed? || f.SwappedOut?) ==> store'[f].data == store[f].data)
  }

  lemma SameAgree(store: Store, store': Store, d: Devices)
    requires Agree(store, d) && SameTrackers(store, store')
    ensures Agree(store', d)
  {
    forall id: nat
      ensures ZramAt(store', d.zram, id) && SwapAt(store', d.swap, id) && FrameUsed(store', d.used, id)
    {
      assert ZramAt(store, d.zram, id) && SwapAt(store, d.swap, id) && FrameUsed(store, d.used, id);
    }
  }

  /** The trackers of the other kinds do not matter to a device. */
  lemma OthersAgree(store: Store, store': Store, d: Devices, g: Frame)
    requires Agree(store, d) && forall f {:trigger f in store'} :: f != g ==> (f in store' <==> f in store) && (f in store ==> store'[f] == store[f])
    ensures !g.Compressed? ==> ZramAgrees(store', d.zram)
    ensures !g.SwappedOut? ==> SwapAgrees(store', d.swap)
    ensures !g.InMemory? ==> FramesAgree(store', d.used)
  {
    forall id: nat
      ensures !g.Compressed? ==> ZramAt(store', d.zram, id)
      ensures !g.SwappedOut? ==> SwapAt(store', d.swap, id)
      ensures !g.InMemory? ==> FrameUsed(store', d.used, id)
    {
      assert ZramAt(store, d.zram, id) && SwapAt(store, d.swap, id) && FrameUsed(store, d.used, id);
    }
  }

  /** What a device offers no live tracker has, and a tracker for it keeps the agreement. */
  lemma TakeAgrees(store: Store, d: Devices, f: Frame, data: seq<bv8>)
    requires Agree(store, d) && Offered(d, f) && (f.SwappedOut? ==> |data| == PAGE_SIZE)
    ensures f !in store && Agree(Fresh(store, f, data), Taken(d, f, data))
  {
    OthersAgree(store, Fresh(store, f, data), d, f);
    match f
    case InMemory(ppn) => FrameAlloc(store, d.used, ppn, data);
    case Compressed(id) => ZramWrite(store, d.zram, data);
    case SwappedOut(id) =>
      JoinCut(data, 8);
      assert data[..512 * 8] == data;
      SwapWrite(store, d.swap, id, Cut(data));
  }

  /** A drop frees only what is in use, and keeps the agreement. */
  lemma DropAgrees(store: Store, d: Devices, f: Frame)
    requires Agree(store, d) && Counted(store)
    ensures Agree(Release(store, f), Dropped(d, store, f)) && Counted(Release(store, f))
    ensures f in store ==> match f case InMemory(ppn) => ppn in d.used case Compressed(id) => Zram.InUse(d.zram, id)
                                   case SwappedOut(id) => id in d.swap case Unallocated => false
  {
    if f in store {
      OthersAgree(store, Release(store, f), d, f);
      match f
      case InMemory(ppn) => FrameDrop(store, d.used, ppn);
      case Compressed(id) => ZramDrop(store, d.zram, id);
      case SwappedOut(id) => SwapDrop(store, d.swap, id);
      case Unallocated =>
    }
  }

  // ---------------------------------------------------------------- steps

  /** The tracker a step may make, which the device must offer. */
  function NewTracker(step: Step): Option<Frame> {
    match step
    case Fault(_, _, ppn, _) => Some(InMemory(ppn))
    case Evict(_, _, to, _) => Some(to)
    case Populate(_, _, _, _, ppn, _) => Some(InMemory(ppn))
    case CacheLoad(_, ppn) => Some(InMemory(ppn))
    case _ => None
  }

  ghost predicate Chosen(d: Devices, step: Step) {
    NewTracker(step).Some? ==> Offered(d, NewTracker(step).value)
  }

  /** The tracker whose handle a step may drop. */
  function OldTracker(m: Machine, step: Step): Frame {
    match step
    case Fault(p, v, _, _) => if p in m.spaces then FrameAt(m.spaces[p], v) else Unallocated
    case Evict(p, v, _, _) => if p in m.spaces then FrameAt(m.spaces[p], v) else Unallocated
    case Remove(p, v) => if p in m.spaces then FrameAt(m.spaces[p], v) else Unallocated
    case CacheDrop(k) => if k in m.cache then InMemory(m.cache[k]) else Unallocated
    case Truncate(k, _) => if k in m.cache then InMemory(m.cache[k]) else Unallocated
    case _ => Unallocated
  }

  /** What a step does to the devices: a drop, and a new tracker where the step made one. */
  function DevicesAfter(d: Devices, m: Machine, step: Step, m': Machine): Devices {
    if step.Fault? && InMemory(step.ppn) !in m'.store then d
    else
      var dropped := Dropped(d, m.store, OldTracker(m, step));
      match NewTracker(step)
      case None => dropped
      case Some(f) => if f in m'.store then Taken(dropped, f, m'.store[f].data) else dropped
  }

  lemma CountedStore(m: Machine)
    requires Inv(m)
    ensures Counted(m.store)
  {
    assert Unallocated in m.store ==> CellOk(m, Unallocated);
    forall f | f in m.store
      ensures m.store[f].refs > 0
    {
      assert CellOk(m, f);
    }
  }

  /** A page changes trackers. */
  lemma ExchangeAgrees(store: Store, d: Devices, from: Frame, f: Frame, data: seq<bv8>)
    requires Agree(store, d) && Counted(store) && Offered(d, f) && (from.InMemory? || f.InMemory?) && (f.SwappedOut? ==> |data| == PAGE_SIZE)
    ensures f !in store && Agree(Fresh(Release(store, from), f, data), Taken(Dropped(d, store, from), f, data))
  {
    TakeAgrees(store, d, f, data);
    DropAgrees(store, d, from);
    assert Offered(Dropped(d, store, from), f);
    TakeAgrees(Release(store, from), Dropped(d, store, from), f, data);
  }

  lemma FaultAgrees(codec: Codec, m: Machine, p: nat, v: nat, ppn: nat, size: nat, d: Devices)
    requires CanFault(m, p, v, ppn, size) && Agree(m.store, d) && ppn !in d.used
    ensures var m' := Faulted(codec, m, p, v, ppn, size); Agree(m'.store, DevicesAfter(d, m, Fault(p, v, ppn, size), m'))
  {
    FaultReady(m, p);
    CountedStore(m);
    var env, cached, m' := EnvNow(codec, m, size), CachedFrame(m, p, v), Faulted(codec, m, p, v, ppn, size);
    if DoPageFault(env, ViewOf(m, p), v, ppn, cached).Fixed? {
      FaultShape(env, ViewOf(m, p), v, ppn, cached);
      var page := SlotBytes(env, m.store, m.spaces[p].slots[v]);
      if InMemory(ppn) in m'.store {
        ExchangeAgrees(m.store, d, FrameAt(m.spaces[p], v), InMemory(ppn), page);
      } else {
        SameAgree(m.store, m'.store, d);
      }
    }
  }

  lemma EvictAgrees(codec: Codec, m: Machine, p: nat, v: nat, to: Frame, force: bool, d: Devices)
    requires CanEvict(m, p, v, to, force) && Agree(m.store, d) && Offered(d, to)
    ensures var m' := Evicted(codec, m, p, v, to, force); Agree(m'.store, DevicesAfter(d, m, Evict(p, v, to, force), m'))
  {
    CountedStore(m);
    var page := AsPage(m.store[m.spaces[p].slots[v].frame].data);
    ExchangeAgrees(m.store, d, FrameAt(m.spaces[p], v), to, if to.Compressed? then codec.compress(page) else page);
  }

  /** Steps that make a tracker. */
  lemma MakeAgrees(codec: Codec, m: Machine, step: Step, m': Machine, d: Devices)
    requires step.Populate? || step.CacheLoad?
    requires Next(codec, m, step, m') && Agree(m.store, d) && Chosen(d, step)
    ensures Agree(m'.store, DevicesAfter(d, m, step, m'))
  {
    TakeAgrees(m.store, d, InMemory(step.ppn), if step.Populate? then step.page else Content(m, step.k));
  }

  /** Steps that drop a handle. */
  lemma LeaveAgrees(codec: Codec, m: Machine, step: Step, m': Machine, d: Devices)
    requires step.Remove? || step.CacheDrop? || step.Truncate?
    requires Next(codec, m, step, m') && Agree(m.store, d)
    ensures Agree(m'.store, DevicesAfter(d, m, step, m'))
  {
    CountedStore(m);
    match step
    case Remove(p, v) => DropAgrees(m.store, d, FrameAt(m.spaces[p], v));
    case CacheDrop(k) => DropAgrees(m.store, d, InMemory(m.cache[k]));
    case Truncate(k, _) =>
      if k in m.cache {
        DropAgrees(m.store, d, InMemory(m.cache[k]));
      }
  }

  /** The other steps leave the trackers, and what is not in memory, as they are. */
  lemma OthersSame(codec: Codec, m: Machine, step: Step, m': Machine)
    requires Next(codec, m, step, m') && !step.Fault? && !step.Evict? && !step.Remove? && !step.Populate?
    requires !step.CacheLoad? && !step.CacheDrop? && !step.Truncate?
    ensures SameTrackers(m.store, m'.store)
  {
    if step.Write? || step.KernelWrite? {
      MappedFrame(m, step.p, step.v);
    } else if step.CacheWrite? {
      CachedIsFile(m, step.k);
    }
  }

  /** Every step whose new trackers are what the devices offer keeps the agreement. */
  lemma StepAgrees(codec: Codec, m: Machine, step: Step, m': Machine, d: Devices)
    requires codec.Lossless() && Next(codec, m, step, m') && Agree(m.store, d) && Chosen(d, step)
    ensures Agree(m'.store, DevicesAfter(d, m, step, m'))
  {
    if step.Fault? {
      FaultAgrees(codec, m, step.p, step.v, step.ppn, step.size, d);
    } else if step.Evict? {
      EvictAgrees(codec, m, step.p, step.v, step.to, step.force, d);
    } else if step.Populate? || step.CacheLoad? {
      MakeAgrees(codec, m, step, m', d);
    } else if step.Remove? || step.CacheDrop? || step.Truncate? {
      LeaveAgrees(codec, m, step, m', d);
    } else {
      OthersSame(codec, m, step, m');
      SameAgree(m.store, m'.store, d);
    }
  }

  // ---------------------------------------------------------------- whole runs

  ghost predicate DeviceAt(ms: seq<Machine>, steps: seq<Step>, ds: seq<Devices>, i: nat)
    requires i < |steps| && |ms| == |ds| == |steps| + 1
  {
    Chosen(ds[i], steps[i]) && ds[i + 1] == DevicesAfter(ds[i], ms[i], steps[i], ms[i + 1])
  }

  /** The devices `ds` along a run: every new tracker is what they offer, and each step changes them as
      its trackers come and go. */
  ghost predicate DeviceRun(codec: Codec, ms: seq<Machine>, steps: seq<Step>, ds: seq<Devices>) {
    && Run(codec, ms, steps) && |ds| == |ms| && Agree(ms[0].store, ds[0])
    && forall i: nat {:trigger DeviceAt(ms, steps, ds, i)} :: i < |steps| ==> DeviceAt(ms, steps, ds, i)
  }

  /** In every state of every such run the live trackers are exactly what the devices hold, with their
      data: a page on zram or on the disk stays what it was until its last handle is dropped. */
  lemma {:induction false} RunAgrees(codec: Codec, ms: seq<Machine>, steps: seq<Step>, ds: seq<Devices>, k: nat)
    requires codec.Lossless() && DeviceRun(codec, ms, steps, ds) && k < |ms|
    ensures Agree(ms[k].store, ds[k])
  {
    if k > 0 {
      RunAgrees(codec, ms, steps, ds, k - 1);
      RunInv(codec, ms, steps, k - 1);
      assert StepAt(codec, ms, steps, k - 1) && DeviceAt(ms, steps, ds, k - 1);
      StepAgrees(codec, ms[k - 1], steps[k - 1], ms[k], ds[k - 1]);
    }
  }
}
