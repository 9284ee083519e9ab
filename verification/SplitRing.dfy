/** The split virtqueue of the virtio driver crate, as values: the memory shared by driver and
    device, the driver's private counters, and a bookkeeping record that says where each descriptor
    and each token is. The invariant below holds in every state of every run of the driver and an
    honest device. */
module SplitRing {
  import opened Basics

  /** Both rings are declared with this many entries, whatever the queue size. */
  const RING_ENTRIES := 32

  datatype Buffer = Buffer(addr: nat, len: nat)

  /** `hasNext` and `deviceWrites` are the NEXT and WRITE flag bits. */
  datatype Descriptor = Descriptor(addr: nat, len: nat, hasNext: bool, deviceWrites: bool, next: U16)

  datatype UsedElem = UsedElem(id: nat, len: nat)

  datatype Queue = Queue(
    size: nat, desc: seq<Descriptor>, freeHead: U16, numUsed: nat,
    availIdx: U16, lastUsedIdx: U16,
    availRing: seq<U16>, availShared: U16,
    usedRing: seq<UsedElem>, usedShared: U16)

  /** A descriptor is at a position of the free list or of the chain of an outstanding token. */
  datatype Place = Free(pos: nat) | Used(token: nat, pos: nat)

  /** An outstanding token waits in the available ring, is in the device's hands, or waits in the
      used ring; the two waiting stages carry the running number of the ring entry. */
  datatype Stage = Waiting(entry: nat) | Held | Done(entry: nat)

  /** `free` and `chains` list descriptors in link order; `log` and `comp` are all tokens ever made
      available and all completions ever published. */
  datatype Book = Book(
    free: seq<nat>, chains: map<nat, seq<nat>>, place: seq<Place>,
    log: seq<nat>, fetched: nat, comp: seq<UsedElem>, popped: nat, stage: map<nat, Stage>)

  datatype World = World(q: Queue, b: Book)

  /** The power-of-two sizes that the declared rings can hold. */
  predicate RingSize(size: nat) {
    size == 1 || size == 2 || size == 4 || size == 8 || size == 16 || size == 32
  }

  /** The sizes `new` accepts: every 16-bit power of two. */
  predicate QueueSize(size: nat) {
    || RingSize(size) || size == 64 || size == 128 || size == 256 || size == 512 || size == 1024
    || size == 2048 || size == 4096 || size == 8192 || size == 16384 || size == 32768
  }

  function Wrap(n: nat): U16 { n % 0x1_0000 }

  /** `idx & (size - 1)`. */
  function Slot(n: nat, size: nat): nat
    requires RingSize(size)
  {
    if size == 1 then 0
    else if size == 2 then n % 2
    else if size == 4 then n % 4
    else if size == 8 then n % 8
    else if size == 16 then n % 16
    else n % 32
  }

  // ---------------------------------------------------------------- invariant

  predicate ShapeOk(w: World) {
    && RingSize(w.q.size)
    && |w.q.desc| == |w.b.place| == w.q.size
    && |w.q.availRing| == |w.q.usedRing| == RING_ENTRIES
  }

  ghost predicate FreeEntryOk(b: Book, i: nat)
    requires i < |b.free|
  {
    b.free[i] < |b.place| && b.place[b.free[i]] == Free(i)
  }

  ghost predicate ChainEntryOk(b: Book, t: nat, i: nat)
    requires t in b.chains && i < |b.chains[t]|
  {
    b.chains[t][i] < |b.place| && b.place[b.chains[t][i]] == Used(t, i)
  }

  ghost predicate PlaceOk(b: Book, d: nat)
    requires d < |b.place|
  {
    match b.place[d]
    case Free(i) => i < |b.free| && b.free[i] == d
    case Used(t, i) => t in b.chains && i < |b.chains[t]| && b.chains[t][i] == d
  }

  ghost predicate HeadOk(b: Book, t: nat)
    requires t in b.chains
  {
    |b.chains[t]| > 0 && b.chains[t][0] == t
  }

  /** Every descriptor is at exactly one position of the free list or of one outstanding chain. */
  ghost predicate Partitioned(b: Book) {
    && (forall i {:trigger FreeEntryOk(b, i)} :: 0 <= i < |b.free| ==> FreeEntryOk(b, i))
    && (forall t, i {:trigger ChainEntryOk(b, t, i)} :: t in b.chains && 0 <= i < |b.chains[t]| ==> ChainEntryOk(b, t, i))
    && (forall d {:trigger PlaceOk(b, d)} :: 0 <= d < |b.place| ==> PlaceOk(b, d))
    && (forall t {:trigger HeadOk(b, t)} :: t in b.chains ==> HeadOk(b, t))
  }

  ghost predicate LinkOk(desc: seq<Descriptor>, b: Book, d: nat)
    requires d < |desc| && d < |b.place|
  {
    match b.place[d]
    case Free(i) => i + 1 < |b.free| ==> desc[d].next == b.free[i + 1]
    case Used(t, i) =>
      && t in b.chains
      && (desc[d].hasNext <==> i + 1 < |b.chains[t]|)
      && (i + 1 < |b.chains[t]| ==> desc[d].next == b.chains[t][i + 1])
  }

  /** The links a driver or device can follow: along the free list, and along each chain, where
      NEXT is set on all descriptors but the last. */
  ghost predicate LinksOk(desc: seq<Descriptor>, b: Book)
    requires |desc| == |b.place|
  {
    forall d {:trigger LinkOk(desc, b, d)} :: 0 <= d < |desc| ==> LinkOk(desc, b, d)
  }

  ghost predicate FreeOk(q: Queue, b: Book) {
    && |b.free| + q.numUsed == q.size
    && (b.free != [] ==> q.freeHead == b.free[0])
  }

  ghost predicate WaitingOk(b: Book, k: nat)
    requires k < |b.log|
  {
    b.log[k] in b.stage && b.stage[b.log[k]] == Waiting(k)
  }

  ghost predicate DoneOk(b: Book, k: nat)
    requires k < |b.comp|
  {
    b.comp[k].id in b.stage && b.stage[b.comp[k].id] == Done(k)
  }

  ghost predicate StageOk(b: Book, t: nat)
    requires t in b.stage
  {
    match b.stage[t]
    case Waiting(k) => b.fetched <= k < |b.log| && b.log[k] == t
    case Held => true
    case Done(k) => b.popped <= k < |b.comp| && b.comp[k].id == t
  }

  /** Every outstanding token is in exactly one stage. */
  ghost predicate StagesOk(b: Book) {
    && b.fetched <= |b.log| && b.popped <= |b.comp|
    && |b.log| == b.popped + |b.chains|
    && b.stage.Keys == b.chains.Keys
    && (forall k {:trigger WaitingOk(b, k)} :: b.fetched <= k < |b.log| ==> WaitingOk(b, k))
    && (forall k {:trigger DoneOk(b, k)} :: b.popped <= k < |b.comp| ==> DoneOk(b, k))
    && (forall t {:trigger StageOk(b, t)} :: t in b.stage ==> StageOk(b, t))
  }

  ghost predicate AvailEntryOk(w: World, k: nat)
    requires ShapeOk(w) && k < |w.b.log|
  {
    w.q.availRing[Slot(k, w.q.size)] == w.b.log[k]
  }

  ghost predicate UsedEntryOk(w: World, k: nat)
    requires ShapeOk(w) && k < |w.b.comp|
  {
    w.q.usedRing[Slot(k, w.q.size)] == w.b.comp[k]
  }

  /** The rings hold exactly the entries not yet consumed, under wrapped 16-bit indices. */
  ghost predicate RingsOk(w: World)
    requires ShapeOk(w)
  {
    && w.q.availIdx == w.q.availShared == Wrap(|w.b.log|)
    && w.q.lastUsedIdx == Wrap(w.b.popped)
    && w.q.usedShared == Wrap(|w.b.comp|)
    && (forall k {:trigger AvailEntryOk(w, k)} :: w.b.fetched <= k < |w.b.log| ==> AvailEntryOk(w, k))
    && (forall k {:trigger UsedEntryOk(w, k)} :: w.b.popped <= k < |w.b.comp| ==> UsedEntryOk(w, k))
  }

  ghost predicate Inv(w: World) {
    && ShapeOk(w)
    && Partitioned(w.b)
    && LinksOk(w.q.desc, w.b)
    && FreeOk(w.q, w.b)
    && StagesOk(w.b)
    && RingsOk(w)
  }

  // ---------------------------------------------------------------- steps

  function FirstFree(size: nat): (r: seq<nat>)
    ensures |r| == size
  {
    seq(size, i requires 0 <= i => i)
  }

  function AllFree(size: nat): (r: seq<Place>)
    ensures |r| == size
  {
    seq(size, i requires 0 <= i => Free(i))
  }

  /** The state `new` leaves: descriptors linked in index order, the last link undefined; the rings have
      their declared length, whatever the size. */
  ghost predicate Made(w: World) {
    && |w.q.desc| == |w.b.place| == w.q.size
    && |w.q.availRing| == |w.q.usedRing| == RING_ENTRIES
    && w.q.freeHead == 0 && w.q.numUsed == 0 && w.q.availIdx == 0 && w.q.lastUsedIdx == 0
    && w.q.availShared == 0 && w.q.usedShared == 0
    && (forall i :: 0 <= i < w.q.size - 1 ==> w.q.desc[i].next == i + 1)
    && w.b == Book(FirstFree(w.q.size), map[], AllFree(w.q.size), [], 0, [], 0, map[])
  }

  ghost predicate Init(w: World) {
    RingSize(w.q.size) && Made(w)
  }

  function Filled(inputs: seq<Buffer>, outputs: seq<Buffer>, i: nat, next: U16): Descriptor
    requires i < |inputs| + |outputs|
  {
    var buf := (inputs + outputs)[i];
    Descriptor(buf.addr, buf.len, i + 1 < |inputs| + |outputs|, i >= |inputs|, next)
  }

  function Fill(desc: seq<Descriptor>, place: seq<Place>, inputs: seq<Buffer>, outputs: seq<Buffer>): (r: seq<Descriptor>)
    requires |desc| == |place|
    ensures |r| == |desc|
  {
    seq(|desc|, d requires 0 <= d < |desc| =>
      if place[d].Free? && place[d].pos < |inputs| + |outputs|
      then Filled(inputs, outputs, place[d].pos, desc[d].next) else desc[d])
  }

  function Take(place: seq<Place>, n: nat, token: nat): (r: seq<Place>)
    ensures |r| == |place|
  {
    seq(|place|, d requires 0 <= d < |place| =>
      match place[d]
      case Free(i) => if i < n then Used(token, i) else Free(i - n)
      case Used(_, _) => place[d])
  }

  function Return(place: seq<Place>, n: nat, token: nat): (r: seq<Place>)
    ensures |r| == |place|
  {
    seq(|place|, d requires 0 <= d < |place| =>
      match place[d]
      case Free(i) => Free(i + n)
      case Used(t, i) => if t == token then Free(i) else place[d])
  }

  ghost predicate CanAdd(w: World, inputs: seq<Buffer>, outputs: seq<Buffer>) {
    && Inv(w) && 0 < |inputs| + |outputs| <= |w.b.free|
  }

  /** `add`: the first descriptors of the free list become the chain of a new token. */
  ghost function Added(w: World, inputs: seq<Buffer>, outputs: seq<Buffer>): World
    requires CanAdd(w, inputs, outputs)
  {
    var n := |inputs| + |outputs|;
    var token := w.b.free[0];
    assert FreeEntryOk(w.b, 0) && FreeEntryOk(w.b, n - 1);
    assert n < |w.b.free| ==> FreeEntryOk(w.b, n);
    World(
      w.q.(desc := Fill(w.q.desc, w.b.place, inputs, outputs),
           freeHead := if n < |w.b.free| then w.b.free[n] else w.q.desc[w.b.free[n - 1]].next,
           numUsed := w.q.numUsed + n,
           availIdx := Wrap(|w.b.log| + 1), availShared := Wrap(|w.b.log| + 1),
           availRing := w.q.availRing[Slot(|w.b.log|, w.q.size) := token]),
      w.b.(free := w.b.free[n..],
           chains := w.b.chains[token := w.b.free[..n]],
           place := Take(w.b.place, n, token),
           log := w.b.log + [token],
           stage := w.b.stage[token := Waiting(|w.b.log|)]))
  }

  /** The device fetches the next available token. */
  ghost function Fetched(w: World): World
    requires w.b.fetched < |w.b.log|
  {
    w.(b := w.b.(fetched := w.b.fetched + 1, stage := w.b.stage[w.b.log[w.b.fetched] := Held]))
  }

  ghost predicate CanComplete(w: World, token: nat) {
    Inv(w) && token in w.b.stage && w.b.stage[token].Held?
  }

  /** The device completes any chain it holds and publishes it in the used ring. */
  ghost function Completed(w: World, token: nat, len: nat): World
    requires CanComplete(w, token)
  {
    var k := |w.b.comp|;
    World(
      w.q.(usedRing := w.q.usedRing[Slot(k, w.q.size) := UsedElem(token, len)], usedShared := Wrap(k + 1)),
      w.b.(comp := w.b.comp + [UsedElem(token, len)], stage := w.b.stage[token := Done(k)]))
  }

  ghost predicate CanPop(w: World) {
    && Inv(w) && w.b.popped < |w.b.comp|
  }

  /** `pop_used`: the oldest completion is taken and its chain put in front of the free list. */
  ghost function Popped(w: World): World
    requires CanPop(w)
  {
    assert DoneOk(w.b, w.b.popped);
    var token := w.b.comp[w.b.popped].id;
    assert HeadOk(w.b, token);
    var chain := w.b.chains[token];
    var last := chain[|chain| - 1];
    assert ChainEntryOk(w.b, token, 0) && ChainEntryOk(w.b, token, |chain| - 1);
    World(
      w.q.(desc := w.q.desc[last := w.q.desc[last].(next := w.q.freeHead)],
           freeHead := token,
           numUsed := ChainFits(w, token); w.q.numUsed - |chain|,
           lastUsedIdx := Wrap(w.b.popped + 1)),
      w.b.(free := chain + w.b.free,
           chains := w.b.chains - {token},
           place := Return(w.b.place, |chain|, token),
           popped := w.b.popped + 1,
           stage := w.b.stage - {token}))
  }

  ghost predicate Next(w: World, w': World) {
    || (exists inputs, outputs :: CanAdd(w, inputs, outputs) && w' == Added(w, inputs, outputs))
    || (w.b.fetched < |w.b.log| && w' == Fetched(w))
    || (exists token, len :: CanComplete(w, token) && w' == Completed(w, token, len))
    || (CanPop(w) && w' == Popped(w))
  }

  // ---------------------------------------------------------------- arithmetic of the rings

  lemma ModuloDiffers2(a: nat, b: nat)
    requires a < b < a + 2
    ensures a % 2 != b % 2
  {
  }

  lemma ModuloDiffers4(a: nat, b: nat)
    requires a < b < a + 4
    ensures a % 4 != b % 4
  {
  }

  lemma ModuloDiffers8(a: nat, b: nat)
    requires a < b < a + 8
    ensures a % 8 != b % 8
  {
  }

  lemma ModuloDiffers16(a: nat, b: nat)
    requires a < b < a + 16
    ensures a % 16 != b % 16
  {
  }

  lemma ModuloDiffers32(a: nat, b: nat)
    requires a < b < a + 32
    ensures a % 32 != b % 32
  {
  }

  /** Slots of two entries less than a full ring apart differ. */
  lemma SlotsDiffer(a: nat, b: nat, size: nat)
    requires RingSize(size) && a < b < a + size
    ensures Slot(a, size) != Slot(b, size)
  {
    if size == 2 {
      ModuloDiffers2(a, b);
    } else if size == 4 {
      ModuloDiffers4(a, b);
    } else if size == 8 {
      ModuloDiffers8(a, b);
    } else if size == 16 {
      ModuloDiffers16(a, b);
    } else {
      ModuloDiffers32(a, b);
    }
  }

  lemma WrapModulo2(n: nat)
    ensures n % 0x1_0000 % 2 == n % 2
  {
  }

  lemma WrapModulo4(n: nat)
    ensures n % 0x1_0000 % 4 == n % 4
  {
  }

  lemma WrapModulo8(n: nat)
    ensures n % 0x1_0000 % 8 == n % 8
  {
  }

  lemma WrapModulo16(n: nat)
    ensures n % 0x1_0000 % 16 == n % 16
  {
  }

  lemma WrapModulo32(n: nat)
    ensures n % 0x1_0000 % 32 == n % 32
  {
  }

  /** Masking the wrapped 16-bit index gives the slot of the true count. */
  lemma WrapKeepsSlot(n: nat, size: nat)
    requires RingSize(size)
    ensures Slot(Wrap(n), size) == Slot(n, size)
  {
    WrapModulo2(n);
    WrapModulo4(n);
    WrapModulo8(n);
    WrapModulo16(n);
    WrapModulo32(n);
  }

  // ---------------------------------------------------------------- counting

  function Elements(s: seq<nat>): set<nat> {
    set x | x in s
  }

  lemma {:induction false} DistinctSize(s: seq<nat>)
    requires Distinct(s)
    ensures |Elements(s)| == |s|
  {
    if s != [] {
      var rest := s[1..];
      DistinctSize(rest);
      assert Elements(s) == {s[0]} + Elements(rest);
    }
  }

  /** Disjoint lists of descriptors fit in the table together. */
  lemma ListsFit(n: nat, some: set<nat>, list: seq<nat>)
    requires forall d :: d in some ==> d < n && d !in list
    requires forall i :: 0 <= i < |list| ==> list[i] < n
    requires forall i, j :: 0 <= i < j < |list| ==> list[i] != list[j]
    ensures |some| + |list| <= n
  {
    DistinctSize(list);
    assert some !! Elements(list);
    RangeSize(0, n);
    SubsetSize(some + Elements(list), Range(0, n));
  }

  lemma FreeDistinct(b: Book)
    requires Partitioned(b)
    ensures forall i :: 0 <= i < |b.free| ==> b.free[i] < |b.place| && b.place[b.free[i]] == Free(i)
  {
    forall i | 0 <= i < |b.free|
      ensures b.free[i] < |b.place| && b.place[b.free[i]] == Free(i)
    {
      assert FreeEntryOk(b, i);
    }
  }

  /** No more tokens are outstanding than descriptors are in use. */
  lemma TokensFit(w: World)
    requires ShapeOk(w) && Partitioned(w.b) && FreeOk(w.q, w.b)
    ensures |w.b.chains| <= w.q.numUsed <= w.q.size
  {
    forall t | t in w.b.chains
      ensures t < |w.b.place| && w.b.place[t] == Used(t, 0)
    {
      assert HeadOk(w.b, t) && ChainEntryOk(w.b, t, 0);
    }
    FreeDistinct(w.b);
    ListsFit(w.q.size, w.b.chains.Keys, w.b.free);
  }

  /** A chain is no longer than the number of descriptors in use. */
  lemma ChainFits(w: World, token: nat)
    requires ShapeOk(w) && Partitioned(w.b) && FreeOk(w.q, w.b)
    requires token in w.b.chains
    ensures |w.b.chains[token]| <= w.q.numUsed
  {
    var chain := w.b.chains[token];
    FreeDistinct(w.b);
    DistinctSize(w.b.free);
    forall i | 0 <= i < |chain|
      ensures chain[i] < |w.b.place| && w.b.place[chain[i]] == Used(token, i)
    {
      assert ChainEntryOk(w.b, token, i);
    }
    ListsFit(w.q.size, Elements(w.b.free), chain);
  }

  lemma WaitingFit(b: Book)
    requires StagesOk(b)
    ensures |b.log| - b.fetched <= |b.chains|
  {
    var waiting := b.log[b.fetched..];
    forall i | 0 <= i < |waiting|
      ensures waiting[i] in b.stage && b.stage[waiting[i]] == Waiting(b.fetched + i)
    {
      assert WaitingOk(b, b.fetched + i);
    }
    DistinctSize(waiting);
    SubsetSize(Elements(waiting), b.chains.Keys);
  }

  lemma DoneFit(b: Book)
    requires StagesOk(b)
    ensures |b.comp| - b.popped <= |b.chains|
    ensures (exists t :: t in b.stage && b.stage[t].Held?) ==> |b.comp| - b.popped < |b.chains|
  {
    var done := seq(|b.comp| - b.popped, i requires 0 <= i < |b.comp| - b.popped => b.comp[b.popped + i].id);
    forall i | 0 <= i < |done|
      ensures done[i] in b.stage && b.stage[done[i]] == Done(b.popped + i)
    {
      assert DoneOk(b, b.popped + i);
    }
    DistinctSize(done);
    SubsetSize(Elements(done), b.chains.Keys);
    if t :| t in b.stage && b.stage[t].Held? {
      SubsetSize(Elements(done) + {t}, b.chains.Keys);
    }
  }

  // ---------------------------------------------------------------- every step keeps the invariant

  lemma InitInv(w: World)
    requires Init(w)
    ensures Inv(w)
  {
  }

  /** A token handed out is never one still outstanding. */
  lemma FreshToken(b: Book)
    requires Partitioned(b) && b.free != []
    ensures b.free[0] !in b.chains
  {
    assert FreeEntryOk(b, 0);
    var t := b.free[0];
    assert t in b.chains ==> HeadOk(b, t) && ChainEntryOk(b, t, 0);
  }

  lemma AddKeepsPartition(b: Book, n: nat, b': Book)
    requires Partitioned(b) && 0 < n <= |b.free|
    requires b'.free == b.free[n..] && b'.chains == b.chains[b.free[0] := b.free[..n]]
    requires b'.place == Take(b.place, n, b.free[0])
    ensures Partitioned(b')
  {
    FreshToken(b);
    forall i | 0 <= i < |b'.free|
      ensures FreeEntryOk(b', i)
    {
      assert FreeEntryOk(b, n + i);
    }
    forall t, i | t in b'.chains && 0 <= i < |b'.chains[t]|
      ensures ChainEntryOk(b', t, i)
    {
      if t == b.free[0] {
        assert FreeEntryOk(b, i);
      } else {
        assert ChainEntryOk(b, t, i);
      }
    }
    forall d | 0 <= d < |b'.place|
      ensures PlaceOk(b', d)
    {
      assert PlaceOk(b, d);
    }
    forall t | t in b'.chains
      ensures HeadOk(b', t)
    {
      assert t != b.free[0] ==> HeadOk(b, t);
    }
  }

  lemma AddKeepsLinks(desc: seq<Descriptor>, b: Book, inputs: seq<Buffer>, outputs: seq<Buffer>, b': Book)
    requires |desc| == |b.place| && Partitioned(b) && LinksOk(desc, b)
    requires 0 < |inputs| + |outputs| <= |b.free|
    requires b'.free == b.free[|inputs| + |outputs|..]
    requires b'.chains == b.chains[b.free[0] := b.free[..|inputs| + |outputs|]]
    requires b'.place == Take(b.place, |inputs| + |outputs|, b.free[0])
    ensures LinksOk(Fill(desc, b.place, inputs, outputs), b')
  {
    FreshToken(b);
    forall d | 0 <= d < |desc|
      ensures LinkOk(Fill(desc, b.place, inputs, outputs), b', d)
    {
      assert LinkOk(desc, b, d) && PlaceOk(b, d);
    }
  }

  lemma AddKeepsStages(w: World, inputs: seq<Buffer>, outputs: seq<Buffer>)
    requires CanAdd(w, inputs, outputs)
    ensures StagesOk(Added(w, inputs, outputs).b)
  {
    var b, b' := w.b, Added(w, inputs, outputs).b;
    FreshToken(b);
    var t := b.free[0];
    assert b'.chains.Keys == b.chains.Keys + {t};
    assert b'.stage.Keys == b.stage.Keys + {t};
    forall k | b'.fetched <= k < |b'.log|
      ensures WaitingOk(b', k)
    {
      assert k < |b.log| ==> WaitingOk(b, k);
    }
    forall k | b'.popped <= k < |b'.comp|
      ensures DoneOk(b', k)
    {
      assert DoneOk(b, k);
    }
    forall u | u in b'.stage
      ensures StageOk(b', u)
    {
      assert u != t ==> StageOk(b, u);
    }
  }

  lemma AddKeepsRings(w: World, inputs: seq<Buffer>, outputs: seq<Buffer>)
    requires CanAdd(w, inputs, outputs)
    ensures RingsOk(Added(w, inputs, outputs))
  {
    var w' := Added(w, inputs, outputs);
    TokensFit(w);
    WaitingFit(w.b);
    forall k | w'.b.fetched <= k < |w'.b.log|
      ensures AvailEntryOk(w', k)
    {
      if k < |w.b.log| {
        assert AvailEntryOk(w, k);
        SlotsDiffer(k, |w.b.log|, w.q.size);
      }
    }
    forall k | w'.b.popped <= k < |w'.b.comp|
      ensures UsedEntryOk(w', k)
    {
      assert UsedEntryOk(w, k);
    }
  }

  lemma AddInv(w: World, inputs: seq<Buffer>, outputs: seq<Buffer>)
    requires CanAdd(w, inputs, outputs)
    ensures Inv(Added(w, inputs, outputs))
  {
    var w' := Added(w, inputs, outputs);
    AddKeepsPartition(w.b, |inputs| + |outputs|, w'.b);
    AddKeepsLinks(w.q.desc, w.b, inputs, outputs, w'.b);
    AddKeepsStages(w, inputs, outputs);
    AddKeepsRings(w, inputs, outputs);
  }

  /** Bookkeeping of descriptors depends on nothing else. */
  lemma SameDescriptors(w: World, w': World)
    requires Inv(w) && ShapeOk(w')
    requires w'.q.desc == w.q.desc && w'.b.free == w.b.free && w'.b.chains == w.b.chains && w'.b.place == w.b.place
    ensures Partitioned(w'.b) && LinksOk(w'.q.desc, w'.b)
  {
    forall i | 0 <= i < |w'.b.free|
      ensures FreeEntryOk(w'.b, i)
    {
      assert FreeEntryOk(w.b, i);
    }
    forall t, i | t in w'.b.chains && 0 <= i < |w'.b.chains[t]|
      ensures ChainEntryOk(w'.b, t, i)
    {
      assert ChainEntryOk(w.b, t, i);
    }
    forall d | 0 <= d < |w'.b.place|
      ensures PlaceOk(w'.b, d) && LinkOk(w'.q.desc, w'.b, d)
    {
      assert PlaceOk(w.b, d) && LinkOk(w.q.desc, w.b, d);
    }
    forall t | t in w'.b.chains
      ensures HeadOk(w'.b, t)
    {
      assert HeadOk(w.b, t);
    }
  }

  lemma FetchInv(w: World)
    requires Inv(w) && w.b.fetched < |w.b.log|
    ensures Inv(Fetched(w))
  {
    var w' := Fetched(w);
    var t := w.b.log[w.b.fetched];
    assert WaitingOk(w.b, w.b.fetched);
    assert w'.b.stage.Keys == w.b.stage.Keys;
    SameDescriptors(w, w');
    forall k | w'.b.fetched <= k < |w'.b.log|
      ensures WaitingOk(w'.b, k) && AvailEntryOk(w', k)
    {
      assert WaitingOk(w.b, k) && AvailEntryOk(w, k);
    }
    forall k | w'.b.popped <= k < |w'.b.comp|
      ensures DoneOk(w'.b, k) && UsedEntryOk(w', k)
    {
      assert DoneOk(w.b, k) && UsedEntryOk(w, k);
    }
    forall u | u in w'.b.stage
      ensures StageOk(w'.b, u)
    {
      assert StageOk(w.b, u);
    }
  }

  lemma CompleteKeepsStages(w: World, token: nat, len: nat)
    requires CanComplete(w, token)
    ensures StagesOk(Completed(w, token, len).b)
  {
    var b, b' := w.b, Completed(w, token, len).b;
    assert b'.stage.Keys == b.stage.Keys;
    forall k | b'.fetched <= k < |b'.log|
      ensures WaitingOk(b', k)
    {
      assert WaitingOk(b, k);
    }
    forall k | b'.popped <= k < |b'.comp|
      ensures DoneOk(b', k)
    {
      assert k < |b.comp| ==> DoneOk(b, k);
    }
    forall u | u in b'.stage
      ensures StageOk(b', u)
    {
      assert StageOk(b, u);
    }
  }

  lemma CompleteKeepsRings(w: World, token: nat, len: nat)
    requires CanComplete(w, token)
    ensures RingsOk(Completed(w, token, len))
  {
    var w' := Completed(w, token, len);
    TokensFit(w);
    DoneFit(w.b);
    forall k | w'.b.fetched <= k < |w'.b.log|
      ensures AvailEntryOk(w', k)
    {
      assert AvailEntryOk(w, k);
    }
    forall k | w'.b.popped <= k < |w'.b.comp|
      ensures UsedEntryOk(w', k)
    {
      if k < |w.b.comp| {
        assert UsedEntryOk(w, k);
        SlotsDiffer(k, |w.b.comp|, w.q.size);
      }
    }
  }

  lemma CompleteInv(w: World, token: nat, len: nat)
    requires CanComplete(w, token)
    ensures Inv(Completed(w, token, len))
  {
    SameDescriptors(w, Completed(w, token, len));
    CompleteKeepsStages(w, token, len);
    CompleteKeepsRings(w, token, len);
  }

  lemma PopKeepsPartition(b: Book, token: nat, b': Book)
    requires Partitioned(b) && token in b.chains
    requires b'.free == b.chains[token] + b.free && b'.chains == b.chains - {token}
    requires b'.place == Return(b.place, |b.chains[token]|, token)
    ensures Partitioned(b')
  {
    var n := |b.chains[token]|;
    forall i | 0 <= i < |b'.free|
      ensures FreeEntryOk(b', i)
    {
      if i < n {
        assert ChainEntryOk(b, token, i);
      } else {
        assert FreeEntryOk(b, i - n);
      }
    }
    forall t, i | t in b'.chains && 0 <= i < |b'.chains[t]|
      ensures ChainEntryOk(b', t, i)
    {
      assert ChainEntryOk(b, t, i);
    }
    forall d | 0 <= d < |b'.place|
      ensures PlaceOk(b', d)
    {
      assert PlaceOk(b, d);
    }
    forall t | t in b'.chains
      ensures HeadOk(b', t)
    {
      assert HeadOk(b, t);
    }
  }

  lemma PopKeepsLinks(q: Queue, b: Book, token: nat, b': Book)
    requires |q.desc| == |b.place| && Partitioned(b) && LinksOk(q.desc, b) && FreeOk(q, b)
    requires token in b.chains && |b.chains[token]| > 0
    requires b'.free == b.chains[token] + b.free && b'.chains == b.chains - {token}
    requires b'.place == Return(b.place, |b.chains[token]|, token)
    ensures var last := b.chains[token][|b.chains[token]| - 1];
            last < |q.desc| && LinksOk(q.desc[last := q.desc[last].(next := q.freeHead)], b')
  {
    var chain := b.chains[token];
    var last := chain[|chain| - 1];
    assert ChainEntryOk(b, token, |chain| - 1);
    var desc' := q.desc[last := q.desc[last].(next := q.freeHead)];
    forall d | 0 <= d < |q.desc|
      ensures LinkOk(desc', b', d)
    {
      assert LinkOk(q.desc, b, d) && PlaceOk(b, d);
    }
  }

  lemma PopKeepsStages(w: World)
    requires CanPop(w)
    ensures StagesOk(Popped(w).b)
  {
    var b, b' := w.b, Popped(w).b;
    var t := b.comp[b.popped].id;
    assert DoneOk(b, b.popped);
    assert b'.chains.Keys == b.chains.Keys - {t};
    assert b'.stage.Keys == b.stage.Keys - {t};
    forall k | b'.fetched <= k < |b'.log|
      ensures WaitingOk(b', k)
    {
      assert WaitingOk(b, k);
    }
    forall k | b'.popped <= k < |b'.comp|
      ensures DoneOk(b', k)
    {
      assert DoneOk(b, k);
    }
    forall u | u in b'.stage
      ensures StageOk(b', u)
    {
      assert StageOk(b, u);
    }
  }

  lemma PopInv(w: World)
    requires CanPop(w)
    ensures Inv(Popped(w))
  {
    var w' := Popped(w);
    var t := w.b.comp[w.b.popped].id;
    assert DoneOk(w.b, w.b.popped) && HeadOk(w.b, t);
    PopKeepsPartition(w.b, t, w'.b);
    PopKeepsLinks(w.q, w.b, t, w'.b);
    PopKeepsStages(w);
    ChainFits(w, t);
    forall k | w'.b.fetched <= k < |w'.b.log|
      ensures AvailEntryOk(w', k)
    {
      assert AvailEntryOk(w, k);
    }
    forall k | w'.b.popped <= k < |w'.b.comp|
      ensures UsedEntryOk(w', k)
    {
      assert UsedEntryOk(w, k);
    }
  }

  // ---------------------------------------------------------------- whole runs

  /** A run of driver and device in any interleaving. The step functions are defined on states
      that satisfy the invariant; `RunInv` shows that a run never leaves those. */
  ghost predicate Run(run: seq<World>) {
    && run != [] && Init(run[0])
    && forall i, j :: 0 <= i && j == i + 1 && j < |run| ==> Inv(run[i]) ==> Next(run[i], run[j])
  }

  lemma NextInv(w: World, w': World)
    requires Inv(w) && Next(w, w')
    ensures Inv(w')
  {
    if inputs, outputs :| CanAdd(w, inputs, outputs) && w' == Added(w, inputs, outputs) {
      AddInv(w, inputs, outputs);
    } else if w.b.fetched < |w.b.log| && w' == Fetched(w) {
      FetchInv(w);
    } else if token, len :| CanComplete(w, token) && w' == Completed(w, token, len) {
      CompleteInv(w, token, len);
    } else {
      PopInv(w);
    }
  }

  lemma {:induction false} RunInv(run: seq<World>, k: nat)
    requires Run(run) && k < |run|
    ensures Inv(run[k])
  {
    if k == 0 {
      InitInv(run[0]);
    } else {
      RunInv(run, k - 1);
      NextInv(run[k - 1], run[k]);
    }
  }

  /** Follow `n` links of the free list without reading the link of the last descriptor. */
  ghost function Walk(desc: seq<Descriptor>, head: nat, n: nat): seq<nat>
    decreases n
  {
    if n == 0 then []
    else if n == 1 || head >= |desc| then [head]
    else [head] + Walk(desc, desc[head].next, n - 1)
  }

  /** Follow a chain as the device does, as long as NEXT is set; at most `n` descriptors. */
  ghost function Chase(desc: seq<Descriptor>, head: nat, n: nat): seq<nat>
    decreases n
  {
    if n == 0 || head >= |desc| then []
    else if desc[head].hasNext then [head] + Chase(desc, desc[head].next, n - 1)
    else [head]
  }

  lemma {:induction false} WalkFrom(desc: seq<Descriptor>, b: Book, i: nat)
    requires |desc| == |b.place| && Partitioned(b) && LinksOk(desc, b) && i < |b.free|
    ensures Walk(desc, b.free[i], |b.free| - i) == b.free[i..]
    decreases |b.free| - i
  {
    assert FreeEntryOk(b, i) && LinkOk(desc, b, b.free[i]);
    if i + 1 < |b.free| {
      WalkFrom(desc, b, i + 1);
      assert b.free[i..] == [b.free[i]] + b.free[i + 1..];
    }
  }

  lemma {:induction false} ChaseFrom(desc: seq<Descriptor>, b: Book, t: nat, i: nat, n: nat)
    requires |desc| == |b.place| && Partitioned(b) && LinksOk(desc, b)
    requires t in b.chains && i < |b.chains[t]| <= i + n
    ensures Chase(desc, b.chains[t][i], n) == b.chains[t][i..]
    decreases n
  {
    assert ChainEntryOk(b, t, i) && LinkOk(desc, b, b.chains[t][i]);
    if i + 1 < |b.chains[t]| {
      ChaseFrom(desc, b, t, i + 1, n - 1);
    }
  }

  /** The lengths of the chains of the tokens below `n`, added up. */
  ghost function ChainLengths(chains: map<nat, seq<nat>>, n: nat): nat {
    if n == 0 then 0
    else ChainLengths(chains, n - 1) + if n - 1 in chains then |chains[n - 1]| else 0
  }

  ghost function InChains(chains: map<nat, seq<nat>>, n: nat): set<nat> {
    if n == 0 then {}
    else if n - 1 in chains then InChains(chains, n - 1) + Elements(chains[n - 1])
    else InChains(chains, n - 1)
  }

  lemma ChainPlace(b: Book, t: nat, d: nat)
    requires Partitioned(b) && t in b.chains
    ensures d in b.chains[t] <==> d < |b.place| && b.place[d].Used? && b.place[d].token == t
  {
    if d in b.chains[t] {
      var i :| 0 <= i < |b.chains[t]| && b.chains[t][i] == d;
      assert ChainEntryOk(b, t, i);
    }
    assert d < |b.place| ==> PlaceOk(b, d);
  }

  lemma ChainDistinct(b: Book, t: nat)
    requires Partitioned(b) && t in b.chains
    ensures Distinct(b.chains[t])
    ensures forall d :: d in b.chains[t] ==> d < |b.place| && b.place[d].Used? && b.place[d].token == t
  {
    forall i | 0 <= i < |b.chains[t]|
      ensures b.chains[t][i] < |b.place| && b.place[b.chains[t][i]] == Used(t, i)
    {
      assert ChainEntryOk(b, t, i);
    }
  }

  lemma {:induction false} InChainsPlace(b: Book, n: nat, d: nat)
    requires Partitioned(b)
    ensures d in InChains(b.chains, n) <==> d < |b.place| && b.place[d].Used? && b.place[d].token < n
  {
    if n > 0 {
      InChainsPlace(b, n - 1, d);
      if n - 1 in b.chains {
        ChainPlace(b, n - 1, d);
      }
    }
    assert d < |b.place| ==> PlaceOk(b, d);
  }

  lemma {:induction false} ChainLengthsCount(b: Book, n: nat)
    requires Partitioned(b)
    ensures |InChains(b.chains, n)| == ChainLengths(b.chains, n)
  {
    if n > 0 {
      ChainLengthsCount(b, n - 1);
      if n - 1 in b.chains {
        ChainApart(b, n - 1);
      }
    }
  }

  lemma ChainApart(b: Book, t: nat)
    requires Partitioned(b) && t in b.chains
    ensures |InChains(b.chains, t) + Elements(b.chains[t])| == |InChains(b.chains, t)| + |b.chains[t]|
  {
    var before, chain := InChains(b.chains, t), Elements(b.chains[t]);
    ChainDistinct(b, t);
    DistinctSize(b.chains[t]);
    forall d | d in before
      ensures d !in chain
    {
      InChainsPlace(b, t, d);
    }
    assert before !! chain;
  }

  lemma FreePlace(b: Book, d: nat)
    requires Partitioned(b)
    ensures d in Elements(b.free) <==> d < |b.place| && b.place[d].Free?
  {
    if d in b.free {
      var i :| 0 <= i < |b.free| && b.free[i] == d;
      assert FreeEntryOk(b, i);
    }
    assert d < |b.place| ==> PlaceOk(b, d);
  }

  lemma TokenInTable(b: Book, d: nat)
    requires Partitioned(b) && d < |b.place| && b.place[d].Used?
    ensures b.place[d].token < |b.place|
  {
    var t := b.place[d].token;
    assert PlaceOk(b, d);
    assert HeadOk(b, t) && ChainEntryOk(b, t, 0);
  }

  /** Two disjoint sets that make up a range. */
  lemma TwoParts(n: nat, used: set<nat>, free: set<nat>)
    requires used !! free && used + free == Range(0, n)
    ensures |used| + |free| == n
  {
    RangeSize(0, n);
    assert |used + free| == |used| + |free|;
  }

  lemma UsedOrFree(b: Book, d: nat)
    requires Partitioned(b)
    ensures d in Range(0, |b.place|) <==> d in InChains(b.chains, |b.place|) + Elements(b.free)
    ensures !(d in InChains(b.chains, |b.place|) && d in Elements(b.free))
  {
    InChainsPlace(b, |b.place|, d);
    FreePlace(b, d);
    if d < |b.place| && b.place[d].Used? {
      TokenInTable(b, d);
    }
  }

  /** The chains take up exactly the descriptors the driver counts as used. */
  lemma ChainLengthsUsed(w: World)
    requires ShapeOk(w) && Partitioned(w.b) && FreeOk(w.q, w.b)
    ensures ChainLengths(w.b.chains, w.q.size) == w.q.numUsed
  {
    var used, free := InChains(w.b.chains, w.q.size), Elements(w.b.free);
    forall d: nat
      ensures d in Range(0, w.q.size) <==> d in used + free
      ensures !(d in used && d in free)
    {
      UsedOrFree(w.b, d);
    }
    TwoParts(w.q.size, used, free);
    ChainLengthsCount(w.b, w.q.size);
    FreeDistinct(w.b);
    DistinctSize(w.b.free);
  }

  /** A chain as the device meets it: it starts at its token, stays in the table, repeats nothing,
      is found by following NEXT, and its last descriptor has no NEXT. */
  ghost predicate ChainSound(q: Queue, chain: seq<nat>, token: nat) {
    && chain != [] && chain[0] == token
    && Distinct(chain)
    && (forall d :: d in chain ==> d < |q.desc|)
    && Chase(q.desc, token, q.size) == chain
    && var last := chain[|chain| - 1];
       last < |q.desc| && !q.desc[last].hasNext
  }

  /** The free list as the driver meets it. */
  ghost predicate FreeSound(q: Queue, free: seq<nat>) {
    && Distinct(free)
    && (forall d :: d in free ==> d < |q.desc|)
    && q.numUsed <= q.size && |free| == q.size - q.numUsed
    && Walk(q.desc, q.freeHead, q.size - q.numUsed) == free
  }

  lemma ChainIsSound(w: World, t: nat)
    requires Inv(w) && t in w.b.chains
    ensures ChainSound(w.q, w.b.chains[t], t)
  {
    var b, chain := w.b, w.b.chains[t];
    assert HeadOk(b, t);
    ChainFits(w, t);
    ChainDistinct(b, t);
    ChaseFrom(w.q.desc, b, t, 0, w.q.size);
    assert ChainEntryOk(b, t, |chain| - 1) && LinkOk(w.q.desc, b, chain[|chain| - 1]);
  }

  lemma FreeIsSound(w: World)
    requires Inv(w)
    ensures FreeSound(w.q, w.b.free)
  {
    if w.b.free != [] {
      WalkFrom(w.q.desc, w.b, 0);
    }
    FreeDistinct(w.b);
  }

  lemma FreeOrChained(b: Book, d: nat)
    requires Partitioned(b) && d < |b.place|
    ensures d in b.free <==> !exists t :: t in b.chains && d in b.chains[t]
  {
    FreePlace(b, d);
    assert PlaceOk(b, d);
    if d in b.free {
      forall t | t in b.chains
        ensures d !in b.chains[t]
      {
        ChainPlace(b, t, d);
      }
    } else {
      assert d in b.chains[b.place[d].token];
    }
  }

  /** At any point of any run, read off the raw descriptor table: the free list is the walk of
      `size - numUsed` descriptors from `freeHead`, each outstanding token heads a chain that the
      device can follow to its end, none of them runs in a circle, their lengths add up to the table,
      and every descriptor is in exactly one of them. */
  lemma RunPartition(run: seq<World>, k: nat)
    requires Run(run) && k < |run|
    ensures var q, b := run[k].q, run[k].b;
            && |q.desc| == q.size
            && FreeSound(q, b.free)
            && (forall t :: t in b.chains ==> t < q.size && ChainSound(q, b.chains[t], t))
            && ChainLengths(b.chains, q.size) == q.numUsed
            && (forall d :: 0 <= d < q.size ==>
                  (d in b.free <==> !exists t :: t in b.chains && d in b.chains[t]))
            && (forall t, u, d :: t in b.chains && u in b.chains && d in b.chains[t] && d in b.chains[u] ==> t == u)
  {
    RunInv(run, k);
    var q, b := run[k].q, run[k].b;
    FreeIsSound(run[k]);
    forall t | t in b.chains
      ensures t < q.size && ChainSound(q, b.chains[t], t)
    {
      ChainIsSound(run[k], t);
    }
    ChainLengthsUsed(run[k]);
    forall d | 0 <= d < q.size
      ensures d in b.free <==> !exists t :: t in b.chains && d in b.chains[t]
    {
      FreeOrChained(b, d);
    }
    forall t, u, d | t in b.chains && u in b.chains && d in b.chains[t] && d in b.chains[u]
      ensures t == u
    {
      ChainPlace(b, t, d);
      ChainPlace(b, u, d);
    }
  }

  lemma WrapSum(a: nat, n: nat)
    requires n < 0x1_0000
    ensures (Wrap(a + n) + 0x1_0000 - Wrap(a)) % 0x1_0000 == n
    ensures Wrap(a + n) == Wrap(a) <==> n == 0
  {
  }

  /** At any point of any run the 16-bit indices are the true counts of adds and pops, their
      difference is the number of outstanding tokens, never more than the queue size, and
      comparing them tells exactly whether a completion waits. */
  lemma RunIndices(run: seq<World>, k: nat)
    requires Run(run) && k < |run|
    ensures var q, b := run[k].q, run[k].b;
            && q.availIdx == Wrap(|b.log|) && q.lastUsedIdx == Wrap(b.popped)
            && (q.availIdx + 0x1_0000 - q.lastUsedIdx) % 0x1_0000 == |b.chains| <= q.size
            && (q.lastUsedIdx != q.usedShared <==> b.popped < |b.comp|)
  {
    RunInv(run, k);
    var q, b := run[k].q, run[k].b;
    TokensFit(run[k]);
    DoneFit(b);
    WrapSum(b.popped, |b.chains|);
    WrapSum(b.popped, |b.comp| - b.popped);
  }

  /** No step overwrites a ring entry its reader has not consumed: whatever happens next, every
      token still waiting is found in its slot, and so is every completion not yet popped. */
  lemma RunKeepsEntries(run: seq<World>, k: nat, entry: nat)
    requires Run(run) && k < |run|
    ensures var q, b := run[k].q, run[k].b;
            && (b.fetched <= entry < |b.log| ==>
                  RingSize(q.size) && Slot(entry, q.size) < |q.availRing| && q.availRing[Slot(entry, q.size)] == b.log[entry])
            && (b.popped <= entry < |b.comp| ==>
                  RingSize(q.size) && Slot(entry, q.size) < |q.usedRing| && q.usedRing[Slot(entry, q.size)] == b.comp[entry])
  {
    RunInv(run, k);
    var w := run[k];
    assert w.b.fetched <= entry < |w.b.log| ==> AvailEntryOk(w, entry);
    assert w.b.popped <= entry < |w.b.comp| ==> UsedEntryOk(w, entry);
  }

  // ---------------------------------------------------------------- what the device finds behind a token

  /** The descriptor that following `k` links from `head` leads to. */
  ghost function Reached(desc: seq<Descriptor>, head: nat, k: nat): nat {
    if k == 0 then head
    else
      var d := Reached(desc, head, k - 1);
      if d < |desc| then desc[d].next else d
  }

  /** After `k` links from the token comes buffer `k`, the inputs first; the device may write to it exactly
      if it is an output, and NEXT is set exactly if more buffers follow. */
  ghost predicate LendsAt(desc: seq<Descriptor>, token: nat, inputs: seq<Buffer>, outputs: seq<Buffer>, k: nat)
    requires k < |inputs| + |outputs|
  {
    var d := Reached(desc, token, k);
    && d < |desc|
    && desc[d].addr == (if k < |inputs| then inputs[k].addr else outputs[k - |inputs|].addr)
    && desc[d].len == (if k < |inputs| then inputs[k].len else outputs[k - |inputs|].len)
    && (desc[d].deviceWrites <==> k >= |inputs|)
    && (desc[d].hasNext <==> k + 1 < |inputs| + |outputs|)
  }

  ghost predicate Lends(desc: seq<Descriptor>, token: nat, inputs: seq<Buffer>, outputs: seq<Buffer>) {
    forall k: nat {:trigger LendsAt(desc, token, inputs, outputs, k)} ::
      k < |inputs| + |outputs| ==> LendsAt(desc, token, inputs, outputs, k)
  }

  lemma {:induction false} ReachedIs(w: World, t: nat, k: nat)
    requires Inv(w) && t in w.b.chains && k < |w.b.chains[t]|
    ensures Reached(w.q.desc, t, k) == w.b.chains[t][k] < |w.q.desc|
  {
    assert HeadOk(w.b, t) && ChainEntryOk(w.b, t, k);
    if k > 0 {
      ReachedIs(w, t, k - 1);
      assert ChainEntryOk(w.b, t, k - 1) && LinkOk(w.q.desc, w.b, w.b.chains[t][k - 1]);
    }
  }

  /** `add` lends exactly the buffers it was given. */
  lemma AddLends(w: World, inputs: seq<Buffer>, outputs: seq<Buffer>)
    requires CanAdd(w, inputs, outputs)
    ensures Lends(Added(w, inputs, outputs).q.desc, w.b.free[0], inputs, outputs)
  {
    var w', t := Added(w, inputs, outputs), w.b.free[0];
    AddInv(w, inputs, outputs);
    forall k: nat | k < |inputs| + |outputs|
      ensures LendsAt(w'.q.desc, t, inputs, outputs, k)
    {
      ReachedIs(w', t, k);
      assert FreeEntryOk(w.b, k);
    }
  }

  /** No step touches the descriptors of a chain that is outstanding before and after. */
  lemma ChainStays(w: World, w': World, t: nat, k: nat)
    requires Inv(w) && Next(w, w') && t in w.b.chains && t in w'.b.chains && k < |w.b.chains[t]|
    ensures w'.b.chains[t] == w.b.chains[t] && w.b.chains[t][k] < |w.q.desc| == |w'.q.desc|
    ensures w'.q.desc[w.b.chains[t][k]] == w.q.desc[w.b.chains[t][k]]
  {
    assert ChainEntryOk(w.b, t, k);
    if inputs, outputs :| CanAdd(w, inputs, outputs) && w' == Added(w, inputs, outputs) {
      FreshToken(w.b);
    } else if w.b.fetched < |w.b.log| && w' == Fetched(w) {
    } else if token, len :| CanComplete(w, token) && w' == Completed(w, token, len) {
    } else {
      assert DoneOk(w.b, w.b.popped);
      var token := w.b.comp[w.b.popped].id;
      assert HeadOk(w.b, token) && ChainEntryOk(w.b, token, |w.b.chains[token]| - 1);
    }
  }

  lemma LendsStays(w: World, w': World, t: nat, inputs: seq<Buffer>, outputs: seq<Buffer>)
    requires Inv(w) && Next(w, w') && t in w.b.chains && t in w'.b.chains
    requires |w.b.chains[t]| == |inputs| + |outputs| && Lends(w.q.desc, t, inputs, outputs)
    ensures w'.b.chains[t] == w.b.chains[t] && Lends(w'.q.desc, t, inputs, outputs)
  {
    NextInv(w, w');
    assert HeadOk(w.b, t);
    ChainStays(w, w', t, 0);
    forall k: nat | k < |inputs| + |outputs|
      ensures LendsAt(w'.q.desc, t, inputs, outputs, k)
    {
      assert LendsAt(w.q.desc, t, inputs, outputs, k);
      ChainStays(w, w', t, k);
      ReachedIs(w, t, k);
      ReachedIs(w', t, k);
    }
  }

  /** A token is outstanding after a step because it was before, or because the step added it. */
  lemma TokenWhy(w: World, w': World, t: nat) returns (inputs: seq<Buffer>, outputs: seq<Buffer>)
    requires Inv(w) && Next(w, w') && t in w'.b.chains
    ensures t in w.b.chains || (CanAdd(w, inputs, outputs) && w' == Added(w, inputs, outputs) && t == w.b.free[0])
  {
    inputs, outputs := [], [];
    if t !in w.b.chains {
      inputs, outputs :| CanAdd(w, inputs, outputs) && w' == Added(w, inputs, outputs);
    }
  }

  lemma LastStep(run: seq<World>, k: nat, t: nat) returns (w: World, w': World)
    requires Run(run) && k < |run| && t in run[k].b.chains
    ensures k > 0 && w == run[k - 1] && w' == run[k] && Inv(w) && Next(w, w')
  {
    assert k > 0;
    w, w' := run[k - 1], run[k];
    RunInv(run, k - 1);
  }

  /** Step `i` of a run was the `add` that made the token, which is outstanding ever since. */
  ghost predicate Since(run: seq<World>, i: nat, k: nat, t: nat, inputs: seq<Buffer>, outputs: seq<Buffer>) {
    && i < k < |run| && CanAdd(run[i], inputs, outputs) && run[i + 1] == Added(run[i], inputs, outputs) && t == run[i].b.free[0]
    && forall j :: i < j <= k ==> t in run[j].b.chains
  }

  lemma SinceStays(run: seq<World>, i: nat, k: nat, t: nat, inputs: seq<Buffer>, outputs: seq<Buffer>)
    requires 0 < k < |run| && Since(run, i, k - 1, t, inputs, outputs) && t in run[k].b.chains
    ensures Since(run, i, k, t, inputs, outputs)
  {
  }

  lemma SinceAdded(run: seq<World>, i: nat, t: nat, inputs: seq<Buffer>, outputs: seq<Buffer>)
    requires i + 1 < |run| && CanAdd(run[i], inputs, outputs) && run[i + 1] == Added(run[i], inputs, outputs) && t == run[i].b.free[0]
    ensures Since(run, i, i + 1, t, inputs, outputs)
  {
  }

  /** In every state of every run, every outstanding token was made by some `add`, and what the device
      finds behind it is what that `add` was given. */
  lemma {:induction false} RunLends(run: seq<World>, k: nat, t: nat) returns (i: nat, inputs: seq<Buffer>, outputs: seq<Buffer>)
    requires Run(run) && k < |run| && t in run[k].b.chains
    ensures Since(run, i, k, t, inputs, outputs)
    ensures |run[k].b.chains[t]| == |inputs| + |outputs| && Lends(run[k].q.desc, t, inputs, outputs)
  {
    var w, w' := LastStep(run, k, t);
    if t in w.b.chains {
      i, inputs, outputs := RunLends(run, k - 1, t);
      SinceStays(run, i, k, t, inputs, outputs);
      LendsStays(w, w', t, inputs, outputs);
    } else {
      i := k - 1;
      inputs, outputs := TokenWhy(w, w', t);
      SinceAdded(run, i, t, inputs, outputs);
      AddLends(w, inputs, outputs);
    }
  }

  // ---------------------------------------------------------------- queues of any size

  /** The two counters `add` looks at before it writes the available ring. */
  datatype Driver = Driver(numUsed: nat, availIdx: U16)

  /** `idx & (size - 1)` for any power of two. */
  function AvailSlot(d: Driver, size: nat): nat
    requires QueueSize(size)
  {
    d.availIdx % size
  }

  ghost predicate DriverAdds(size: nat, d: Driver, n: nat, d': Driver) {
    0 < n <= size - d.numUsed && d' == Driver(d.numUsed + n, Wrap(d.availIdx + 1))
  }

  ghost predicate DriverPops(d: Driver, n: nat, d': Driver) {
    0 < n <= d.numUsed && d' == Driver(d.numUsed - n, d.availIdx)
  }

  ghost predicate DriverNext(size: nat, d: Driver, d': Driver) {
    || (exists n: nat :: DriverAdds(size, d, n, d'))
    || (exists n: nat :: DriverPops(d, n, d'))
  }

  /** A run of adds and pops on a new queue of a given size. */
  ghost predicate DriverRun(size: nat, run: seq<Driver>) {
    && run != [] && run[0] == Driver(0, 0)
    && forall i, j :: 0 <= i && j == i + 1 && j < |run| ==> DriverNext(size, run[i], run[j])
  }

  /** Wherever a buffer can be added, its ring entry is one of the declared ones. */
  ghost predicate RingsSuffice(size: nat, run: seq<Driver>)
    requires QueueSize(size)
  {
    forall k :: 0 <= k < |run| && run[k].numUsed < size ==> AvailSlot(run[k], size) < RING_ENTRIES
  }

  function DriverOf(q: Queue): Driver {
    Driver(q.numUsed, q.availIdx)
  }

  lemma SlotIsModulo(n: nat, size: nat)
    requires RingSize(size)
    ensures n % size == Slot(n, size) < RING_ENTRIES
  {
    if size == 1 {
      assert n % 1 == 0;
    }
  }

  lemma WrapNext(n: nat)
    ensures Wrap(Wrap(n) + 1) == Wrap(n + 1)
  {
  }

  /** The counters of the queues above move as these do, and `add` writes the slot named here. */
  lemma AddMovesDriver(w: World, inputs: seq<Buffer>, outputs: seq<Buffer>)
    requires CanAdd(w, inputs, outputs)
    ensures DriverAdds(w.q.size, DriverOf(w.q), |inputs| + |outputs|, DriverOf(Added(w, inputs, outputs).q))
    ensures AvailSlot(DriverOf(w.q), w.q.size) < RING_ENTRIES
    ensures Added(w, inputs, outputs).q.availRing == w.q.availRing[AvailSlot(DriverOf(w.q), w.q.size) := w.b.free[0]]
  {
    WrapKeepsSlot(|w.b.log|, w.q.size);
    SlotIsModulo(Wrap(|w.b.log|), w.q.size);
    WrapNext(|w.b.log|);
    assert FreeEntryOk(w.b, 0);
  }

  lemma StepMovesDriver(w: World, w': World)
    requires Inv(w) && Next(w, w')
    ensures DriverOf(w'.q) == DriverOf(w.q) || DriverNext(w.q.size, DriverOf(w.q), DriverOf(w'.q))
  {
    if inputs, outputs :| CanAdd(w, inputs, outputs) && w' == Added(w, inputs, outputs) {
      AddMovesDriver(w, inputs, outputs);
    } else if CanPop(w) && w' == Popped(w) {
      assert DoneOk(w.b, w.b.popped);
      var token := w.b.comp[w.b.popped].id;
      assert HeadOk(w.b, token);
      ChainFits(w, token);
      assert DriverPops(DriverOf(w.q), |w.b.chains[token]|, DriverOf(w'.q));
    }
  }

  /** On a longer queue, 32 buffers added one by one leave room for a 33rd, whose entry is past the
      declared ring. */
  lemma LongQueueOverruns(size: nat) returns (run: seq<Driver>)
    requires QueueSize(size) && size > RING_ENTRIES
    ensures DriverRun(size, run) && |run| == RING_ENTRIES + 1
    ensures forall i :: 0 <= i < RING_ENTRIES ==> DriverAdds(size, run[i], 1, run[i + 1])
    ensures run[RING_ENTRIES].numUsed < size && AvailSlot(run[RING_ENTRIES], size) == RING_ENTRIES
  {
    run := seq(33, i requires 0 <= i < 33 => Driver(i, i));
    forall i, j | 0 <= i && j == i + 1 && j < |run|
      ensures DriverAdds(size, run[i], 1, run[j]) && DriverNext(size, run[i], run[j])
    {
      var one: nat := 1;
      assert DriverAdds(size, run[i], one, run[j]);
    }
    assert RING_ENTRIES % size == RING_ENTRIES;
  }

  /** The declared rings are long enough in every run exactly when the queue is no longer. */
  lemma RingBound(size: nat)
    requires QueueSize(size)
    ensures (forall run :: DriverRun(size, run) ==> RingsSuffice(size, run)) <==> size <= RING_ENTRIES
  {
    if size > RING_ENTRIES {
      var run := LongQueueOverruns(size);
      assert !RingsSuffice(size, run);
    }
  }
}
