/** The translation of a range of user pages, page by page, over the paging machine: a page that is
    there gives its frame, a missing one is faulted in, and before that the kernel may reclaim frames,
    also those of pages it has translated already. */
module TranslationWalks {
  import opened Basics
  import opened PagedMemory
  import opened PagingMachine
  import opened PagingStores
  import opened PagingRuns

  /** How many free frames `check_page_fault` reserves. */
  const RESERVED := 3

  /** The pages from `lo` on of space `p` are asked for, one for each element of `free`, which is the
      number of free frames when the page has its turn; `swept` are the pages of the space that a
      clean of the space goes over. */
  datatype Ask = Ask(p: nat, lo: nat, swept: set<nat>, free: seq<nat>)

  /** The turn of one page: a run of the machine, and the frame the page was found in at its end. */
  datatype Turn = Turn(ms: seq<Machine>, steps: seq<Step>, ppn: nat)

  function Entry(m: Machine, p: nat, v: nat): Option<nat> {
    if p in m.spaces && v in m.spaces[p].table then Some(m.spaces[p].table[v].ppn) else None
  }

  predicate Tight(a: Ask, i: nat) {
    i < |a.free| && a.free[i] < RESERVED
  }

  /** What the kernel does to get frames and to have pages of files at hand: page caches that nobody
      else uses are dropped, others loaded, and anonymous pages with one handle leave memory; those of
      the space itself only in the clean made when frames are short. */
  predicate Frees(m: Machine, step: Step, a: Ask, tight: bool) {
    match step
    case Evict(q, u, _, force) => !force && (q == a.p ==> tight && u in a.swept)
    case CacheDrop(k) => k in m.cache && InMemory(m.cache[k]) in m.store && m.store[InMemory(m.cache[k])].refs == 1
    case CacheLoad(_, _) => true
    case _ => false
  }

  predicate Faults(step: Step, p: nat, v: nat) {
    step.Fault? && step.p == p && step.v == v
  }

  predicate Evicts(step: Step, p: nat, u: nat) {
    step.Evict? && step.p == p && step.v == u
  }

  /** Step `j` of the turn of page `i`: the last is the fault. */
  predicate WalkStep(a: Ask, i: nat, t: Turn, j: nat)
    requires j < |t.steps| && |t.ms| == |t.steps| + 1
  {
    if j == |t.steps| - 1 then Faults(t.steps[j], a.p, a.lo + i) else Frees(t.ms[j], t.steps[j], a, Tight(a, i))
  }

  ghost predicate TurnOk(codec: Codec, a: Ask, i: nat, t: Turn) {
    && Run(codec, t.ms, t.steps) && a.p in t.ms[0].spaces && a.lo + i in t.ms[0].spaces[a.p].slots
    && (Entry(t.ms[0], a.p, a.lo + i).Some? <==> |t.steps| == 0)
    && (forall j: nat {:trigger WalkStep(a, i, t, j)} :: j < |t.steps| ==> WalkStep(a, i, t, j))
    && Entry(t.ms[|t.steps|], a.p, a.lo + i) == Some(t.ppn)
  }

  /** The state after the first `k` turns. */
  function StateAt(m: Machine, ts: seq<Turn>, k: nat): Machine
    requires k <= |ts|
  {
    if k == 0 || ts[k - 1].ms == [] then m else ts[k - 1].ms[|ts[k - 1].ms| - 1]
  }

  ghost predicate TurnAt(codec: Codec, m: Machine, a: Ask, ts: seq<Turn>, i: nat)
    requires i < |ts|
  {
    TurnOk(codec, a, i, ts[i]) && ts[i].ms[0] == StateAt(m, ts, i)
  }

  /** A translation that has come `|ts|` pages far. */
  ghost predicate Walk(codec: Codec, m: Machine, a: Ask, ts: seq<Turn>) {
    && Inv(m) && a.p in m.spaces && |ts| <= |a.free|
    && forall i: nat {:trigger TurnAt(codec, m, a, ts, i)} :: i < |ts| ==> TurnAt(codec, m, a, ts, i)
  }

  /** The frame taken for page `i` is the one the page is in at the end. */
  predicate RightAt(m: Machine, a: Ask, ts: seq<Turn>, i: nat)
    requires i < |ts|
  {
    Entry(StateAt(m, ts, |ts|), a.p, a.lo + i) == Some(ts[i].ppn)
  }

  ghost predicate Right(m: Machine, a: Ask, ts: seq<Turn>) {
    forall i: nat {:trigger RightAt(m, a, ts, i)} :: i < |ts| ==> RightAt(m, a, ts, i)
  }

  // ---------------------------------------------------------------- one step

  /** An anonymous page whose frame, if it is in one, has no other handle. */
  predicate Movable(m: Machine, p: nat, u: nat) {
    && p in m.spaces && u in m.spaces[p].slots && m.spaces[p].slots[u].file.None?
    && (m.spaces[p].slots[u].frame.InMemory? ==>
          m.spaces[p].slots[u].frame in m.store && m.store[m.spaces[p].slots[u].frame].refs == 1)
  }

  /** The page and its area are the same, and as movable as they were. */
  predicate Alike(m: Machine, m': Machine, p: nat, u: nat) {
    && p in m.spaces && p in m'.spaces && u in m.spaces[p].slots && u in m'.spaces[p].slots
    && m'.spaces[p].slots[u].file == m.spaces[p].slots[u].file && m'.spaces[p].slots[u].perm == m.spaces[p].slots[u].perm
    && (Movable(m', p, u) <==> Movable(m, p, u))
  }

  lemma EvictEntry(codec: Codec, m: Machine, q: nat, w: nat, to: Frame, p: nat, u: nat)
    requires CanEvict(m, q, w, to, false) && HasPage(m, p, u)
    ensures var m' := Evicted(codec, m, q, w, to, false);
            Alike(m, m', p, u) && Entry(m', p, u) == if (q, w) == (p, u) then None else Entry(m, p, u)
  {
    assert SlotOk(m, p, u);
    SoleHolder(m, q, w, m.spaces[q].slots[w].frame);
    assert Holds(m, p, u, m.spaces[p].slots[u].frame);
  }

  /** A fault that maps a frame of the page cache, ... */
  lemma CachedFaultEntry(codec: Codec, m: Machine, p: nat, v: nat, ppn: nat, size: nat, u: nat)
    requires CanFault(m, p, v, ppn, size) && MapsCached(m, p, v, size) && HasPage(m, p, u)
    ensures var m' := Faulted(codec, m, p, v, ppn, size);
            Alike(m, m', p, u) && (u != v ==> Entry(m', p, u) == Entry(m, p, u))
  {
    FaultReady(m, p);
    assert SlotOk(m, p, u);
    MapsWhatItWas(codec, m, p, v, ppn, size);
    var f := InMemory(CachedFrame(m, p, v));
    assert CellOk(m, f);
    if Holds(m, p, u, f) && m.store[f].refs == 1 {
      SoleUncached(m, p, u, f);
    }
  }

  /** ... and one that brings the page in, if it is served. */
  lemma BringInEntry(m: Machine, p: nat, v: nat, ppn: nat, page: Page, u: nat)
    requires HasPage(m, p, v) && HasPage(m, p, u) && Entry(m, p, v).None? && InMemory(ppn) !in m.store
    ensures var m' := WithView(m, p, BringIn(ViewOf(m, p), v, ppn, page));
            Alike(m, m', p, u) && (u != v ==> Entry(m', p, u) == Entry(m, p, u))
  {
    assert SlotOk(m, p, u) && SlotOk(m, p, v);
  }

  lemma FreshFaultIs(codec: Codec, m: Machine, p: nat, v: nat, ppn: nat, size: nat) returns (page: Page)
    requires CanFault(m, p, v, ppn, size) && HasPage(m, p, v) && Entry(m, p, v).None? && !MapsCached(m, p, v, size)
    ensures var m' := Faulted(codec, m, p, v, ppn, size);
            m' == m || m' == WithView(m, p, BringIn(ViewOf(m, p), v, ppn, page))
  {
    FaultReady(m, p);
    page := SlotBytes(EnvNow(codec, m, size), m.store, m.spaces[p].slots[v]);
    if DoPageFault(EnvNow(codec, m, size), ViewOf(m, p), v, ppn, CachedFrame(m, p, v)).Fixed? {
      FaultShape(EnvNow(codec, m, size), ViewOf(m, p), v, ppn, CachedFrame(m, p, v));
    }
  }

  lemma FreshFaultEntry(codec: Codec, m: Machine, p: nat, v: nat, ppn: nat, size: nat, u: nat)
    requires CanFault(m, p, v, ppn, size) && HasPage(m, p, v) && HasPage(m, p, u) && Entry(m, p, v).None?
    requires !MapsCached(m, p, v, size)
    ensures var m' := Faulted(codec, m, p, v, ppn, size);
            Alike(m, m', p, u) && (u != v ==> Entry(m', p, u) == Entry(m, p, u))
  {
    var page := FreshFaultIs(codec, m, p, v, ppn, size);
    BringInEntry(m, p, v, ppn, page, u);
  }

  lemma CacheEntry(codec: Codec, m: Machine, step: Step, m': Machine, a: Ask, tight: bool, u: nat)
    requires Next(codec, m, step, m') && HasPage(m, a.p, u) && (step.CacheDrop? || step.CacheLoad?) && Frees(m, step, a, tight)
    ensures Alike(m, m', a.p, u) && Entry(m', a.p, u) == Entry(m, a.p, u)
  {
    assert SlotOk(m, a.p, u);
    var f := m.spaces[a.p].slots[u].frame;
    if step.CacheDrop? && Holds(m, a.p, u, f) && f == InMemory(m.cache[step.k]) {
      SoleUncached(m, a.p, u, f);
    }
  }

  /** A step of a turn: only its own eviction takes the entry of a page away, and only the fault at the
      end gives one. */
  lemma StepEntry(codec: Codec, a: Ask, i: nat, t: Turn, j: nat, u: nat)
    requires codec.Lossless() && TurnOk(codec, a, i, t) && j < |t.steps|
    requires HasPage(t.ms[j], a.p, u) && HasPage(t.ms[j], a.p, a.lo + i) && Entry(t.ms[j], a.p, a.lo + i).None?
    ensures Alike(t.ms[j], t.ms[j + 1], a.p, u) && Inv(t.ms[j + 1])
    ensures Evicts(t.steps[j], a.p, u) ==>
              Entry(t.ms[j + 1], a.p, u).None? && Movable(t.ms[j], a.p, u) && u in a.swept && Tight(a, i)
    ensures !Evicts(t.steps[j], a.p, u) && (u != a.lo + i || j < |t.steps| - 1) ==>
              Entry(t.ms[j + 1], a.p, u) == Entry(t.ms[j], a.p, u)
  {
    var m, step, m' := t.ms[j], t.steps[j], t.ms[j + 1];
    assert StepAt(codec, t.ms, t.steps, j) && WalkStep(a, i, t, j);
    StepInv(codec, m, step, m');
    match step
    case Evict(q, w, to, _) => EvictEntry(codec, m, q, w, to, a.p, u);
    case Fault(p, v, ppn, size) =>
      if MapsCached(m, p, v, size) {
        CachedFaultEntry(codec, m, p, v, ppn, size, u);
      } else {
        FreshFaultEntry(codec, m, p, v, ppn, size, u);
      }
    case _ => CacheEntry(codec, m, step, m', a, Tight(a, i), u);
  }

  // ---------------------------------------------------------------- one turn

  /** The page is evicted by one of the first `k` steps. */
  predicate EvictedBy(t: Turn, k: nat, p: nat, u: nat) {
    exists j: nat {:trigger t.steps[j]} :: j < k && j < |t.steps| && Evicts(t.steps[j], p, u)
  }

  predicate EvictedIn(t: Turn, p: nat, u: nat) {
    EvictedBy(t, |t.steps|, p, u)
  }

  /** Before the fault the page whose turn it is stays away. */
  lemma {:induction false} TurnWaits(codec: Codec, a: Ask, i: nat, t: Turn, k: nat)
    requires codec.Lossless() && TurnOk(codec, a, i, t) && k < |t.steps|
    ensures HasPage(t.ms[k], a.p, a.lo + i) && Entry(t.ms[k], a.p, a.lo + i).None?
  {
    if k > 0 {
      TurnWaits(codec, a, i, t, k - 1);
      StepEntry(codec, a, i, t, k - 1, a.lo + i);
    }
  }

  /** Another page keeps its entry exactly if it is not evicted. */
  lemma {:induction false} TurnKeeps(codec: Codec, a: Ask, i: nat, t: Turn, k: nat, u: nat)
    requires codec.Lossless() && TurnOk(codec, a, i, t) && HasPage(t.ms[0], a.p, u) && k <= |t.steps|
    ensures HasPage(t.ms[k], a.p, u) && Alike(t.ms[0], t.ms[k], a.p, u)
    ensures EvictedBy(t, k, a.p, u) ==> Movable(t.ms[0], a.p, u) && u in a.swept && Tight(a, i)
    ensures u != a.lo + i ==> Entry(t.ms[k], a.p, u) == if EvictedBy(t, k, a.p, u) then None else Entry(t.ms[0], a.p, u)
  {
    if k > 0 {
      TurnKeeps(codec, a, i, t, k - 1, u);
      TurnWaits(codec, a, i, t, k - 1);
      StepEntry(codec, a, i, t, k - 1, u);
      assert EvictedBy(t, k, a.p, u) <==> EvictedBy(t, k - 1, a.p, u) || Evicts(t.steps[k - 1], a.p, u);
    }
  }

  // ---------------------------------------------------------------- whole walks

  /** Turn `i` leads from the state after `i` turns to the state after `i + 1`. */
  lemma TurnEnds(codec: Codec, m: Machine, a: Ask, ts: seq<Turn>, i: nat)
    requires Walk(codec, m, a, ts) && i < |ts|
    ensures TurnOk(codec, a, i, ts[i]) && ts[i].ms[0] == StateAt(m, ts, i)
    ensures StateAt(m, ts, i + 1) == ts[i].ms[|ts[i].steps|]
  {
    assert TurnAt(codec, m, a, ts, i);
  }

  lemma {:induction false} WalkAlike(codec: Codec, m: Machine, a: Ask, ts: seq<Turn>, k: nat, u: nat)
    requires codec.Lossless() && Walk(codec, m, a, ts) && k <= |ts| && HasPage(m, a.p, u)
    ensures HasPage(StateAt(m, ts, k), a.p, u) && Alike(m, StateAt(m, ts, k), a.p, u)
  {
    if k > 0 {
      WalkAlike(codec, m, a, ts, k - 1, u);
      TurnEnds(codec, m, a, ts, k - 1);
      TurnKeeps(codec, a, k - 1, ts[k - 1], |ts[k - 1].steps|, u);
    }
  }

  lemma TurnHasPage(codec: Codec, m: Machine, a: Ask, ts: seq<Turn>, i: nat)
    requires codec.Lossless() && Walk(codec, m, a, ts) && i < |ts|
    ensures HasPage(StateAt(m, ts, i + 1), a.p, a.lo + i) && Entry(StateAt(m, ts, i + 1), a.p, a.lo + i) == Some(ts[i].ppn)
  {
    TurnEnds(codec, m, a, ts, i);
    RunInv(codec, ts[i].ms, ts[i].steps, 0);
    TurnKeeps(codec, a, i, ts[i], |ts[i].steps|, a.lo + i);
  }

  /** Page `i` is evicted in one of the turns after its own, before turn `k`. */
  predicate LostBy(a: Ask, ts: seq<Turn>, i: nat, k: nat) {
    exists j: nat {:trigger ts[j]} :: i < j < k && j < |ts| && EvictedIn(ts[j], a.p, a.lo + i)
  }

  /** What is left of the frame taken for page `i` when the walk has come to turn `k`. */
  lemma {:induction false} WalkEntry(codec: Codec, m: Machine, a: Ask, ts: seq<Turn>, i: nat, k: nat)
    requires codec.Lossless() && Walk(codec, m, a, ts) && i < k <= |ts|
    ensures HasPage(StateAt(m, ts, k), a.p, a.lo + i)
    ensures Entry(StateAt(m, ts, k), a.p, a.lo + i) == if LostBy(a, ts, i, k) then None else Some(ts[i].ppn)
  {
    if k == i + 1 {
      TurnHasPage(codec, m, a, ts, i);
    } else {
      WalkEntry(codec, m, a, ts, i, k - 1);
      TurnEnds(codec, m, a, ts, k - 1);
      TurnKeeps(codec, a, k - 1, ts[k - 1], |ts[k - 1].steps|, a.lo + i);
      assert LostBy(a, ts, i, k) <==> LostBy(a, ts, i, k - 1) || EvictedIn(ts[k - 1], a.p, a.lo + i);
    }
  }

  /** The frames taken are the frames of the pages exactly if no page was reclaimed after its turn. */
  lemma WalkExact(codec: Codec, m: Machine, a: Ask, ts: seq<Turn>)
    requires codec.Lossless() && Walk(codec, m, a, ts)
    ensures Right(m, a, ts) <==> forall i: nat {:trigger LostBy(a, ts, i, |ts|)} :: i < |ts| ==> !LostBy(a, ts, i, |ts|)
  {
    forall i: nat | i < |ts|
      ensures RightAt(m, a, ts, i) <==> !LostBy(a, ts, i, |ts|)
    {
      WalkEntry(codec, m, a, ts, i, |ts|);
    }
  }

  // ---------------------------------------------------------------- when every walk is right

  predicate Missing(m: Machine, p: nat, u: nat) {
    p in m.spaces && u in m.spaces[p].slots && Entry(m, p, u).None?
  }

  /** A page that a clean of the space may take. */
  predicate Takeable(m: Machine, a: Ask, i: nat) {
    Movable(m, a.p, a.lo + i) && a.lo + i in a.swept
  }

  /** The turn of page `k` starts a clean of the space. */
  predicate Cleans(m: Machine, a: Ask, k: nat) {
    Tight(a, k) && Missing(m, a.p, a.lo + k)
  }

  /** Page `i` may be taken in the turn of page `j`, which is missing then: from the start, or because a
      clean before took it. */
  predicate Risky(m: Machine, a: Ask, i: nat, j: nat) {
    && i < j && Tight(a, j) && Takeable(m, a, i)
    && (Missing(m, a.p, a.lo + j) || (Takeable(m, a, j) && exists k: nat {:trigger Cleans(m, a, k)} :: k < j && Cleans(m, a, k)))
  }

  ghost predicate Safe(m: Machine, a: Ask) {
    forall i: nat, j: nat {:trigger Risky(m, a, i, j)} :: !Risky(m, a, i, j)
  }

  predicate PageAt(m: Machine, a: Ask, i: nat) {
    a.p in m.spaces && a.lo + i in m.spaces[a.p].slots
  }

  /** Every page of the range is in some area. */
  ghost predicate AllPages(m: Machine, a: Ask) {
    forall i: nat {:trigger PageAt(m, a, i)} :: i < |a.free| ==> PageAt(m, a, i)
  }

  /** Why a page has no entry. */
  lemma {:induction false} MissingWhy(codec: Codec, m: Machine, a: Ask, ts: seq<Turn>, k: nat, i: nat)
    requires codec.Lossless() && Walk(codec, m, a, ts) && AllPages(m, a) && k <= |ts| && k <= i < |a.free|
    requires Entry(StateAt(m, ts, k), a.p, a.lo + i).None?
    ensures Missing(m, a.p, a.lo + i) || (Takeable(m, a, i) && exists j: nat {:trigger Cleans(m, a, j)} :: j < k && Cleans(m, a, j))
    decreases k, 0
  {
    assert PageAt(m, a, i);
    if k > 0 {
      var t, u := ts[k - 1], a.lo + i;
      TurnEnds(codec, m, a, ts, k - 1);
      WalkAlike(codec, m, a, ts, k - 1, u);
      TurnKeeps(codec, a, k - 1, t, |t.steps|, u);
      if EvictedIn(t, a.p, u) {
        CleanWhy(codec, m, a, ts, k - 1);
      } else {
        MissingWhy(codec, m, a, ts, k - 1, i);
      }
    }
  }

  /** A turn that takes steps and is tight comes with or after a page that was missing from the start. */
  lemma {:induction false} CleanWhy(codec: Codec, m: Machine, a: Ask, ts: seq<Turn>, k: nat)
    requires codec.Lossless() && Walk(codec, m, a, ts) && AllPages(m, a) && k < |ts| && Tight(a, k) && |ts[k].steps| > 0
    ensures exists j: nat {:trigger Cleans(m, a, j)} :: j <= k && Cleans(m, a, j)
    decreases k, 1
  {
    TurnEnds(codec, m, a, ts, k);
    MissingWhy(codec, m, a, ts, k, k);
    assert Missing(m, a.p, a.lo + k) ==> Cleans(m, a, k);
  }

  /** If a page is lost, its start was risky. */
  lemma LostRisky(codec: Codec, m: Machine, a: Ask, ts: seq<Turn>, i: nat, j: nat)
    requires codec.Lossless() && Walk(codec, m, a, ts) && AllPages(m, a) && i < j < |ts| && EvictedIn(ts[j], a.p, a.lo + i)
    ensures Risky(m, a, i, j)
  {
    assert PageAt(m, a, i) && PageAt(m, a, j);
    TurnEnds(codec, m, a, ts, j);
    WalkAlike(codec, m, a, ts, j, a.lo + i);
    TurnKeeps(codec, a, j, ts[j], |ts[j].steps|, a.lo + i);
    MissingWhy(codec, m, a, ts, j, j);
  }

  /** In a safe start every walk is right. */
  lemma SafeRight(codec: Codec, m: Machine, a: Ask, ts: seq<Turn>)
    requires codec.Lossless() && Walk(codec, m, a, ts) && AllPages(m, a) && Safe(m, a)
    ensures Right(m, a, ts)
  {
    WalkExact(codec, m, a, ts);
    forall i: nat | i < |ts|
      ensures !LostBy(a, ts, i, |ts|)
    {
      forall j: nat | i < j < |ts|
        ensures !EvictedIn(ts[j], a.p, a.lo + i)
      {
        if EvictedIn(ts[j], a.p, a.lo + i) {
          LostRisky(codec, m, a, ts, i, j);
        }
      }
    }
  }

  /** It is safe if no turn cleans: every page is there, or three frames are free at each that is not. */
  lemma SafeWhenFree(m: Machine, a: Ask)
    requires forall k: nat {:trigger Cleans(m, a, k)} :: !Cleans(m, a, k)
    ensures Safe(m, a)
  {
    forall i: nat, j: nat
      ensures !Risky(m, a, i, j)
    {
      assert !Cleans(m, a, j);
    }
  }

  // ---------------------------------------------------------------- walks that go wrong

  /** The fault on a missing page is served. */
  predicate Servable(m: Machine, a: Ask, i: nat) {
    && PageAt(m, a, i)
    && var s := m.spaces[a.p].slots[a.lo + i];
    && s.perm.r && s.perm.u && (s.file.Some? && !s.perm.w ==> Aligned(s.file.value))
  }

  /** ... whichever of them are missing when they have their turn. */
  ghost predicate AllServed(m: Machine, a: Ask) {
    forall i: nat {:trigger Servable(m, a, i)} :: i < |a.free| && (Missing(m, a.p, a.lo + i) || Takeable(m, a, i)) ==> Servable(m, a, i)
  }

  /** A number no frame or slot of a finite set has. */
  lemma {:induction false} Unused(frames: set<Frame>) returns (n: nat)
    ensures forall k: nat {:trigger InMemory(k)} :: k >= n ==> InMemory(k) !in frames && SwappedOut(k) !in frames
    decreases frames
  {
    if frames == {} {
      n := 0;
    } else {
      var f :| f in frames;
      var rest := Unused(frames - {f});
      n := match f
        case InMemory(k) => if k < rest then rest else k + 1
        case SwappedOut(k) => if k < rest then rest else k + 1
        case _ => rest;
      forall k: nat | k >= n
        ensures InMemory(k) !in frames && SwappedOut(k) !in frames
      {
        assert InMemory(k) !in frames - {f} && SwappedOut(k) !in frames - {f};
      }
    }
  }

  lemma FaultServes(codec: Codec, m: Machine, a: Ask, i: nat, ppn: nat, size: nat)
    requires CanFault(m, a.p, a.lo + i, ppn, size) && Servable(m, a, i) && Missing(m, a.p, a.lo + i)
    requires var s := m.spaces[a.p].slots[a.lo + i]; s.file.Some? ==> s.file.value.Offset() <= size
    ensures Entry(Faulted(codec, m, a.p, a.lo + i, ppn, size), a.p, a.lo + i).Some?
  {
    FaultReady(m, a.p);
    assert SlotOk(m, a.p, a.lo + i);
  }

  lemma RunCons(codec: Codec, m: Machine, step: Step, ms: seq<Machine>, steps: seq<Step>)
    requires Run(codec, ms, steps) && Inv(m) && Next(codec, m, step, ms[0])
    ensures Run(codec, [m] + ms, [step] + steps)
  {
    var ms', steps' := [m] + ms, [step] + steps;
    forall i | 0 <= i < |steps'|
      ensures StepAt(codec, ms', steps', i)
    {
      assert i > 0 ==> StepAt(codec, ms, steps, i - 1);
    }
  }

  /** One more step at the start of a turn. */
  lemma TurnCons(codec: Codec, m: Machine, step: Step, a: Ask, i: nat, t: Turn) returns (t': Turn)
    requires TurnOk(codec, a, i, t) && |t.steps| > 0 && Inv(m) && Next(codec, m, step, t.ms[0]) && Frees(m, step, a, Tight(a, i))
    requires PageAt(m, a, i) && Entry(m, a.p, a.lo + i).None?
    ensures TurnOk(codec, a, i, t') && t'.ms[0] == m && t'.steps == [step] + t.steps
  {
    t' := Turn([m] + t.ms, [step] + t.steps, t.ppn);
    RunCons(codec, m, step, t.ms, t.steps);
    forall j: nat | j < |t'.steps|
      ensures WalkStep(a, i, t', j)
    {
      assert j > 0 ==> WalkStep(a, i, t, j - 1);
    }
  }

  /** Only the fault. */
  lemma FaultTurn(codec: Codec, m: Machine, a: Ask, i: nat, ppn: nat, size: nat) returns (t: Turn)
    requires CanFault(m, a.p, a.lo + i, ppn, size) && Servable(m, a, i) && Missing(m, a.p, a.lo + i)
    requires var s := m.spaces[a.p].slots[a.lo + i]; s.file.Some? ==> s.file.value.Offset() <= size
    ensures TurnOk(codec, a, i, t) && t.ms[0] == m && |t.steps| == 1 && t.steps[0].Fault?
  {
    FaultServes(codec, m, a, i, ppn, size);
    var m' := Faulted(codec, m, a.p, a.lo + i, ppn, size);
    t := Turn([m, m'], [Fault(a.p, a.lo + i, ppn, size)], Entry(m', a.p, a.lo + i).value);
    assert StepAt(codec, t.ms, t.steps, 0);
    assert WalkStep(a, i, t, 0);
  }

  predicate NoEvict(t: Turn) {
    forall j: nat {:trigger t.steps[j]} :: j < |t.steps| ==> !t.steps[j].Evict?
  }

  /** A turn that reclaims nothing. */
  lemma PlainTurn(codec: Codec, m: Machine, a: Ask, i: nat) returns (t: Turn)
    requires Inv(m) && PageAt(m, a, i) && (Missing(m, a.p, a.lo + i) ==> Servable(m, a, i))
    ensures TurnOk(codec, a, i, t) && t.ms[0] == m && NoEvict(t) && (Missing(m, a.p, a.lo + i) ==> |t.steps| > 0)
  {
    if Entry(m, a.p, a.lo + i).Some? {
      t := Turn([m], [], Entry(m, a.p, a.lo + i).value);
    } else {
      var ppn := Unused(m.store.Keys);
      assert InMemory(ppn) !in m.store && InMemory(ppn + 1) !in m.store;
      var s := m.spaces[a.p].slots[a.lo + i];
      var size := if s.file.Some? then s.file.value.Offset() else 0;
      if MapsCached(m, a.p, a.lo + i, size) && KeyOf(s.file.value) !in m.cache {
        var k := KeyOf(s.file.value);
        CacheLoadInv(m, k, ppn);
        var m1 := CacheLoaded(m, k, ppn);
        var rest := FaultTurn(codec, m1, a, i, ppn + 1, size);
        t := TurnCons(codec, m, CacheLoad(k, ppn), a, i, rest);
      } else {
        t := FaultTurn(codec, m, a, i, ppn, size);
      }
    }
  }

  /** A turn whose clean takes page `u`. */
  lemma TakingTurn(codec: Codec, m: Machine, a: Ask, i: nat, u: nat) returns (t: Turn)
    requires codec.Lossless() && Inv(m) && Servable(m, a, i) && Cleans(m, a, i) && u != a.lo + i
    requires Movable(m, a.p, u) && u in a.swept && Entry(m, a.p, u).Some?
    ensures TurnOk(codec, a, i, t) && t.ms[0] == m && EvictedIn(t, a.p, u)
    ensures forall w: nat {:trigger EvictedIn(t, a.p, w)} :: EvictedIn(t, a.p, w) ==> w == u
  {
    var n := Unused(m.store.Keys);
    assert InMemory(n) !in m.store && SwappedOut(n) !in m.store;
    assert SlotOk(m, a.p, u);
    var m1 := Evicted(codec, m, a.p, u, SwappedOut(n), false);
    EvictEntry(codec, m, a.p, u, SwappedOut(n), a.p, a.lo + i);
    StepInv(codec, m, Evict(a.p, u, SwappedOut(n), false), m1);
    var rest := PlainTurn(codec, m1, a, i);
    t := TurnCons(codec, m, Evict(a.p, u, SwappedOut(n), false), a, i, rest);
    assert Evicts(t.steps[0], a.p, u);
    forall j: nat | 0 < j < |t.steps|
      ensures !t.steps[j].Evict?
    {
      assert t.steps[j] == rest.steps[j - 1];
    }
  }

  lemma Extend(codec: Codec, m: Machine, a: Ask, ts: seq<Turn>, t: Turn)
    requires Walk(codec, m, a, ts) && |ts| < |a.free| && TurnOk(codec, a, |ts|, t) && t.ms[0] == StateAt(m, ts, |ts|)
    ensures Walk(codec, m, a, ts + [t])
  {
    var ts' := ts + [t];
    forall i: nat | i < |ts'|
      ensures TurnAt(codec, m, a, ts', i)
    {
      assert StateAt(m, ts', i) == StateAt(m, ts, i);
      assert i < |ts| ==> TurnAt(codec, m, a, ts, i);
    }
  }

  /** The page whose turn is next can be had. */
  lemma NextServed(codec: Codec, m: Machine, a: Ask, ts: seq<Turn>)
    requires codec.Lossless() && Walk(codec, m, a, ts) && |ts| < |a.free| && AllPages(m, a) && AllServed(m, a)
    ensures var now, i := StateAt(m, ts, |ts|), |ts|;
            Inv(now) && PageAt(now, a, i) && (Missing(now, a.p, a.lo + i) ==> Servable(now, a, i))
  {
    var i := |ts|;
    assert PageAt(m, a, i);
    WalkAlike(codec, m, a, ts, |ts|, a.lo + i);
    if Missing(StateAt(m, ts, |ts|), a.p, a.lo + i) {
      MissingWhy(codec, m, a, ts, |ts|, i);
      assert Servable(m, a, i);
    }
  }

  /** Any walk can go on to page `k` without reclaiming anything. */
  lemma {:induction false} PlainTo(codec: Codec, m: Machine, a: Ask, ts: seq<Turn>, k: nat) returns (ts': seq<Turn>)
    requires codec.Lossless() && Walk(codec, m, a, ts) && |ts| <= k <= |a.free| && AllPages(m, a) && AllServed(m, a)
    ensures Walk(codec, m, a, ts') && |ts'| == k && ts <= ts'
    ensures forall j: nat {:trigger ts'[j]} :: |ts| <= j < k ==> NoEvict(ts'[j])
    decreases k - |ts|
  {
    if |ts| == k {
      ts' := ts;
    } else {
      NextServed(codec, m, a, ts);
      var t := PlainTurn(codec, StateAt(m, ts, |ts|), a, |ts|);
      Extend(codec, m, a, ts, t);
      ts' := PlainTo(codec, m, a, ts + [t], k);
      assert ts'[|ts|] == t;
    }
  }

  /** A page that may be taken is in memory with one handle as soon as it has an entry; it has one from
      its turn on, or from the start, until it is taken. */
  lemma StillThere(codec: Codec, m: Machine, a: Ask, ts: seq<Turn>, i: nat)
    requires codec.Lossless() && Walk(codec, m, a, ts) && AllPages(m, a) && i < |ts| && Takeable(m, a, i) && !LostBy(a, ts, i, |ts|)
    ensures Movable(StateAt(m, ts, |ts|), a.p, a.lo + i) && Entry(StateAt(m, ts, |ts|), a.p, a.lo + i).Some?
  {
    assert PageAt(m, a, i);
    WalkAlike(codec, m, a, ts, |ts|, a.lo + i);
    WalkEntry(codec, m, a, ts, i, |ts|);
  }

  /** Page `i`, taken in the turn of page `|ts|`, stays lost to the end. */
  lemma TakenLost(codec: Codec, m: Machine, a: Ask, ts: seq<Turn>, i: nat) returns (ts': seq<Turn>)
    requires codec.Lossless() && Walk(codec, m, a, ts) && AllPages(m, a) && AllServed(m, a) && i < |ts| < |a.free|
    requires Takeable(m, a, i) && !LostBy(a, ts, i, |ts|) && Cleans(StateAt(m, ts, |ts|), a, |ts|)
    ensures Walk(codec, m, a, ts') && |ts'| == |a.free| && !RightAt(m, a, ts', i)
  {
    var j := |ts|;
    StillThere(codec, m, a, ts, i);
    NextServed(codec, m, a, ts);
    var t := TakingTurn(codec, StateAt(m, ts, j), a, j, a.lo + i);
    Extend(codec, m, a, ts, t);
    ts' := PlainTo(codec, m, a, ts + [t], |a.free|);
    assert ts'[j] == t;
    assert LostBy(a, ts', i, |ts'|);
    WalkEntry(codec, m, a, ts', i, |ts'|);
  }

  lemma {:induction false} PlainKeeps(codec: Codec, m: Machine, a: Ask, ts: seq<Turn>, n: nat, k: nat, u: nat)
    requires codec.Lossless() && Walk(codec, m, a, ts) && n <= k <= |ts| && HasPage(StateAt(m, ts, n), a.p, u)
    requires forall j: nat {:trigger ts[j]} :: n <= j < k ==> NoEvict(ts[j]) && u != a.lo + j
    ensures Entry(StateAt(m, ts, k), a.p, u) == Entry(StateAt(m, ts, n), a.p, u) && HasPage(StateAt(m, ts, k), a.p, u)
  {
    if n < k {
      PlainKeeps(codec, m, a, ts, n, k - 1, u);
      TurnEnds(codec, m, a, ts, k - 1);
      TurnKeeps(codec, a, k - 1, ts[k - 1], |ts[k - 1].steps|, u);
      assert !EvictedIn(ts[k - 1], a.p, u);
    }
  }

  /** The page was missing from the start. */
  lemma MissingGoesWrong(codec: Codec, m: Machine, a: Ask, i: nat, j: nat) returns (ts: seq<Turn>)
    requires codec.Lossless() && Inv(m) && a.p in m.spaces && AllPages(m, a) && AllServed(m, a)
    requires i < j && Takeable(m, a, i) && Cleans(m, a, j)
    ensures Walk(codec, m, a, ts) && |ts| == |a.free| && !Right(m, a, ts)
  {
    var plain := PlainTo(codec, m, a, [], j);
    PlainKeeps(codec, m, a, plain, 0, j, a.lo + j);
    assert !LostBy(a, plain, i, j);
    ts := TakenLost(codec, m, a, plain, i);
    assert !RightAt(m, a, ts, i);
  }

  /** The page is taken in the turn of page `k` and so is missing in its own. */
  lemma TakenGoesWrong(codec: Codec, m: Machine, a: Ask, k: nat, i: nat, j: nat) returns (ts: seq<Turn>)
    requires codec.Lossless() && Inv(m) && a.p in m.spaces && AllPages(m, a) && AllServed(m, a)
    requires k <= i < j && Cleans(m, a, k) && Takeable(m, a, i) && Takeable(m, a, j) && Tight(a, j) && Entry(m, a.p, a.lo + j).Some?
    ensures Walk(codec, m, a, ts) && |ts| == |a.free| && !Right(m, a, ts)
  {
    var plain := PlainTo(codec, m, a, [], k);
    PlainKeeps(codec, m, a, plain, 0, k, a.lo + k);
    assert PageAt(m, a, j);
    PlainKeeps(codec, m, a, plain, 0, k, a.lo + j);
    WalkAlike(codec, m, a, plain, k, a.lo + j);
    NextServed(codec, m, a, plain);
    var t := TakingTurn(codec, StateAt(m, plain, k), a, k, a.lo + j);
    Extend(codec, m, a, plain, t);
    var more := PlainTo(codec, m, a, plain + [t], j);
    TakenAway(codec, m, a, more, k, j);
    assert !LostBy(a, more, i, j);
    ts := TakenLost(codec, m, a, more, i);
    assert !RightAt(m, a, ts, i);
  }

  lemma TakenAway(codec: Codec, m: Machine, a: Ask, ts: seq<Turn>, k: nat, j: nat)
    requires codec.Lossless() && Walk(codec, m, a, ts) && AllPages(m, a) && k < j == |ts| < |a.free| && EvictedIn(ts[k], a.p, a.lo + j)
    requires forall i: nat {:trigger ts[i]} :: k < i < j ==> NoEvict(ts[i])
    ensures Missing(StateAt(m, ts, j), a.p, a.lo + j)
  {
    assert PageAt(m, a, j);
    WalkAlike(codec, m, a, ts, k, a.lo + j);
    TurnEnds(codec, m, a, ts, k);
    TurnKeeps(codec, a, k, ts[k], |ts[k].steps|, a.lo + j);
    PlainKeeps(codec, m, a, ts, k + 1, j, a.lo + j);
  }

  ghost predicate AllRight(codec: Codec, m: Machine, a: Ask) {
    forall ts: seq<Turn> {:trigger Walk(codec, m, a, ts)} :: Walk(codec, m, a, ts) && |ts| == |a.free| ==> Right(m, a, ts)
  }

  lemma RiskyGoesWrong(codec: Codec, m: Machine, a: Ask, i: nat, j: nat)
    requires codec.Lossless() && Inv(m) && a.p in m.spaces && AllPages(m, a) && AllServed(m, a) && Risky(m, a, i, j)
    ensures !AllRight(codec, m, a)
  {
    var ts: seq<Turn>;
    if Missing(m, a.p, a.lo + j) {
      ts := MissingGoesWrong(codec, m, a, i, j);
    } else {
      var k: nat :| k < j && Cleans(m, a, k);
      if i < k {
        ts := MissingGoesWrong(codec, m, a, i, k);
      } else {
        assert PageAt(m, a, j);
        ts := TakenGoesWrong(codec, m, a, k, i, j);
      }
    }
    assert Walk(codec, m, a, ts) && !Right(m, a, ts);
  }

  /** The translation of a range gives the frames of its pages, whatever is reclaimed on the way,
      exactly if no page that a clean may take comes before a page whose turn can start one. */
  lemma TranslationExact(codec: Codec, m: Machine, a: Ask)
    requires codec.Lossless() && Inv(m) && a.p in m.spaces && AllPages(m, a) && AllServed(m, a)
    ensures AllRight(codec, m, a) <==> Safe(m, a)
  {
    if Safe(m, a) {
      forall ts: seq<Turn> | Walk(codec, m, a, ts) && |ts| == |a.free|
        ensures Right(m, a, ts)
      {
        SafeRight(codec, m, a, ts);
      }
    } else {
      var i: nat, j: nat :| Risky(m, a, i, j);
      RiskyGoesWrong(codec, m, a, i, j);
    }
  }
}
