/** Runs of the paging machine: every interleaving of faults, evictions, protection changes, forks,
    unmaps, user stores, kernel copies and file writes over any number of address spaces. */
module PagingRuns {
  import opened Basics
  import opened PagedMemory
  import opened PagingMachine
  import opened PagingStores

  datatype Step =
    | Open(p: nat)
    | Fault(p: nat, v: nat, ppn: nat, size: nat)
    | Evict(p: nat, v: nat, to: Frame, force: bool)
    | Protect(p: nat, v: nat, perm: Perm)
    | BlockWrite(p: nat, v: nat)
    | Share(p: nat, v: nat, from: nat)
    | Remove(p: nat, v: nat)
    | Reserve(p: nat, v: nat, perm: Perm, file: Option<FilePos>)
    | Populate(p: nat, v: nat, perm: Perm, file: Option<FilePos>, ppn: nat, page: Page)
    | Refile(p: nat, v: nat, pos: FilePos)
    | Write(p: nat, v: nat, offset: nat, byte: bv8)
    | KernelWrite(p: nat, v: nat, offset: nat, byte: bv8)
    | CacheLoad(k: FileKey, ppn: nat)
    | CacheWrite(k: FileKey, offset: nat, byte: bv8)
    | CacheDrop(k: FileKey)
    | Truncate(k: FileKey, page: Page)

  ghost predicate Next(codec: Codec, m: Machine, step: Step, m': Machine) {
    match step
    case Open(p) => Inv(m) && p !in m.spaces && m' == m.(spaces := m.spaces[p := AddrSpace(map[], map[])])
    case Fault(p, v, ppn, size) => CanFault(m, p, v, ppn, size) && m' == Faulted(codec, m, p, v, ppn, size)
    case Evict(p, v, to, force) => CanEvict(m, p, v, to, force) && m' == Evicted(codec, m, p, v, to, force)
    case Protect(p, v, perm) => HasPage(m, p, v) && m' == Protected(m, p, v, perm)
    case BlockWrite(p, v) => Inv(m) && p in m.spaces && m' == Blocked(m, p, v)
    case Share(p, v, from) => CanShare(m, p, v, from) && m' == Shared(m, p, v, from)
    case Remove(p, v) => HasPage(m, p, v) && m' == Removed(m, p, v)
    case Reserve(p, v, perm, file) => CanEnter(m, p, v) && m' == Reserved(m, p, v, perm, file)
    case Populate(p, v, perm, file, ppn, page) =>
      CanEnter(m, p, v) && InMemory(ppn) !in m.store && m' == Populated(m, p, v, perm, file, ppn, page)
    case Refile(p, v, pos) => CanRefile(m, p, v) && m' == Refiled(m, p, v, pos)
    case Write(p, v, offset, byte) => CanStore(m, p, v, offset) && m' == Stored(m, p, v, offset, byte)
    case KernelWrite(p, v, offset, byte) => CanKernelStore(m, p, v, offset) && m' == KernelStored(m, p, v, offset, byte)
    case CacheLoad(k, ppn) => CanCacheLoad(m, k, ppn) && m' == CacheLoaded(m, k, ppn)
    case CacheWrite(k, offset, byte) => CanCacheStore(m, k, offset) && m' == CacheStored(m, k, offset, byte)
    case CacheDrop(k) => Inv(m) && k in m.cache && m' == CacheDropped(m, k)
    case Truncate(k, page) => Inv(m) && m' == FileCut(m, k, page)
  }

  // ---------------------------------------------------------------- the invariant

  lemma OpenInv(m: Machine, p: nat)
    requires Inv(m) && p !in m.spaces
    ensures Inv(m.(spaces := m.spaces[p := AddrSpace(map[], map[])]))
  {
    var m' := m.(spaces := m.spaces[p := AddrSpace(map[], map[])]);
    forall q, u | q in m'.spaces && u in m'.spaces[q].slots
      ensures SlotOk(m', q, u)
    {
      assert SlotOk(m, q, u);
    }
    forall f | f in m'.store
      ensures CellOk(m', f)
    {
      assert CellOk(m, f);
      SameHolders(m, m', f);
    }
    forall q | q in m'.spaces
      ensures TableOk(m', q)
    {
      assert q != p ==> TableOk(m, q);
    }
    forall f | f in m'.others
      ensures OtherOk(m', f)
    {
      assert OtherOk(m, f);
    }
    SameCaches(m, m');
  }

  /** Every step keeps the invariant. */
  lemma StepInv(codec: Codec, m: Machine, step: Step, m': Machine)
    requires codec.Lossless() && Next(codec, m, step, m')
    ensures Inv(m) && Inv(m')
  {
    match step
    case Open(p) => OpenInv(m, p);
    case Fault(p, v, ppn, size) => FaultInv(codec, m, p, v, ppn, size);
    case Evict(p, v, to, force) => EvictKeeps(codec, m, p, v, to, force, p, v);
    case Protect(p, v, perm) => ProtectKeeps(codec, m, p, v, perm, p, v);
    case BlockWrite(p, v) =>
      BlockIs(m, p, v);
      if v in m.spaces[p].table {
        BlockKeeps(codec, m, p, v, p, v);
      }
    case Share(p, v, from) => ShareCopies(codec, m, p, v, from);
    case Remove(p, v) =>
      RemoveIs(m, p, v);
      ReboundInv(m, p, v, None, None, []);
    case Reserve(p, v, perm, file) =>
      ReserveIs(m, p, v, perm, file);
      ReboundInv(m, p, v, Some(Slot(perm, Unallocated, file)), None, []);
    case Populate(p, v, perm, file, ppn, page) =>
      PopulateIs(m, p, v, perm, file, ppn, page);
      ReboundInv(m, p, v, Some(Slot(perm, InMemory(ppn), file)), Some(Pte(ppn, perm)), page);
    case Refile(p, v, pos) => RefileInv(m, p, v, pos);
    case Write(p, v, offset, byte) => StoreInv(m, p, v, offset, byte);
    case KernelWrite(p, v, offset, byte) => KernelStoreInv(m, p, v, offset, byte);
    case CacheLoad(k, ppn) => CacheLoadInv(m, k, ppn);
    case CacheWrite(k, offset, byte) => CacheStoreInv(m, k, offset, byte);
    case CacheDrop(k) => CacheDropInv(m, k);
    case Truncate(k, page) => FileCutInv(m, k, page);
  }

  // ---------------------------------------------------------------- transparency and isolation

  /** The space whose page a step handles. */
  function Actor(step: Step): Option<nat> {
    if step.CacheLoad? || step.CacheWrite? || step.CacheDrop? || step.Truncate? then None else Some(step.p)
  }

  /** What a step does to the bytes of page `u` of space `q`: a store by that space to that page, made
      by its program or by the kernel for it, changes the byte stored, and nothing else changes
      anything. */
  function Written(step: Step, q: nat, u: nat, page: Page): Page {
    if (step.Write? || step.KernelWrite?) && step.p == q && step.v == u && step.offset < PAGE_SIZE
    then page[step.offset := step.byte] else page
  }

  /** The steps that can reach other pages, and when they do not: a store by the kernel goes to a frame
      with one handle; a write to a file to a frame that only page caches hold, with no page of the file
      yet to be read in; a cut of a file likewise; a page whose file position moves is in a frame. */
  ghost predicate Alone(m: Machine, step: Step) {
    match step
    case KernelWrite(p, v, _, _) =>
      && p in m.spaces && v in m.spaces[p].slots && m.spaces[p].slots[v].frame in m.store
      && m.store[m.spaces[p].slots[v].frame].refs == 1
    case CacheWrite(k, _, _) =>
      && k in m.cache && InMemory(m.cache[k]) in m.store
      && m.store[InMemory(m.cache[k])].refs == Others(m, InMemory(m.cache[k])) && NoneUnread(m, k)
    case Truncate(k, _) => NoneUnread(m, k)
    case Refile(p, v, pos) =>
      && p in m.spaces && v in m.spaces[p].slots && m.spaces[p].slots[v].file.Some?
      && (m.spaces[p].slots[v].frame != Unallocated || SamePlace(m.spaces[p].slots[v].file.value, pos))
    case _ => true
  }

  /** The same for one page: the step does not reach page `u` of space `q` by one of those ways. */
  ghost predicate Spares(m: Machine, step: Step, q: nat, u: nat) {
    match step
    case KernelWrite(p, v, _, _) =>
      (p, v) != (q, u) && p in m.spaces && v in m.spaces[p].slots ==>
        !Holds(m, q, u, m.spaces[p].slots[v].frame) && !ReadsFrom(m, q, u, m.spaces[p].slots[v].frame)
    case CacheWrite(k, _, _) => k in m.cache ==> !Holds(m, q, u, InMemory(m.cache[k])) && !Unread(m, q, u, k)
    case Truncate(k, _) => !Unread(m, q, u, k)
    case Refile(p, v, pos) => (p, v) == (q, u) ==> Alone(m, step)
    case _ => true
  }

  lemma AloneSpares(m: Machine, step: Step, q: nat, u: nat)
    requires Inv(m) && Alone(m, step)
    ensures Spares(m, step, q, u)
  {
    match step
    case KernelWrite(p, v, _, _) =>
      var f := m.spaces[p].slots[v].frame;
      assert Holds(m, p, v, f);
      SoleHolder(m, p, v, f);
      SoleUncached(m, p, v, f);
    case CacheWrite(k, _, _) =>
      assert CellOk(m, InMemory(m.cache[k]));
      HoldersHas(m, q, u, InMemory(m.cache[k]));
    case _ =>
  }

  ghost predicate Kept(codec: Codec, m: Machine, step: Step, m': Machine, q: nat, u: nat)
    requires HasPage(m, q, u)
  {
    && HasPage(m', q, u)
    && Bytes(codec, m', q, u) == Written(step, q, u, Bytes(codec, m, q, u))
    && (Actor(step) != Some(q) ==> m'.spaces[q] == m.spaces[q])
  }

  /** The steps that could reach other pages. */
  lemma ReachKeeps(codec: Codec, m: Machine, step: Step, m': Machine, q: nat, u: nat)
    requires step.Refile? || step.KernelWrite? || step.CacheWrite? || step.Truncate?
    requires Next(codec, m, step, m') && HasPage(m, q, u) && Spares(m, step, q, u)
    ensures Kept(codec, m, step, m', q, u)
  {
    match step
    case Refile(p, v, pos) =>
      RefileBytes(codec, m, p, v, pos, q, u);
      var s := m.spaces[q].slots[u];
      assert s.file.Some? && SamePlace(s.file.value, pos) ==> FileBytes(m, s.file.value) == FileBytes(m, pos);
    case KernelWrite(p, v, offset, byte) => KernelStoreBytes(codec, m, p, v, offset, byte, q, u);
    case CacheWrite(k, offset, byte) => CacheStoreBytes(codec, m, k, offset, byte, q, u);
    case Truncate(k, page) => FileCutBytes(codec, m, k, page, q, u);
  }

  /** The steps by which a page enters a space, ... */
  lemma EnterKeeps(codec: Codec, m: Machine, step: Step, m': Machine, q: nat, u: nat)
    requires step.Reserve? || step.Populate?
    requires Next(codec, m, step, m') && HasPage(m, q, u)
    ensures Kept(codec, m, step, m', q, u)
  {
    match step
    case Reserve(p, v, perm, file) =>
      ReserveIs(m, p, v, perm, file);
      ReboundKeeps(codec, m, p, v, Some(Slot(perm, Unallocated, file)), None, [], q, u);
    case Populate(p, v, perm, file, ppn, page) =>
      PopulateIs(m, p, v, perm, file, ppn, page);
      ReboundKeeps(codec, m, p, v, Some(Slot(perm, InMemory(ppn), file)), Some(Pte(ppn, perm)), page, q, u);
  }

  /** ... is shared with one, or leaves it. */
  lemma LeaveKeeps(codec: Codec, m: Machine, step: Step, m': Machine, q: nat, u: nat)
    requires step.Share? || step.Remove?
    requires Next(codec, m, step, m') && HasPage(m, q, u) && step != Remove(q, u)
    ensures Kept(codec, m, step, m', q, u)
  {
    match step
    case Share(p, v, from) => ShareKeeps(codec, m, p, v, from, q, u);
    case Remove(p, v) =>
      RemoveIs(m, p, v);
      ReboundKeeps(codec, m, p, v, None, None, [], q, u);
  }

  /** Paging is transparent and spaces are isolated. Whatever happens, a page stays until its own
      space removes it, no step of one space touches another, and the page's bytes change only by a
      store of its own space to it, unless the step reaches it by way of a shared frame or the file. */
  lemma StepKeeps(codec: Codec, m: Machine, step: Step, m': Machine, q: nat, u: nat)
    requires codec.Lossless() && Next(codec, m, step, m') && HasPage(m, q, u) && step != Remove(q, u) && Spares(m, step, q, u)
    ensures Kept(codec, m, step, m', q, u)
  {
    if step.Refile? || step.KernelWrite? || step.CacheWrite? || step.Truncate? {
      ReachKeeps(codec, m, step, m', q, u);
    } else if step.Reserve? || step.Populate? {
      EnterKeeps(codec, m, step, m', q, u);
    } else if step.Share? || step.Remove? {
      LeaveKeeps(codec, m, step, m', q, u);
    } else if step.Fault? {
      FaultKeeps(codec, m, step.p, step.v, step.ppn, step.size, q, u);
    } else if step.CacheLoad? {
      CacheLoadBytes(codec, m, step.k, step.ppn, q, u);
    } else if step.CacheDrop? {
      CacheDropBytes(codec, m, step.k, q, u);
    } else if step.Open? || step.Evict? {
      MoveKeeps(codec, m, step, m', q, u);
    } else {
      EntryKeeps(codec, m, step, m', q, u);
    }
  }

  /** A new space, and a page that leaves memory. */
  lemma MoveKeeps(codec: Codec, m: Machine, step: Step, m': Machine, q: nat, u: nat)
    requires step.Open? || step.Evict?
    requires codec.Lossless() && Next(codec, m, step, m') && HasPage(m, q, u)
    ensures Kept(codec, m, step, m', q, u)
  {
    match step
    case Open(p) =>
      OpenInv(m, p);
      SameBytes(codec, m, m', q, u);
    case Evict(p, v, to, force) => EvictKeeps(codec, m, p, v, to, force, q, u);
  }

  /** The steps on one entry. */
  lemma EntryKeeps(codec: Codec, m: Machine, step: Step, m': Machine, q: nat, u: nat)
    requires step.Protect? || step.BlockWrite? || step.Write?
    requires Next(codec, m, step, m') && HasPage(m, q, u)
    ensures Kept(codec, m, step, m', q, u)
  {
    match step
    case Protect(p, v, perm) => ProtectKeeps(codec, m, p, v, perm, q, u);
    case BlockWrite(p, v) => BlockKeeps(codec, m, p, v, q, u);
    case Write(p, v, offset, byte) => StoreKeeps(codec, m, p, v, offset, byte, q, u);
  }

  // ---------------------------------------------------------------- whole runs

  /** `ms` are the states of a run that takes `steps`, from a state that satisfies the invariant. The
      steps are defined on such states; `RunInv` shows that a run never leaves them. */
  ghost predicate Run(codec: Codec, ms: seq<Machine>, steps: seq<Step>) {
    && |ms| == |steps| + 1 && Inv(ms[0])
    && forall i :: 0 <= i < |steps| ==> StepAt(codec, ms, steps, i)
  }

  ghost predicate StepAt(codec: Codec, ms: seq<Machine>, steps: seq<Step>, i: nat)
    requires i < |steps| && |ms| == |steps| + 1
  {
    Inv(ms[i]) ==> Next(codec, ms[i], steps[i], ms[i + 1])
  }

  lemma InvAt(codec: Codec, ms: seq<Machine>, steps: seq<Step>, i: nat)
    requires codec.Lossless() && Run(codec, ms, steps) && i < |steps| && Inv(ms[i])
    ensures Inv(ms[i + 1])
  {
    assert StepAt(codec, ms, steps, i);
    StepInv(codec, ms[i], steps[i], ms[i + 1]);
  }

  lemma {:induction false} RunInv(codec: Codec, ms: seq<Machine>, steps: seq<Step>, k: nat)
    requires codec.Lossless() && Run(codec, ms, steps) && k < |ms|
    ensures Inv(ms[k])
  {
    if k > 0 {
      RunInv(codec, ms, steps, k - 1);
      InvAt(codec, ms, steps, k - 1);
    }
  }

  /** Page `u` of space `q` holds these bytes. */
  ghost predicate Holding(codec: Codec, m: Machine, q: nat, u: nat, page: Page) {
    HasPage(m, q, u) && Bytes(codec, m, q, u) == page
  }

  lemma HoldingAt(codec: Codec, ms: seq<Machine>, steps: seq<Step>, k: nat, q: nat, u: nat, before: Page, after: Page)
    requires codec.Lossless() && Run(codec, ms, steps) && 0 < k <= |steps|
    requires Holding(codec, ms[k - 1], q, u, before) && steps[k - 1] != Remove(q, u) && Spares(ms[k - 1], steps[k - 1], q, u)
    requires after == Written(steps[k - 1], q, u, before)
    ensures Holding(codec, ms[k], q, u, after)
  {
    assert StepAt(codec, ms, steps, k - 1);
    StepKeeps(codec, ms[k - 1], steps[k - 1], ms[k], q, u);
  }

  /** In every state of every run a writable entry leads to a frame with exactly one handle, held by
      the page the entry maps. */
  lemma RunSoleWriter(codec: Codec, ms: seq<Machine>, steps: seq<Step>, k: nat, p: nat, v: nat)
    requires codec.Lossless() && Run(codec, ms, steps) && k < |ms|
    requires p in ms[k].spaces && v in ms[k].spaces[p].table && ms[k].spaces[p].table[v].perm.w
    ensures var m, f := ms[k], InMemory(ms[k].spaces[p].table[v].ppn);
            f in m.store && m.store[f].refs == 1 && Holders(m, f) == {(p, v)} && Others(m, f) == 0
  {
    RunInv(codec, ms, steps, k);
    WritableIsSole(ms[k], p, v);
  }

  /** In every state of every run a page has an entry exactly when it is in memory, so the fault
      handler never meets an unmapped page in memory nor a mapped one elsewhere. */
  lemma RunMapped(codec: Codec, ms: seq<Machine>, steps: seq<Step>, k: nat, p: nat, v: nat)
    requires codec.Lossless() && Run(codec, ms, steps) && k < |ms|
    requires p in ms[k].spaces && v in ms[k].spaces[p].slots
    ensures v in ms[k].spaces[p].table <==> ms[k].spaces[p].slots[v].frame.InMemory?
    ensures v in ms[k].spaces[p].table ==> ms[k].spaces[p].table[v].ppn == ms[k].spaces[p].slots[v].frame.ppn
  {
    RunInv(codec, ms, steps, k);
    assert SlotOk(ms[k], p, v);
  }

  /** In every state of every run a frame of the page cache is alive and holds its page of the file, as
      every reader of the file finds it. */
  lemma RunCached(codec: Codec, ms: seq<Machine>, steps: seq<Step>, i: nat, k: FileKey)
    requires codec.Lossless() && Run(codec, ms, steps) && i < |ms| && k in ms[i].cache
    ensures var m, f := ms[i], InMemory(ms[i].cache[k]);
            && f in m.others && f in m.store && m.store[f].data == Content(m, k)
            && forall pos: FilePos :: Aligned(pos) && KeyOf(pos) == k ==> FileBytes(m, pos) == m.store[f].data
  {
    RunInv(codec, ms, steps, i);
    CachedIsFile(ms[i], k);
    forall pos: FilePos | Aligned(pos) && KeyOf(pos) == k
      ensures FileBytes(ms[i], pos) == Content(ms[i], k)
    {
      AlignedBytes(ms[i], pos);
    }
  }

  /** The stores of space `q` to its page `u` among the first `k` steps, played on a private copy. */
  function Replay(steps: seq<Step>, k: nat, q: nat, u: nat, page: Page): Page
    requires k <= |steps|
  {
    if k == 0 then page else Written(steps[k - 1], q, u, Replay(steps, k - 1, q, u, page))
  }

  /** Step `i` of a run meets the condition. */
  ghost predicate AloneAt(ms: seq<Machine>, steps: seq<Step>, i: nat)
    requires i < |steps| && |ms| == |steps| + 1
  {
    Alone(ms[i], steps[i])
  }

  ghost predicate SparesAt(ms: seq<Machine>, steps: seq<Step>, q: nat, u: nat, i: nat)
    requires i < |steps| && |ms| == |steps| + 1
  {
    steps[i] != Remove(q, u) && Spares(ms[i], steps[i], q, u)
  }

  /** One page: as long as its space does not remove it and no step reaches it by way of a shared frame
      or its file, it holds what its own stores put there on top of what it held before. */
  lemma {:induction false} PrivatePage(codec: Codec, ms: seq<Machine>, steps: seq<Step>, k: nat, q: nat, u: nat, page: Page)
    requires codec.Lossless() && Run(codec, ms, steps) && k <= |steps| && Holding(codec, ms[0], q, u, page)
    requires forall i: nat :: i < k ==> SparesAt(ms, steps, q, u, i)
    ensures Holding(codec, ms[k], q, u, Replay(steps, k, q, u, page))
  {
    if k > 0 {
      PrivatePage(codec, ms, steps, k - 1, q, u, page);
      assert SparesAt(ms, steps, q, u, k - 1);
      HoldingAt(codec, ms, steps, k, q, u, Replay(steps, k - 1, q, u, page), Replay(steps, k, q, u, page));
    }
  }

  /** Every page behaves as private memory: as long as its space does not remove it, it holds what
      its own stores put there on top of what it held before, whatever faults, evictions, forks,
      protection changes and stores of other spaces happen in between, in every run in which the kernel
      stores to frames with one handle only, files are not written or cut while a page maps them or is
      yet to be read in from them, and file positions move only behind pages that are in a frame. */
  lemma PrivateMemory(codec: Codec, ms: seq<Machine>, steps: seq<Step>, k: nat, q: nat, u: nat, page: Page)
    requires codec.Lossless() && Run(codec, ms, steps) && k <= |steps|
    requires Holding(codec, ms[0], q, u, page) && forall i :: 0 <= i < k ==> steps[i] != Remove(q, u)
    requires forall i: nat :: i < k ==> AloneAt(ms, steps, i)
    ensures Holding(codec, ms[k], q, u, Replay(steps, k, q, u, page))
  {
    forall i: nat | i < k
      ensures SparesAt(ms, steps, q, u, i)
    {
      assert AloneAt(ms, steps, i);
      RunInv(codec, ms, steps, i);
      AloneSpares(ms[i], steps[i], q, u);
    }
    PrivatePage(codec, ms, steps, k, q, u, page);
  }

  lemma RunFromStep(codec: Codec, ms: seq<Machine>, steps: seq<Step>, i: nat)
    requires codec.Lossless() && Run(codec, ms, steps) && i <= |steps|
    ensures Run(codec, ms[i..], steps[i..])
  {
    RunInv(codec, ms, steps, i);
    forall j | 0 <= j < |steps[i..]|
      ensures StepAt(codec, ms[i..], steps[i..], j)
    {
      assert StepAt(codec, ms, steps, i + j);
    }
  }

  /** Private memory from step `i` of a run on. */
  lemma PrivateFrom(codec: Codec, ms: seq<Machine>, steps: seq<Step>, i: nat, k: nat, q: nat, u: nat, page: Page)
    requires codec.Lossless() && Run(codec, ms, steps) && i <= k <= |steps| && Holding(codec, ms[i], q, u, page)
    requires forall j :: i <= j < k ==> steps[j] != Remove(q, u)
    requires forall j: nat :: i <= j < k ==> AloneAt(ms, steps, j)
    ensures Holding(codec, ms[k], q, u, Replay(steps[i..], k - i, q, u, page))
  {
    RunFromStep(codec, ms, steps, i);
    var rest, later := steps[i..], ms[i..];
    forall j: nat | j < k - i
      ensures rest[j] != Remove(q, u) && AloneAt(later, rest, j)
    {
      assert AloneAt(ms, steps, i + j);
    }
    PrivateMemory(codec, later, rest, k - i, q, u, page);
  }

  /** Fork isolation: from the moment a page is shared, parent and child each see the common bytes
      with their own later stores, and never a store of the other, in every run whose later steps meet
      the condition. */
  lemma ForkIsolation(codec: Codec, ms: seq<Machine>, steps: seq<Step>, i: nat, k: nat, parent: nat, child: nat, v: nat)
    requires codec.Lossless() && Run(codec, ms, steps) && i < k <= |steps| && steps[i] == Share(child, v, parent)
    requires forall j :: i < j < k ==> steps[j] != Remove(parent, v) && steps[j] != Remove(child, v)
    requires forall j: nat :: i < j < k ==> AloneAt(ms, steps, j)
    ensures HasPage(ms[i], parent, v)
    ensures var page, from := Bytes(codec, ms[i], parent, v), i + 1;
            && Holding(codec, ms[k], parent, v, Replay(steps[from..], k - from, parent, v, page))
            && Holding(codec, ms[k], child, v, Replay(steps[from..], k - from, child, v, page))
  {
    ShareHolds(codec, ms, steps, i, parent, child, v);
    var page, from := Bytes(codec, ms[i], parent, v), i + 1;
    PrivateFrom(codec, ms, steps, from, k, parent, v, page);
    PrivateFrom(codec, ms, steps, from, k, child, v, page);
  }

  /** Right after the page is shared both hold the common bytes. */
  lemma ShareHolds(codec: Codec, ms: seq<Machine>, steps: seq<Step>, i: nat, parent: nat, child: nat, v: nat)
    requires codec.Lossless() && Run(codec, ms, steps) && i < |steps| && steps[i] == Share(child, v, parent)
    ensures HasPage(ms[i], parent, v)
    ensures Holding(codec, ms[i + 1], parent, v, Bytes(codec, ms[i], parent, v))
    ensures Holding(codec, ms[i + 1], child, v, Bytes(codec, ms[i], parent, v))
  {
    RunInv(codec, ms, steps, i);
    assert StepAt(codec, ms, steps, i);
    ShareCopies(codec, ms[i], child, v, parent);
    ShareKeeps(codec, ms[i], child, v, parent, parent, v);
  }

  lemma RunAppend(codec: Codec, ms: seq<Machine>, steps: seq<Step>, step: Step, m': Machine)
    requires Run(codec, ms, steps) && Next(codec, ms[|steps|], step, m')
    ensures Run(codec, ms + [m'], steps + [step])
  {
    var ms', steps' := ms + [m'], steps + [step];
    forall i | 0 <= i < |steps'|
      ensures StepAt(codec, ms', steps', i)
    {
      assert i < |steps| ==> StepAt(codec, ms, steps, i);
    }
  }

  /** A run of two steps. */
  lemma RunTwo(codec: Codec, m0: Machine, a: Step, m1: Machine, b: Step, m2: Machine)
    requires Inv(m0) && Next(codec, m0, a, m1) && Next(codec, m1, b, m2)
    ensures Run(codec, [m0, m1, m2], [a, b])
  {
    var ms, steps := [m0, m1, m2], [a, b];
    forall i | 0 <= i < |steps|
      ensures StepAt(codec, ms, steps, i)
    {
    }
  }

  /** Without the condition it fails: in any state with a page to share, sharing it and one store by the
      kernel through the parent's entry is a run after which the child holds the parent's store. */
  lemma KernelWriteCrosses(codec: Codec, m: Machine, child: nat, v: nat, parent: nat, offset: nat, byte: bv8)
    returns (ms: seq<Machine>, steps: seq<Step>)
    requires codec.Lossless() && CanShare(m, child, v, parent) && v in m.spaces[parent].table && offset < PAGE_SIZE
    ensures Run(codec, ms, steps) && ms[0] == m && steps == [Share(child, v, parent), KernelWrite(parent, v, offset, byte)]
    ensures Holding(codec, ms[1], child, v, Bytes(codec, m, parent, v))
    ensures Holding(codec, ms[2], child, v, Bytes(codec, m, parent, v)[offset := byte])
  {
    var forked := Shared(m, child, v, parent);
    ShareCopies(codec, m, child, v, parent);
    ForkedStoreSeen(codec, m, child, v, parent, offset, byte);
    var after := KernelStored(forked, parent, v, offset, byte);
    RunTwo(codec, m, Share(child, v, parent), forked, KernelWrite(parent, v, offset, byte), after);
    ms, steps := [m, forked, after], [Share(child, v, parent), KernelWrite(parent, v, offset, byte)];
  }

  /** Such a state: space 0 has one page, in frame 0, and space 1 none. */
  function OnePageMachine(perm: Perm): Machine {
    Machine(map[0 := AddrSpace(map[0 := Slot(perm, InMemory(0), None)], map[0 := Pte(0, perm.NoWrite())]),
                1 := AddrSpace(map[], map[])],
            map[InMemory(0) := Cell(1, ZeroPage())], map[], map[], map[])
  }

  lemma OnePageInv(perm: Perm)
    ensures Inv(OnePageMachine(perm)) && CanShare(OnePageMachine(perm), 1, 0, 0)
  {
    var m := OnePageMachine(perm);
    forall q, u | q in m.spaces && u in m.spaces[q].slots
      ensures SlotOk(m, q, u)
    {
    }
    forall x | x in Holders(m, InMemory(0))
      ensures x == (0, 0)
    {
      HoldersHas(m, x.0, x.1, InMemory(0));
    }
    HoldersHas(m, 0, 0, InMemory(0));
    assert Holders(m, InMemory(0)) == {(0, 0)};
    assert CellOk(m, InMemory(0));
    forall q | q in m.spaces
      ensures TableOk(m, q)
    {
    }
  }

  /** The input: the child's first byte becomes the 1 the kernel stored for the parent. */
  lemma ForkInput(codec: Codec, perm: Perm) returns (ms: seq<Machine>, steps: seq<Step>)
    requires codec.Lossless()
    ensures Run(codec, ms, steps) && ms[0] == OnePageMachine(perm) && steps == [Share(1, 0, 0), KernelWrite(0, 0, 0, 1)]
    ensures Holding(codec, ms[1], 1, 0, ZeroPage()) && Holding(codec, ms[2], 1, 0, ZeroPage()[0 := 1])
    ensures Replay(steps, 2, 1, 0, ZeroPage()) == ZeroPage() != ZeroPage()[0 := 1]
  {
    OnePageInv(perm);
    var m := OnePageMachine(perm);
    ms, steps := KernelWriteCrosses(codec, m, 1, 0, 0, 0, 1);
    assert Bytes(codec, m, 0, 0) == ZeroPage();
    assert ZeroPage()[0] == 0 && ZeroPage()[0 := 1][0] == 1;
    assert Replay(steps, 1, 1, 0, ZeroPage()) == Written(steps[0], 1, 0, Replay(steps, 0, 1, 0, ZeroPage()));
  }

  /** Without stores a page is what it was. */
  lemma {:induction false} ReplayNone(steps: seq<Step>, k: nat, q: nat, u: nat, page: Page)
    requires k <= |steps| && forall i :: 0 <= i < k ==> !steps[i].Write? && !steps[i].KernelWrite?
    ensures Replay(steps, k, q, u, page) == page
  {
    if k > 0 {
      ReplayNone(steps, k - 1, q, u, page);
    }
  }

  /** A file write to a frame only the page cache has, and a fault, is a run after which a page that was
      yet to be read in holds other bytes than before, though its space stored nothing. */
  lemma FileWriteFollows(codec: Codec, m: Machine, k: FileKey, p: nat, v: nat, ppn: nat, size: nat)
    returns (ms: seq<Machine>, steps: seq<Step>)
    requires codec.Lossless() && Inv(m) && k in m.cache && Unread(m, p, v, k) && InMemory(ppn) !in m.store
    requires var s := m.spaces[p].slots[v]; s.perm.r && s.perm.u && s.perm.w && s.file.value.Offset() <= RoundUp(size)
    ensures Run(codec, ms, steps) && |steps| == 2 && ms[0] == m
    ensures steps[0].CacheWrite? && steps[0].k == k && steps[1] == Fault(p, v, ppn, size)
    ensures HasPage(ms[2], p, v) && Bytes(codec, ms[2], p, v) != Bytes(codec, m, p, v)
    ensures Replay(steps, 2, p, v, Bytes(codec, m, p, v)) == Bytes(codec, m, p, v)
  {
    var offset, byte := UnreadFollows(codec, m, k, p, v, ppn, size);
    var written := CacheStored(m, k, offset, byte);
    var after := Faulted(codec, written, p, v, ppn, size);
    RunTwo(codec, m, CacheWrite(k, offset, byte), written, Fault(p, v, ppn, size), after);
    ms, steps := [m, written, after], [CacheWrite(k, offset, byte), Fault(p, v, ppn, size)];
    ReplayNone(steps, 2, p, v, Bytes(codec, m, p, v));
  }

  /** Such a state: page 0 of space 0 is the first page of a file, which is in the cache, in frame 0. */
  function FilePageMachine(file: nat): Machine {
    Machine(map[0 := AddrSpace(map[0 := Slot(Perm(true, true, false, true), Unallocated, Some(FilePos(file, 0, 0)))], map[])],
            map[InMemory(0) := Cell(1, ZeroPage())], map[InMemory(0) := 1], map[FileKey(file, 0) := 0], map[])
  }

  lemma FilePageCell(file: nat)
    ensures CellOk(FilePageMachine(file), InMemory(0))
  {
    var m := FilePageMachine(file);
    forall x | x in Holders(m, InMemory(0))
      ensures false
    {
      HoldersHas(m, x.0, x.1, InMemory(0));
    }
    assert Holders(m, InMemory(0)) == {};
  }

  lemma FilePageInv(file: nat)
    ensures Inv(FilePageMachine(file))
  {
    var m := FilePageMachine(file);
    FilePageCell(file);
    forall q, u | q in m.spaces && u in m.spaces[q].slots
      ensures SlotOk(m, q, u)
    {
    }
    forall k, l | k in m.cache && l in m.cache
      ensures CacheOk(m, k) && CacheApart(m, k, l)
    {
    }
    assert OtherOk(m, InMemory(0)) && TableOk(m, 0);
  }

  /** The input: only the page cache has the frame that is written, and the page changes. */
  lemma FileInput(codec: Codec, file: nat) returns (ms: seq<Machine>, steps: seq<Step>)
    requires codec.Lossless()
    ensures Run(codec, ms, steps) && |steps| == 2 && ms[0] == FilePageMachine(file) && steps[0].CacheWrite? && steps[1].Fault?
    ensures ms[0].store[InMemory(0)].refs == Others(ms[0], InMemory(0))
    ensures HasPage(ms[0], 0, 0) && HasPage(ms[2], 0, 0) && Bytes(codec, ms[2], 0, 0) != Bytes(codec, ms[0], 0, 0)
  {
    FilePageInv(file);
    assert Unread(FilePageMachine(file), 0, 0, FileKey(file, 0));
    ms, steps := FileWriteFollows(codec, FilePageMachine(file), FileKey(file, 0), 0, 0, 1, 4096);
  }
}
