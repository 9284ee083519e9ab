/** Any number of address spaces over one store of frames, zram slots and swap slots. Every kernel
    operation on pages is a sequence of the steps below, so what each step keeps holds in every
    run and every interleaving. */
module PagingMachine {
  import opened Basics
  import opened PagedMemory

  /** A page of a file as the page cache counts them. */
  datatype FileKey = FileKey(file: nat, index: nat)

  /** `others` counts handles held outside address spaces, by page caches and kernel areas; `cache` says
      which frame holds which page of which file; `files` is what is on disk. */
  datatype Machine = Machine(spaces: map<nat, AddrSpace>, store: Store, others: map<Frame, nat>,
                             cache: map<FileKey, nat>, files: map<FileKey, Page>)

  function Others(m: Machine, f: Frame): nat {
    if f in m.others then m.others[f] else 0
  }

  // ---------------------------------------------------------------- files

  /** The page of a file as any reader finds it: the cached frame, else the disk. */
  function Content(m: Machine, k: FileKey): Page {
    if k in m.cache && InMemory(m.cache[k]) in m.store then AsPage(m.store[InMemory(m.cache[k])].data)
    else if k in m.files then m.files[k]
    else ZeroPage()
  }

  function FileByte(m: Machine, file: nat, a: nat): bv8 {
    Content(m, FileKey(file, a / 4096))[a % 4096]
  }

  /** The 4096 bytes of a file from a position on, which need not be the start of a cached page. */
  function FileBytes(m: Machine, pos: FilePos): (r: Page)
    ensures forall i: nat {:trigger r[i]} :: i < 4096 ==> r[i] == FileByte(m, pos.file, pos.Offset() + i)
  {
    seq(4096, i requires 0 <= i < 4096 => FileByte(m, pos.file, pos.Offset() + i))
  }

  function KeyOf(pos: FilePos): FileKey {
    FileKey(pos.file, pos.Offset() / 4096)
  }

  predicate Aligned(pos: FilePos) {
    pos.Offset() % 4096 == 0
  }

  lemma InKey(base: nat, i: nat)
    requires base % 4096 == 0 && i < 4096
    ensures (base + i) / 4096 == base / 4096 && (base + i) % 4096 == i
  {
  }

  lemma AlignedBytes(m: Machine, pos: FilePos)
    requires Aligned(pos)
    ensures FileBytes(m, pos) == Content(m, KeyOf(pos))
  {
    forall i: nat | i < 4096
      ensures FileBytes(m, pos)[i] == Content(m, KeyOf(pos))[i]
    {
      InKey(pos.Offset(), i);
    }
  }

  /** No file changed. */
  ghost predicate SameContent(m: Machine, m': Machine) {
    forall k {:trigger Content(m', k)} :: Content(m', k) == Content(m, k)
  }

  lemma SameFileBytes(m: Machine, m': Machine, pos: FilePos)
    requires SameContent(m, m')
    ensures FileBytes(m', pos) == FileBytes(m, pos)
  {
    forall i: nat | i < 4096
      ensures FileBytes(m', pos)[i] == FileBytes(m, pos)[i]
    {
      assert Content(m', FileKey(pos.file, (pos.Offset() + i) / 4096)) == Content(m, FileKey(pos.file, (pos.Offset() + i) / 4096));
    }
  }

  // ---------------------------------------------------------------- holders

  predicate Holds(m: Machine, p: nat, v: nat, f: Frame) {
    p in m.spaces && v in m.spaces[p].slots && m.spaces[p].slots[v].frame == f
  }

  /** All pages of all spaces that are behind the tracker `f`. */
  ghost function Holders(m: Machine, f: Frame): set<(nat, nat)> {
    set p, v | p in m.spaces && v in m.spaces[p].slots && m.spaces[p].slots[v].frame == f :: (p, v)
  }

  // ---------------------------------------------------------------- invariant

  ghost predicate SlotOk(m: Machine, p: nat, v: nat)
    requires p in m.spaces && v in m.spaces[p].slots
  {
    var s, table := m.spaces[p].slots[v], m.spaces[p].table;
    && (s.frame != Unallocated ==> s.frame in m.store)
    && (v in table <==> s.frame.InMemory?)
    && (v in table ==> table[v].ppn == s.frame.ppn)
    && (v in table && table[v].perm.w ==> s.frame in m.store && m.store[s.frame].refs == 1)
    && (s.file.Some? ==> s.frame.InMemory? || s.frame.Unallocated?)
  }

  ghost predicate CellOk(m: Machine, f: Frame)
    requires f in m.store
  {
    && f != Unallocated
    && m.store[f].refs == |Holders(m, f)| + Others(m, f)
    && m.store[f].refs > 0
    && (!f.Compressed? ==> |m.store[f].data| == PAGE_SIZE)
  }

  ghost predicate TableOk(m: Machine, p: nat)
    requires p in m.spaces
  {
    m.spaces[p].table.Keys <= m.spaces[p].slots.Keys
  }

  ghost predicate OtherOk(m: Machine, f: Frame)
    requires f in m.others
  {
    f.InMemory? && f in m.store && m.others[f] > 0
  }

  /** The page cache has a handle of the frame. */
  ghost predicate CacheOk(m: Machine, k: FileKey)
    requires k in m.cache
  {
    InMemory(m.cache[k]) in m.others
  }

  ghost predicate CacheApart(m: Machine, k: FileKey, l: FileKey)
    requires k in m.cache && l in m.cache
  {
    m.cache[k] == m.cache[l] ==> k == l
  }

  ghost predicate Inv(m: Machine) {
    && (forall p, v {:trigger SlotOk(m, p, v)} :: p in m.spaces && v in m.spaces[p].slots ==> SlotOk(m, p, v))
    && (forall f {:trigger CellOk(m, f)} :: f in m.store ==> CellOk(m, f))
    && (forall p {:trigger TableOk(m, p)} :: p in m.spaces ==> TableOk(m, p))
    && (forall f {:trigger OtherOk(m, f)} :: f in m.others ==> OtherOk(m, f))
    && CachesOk(m)
  }

  ghost predicate CachesOk(m: Machine) {
    && (forall k {:trigger CacheOk(m, k)} :: k in m.cache ==> CacheOk(m, k))
    && (forall k, l {:trigger CacheApart(m, k, l)} :: k in m.cache && l in m.cache ==> CacheApart(m, k, l))
  }

  /** The bytes page `v` of space `p` holds: those of its tracker, else those of its file now. */
  ghost function Bytes(codec: Codec, m: Machine, p: nat, v: nat): Page
    requires Inv(m) && p in m.spaces && v in m.spaces[p].slots
  {
    assert SlotOk(m, p, v);
    var s := m.spaces[p].slots[v];
    if s.frame != Unallocated then FrameBytes(codec, m.store, s.frame)
    else if s.file.Some? then FileBytes(m, s.file.value)
    else ZeroPage()
  }

  /** A frame of the page cache holds the page of the file. */
  lemma CachedIsFile(m: Machine, k: FileKey)
    requires Inv(m) && k in m.cache
    ensures var f := InMemory(m.cache[k]);
            f in m.others && f in m.store && m.store[f].data == Content(m, k)
  {
    assert CacheOk(m, k);
    assert OtherOk(m, InMemory(m.cache[k]));
    assert CellOk(m, InMemory(m.cache[k]));
  }

  /** The caches are as before. */
  lemma SameCaches(m: Machine, m': Machine)
    requires CachesOk(m) && m'.cache == m.cache && m'.others == m.others
    ensures CachesOk(m')
  {
    forall k | k in m'.cache
      ensures CacheOk(m', k)
    {
      assert CacheOk(m, k);
    }
    forall k, l | k in m'.cache && l in m'.cache
      ensures CacheApart(m', k, l)
    {
      assert CacheApart(m, k, l);
    }
  }

  // ---------------------------------------------------------------- one page changes hands

  function FrameAt(space: AddrSpace, v: nat): Frame {
    if v in space.slots then space.slots[v].frame else Unallocated
  }

  function PutSlot(slots: map<nat, Slot>, v: nat, slot: Option<Slot>): map<nat, Slot> {
    match slot
    case Some(s) => slots[v := s]
    case None => slots - {v}
  }

  function NewFrame(slot: Option<Slot>): Frame {
    match slot
    case Some(s) => s.frame
    case None => Unallocated
  }

  /** Page `v` of space `p` becomes `slot` with page-table entry `pte`. */
  function Rebound(m: Machine, p: nat, v: nat, slot: Option<Slot>, pte: Option<Pte>, store: Store): Machine
    requires p in m.spaces
  {
    m.(spaces := m.spaces[p := AddrSpace(PutSlot(m.spaces[p].slots, v, slot), SetPte(m.spaces[p].table, v, pte))],
       store := store)
  }

  lemma HoldersRebound(m: Machine, p: nat, v: nat, slot: Option<Slot>, pte: Option<Pte>, store: Store, f: Frame)
    requires p in m.spaces
    ensures Holders(Rebound(m, p, v, slot, pte, store), f) ==
            Holders(m, f) - {(p, v)} + (if slot.Some? && slot.value.frame == f then {(p, v)} else {})
  {
    var m' := Rebound(m, p, v, slot, pte, store);
    forall q: nat, u: nat
      ensures (q, u) in Holders(m', f) <==>
              (q, u) in Holders(m, f) - {(p, v)} + (if slot.Some? && slot.value.frame == f then {(p, v)} else {})
    {
      assert Holds(m', q, u, f) <==> if (q, u) == (p, v) then slot.Some? && slot.value.frame == f else Holds(m, q, u, f);
    }
  }

  /** The store after one handle of `f` is dropped and one of `g` made: `g` is new with `data`, or
      one more handle of an existing tracker. */
  function Moved(store: Store, f: Frame, g: Frame, data: seq<bv8>): Store {
    var s := Release(store, f);
    if g == Unallocated then s else if g in s then Retain(s, g) else Fresh(s, g, data)
  }

  lemma OneElement<T>(s: set<T>, x: T)
    requires x in s && |s| <= 1
    ensures s == {x}
  {
    assert |s - {x}| == |s| - 1;
    assert s == (s - {x}) + {x};
  }

  /** A tracker with a single handle has a single holder. */
  lemma SoleHolder(m: Machine, p: nat, v: nat, f: Frame)
    requires Inv(m) && Holds(m, p, v, f) && f in m.store && m.store[f].refs == 1
    ensures Holders(m, f) == {(p, v)} && Others(m, f) == 0
    ensures forall q: nat, u: nat :: Holds(m, q, u, f) ==> (q, u) == (p, v)
  {
    assert CellOk(m, f);
    assert (p, v) in Holders(m, f);
    OneElement(Holders(m, f), (p, v));
    forall q: nat, u: nat | Holds(m, q, u, f)
      ensures (q, u) == (p, v)
    {
      assert (q, u) in Holders(m, f);
    }
  }

  /** Every page-table entry for tracker `g` lacks W. */
  ghost predicate NotWritable(m: Machine, g: Frame) {
    forall q: nat, u: nat :: Holds(m, q, u, g) && u in m.spaces[q].table ==> !m.spaces[q].table[u].perm.w
  }

  /** The page may change hands: to no tracker, to a new one, or to an existing one that nobody
      can write through; and the entry it gets fits. */
  ghost predicate CanRebind(m: Machine, p: nat, v: nat, slot: Option<Slot>, pte: Option<Pte>, data: seq<bv8>) {
    var g := NewFrame(slot);
    && Inv(m) && p in m.spaces && (FrameAt(m.spaces[p], v) != g || g == Unallocated)
    && (g in m.store ==> NotWritable(m, g))
    && (g != Unallocated && !g.Compressed? && g !in m.store ==> |data| == PAGE_SIZE)
    && (pte.Some? <==> g.InMemory?)
    && (pte.Some? ==> pte.value.ppn == g.ppn && (pte.value.perm.w ==> g !in m.store))
    && (slot.Some? && slot.value.file.Some? ==> g.InMemory? || g.Unallocated?)
  }

  ghost function After(m: Machine, p: nat, v: nat, slot: Option<Slot>, pte: Option<Pte>, data: seq<bv8>): Machine
    requires p in m.spaces
  {
    Rebound(m, p, v, slot, pte, Moved(m.store, FrameAt(m.spaces[p], v), NewFrame(slot), data))
  }

  lemma SwapCount<T>(s: set<T>, x: T, add: bool)
    ensures |s - {x} + (if add then {x} else {})| == |s| - (if x in s then 1 else 0) + (if add then 1 else 0)
  {
    if x !in s {
      assert s - {x} == s;
    }
  }

  /** Handles and data of each tracker after the move. */
  lemma MovedCell(store: Store, f: Frame, g: Frame, data: seq<bv8>, h: Frame)
    requires Unallocated !in store && h != Unallocated && (f != g || f == Unallocated)
    requires f != Unallocated ==> f in store
    requires h in store ==> store[h].refs > 0
    ensures var store' := Moved(store, f, g, data);
            var refs := (if h in store then store[h].refs else 0) + (if h == g then 1 else 0) - (if h == f then 1 else 0);
            && (h in store' <==> refs > 0)
            && (h in store' ==> store'[h] == Cell(refs, if h in store then store[h].data else data))
  {
  }

  lemma HolderCount(m: Machine, p: nat, v: nat, slot: Option<Slot>, pte: Option<Pte>, store: Store, h: Frame)
    requires p in m.spaces && h != Unallocated
    requires FrameAt(m.spaces[p], v) != NewFrame(slot) || NewFrame(slot) == Unallocated
    ensures |Holders(Rebound(m, p, v, slot, pte, store), h)| ==
            |Holders(m, h)| + (if h == NewFrame(slot) then 1 else 0) - (if h == FrameAt(m.spaces[p], v) then 1 else 0)
  {
    HoldersRebound(m, p, v, slot, pte, store, h);
    SwapCount(Holders(m, h), (p, v), slot.Some? && slot.value.frame == h);
    HoldersHas(m, p, v, h);
  }

  lemma HoldersHas(m: Machine, p: nat, v: nat, h: Frame)
    ensures (p, v) in Holders(m, h) <==> Holds(m, p, v, h)
  {
  }

  lemma ReboundCells(m: Machine, p: nat, v: nat, slot: Option<Slot>, pte: Option<Pte>, data: seq<bv8>, h: Frame)
    requires p in m.spaces && Unallocated !in m.store
    requires FrameAt(m.spaces[p], v) != NewFrame(slot) || NewFrame(slot) == Unallocated
    requires FrameAt(m.spaces[p], v) != Unallocated ==> FrameAt(m.spaces[p], v) in m.store
    requires h in After(m, p, v, slot, pte, data).store && h != Unallocated
    requires if h in m.store then CellOk(m, h)
             else Holders(m, h) == {} && Others(m, h) == 0 && (!h.Compressed? ==> |data| == PAGE_SIZE)
    ensures CellOk(After(m, p, v, slot, pte, data), h)
  {
    MovedCell(m.store, FrameAt(m.spaces[p], v), NewFrame(slot), data, h);
    HolderCount(m, p, v, slot, pte, After(m, p, v, slot, pte, data).store, h);
  }

  lemma StoreShape(m: Machine, p: nat, v: nat)
    requires Inv(m) && p in m.spaces
    ensures Unallocated !in m.store
    ensures FrameAt(m.spaces[p], v) != Unallocated ==> FrameAt(m.spaces[p], v) in m.store
  {
    assert Unallocated in m.store ==> CellOk(m, Unallocated);
    assert v in m.spaces[p].slots ==> SlotOk(m, p, v);
  }

  /** A tracker that does not exist has no holder. */
  lemma NobodyHolds(m: Machine, f: Frame)
    requires Inv(m) && f != Unallocated && f !in m.store
    ensures Holders(m, f) == {} && Others(m, f) == 0
  {
    forall q: nat, u: nat
      ensures (q, u) !in Holders(m, f)
    {
      HoldersHas(m, q, u, f);
      assert q in m.spaces && u in m.spaces[q].slots ==> SlotOk(m, q, u);
    }
    assert f in m.others ==> OtherOk(m, f);
  }

  /** A page other than the one that moves keeps its tracker alive, with the same bytes; and if its
      entry is writable, nobody else gets a handle. */
  lemma OthersKeep(m: Machine, p: nat, v: nat, slot: Option<Slot>, pte: Option<Pte>, data: seq<bv8>, q: nat, u: nat)
    requires CanRebind(m, p, v, slot, pte, data)
    requires q in m.spaces && u in m.spaces[q].slots && (q, u) != (p, v)
    ensures var m', h := After(m, p, v, slot, pte, data), m.spaces[q].slots[u].frame;
            && q in m'.spaces && u in m'.spaces[q].slots && m'.spaces[q].slots[u] == m.spaces[q].slots[u]
            && (u in m'.spaces[q].table <==> u in m.spaces[q].table)
            && (u in m.spaces[q].table ==> m'.spaces[q].table[u] == m.spaces[q].table[u])
            && (h != Unallocated ==> h in m.store && h in m'.store && m'.store[h].data == m.store[h].data)
            && (u in m.spaces[q].table && m.spaces[q].table[u].perm.w ==> h in m'.store && m'.store[h].refs == 1)
  {
    var h := m.spaces[q].slots[u].frame;
    var f, g := FrameAt(m.spaces[p], v), NewFrame(slot);
    StoreShape(m, p, v);
    assert SlotOk(m, q, u);
    if h != Unallocated {
      assert CellOk(m, h);
      MovedCell(m.store, f, g, data, h);
      assert Holds(m, q, u, h);
      if h == f && m.store[h].refs == 1 {
        SoleHolder(m, q, u, h);
        assert Holds(m, p, v, h);
      }
    }
  }

  lemma ReboundSlots(m: Machine, p: nat, v: nat, slot: Option<Slot>, pte: Option<Pte>, data: seq<bv8>, q: nat, u: nat)
    requires CanRebind(m, p, v, slot, pte, data)
    requires q in m.spaces && u in After(m, p, v, slot, pte, data).spaces[q].slots
    ensures SlotOk(After(m, p, v, slot, pte, data), q, u)
  {
    if (q, u) == (p, v) {
      var g := NewFrame(slot);
      StoreShape(m, p, v);
      if g != Unallocated {
        assert g in m.store ==> CellOk(m, g);
        MovedCell(m.store, FrameAt(m.spaces[p], v), g, data, g);
      }
    } else {
      assert SlotOk(m, q, u);
      OthersKeep(m, p, v, slot, pte, data, q, u);
    }
  }

  /** A page changing hands keeps the invariant. */
  lemma ReboundInv(m: Machine, p: nat, v: nat, slot: Option<Slot>, pte: Option<Pte>, data: seq<bv8>)
    requires CanRebind(m, p, v, slot, pte, data)
    ensures Inv(After(m, p, v, slot, pte, data))
  {
    var m' := After(m, p, v, slot, pte, data);
    forall q, u | q in m'.spaces && u in m'.spaces[q].slots
      ensures SlotOk(m', q, u)
    {
      ReboundSlots(m, p, v, slot, pte, data, q, u);
    }
    StoreShape(m, p, v);
    forall h | h in m'.store
      ensures CellOk(m', h)
    {
      if h in m.store {
        assert CellOk(m, h);
      } else {
        NobodyHolds(m, h);
      }
      ReboundCells(m, p, v, slot, pte, data, h);
    }
    forall q | q in m'.spaces
      ensures TableOk(m', q)
    {
      assert TableOk(m, q);
    }
    forall h | h in m'.others
      ensures OtherOk(m', h)
    {
      assert OtherOk(m, h) && CellOk(m, h);
      MovedCell(m.store, FrameAt(m.spaces[p], v), NewFrame(slot), data, h);
      if h == FrameAt(m.spaces[p], v) {
        assert (p, v) in Holders(m, h);
      }
    }
    SameCaches(m, m');
  }

  /** ... and no file, since the page caches keep their frames, ... */
  lemma ReboundContent(m: Machine, p: nat, v: nat, slot: Option<Slot>, pte: Option<Pte>, data: seq<bv8>)
    requires CanRebind(m, p, v, slot, pte, data) && Inv(After(m, p, v, slot, pte, data))
    ensures SameContent(m, After(m, p, v, slot, pte, data))
  {
    var m' := After(m, p, v, slot, pte, data);
    StoreShape(m, p, v);
    forall k
      ensures Content(m', k) == Content(m, k)
    {
      if k in m.cache {
        var h := InMemory(m.cache[k]);
        CachedIsFile(m, k);
        CachedIsFile(m', k);
        assert CellOk(m, h);
        MovedCell(m.store, FrameAt(m.spaces[p], v), NewFrame(slot), data, h);
      }
    }
  }

  /** ... and changes the bytes of no other page. */
  lemma ReboundBytes(codec: Codec, m: Machine, p: nat, v: nat, slot: Option<Slot>, pte: Option<Pte>, data: seq<bv8>, q: nat, u: nat)
    requires CanRebind(m, p, v, slot, pte, data) && Inv(After(m, p, v, slot, pte, data))
    requires q in m.spaces && u in m.spaces[q].slots && (q, u) != (p, v)
    ensures var m' := After(m, p, v, slot, pte, data);
            q in m'.spaces && u in m'.spaces[q].slots && Bytes(codec, m', q, u) == Bytes(codec, m, q, u)
  {
    OthersKeep(m, p, v, slot, pte, data, q, u);
    ReboundContent(m, p, v, slot, pte, data);
    var s := m.spaces[q].slots[u];
    if s.file.Some? {
      SameFileBytes(m, After(m, p, v, slot, pte, data), s.file.value);
    }
  }

  // ---------------------------------------------------------------- permissions change

  /** Only permissions of page `v` change; its entry keeps its frame and gains W only if it had W
      or the frame has one handle. */
  ghost predicate CanRepermit(m: Machine, p: nat, v: nat, perm: Perm, entry: Perm) {
    && Inv(m) && p in m.spaces && v in m.spaces[p].slots
    && (v in m.spaces[p].table && entry.w ==>
          m.spaces[p].table[v].perm.w || (m.spaces[p].slots[v].frame in m.store && m.store[m.spaces[p].slots[v].frame].refs == 1))
  }

  function Repermitted(m: Machine, p: nat, v: nat, perm: Perm, entry: Perm): Machine
    requires p in m.spaces && v in m.spaces[p].slots
  {
    var space := m.spaces[p];
    m.(spaces := m.spaces[p := AddrSpace(
      space.slots[v := space.slots[v].(perm := perm)],
      if v in space.table then space.table[v := space.table[v].(perm := entry)] else space.table)])
  }

  lemma SameHolders(m: Machine, m': Machine, f: Frame)
    requires forall q: nat, u: nat :: Holds(m', q, u, f) <==> Holds(m, q, u, f)
    ensures Holders(m', f) == Holders(m, f)
  {
    forall q: nat, u: nat
      ensures (q, u) in Holders(m', f) <==> (q, u) in Holders(m, f)
    {
      assert Holds(m', q, u, f) <==> Holds(m, q, u, f);
    }
  }

  ghost predicate SameSpace(m: Machine, m': Machine, q: nat) {
    && q in m.spaces && q in m'.spaces
    && m'.spaces[q].slots.Keys == m.spaces[q].slots.Keys
    && m'.spaces[q].table.Keys == m.spaces[q].table.Keys
  }

  ghost predicate SamePage(m: Machine, m': Machine, q: nat, u: nat)
    requires SameSpace(m, m', q) && u in m.spaces[q].slots
  {
    var s, s' := m.spaces[q].slots[u], m'.spaces[q].slots[u];
    && s'.frame == s.frame && (s'.file.Some? ==> s.file.Some?)
    && (u in m.spaces[q].table ==>
          && m'.spaces[q].table[u].ppn == m.spaces[q].table[u].ppn
          && (m'.spaces[q].table[u].perm.w ==>
                m.spaces[q].table[u].perm.w || (s.frame in m.store && m.store[s.frame].refs == 1)))
  }

  lemma SamePageOk(m: Machine, m': Machine, q: nat, u: nat)
    requires SameSpace(m, m', q) && u in m.spaces[q].slots && m'.store == m.store
    requires SlotOk(m, q, u) && SamePage(m, m', q, u)
    ensures SlotOk(m', q, u)
  {
  }

  /** A change that leaves every page with its tracker, and gives W only to sole holders. */
  lemma SameFramesInv(m: Machine, m': Machine)
    requires Inv(m) && m'.store == m.store && m'.others == m.others && m'.cache == m.cache && m'.spaces.Keys == m.spaces.Keys
    requires forall q :: q in m.spaces ==> SameSpace(m, m', q)
    requires forall q, u :: q in m.spaces && u in m.spaces[q].slots ==> SameSpace(m, m', q) && SamePage(m, m', q, u)
    ensures Inv(m')
  {
    forall q, u | q in m'.spaces && u in m'.spaces[q].slots
      ensures SlotOk(m', q, u)
    {
      assert SameSpace(m, m', q);
      assert SamePage(m, m', q, u);
      SamePageOk(m, m', q, u);
    }
    forall f | f in m'.store
      ensures CellOk(m', f)
    {
      assert CellOk(m, f);
      SameHeld(m, m', f);
      SameHolders(m, m', f);
    }
    forall q | q in m'.spaces
      ensures TableOk(m', q)
    {
      assert TableOk(m, q) && SameSpace(m, m', q);
    }
    forall f | f in m'.others
      ensures OtherOk(m', f)
    {
      assert OtherOk(m, f);
    }
    SameCaches(m, m');
  }

  lemma SameHeld(m: Machine, m': Machine, f: Frame)
    requires m'.spaces.Keys == m.spaces.Keys
    requires forall q :: q in m.spaces ==> SameSpace(m, m', q)
    requires forall q, u :: q in m.spaces && u in m.spaces[q].slots ==> SameSpace(m, m', q) && SamePage(m, m', q, u)
    ensures forall q: nat, u: nat :: Holds(m', q, u, f) <==> Holds(m, q, u, f)
  {
    forall q: nat, u: nat
      ensures Holds(m', q, u, f) <==> Holds(m, q, u, f)
    {
      if q in m.spaces {
        assert SameSpace(m, m', q);
        assert u in m.spaces[q].slots ==> SamePage(m, m', q, u);
      }
    }
  }

  lemma RepermitShape(m: Machine, p: nat, v: nat, perm: Perm, entry: Perm, q: nat)
    requires p in m.spaces && v in m.spaces[p].slots && q in m.spaces
    ensures SameSpace(m, Repermitted(m, p, v, perm, entry), q)
  {
    var space := m.spaces[p];
    assert space.slots[v := space.slots[v].(perm := perm)].Keys == space.slots.Keys;
    assert v in space.table ==> space.table[v := space.table[v].(perm := entry)].Keys == space.table.Keys;
  }

  lemma RepermitPage(m: Machine, p: nat, v: nat, perm: Perm, entry: Perm, q: nat, u: nat)
    requires p in m.spaces && v in m.spaces[p].slots && q in m.spaces && u in m.spaces[q].slots
    requires SameSpace(m, Repermitted(m, p, v, perm, entry), q)
    requires v in m.spaces[p].table && entry.w ==>
               m.spaces[p].table[v].perm.w || (m.spaces[p].slots[v].frame in m.store && m.store[m.spaces[p].slots[v].frame].refs == 1)
    ensures SamePage(m, Repermitted(m, p, v, perm, entry), q, u)
  {
  }

  lemma RepermitInv(m: Machine, p: nat, v: nat, perm: Perm, entry: Perm)
    requires CanRepermit(m, p, v, perm, entry)
    ensures Inv(Repermitted(m, p, v, perm, entry))
  {
    var m' := Repermitted(m, p, v, perm, entry);
    forall q | q in m.spaces
      ensures SameSpace(m, m', q)
    {
      RepermitShape(m, p, v, perm, entry, q);
    }
    forall q, u | q in m.spaces && u in m.spaces[q].slots
      ensures SameSpace(m, m', q) && SamePage(m, m', q, u)
    {
      RepermitShape(m, p, v, perm, entry, q);
      RepermitPage(m, p, v, perm, entry, q, u);
    }
    SameFramesInv(m, m');
  }

  // ---------------------------------------------------------------- single-page operations

  function ViewOf(m: Machine, p: nat): View
    requires p in m.spaces
  {
    View(m.spaces[p], m.store)
  }

  function WithView(m: Machine, p: nat, v: View): Machine {
    m.(spaces := m.spaces[p := v.space], store := v.store)
  }

  ghost predicate HasPage(m: Machine, p: nat, v: nat) {
    Inv(m) && p in m.spaces && v in m.spaces[p].slots
  }

  /** What `do_page_fault` relies on. */
  lemma FaultReady(m: Machine, p: nat)
    requires Inv(m) && p in m.spaces
    ensures SpaceOk(m.spaces[p])
    ensures forall u :: u in m.spaces[p].slots && m.spaces[p].slots[u].frame != Unallocated ==>
              m.spaces[p].slots[u].frame in m.store
  {
    assert TableOk(m, p);
    forall u | u in m.spaces[p].slots
      ensures SlotOk(m, p, u)
    {
    }
  }

  /** A fault that maps the frame of the page cache: a file page not in memory that is not writable. */
  ghost predicate MapsCached(m: Machine, p: nat, v: nat, size: nat) {
    && p in m.spaces && v in m.spaces[p].slots && v !in m.spaces[p].table
    && var s := m.spaces[p].slots[v];
       s.perm.r && s.perm.u && !s.perm.w && s.file.Some? && s.file.value.Offset() <= RoundUp(size)
  }

  /** The allocator hands out a frame not in use. The file has `size` bytes; if its page is to be mapped
      from the page cache, it starts at a page boundary and is in the cache. */
  ghost predicate CanFault(m: Machine, p: nat, v: nat, ppn: nat, size: nat) {
    && Inv(m) && p in m.spaces && InMemory(ppn) !in m.store
    && (MapsCached(m, p, v, size) ==>
          Aligned(m.spaces[p].slots[v].file.value) && KeyOf(m.spaces[p].slots[v].file.value) in m.cache)
  }

  /** What the fault handler finds in the machine: files as they are now. */
  ghost function EnvNow(codec: Codec, m: Machine, size: nat): Env {
    Env(codec, pos => FileBytes(m, pos), _ => size)
  }

  /** The frame in which the page cache holds the page of the file. */
  ghost function CachedFrame(m: Machine, p: nat, v: nat): nat {
    if p in m.spaces && v in m.spaces[p].slots && m.spaces[p].slots[v].file.Some? && KeyOf(m.spaces[p].slots[v].file.value) in m.cache
    then m.cache[KeyOf(m.spaces[p].slots[v].file.value)] else 0
  }

  ghost function Faulted(codec: Codec, m: Machine, p: nat, v: nat, ppn: nat, size: nat): Machine
    requires CanFault(m, p, v, ppn, size)
  {
    FaultReady(m, p);
    match DoPageFault(EnvNow(codec, m, size), ViewOf(m, p), v, ppn, CachedFrame(m, p, v))
    case Fixed(view') => WithView(m, p, view')
    case Failed(_) => m
  }

  /** An anonymous page in memory can go to a zram or swap slot not in use; unless forced, only if
      its frame has no other handle. */
  ghost predicate CanEvict(m: Machine, p: nat, v: nat, to: Frame, force: bool) {
    && HasPage(m, p, v)
    && var s := m.spaces[p].slots[v];
    && s.frame.InMemory? && s.file.None? && s.frame in m.store
    && (force || m.store[s.frame].refs == 1)
    && to !in m.store && (to.SwappedOut? || (to.Compressed? && !force))
  }

  ghost function Evicted(codec: Codec, m: Machine, p: nat, v: nat, to: Frame, force: bool): Machine
    requires CanEvict(m, p, v, to, force)
  {
    var page := AsPage(m.store[m.spaces[p].slots[v].frame].data);
    WithView(m, p, PushOut(ViewOf(m, p), v, to, if to.Compressed? then codec.compress(page) else page))
  }

  ghost function Protected(m: Machine, p: nat, v: nat, perm: Perm): Machine
    requires HasPage(m, p, v)
  {
    WithView(m, p, ViewOf(m, p).(space := ProtectPage(m.spaces[p], v, perm)))
  }

  ghost function Blocked(m: Machine, p: nat, v: nat): Machine
    requires Inv(m) && p in m.spaces
  {
    WithView(m, p, ViewOf(m, p).(space := WriteProtect(m.spaces[p], v)))
  }

  /** A page of space `from`, write-protected there, can be shared with space `p`. */
  ghost predicate CanShare(m: Machine, p: nat, v: nat, from: nat) {
    && HasPage(m, from, v) && p in m.spaces && from != p && v !in m.spaces[p].slots
    && (v in m.spaces[from].table ==> !m.spaces[from].table[v].perm.w)
  }

  ghost function Shared(m: Machine, p: nat, v: nat, from: nat): Machine
    requires CanShare(m, p, v, from)
  {
    WithView(m, p, SharePage(m.spaces[from], ViewOf(m, p), v))
  }

  ghost function Removed(m: Machine, p: nat, v: nat): Machine
    requires HasPage(m, p, v)
  {
    WithView(m, p, RemovePage(ViewOf(m, p), v))
  }

  ghost predicate CanEnter(m: Machine, p: nat, v: nat) {
    Inv(m) && p in m.spaces && v !in m.spaces[p].slots
  }

  ghost function Reserved(m: Machine, p: nat, v: nat, perm: Perm, file: Option<FilePos>): Machine
    requires CanEnter(m, p, v)
  {
    WithView(m, p, ViewOf(m, p).(space := m.spaces[p].(slots := m.spaces[p].slots[v := Slot(perm, Unallocated, file)])))
  }

  ghost function Populated(m: Machine, p: nat, v: nat, perm: Perm, file: Option<FilePos>, ppn: nat, page: Page): Machine
    requires CanEnter(m, p, v) && InMemory(ppn) !in m.store
  {
    WithView(m, p, View(AddrSpace(m.spaces[p].slots[v := Slot(perm, InMemory(ppn), file)],
                                  m.spaces[p].table[v := Pte(ppn, perm)]),
                        Fresh(m.store, InMemory(ppn), page)))
  }

  /** The file position behind a page changes; nothing else does. */
  ghost predicate CanRefile(m: Machine, p: nat, v: nat) {
    HasPage(m, p, v) && m.spaces[p].slots[v].file.Some?
  }

  ghost function Refiled(m: Machine, p: nat, v: nat, pos: FilePos): Machine
    requires CanRefile(m, p, v)
  {
    var space := m.spaces[p];
    WithView(m, p, ViewOf(m, p).(space := space.(slots := space.slots[v := space.slots[v].(file := Some(pos))])))
  }

  /** A user store needs a writable entry. */
  ghost predicate CanStore(m: Machine, p: nat, v: nat, offset: nat) {
    && Inv(m) && p in m.spaces && v in m.spaces[p].table && m.spaces[p].table[v].perm.w && offset < PAGE_SIZE
  }

  ghost function Stored(m: Machine, p: nat, v: nat, offset: nat, byte: bv8): Machine
    requires CanStore(m, p, v, offset)
  {
    WritableIsSole(m, p, v);
    var f := m.spaces[p].slots[v].frame;
    SetData(m, f, m.store[f].data[offset := byte])
  }

  /** The kernel stores to the frame behind any present entry: its translation does not look at W. */
  ghost predicate CanKernelStore(m: Machine, p: nat, v: nat, offset: nat) {
    Inv(m) && p in m.spaces && v in m.spaces[p].table && offset < PAGE_SIZE
  }

  ghost function KernelStored(m: Machine, p: nat, v: nat, offset: nat, byte: bv8): Machine
    requires CanKernelStore(m, p, v, offset)
  {
    MappedFrame(m, p, v);
    var f := m.spaces[p].slots[v].frame;
    SetData(m, f, m.store[f].data[offset := byte])
  }

  /** A present entry leads to a frame of the store. */
  lemma MappedFrame(m: Machine, p: nat, v: nat)
    requires Inv(m) && p in m.spaces && v in m.spaces[p].table
    ensures HasPage(m, p, v)
    ensures var f := m.spaces[p].slots[v].frame;
            f == InMemory(m.spaces[p].table[v].ppn) && f in m.store && |m.store[f].data| == PAGE_SIZE && m.store[f].refs > 0
  {
    assert TableOk(m, p) && SlotOk(m, p, v);
    assert CellOk(m, m.spaces[p].slots[v].frame);
  }

  // ---------------------------------------------------------------- each step is one of these changes

  lemma BringInIs(m: Machine, p: nat, v: nat, ppn: nat, page: Page)
    requires Inv(m) && p in m.spaces && v in m.spaces[p].slots && InMemory(ppn) !in m.store
    ensures var s := m.spaces[p].slots[v];
            var slot, pte := Some(s.(frame := InMemory(ppn))), Some(Pte(ppn, s.perm));
            && CanRebind(m, p, v, slot, pte, page)
            && WithView(m, p, BringIn(ViewOf(m, p), v, ppn, page)) == After(m, p, v, slot, pte, page)
  {
    assert SlotOk(m, p, v);
  }

  lemma PushOutIs(m: Machine, p: nat, v: nat, to: Frame, data: seq<bv8>)
    requires Inv(m) && p in m.spaces && v in m.spaces[p].slots
    requires m.spaces[p].slots[v].file.None? && to !in m.store
    requires to.Compressed? || (to.SwappedOut? && |data| == PAGE_SIZE)
    ensures var s := m.spaces[p].slots[v];
            && CanRebind(m, p, v, Some(s.(frame := to)), None, data)
            && WithView(m, p, PushOut(ViewOf(m, p), v, to, data)) == After(m, p, v, Some(s.(frame := to)), None, data)
  {
    assert SlotOk(m, p, v);
  }

  /** A frame the page cache holds is not writable through any address space. */
  lemma CachedNotWritable(m: Machine, f: Frame)
    requires Inv(m) && f in m.others
    ensures f in m.store && NotWritable(m, f)
  {
    assert OtherOk(m, f);
    forall q: nat, u: nat | Holds(m, q, u, f) && u in m.spaces[q].table
      ensures !m.spaces[q].table[u].perm.w
    {
      assert SlotOk(m, q, u);
      if m.store[f].refs == 1 {
        SoleHolder(m, q, u, f);
      }
    }
  }

  lemma MapCachedIs(m: Machine, p: nat, v: nat, ppn: nat)
    requires Inv(m) && p in m.spaces && v in m.spaces[p].slots && InMemory(ppn) in m.others
    requires m.spaces[p].slots[v].frame == Unallocated && !m.spaces[p].slots[v].perm.w
    ensures var s := m.spaces[p].slots[v];
            var slot, pte := Some(s.(frame := InMemory(ppn))), Some(Pte(ppn, s.perm));
            && CanRebind(m, p, v, slot, pte, [])
            && WithView(m, p, MapCached(ViewOf(m, p), v, ppn)) == After(m, p, v, slot, pte, [])
  {
    CachedNotWritable(m, InMemory(ppn));
    StoreShape(m, p, v);
  }

  lemma ShareIs(m: Machine, p: nat, v: nat, from: nat)
    requires CanShare(m, p, v, from)
    ensures var s := m.spaces[from].slots[v];
            var pte := if v in m.spaces[from].table then Some(Pte(m.spaces[from].table[v].ppn, s.perm.NoWrite())) else None;
            && CanRebind(m, p, v, Some(s), pte, [])
            && WithView(m, p, SharePage(m.spaces[from], ViewOf(m, p), v)) == After(m, p, v, Some(s), pte, [])
  {
    var g := m.spaces[from].slots[v].frame;
    assert SlotOk(m, from, v);
    StoreShape(m, p, v);
    forall q: nat, u: nat | g in m.store && Holds(m, q, u, g) && u in m.spaces[q].table
      ensures !m.spaces[q].table[u].perm.w
    {
      assert SlotOk(m, q, u);
      assert Holds(m, from, v, g);
      if m.store[g].refs == 1 {
        SoleHolder(m, q, u, g);
      }
    }
  }

  /** The bytes of the page that moved: those of its new tracker. */
  lemma ReboundOwnBytes(codec: Codec, m: Machine, p: nat, v: nat, s: Slot, pte: Option<Pte>, data: seq<bv8>)
    requires CanRebind(m, p, v, Some(s), pte, data) && Inv(After(m, p, v, Some(s), pte, data)) && s.frame != Unallocated
    ensures var m' := After(m, p, v, Some(s), pte, data);
            var bytes := if s.frame in m.store then m.store[s.frame].data else data;
            Bytes(codec, m', p, v) == if s.frame.Compressed? then codec.decompress(bytes) else AsPage(bytes)
  {
    StoreShape(m, p, v);
    assert s.frame in m.store ==> CellOk(m, s.frame);
    MovedCell(m.store, FrameAt(m.spaces[p], v), s.frame, data, s.frame);
  }

  // ---------------------------------------------------------------- what each operation keeps

  /** Page `u` of space `q` is still there with the given bytes, and only space `p` was touched. */
  ghost predicate Keeps(codec: Codec, m: Machine, p: nat, m': Machine, q: nat, u: nat, page: Page)
    requires HasPage(m, q, u)
  {
    && HasPage(m', q, u) && Bytes(codec, m', q, u) == page
    && (q != p ==> m'.spaces[q] == m.spaces[q])
  }

  lemma BringInKeeps(codec: Codec, m: Machine, p: nat, v: nat, ppn: nat, page: Page, q: nat, u: nat)
    requires HasPage(m, p, v) && InMemory(ppn) !in m.store && page == Bytes(codec, m, p, v) && HasPage(m, q, u)
    ensures Keeps(codec, m, p, WithView(m, p, BringIn(ViewOf(m, p), v, ppn, page)), q, u, Bytes(codec, m, q, u))
  {
    var s := m.spaces[p].slots[v];
    var s', pte := s.(frame := InMemory(ppn)), Some(Pte(ppn, s.perm));
    BringInIs(m, p, v, ppn, page);
    ReboundInv(m, p, v, Some(s'), pte, page);
    if (q, u) == (p, v) {
      ReboundOwnBytes(codec, m, p, v, s', pte, page);
    } else {
      ReboundBytes(codec, m, p, v, Some(s'), pte, page, q, u);
    }
  }

  lemma MapCachedKeeps(codec: Codec, m: Machine, p: nat, v: nat, ppn: nat, q: nat, u: nat)
    requires HasPage(m, p, v) && HasPage(m, q, u)
    requires InMemory(ppn) in m.others && InMemory(ppn) in m.store && m.store[InMemory(ppn)].data == Bytes(codec, m, p, v)
    requires m.spaces[p].slots[v].frame == Unallocated && !m.spaces[p].slots[v].perm.w
    ensures Keeps(codec, m, p, WithView(m, p, MapCached(ViewOf(m, p), v, ppn)), q, u, Bytes(codec, m, q, u))
  {
    var s := m.spaces[p].slots[v];
    var s', pte := s.(frame := InMemory(ppn)), Some(Pte(ppn, s.perm));
    MapCachedIs(m, p, v, ppn);
    ReboundInv(m, p, v, Some(s'), pte, []);
    if (q, u) == (p, v) {
      ReboundOwnBytes(codec, m, p, v, s', pte, []);
    } else {
      ReboundBytes(codec, m, p, v, Some(s'), pte, [], q, u);
    }
  }

  /** The bytes of a page depend only on its tracker and file, the tracker's data and the files. */
  lemma SameBytes(codec: Codec, m: Machine, m': Machine, q: nat, u: nat)
    requires HasPage(m, q, u) && HasPage(m', q, u)
    requires m'.spaces[q].slots[u].frame == m.spaces[q].slots[u].frame
    requires m'.spaces[q].slots[u].file == m.spaces[q].slots[u].file
    requires var f := m.spaces[q].slots[u].frame; f in m.store && f in m'.store ==> m'.store[f].data == m.store[f].data
    requires SameContent(m, m')
    ensures Bytes(codec, m', q, u) == Bytes(codec, m, q, u)
  {
    assert SlotOk(m, q, u) && SlotOk(m', q, u);
    if m.spaces[q].slots[u].file.Some? {
      SameFileBytes(m, m', m.spaces[q].slots[u].file.value);
    }
  }

  lemma RepermitKeeps(codec: Codec, m: Machine, p: nat, v: nat, perm: Perm, entry: Perm, q: nat, u: nat)
    requires CanRepermit(m, p, v, perm, entry) && HasPage(m, q, u)
    ensures Keeps(codec, m, p, Repermitted(m, p, v, perm, entry), q, u, Bytes(codec, m, q, u))
  {
    RepermitInv(m, p, v, perm, entry);
    SameBytes(codec, m, Repermitted(m, p, v, perm, entry), q, u);
  }

  lemma UnprotectIs(m: Machine, p: nat, v: nat)
    requires HasPage(m, p, v) && v in m.spaces[p].table
    requires m.spaces[p].slots[v].frame in m.store && m.store[m.spaces[p].slots[v].frame].refs == 1
    ensures var s := m.spaces[p].slots[v];
            && CanRepermit(m, p, v, s.perm, s.perm)
            && WithView(m, p, Unprotect(ViewOf(m, p), v)) == Repermitted(m, p, v, s.perm, s.perm)
  {
    var s := m.spaces[p].slots[v];
    assert m.spaces[p].slots[v := s.(perm := s.perm)] == m.spaces[p].slots;
  }

  /** The page a fault maps from the page cache stands for the frame it gets. */
  lemma MapsWhatItWas(codec: Codec, m: Machine, p: nat, v: nat, ppn: nat, size: nat)
    requires CanFault(m, p, v, ppn, size) && MapsCached(m, p, v, size)
    ensures var f := InMemory(CachedFrame(m, p, v));
            && m.spaces[p].slots[v].frame == Unallocated
            && f in m.others && f in m.store && m.store[f].data == Bytes(codec, m, p, v)
  {
    var pos := m.spaces[p].slots[v].file.value;
    assert SlotOk(m, p, v);
    CachedIsFile(m, KeyOf(pos));
    AlignedBytes(m, pos);
  }

  /** A page fault changes the bytes of no page, its own included. */
  lemma FaultKeeps(codec: Codec, m: Machine, p: nat, v: nat, ppn: nat, size: nat, q: nat, u: nat)
    requires CanFault(m, p, v, ppn, size) && HasPage(m, q, u)
    ensures Keeps(codec, m, p, Faulted(codec, m, p, v, ppn, size), q, u, Bytes(codec, m, q, u))
  {
    var view, env, cached := ViewOf(m, p), EnvNow(codec, m, size), CachedFrame(m, p, v);
    FaultReady(m, p);
    if DoPageFault(env, view, v, ppn, cached).Fixed? {
      FaultShape(env, view, v, ppn, cached);
      var s := m.spaces[p].slots[v];
      if v in m.spaces[p].table && m.store[s.frame].refs == 1 {
        UnprotectIs(m, p, v);
        RepermitKeeps(codec, m, p, v, s.perm, s.perm, q, u);
      } else if v in m.spaces[p].table || s.file.None? || s.perm.w {
        assert SlotBytes(env, m.store, s) == Bytes(codec, m, p, v);
        BringInKeeps(codec, m, p, v, ppn, Bytes(codec, m, p, v), q, u);
      } else {
        assert MapsCached(m, p, v, size);
        MapsWhatItWas(codec, m, p, v, ppn, size);
        MapCachedKeeps(codec, m, p, v, cached, q, u);
      }
    }
  }

  /** Every fault keeps the invariant. */
  lemma FaultInv(codec: Codec, m: Machine, p: nat, v: nat, ppn: nat, size: nat)
    requires CanFault(m, p, v, ppn, size)
    ensures Inv(Faulted(codec, m, p, v, ppn, size))
  {
    FaultReady(m, p);
    if v in m.spaces[p].slots {
      FaultKeeps(codec, m, p, v, ppn, size, p, v);
    }
  }

  lemma EvictIs(codec: Codec, m: Machine, p: nat, v: nat, to: Frame, force: bool) returns (s: Slot, data: seq<bv8>)
    requires codec.Lossless() && CanEvict(m, p, v, to, force)
    ensures s == m.spaces[p].slots[v].(frame := to) && CanRebind(m, p, v, Some(s), None, data)
    ensures Evicted(codec, m, p, v, to, force) == After(m, p, v, Some(s), None, data)
    ensures Bytes(codec, m, p, v) == if to.Compressed? then codec.decompress(data) else AsPage(data)
  {
    var page := AsPage(m.store[m.spaces[p].slots[v].frame].data);
    s, data := m.spaces[p].slots[v].(frame := to), if to.Compressed? then codec.compress(page) else page;
    PushOutIs(m, p, v, to, data);
  }

  /** Compressing or swapping out a page, forced or not, changes the bytes of no page. */
  lemma EvictKeeps(codec: Codec, m: Machine, p: nat, v: nat, to: Frame, force: bool, q: nat, u: nat)
    requires codec.Lossless() && CanEvict(m, p, v, to, force) && HasPage(m, q, u)
    ensures Keeps(codec, m, p, Evicted(codec, m, p, v, to, force), q, u, Bytes(codec, m, q, u))
  {
    var s, data := EvictIs(codec, m, p, v, to, force);
    ReboundInv(m, p, v, Some(s), None, data);
    if (q, u) == (p, v) {
      ReboundOwnBytes(codec, m, p, v, s, None, data);
    } else {
      ReboundBytes(codec, m, p, v, Some(s), None, data, q, u);
    }
  }

  lemma ProtectKeeps(codec: Codec, m: Machine, p: nat, v: nat, perm: Perm, q: nat, u: nat)
    requires HasPage(m, p, v) && HasPage(m, q, u)
    ensures Keeps(codec, m, p, Protected(m, p, v, perm), q, u, Bytes(codec, m, q, u))
    ensures var m' := Protected(m, p, v, perm);
            u in m'.spaces[q].table && m'.spaces[q].table[u].perm.w ==> u in m.spaces[q].table && m.spaces[q].table[u].perm.w
  {
    assert Protected(m, p, v, perm) == Repermitted(m, p, v, perm, perm.NoWrite());
    RepermitKeeps(codec, m, p, v, perm, perm.NoWrite(), q, u);
  }

  lemma BlockIs(m: Machine, p: nat, v: nat)
    requires Inv(m) && p in m.spaces
    ensures v !in m.spaces[p].table ==> Blocked(m, p, v) == m
    ensures v in m.spaces[p].table ==>
              && HasPage(m, p, v)
              && var s, entry := m.spaces[p].slots[v], m.spaces[p].table[v].perm.NoWrite();
                 CanRepermit(m, p, v, s.perm, entry) && Blocked(m, p, v) == Repermitted(m, p, v, s.perm, entry)
  {
    assert TableOk(m, p);
    if v in m.spaces[p].table {
      var s := m.spaces[p].slots[v];
      assert m.spaces[p].slots[v := s.(perm := s.perm)] == m.spaces[p].slots;
    } else {
      assert m.spaces[p := m.spaces[p]] == m.spaces;
    }
  }

  lemma BlockKeeps(codec: Codec, m: Machine, p: nat, v: nat, q: nat, u: nat)
    requires p in m.spaces && HasPage(m, q, u)
    ensures Keeps(codec, m, p, Blocked(m, p, v), q, u, Bytes(codec, m, q, u))
  {
    BlockIs(m, p, v);
    if v in m.spaces[p].table {
      RepermitKeeps(codec, m, p, v, m.spaces[p].slots[v].perm, m.spaces[p].table[v].perm.NoWrite(), q, u);
    }
  }

  /** A page that enters or leaves a space leaves every other page alone. */
  lemma ReboundKeeps(codec: Codec, m: Machine, p: nat, v: nat, slot: Option<Slot>, pte: Option<Pte>, data: seq<bv8>, q: nat, u: nat)
    requires CanRebind(m, p, v, slot, pte, data) && HasPage(m, q, u) && (q, u) != (p, v)
    ensures Keeps(codec, m, p, After(m, p, v, slot, pte, data), q, u, Bytes(codec, m, q, u))
  {
    ReboundInv(m, p, v, slot, pte, data);
    ReboundBytes(codec, m, p, v, slot, pte, data, q, u);
  }

  lemma RemoveIs(m: Machine, p: nat, v: nat)
    requires HasPage(m, p, v)
    ensures CanRebind(m, p, v, None, None, []) && Removed(m, p, v) == After(m, p, v, None, None, [])
  {
    StoreShape(m, p, v);
  }

  lemma ReserveIs(m: Machine, p: nat, v: nat, perm: Perm, file: Option<FilePos>)
    requires CanEnter(m, p, v)
    ensures var slot := Some(Slot(perm, Unallocated, file));
            CanRebind(m, p, v, slot, None, []) && Reserved(m, p, v, perm, file) == After(m, p, v, slot, None, [])
  {
    StoreShape(m, p, v);
    assert TableOk(m, p);
    assert m.spaces[p].table - {v} == m.spaces[p].table;
  }

  lemma PopulateIs(m: Machine, p: nat, v: nat, perm: Perm, file: Option<FilePos>, ppn: nat, page: Page)
    requires CanEnter(m, p, v) && InMemory(ppn) !in m.store
    ensures var slot, pte := Some(Slot(perm, InMemory(ppn), file)), Some(Pte(ppn, perm));
            CanRebind(m, p, v, slot, pte, page) && Populated(m, p, v, perm, file, ppn, page) == After(m, p, v, slot, pte, page)
  {
    StoreShape(m, p, v);
  }

  /** The shared page holds in its new space what it holds in the old one. */
  lemma ShareCopies(codec: Codec, m: Machine, p: nat, v: nat, from: nat)
    requires CanShare(m, p, v, from)
    ensures HasPage(Shared(m, p, v, from), p, v)
    ensures Bytes(codec, Shared(m, p, v, from), p, v) == Bytes(codec, m, from, v)
  {
    ShareIs(m, p, v, from);
    var s := m.spaces[from].slots[v];
    var pte := if v in m.spaces[from].table then Some(Pte(m.spaces[from].table[v].ppn, s.perm.NoWrite())) else None;
    ReboundInv(m, p, v, Some(s), pte, []);
    assert SlotOk(m, from, v);
    if s.frame != Unallocated {
      ReboundOwnBytes(codec, m, p, v, s, pte, []);
    } else if s.file.Some? {
      ReboundContent(m, p, v, Some(s), pte, []);
      SameFileBytes(m, Shared(m, p, v, from), s.file.value);
    }
  }

  lemma ShareKeeps(codec: Codec, m: Machine, p: nat, v: nat, from: nat, q: nat, u: nat)
    requires CanShare(m, p, v, from) && HasPage(m, q, u)
    ensures Keeps(codec, m, p, Shared(m, p, v, from), q, u, Bytes(codec, m, q, u))
  {
    ShareIs(m, p, v, from);
    var s := m.spaces[from].slots[v];
    var pte := if v in m.spaces[from].table then Some(Pte(m.spaces[from].table[v].ppn, s.perm.NoWrite())) else None;
    ReboundKeeps(codec, m, p, v, Some(s), pte, [], q, u);
  }

  function SetData(m: Machine, f: Frame, data: seq<bv8>): Machine
    requires f in m.store
  {
    m.(store := m.store[f := m.store[f].(data := data)])
  }

  /** Changing bytes inside a frame keeps the invariant. */
  lemma SetDataInv(m: Machine, f: Frame, data: seq<bv8>)
    requires Inv(m) && f in m.store && |data| == |m.store[f].data|
    ensures Inv(SetData(m, f, data))
  {
    var m' := SetData(m, f, data);
    forall q, u | q in m'.spaces && u in m'.spaces[q].slots
      ensures SlotOk(m', q, u)
    {
      assert SlotOk(m, q, u);
    }
    forall g | g in m'.store
      ensures CellOk(m', g)
    {
      assert CellOk(m, g);
      SameHolders(m, m', g);
    }
    forall q | q in m'.spaces
      ensures TableOk(m', q)
    {
      assert TableOk(m, q);
    }
    forall g | g in m'.others
      ensures OtherOk(m', g)
    {
      assert OtherOk(m, g);
    }
    SameCaches(m, m');
  }

  /** A frame no page cache has a handle of is no page of a file. */
  lemma SetDataContent(m: Machine, f: Frame, data: seq<bv8>)
    requires Inv(m) && f in m.store && f !in m.others
    ensures SameContent(m, SetData(m, f, data))
  {
    forall k
      ensures Content(SetData(m, f, data), k) == Content(m, k)
    {
      if k in m.cache {
        CachedIsFile(m, k);
      }
    }
  }

  /** A writable entry leads to a frame that only this page is behind. */
  lemma WritableIsSole(m: Machine, p: nat, v: nat)
    requires Inv(m) && p in m.spaces && v in m.spaces[p].table && m.spaces[p].table[v].perm.w
    ensures HasPage(m, p, v)
    ensures var f := m.spaces[p].slots[v].frame;
            && f == InMemory(m.spaces[p].table[v].ppn)
            && f in m.store && m.store[f].refs == 1 && |m.store[f].data| == PAGE_SIZE
            && Holders(m, f) == {(p, v)} && Others(m, f) == 0
            && forall q: nat, u: nat :: Holds(m, q, u, f) ==> (q, u) == (p, v)
  {
    assert TableOk(m, p) && SlotOk(m, p, v);
    var f := m.spaces[p].slots[v].frame;
    assert CellOk(m, f);
    SoleHolder(m, p, v, f);
  }

  lemma StoreInv(m: Machine, p: nat, v: nat, offset: nat, byte: bv8)
    requires CanStore(m, p, v, offset)
    ensures Inv(Stored(m, p, v, offset, byte))
  {
    WritableIsSole(m, p, v);
    var f := m.spaces[p].slots[v].frame;
    SetDataInv(m, f, m.store[f].data[offset := byte]);
  }

  /** A user store changes one byte of one page of one space. */
  lemma StoreKeeps(codec: Codec, m: Machine, p: nat, v: nat, offset: nat, byte: bv8, q: nat, u: nat)
    requires CanStore(m, p, v, offset) && HasPage(m, q, u)
    ensures var page := Bytes(codec, m, q, u);
            Keeps(codec, m, p, Stored(m, p, v, offset, byte), q, u, if (q, u) == (p, v) then page[offset := byte] else page)
  {
    WritableIsSole(m, p, v);
    StoreInv(m, p, v, offset, byte);
    if (q, u) != (p, v) {
      var f := m.spaces[p].slots[v].frame;
      assert !Holds(m, q, u, f);
      assert f in m.others ==> OtherOk(m, f);
      SetDataContent(m, f, m.store[f].data[offset := byte]);
      SameBytes(codec, m, Stored(m, p, v, offset, byte), q, u);
    }
  }
}
