/** The state that paging moves around: frames with their reference counts and data, address
    spaces as maps from virtual page numbers, and the single-page moves the kernel makes. */
module PagedMemory {
  import opened Basics

  const PAGE_SIZE := 4096

  type Page = p: seq<bv8> | |p| == PAGE_SIZE witness seq(PAGE_SIZE, _ => 0 as bv8)

  function ZeroPage(): Page { seq(PAGE_SIZE, _ => 0 as bv8) }

  /** Where a page of an area is: `Frame` of the kernel, one constructor a kind of tracker. */
  datatype Frame = InMemory(ppn: nat) | Compressed(zram: nat) | SwappedOut(swap: nat) | Unallocated

  datatype Perm = Perm(r: bool, w: bool, x: bool, u: bool) {
    function NoWrite(): Perm { this.(w := false) }
  }

  datatype Pte = Pte(ppn: nat, perm: Perm)

  /** A page of a file: `page` whole pages after the byte `base` that the mapping starts from. */
  datatype FilePos = FilePos(file: nat, base: nat, page: nat) {
    function Offset(): nat { base + page * 4096 }
  }

  /** A page of an address space: permission of its area, where it is, and the file behind it. */
  datatype Slot = Slot(perm: Perm, frame: Frame, file: Option<FilePos>)

  datatype AddrSpace = AddrSpace(slots: map<nat, Slot>, table: map<nat, Pte>)

  /** What a tracker keeps alive: `refs` is the strong count of its Arc; `data` the page, or its
      compressed form behind a zram tracker. */
  datatype Cell = Cell(refs: nat, data: seq<bv8>)

  type Store = map<Frame, Cell>

  /** The compressor, which must give back what it was given. */
  datatype Codec = Codec(compress: Page -> seq<bv8>, decompress: seq<bv8> -> Page) {
    ghost predicate Lossless() {
      forall p: Page :: decompress(compress(p)) == p
    }
  }

  /** What an operation on one address space finds outside it: the compressor, and the contents and
      sizes of files at that moment. */
  datatype Env = Env(codec: Codec, filePage: FilePos -> Page, fileSize: nat -> nat)

  function AsPage(data: seq<bv8>): Page {
    if |data| == PAGE_SIZE then data else ZeroPage()
  }

  /** The bytes a tracker stands for. */
  function FrameBytes(codec: Codec, store: Store, f: Frame): Page
    requires f in store
  {
    if f.Compressed? then codec.decompress(store[f].data) else AsPage(store[f].data)
  }

  /** The bytes a program would find in a page, wherever the page is now. */
  function SlotBytes(env: Env, store: Store, s: Slot): Page
    requires s.frame != Unallocated ==> s.frame in store
  {
    if s.frame != Unallocated then FrameBytes(env.codec, store, s.frame)
    else if s.file.Some? then env.filePage(s.file.value)
    else ZeroPage()
  }

  /** Some contents of files: all zero but for one page. */
  function OneFilePage(pos: FilePos, page: Page): Env {
    Env(Codec(p => p, data => AsPage(data)), x => if x == pos then page else ZeroPage(), _ => 0)
  }

  // ---------------------------------------------------------------- reference counting

  /** Drop one handle; the last one frees what it tracks. */
  function Release(store: Store, f: Frame): Store {
    if f !in store then store
    else if store[f].refs <= 1 then store - {f}
    else store[f := store[f].(refs := store[f].refs - 1)]
  }

  /** Clone a handle. */
  function Retain(store: Store, f: Frame): Store {
    if f !in store then store else store[f := store[f].(refs := store[f].refs + 1)]
  }

  /** A new tracker with one handle. */
  function Fresh(store: Store, f: Frame, data: seq<bv8>): Store {
    store[f := Cell(1, data)]
  }

  ghost predicate Counted(store: Store) {
    Unallocated !in store && forall f :: f in store ==> store[f].refs > 0
  }

  /** `n` handles of `f` were dropped on the way from `store` to `store'`. */
  predicate Lowered(store: Store, store': Store, f: Frame, n: nat) {
    && (f in store' <==> f in store && store[f].refs > n)
    && (f in store' ==> store'[f] == store[f].(refs := store[f].refs - n))
  }

  lemma ReleaseLowers(store: Store, g: Frame, f: Frame)
    requires Counted(store)
    ensures Lowered(store, Release(store, g), f, if f == g then 1 else 0)
    ensures Counted(Release(store, g))
  {
  }

  lemma LoweredTwice(s: Store, t: Store, u: Store, f: Frame, a: nat, b: nat)
    requires Lowered(s, t, f, a) && Lowered(t, u, f, b)
    ensures Lowered(s, u, f, a + b)
  {
  }

  /** The counts dropped determine the store. */
  lemma LoweredSame(s: Store, t: Store, u: Store, count: Frame -> nat)
    requires forall f :: Lowered(s, t, f, count(f)) && Lowered(s, u, f, count(f))
    ensures t == u
  {
    forall f
      ensures (f in t <==> f in u) && (f in t ==> t[f] == u[f])
    {
      assert Lowered(s, t, f, count(f)) && Lowered(s, u, f, count(f));
    }
  }

  function SetPte(table: map<nat, Pte>, vpn: nat, pte: Option<Pte>): map<nat, Pte> {
    match pte
    case Some(e) => table[vpn := e]
    case None => table - {vpn}
  }

  // ---------------------------------------------------------------- single-page moves

  datatype View = View(space: AddrSpace, store: Store)

  function PutFrame(space: AddrSpace, vpn: nat, frame: Frame, pte: Option<Pte>): AddrSpace
    requires vpn in space.slots
  {
    AddrSpace(space.slots[vpn := space.slots[vpn].(frame := frame)], SetPte(space.table, vpn, pte))
  }

  /** A page enters memory in a new frame with the given bytes; its old tracker is dropped. */
  function BringIn(v: View, vpn: nat, ppn: nat, page: Page): View
    requires vpn in v.space.slots
  {
    var s := v.space.slots[vpn];
    View(PutFrame(v.space, vpn, InMemory(ppn), Some(Pte(ppn, s.perm))),
         Fresh(Release(v.store, s.frame), InMemory(ppn), page))
  }

  /** A page leaves memory for the tracker `to`; its frame is dropped and it is unmapped. */
  function PushOut(v: View, vpn: nat, to: Frame, data: seq<bv8>): View
    requires vpn in v.space.slots
  {
    View(PutFrame(v.space, vpn, to, None),
         Fresh(Release(v.store, v.space.slots[vpn].frame), to, data))
  }

  /** A read-only file page is mapped to the frame the page cache holds. */
  function MapCached(v: View, vpn: nat, ppn: nat): View
    requires vpn in v.space.slots
  {
    View(PutFrame(v.space, vpn, InMemory(ppn), Some(Pte(ppn, v.space.slots[vpn].perm))),
         Retain(v.store, InMemory(ppn)))
  }

  /** The page-table entry alone gets the permission of the area. */
  function Unprotect(v: View, vpn: nat): View
    requires vpn in v.space.slots && vpn in v.space.table
  {
    v.(space := v.space.(table := v.space.table[vpn := v.space.table[vpn].(perm := v.space.slots[vpn].perm)]))
  }

  /** A page leaves the address space. */
  function RemovePage(v: View, vpn: nat): View {
    if vpn !in v.space.slots then v else
    View(AddrSpace(v.space.slots - {vpn}, v.space.table - {vpn}), Release(v.store, v.space.slots[vpn].frame))
  }

  /** A page changes permission; a present entry gets it without W. */
  function ProtectPage(space: AddrSpace, vpn: nat, perm: Perm): AddrSpace
    requires vpn in space.slots
  {
    AddrSpace(space.slots[vpn := space.slots[vpn].(perm := perm)],
              if vpn in space.table then space.table[vpn := space.table[vpn].(perm := perm.NoWrite())] else space.table)
  }

  /** First half of sharing a page: its entry loses W. */
  function WriteProtect(space: AddrSpace, vpn: nat): AddrSpace {
    if vpn in space.table then space.(table := space.table[vpn := space.table[vpn].(perm := space.table[vpn].perm.NoWrite())])
    else space
  }

  /** Second half: another space gets a handle of the same tracker and an entry without W. */
  function SharePage(from: AddrSpace, v: View, vpn: nat): View
    requires vpn in from.slots
  {
    var s := from.slots[vpn];
    View(AddrSpace(v.space.slots[vpn := s],
                   SetPte(v.space.table, vpn, if vpn in from.table then Some(Pte(from.table[vpn].ppn, s.perm.NoWrite())) else None)),
         Retain(v.store, s.frame))
  }

  // ---------------------------------------------------------------- page faults

  datatype MemoryError = BadAddress | NoPermission | BeyondEOF

  datatype FaultResult = Fixed(view: View) | Failed(error: MemoryError)

  function RoundUp(n: nat): nat { (n + 4095) / 4096 * 4096 }

  predicate SpaceOk(space: AddrSpace) {
    && space.table.Keys <= space.slots.Keys
    && forall v :: v in space.slots ==>
         && (v in space.table <==> space.slots[v].frame.InMemory?)
         && (v in space.table ==> space.table[v].ppn == space.slots[v].frame.ppn)
         && (space.slots[v].file.Some? ==> space.slots[v].frame.InMemory? || space.slots[v].frame.Unallocated?)
  }

  /** `do_page_fault`: `ppn` is the frame the allocator would hand out, `cached` the frame the page
      cache holds for the page in question. The kernel has no branch for a mapped page that is not
      in memory, nor for an unmapped one that is; `SpaceOk` says neither occurs. */
  function DoPageFault(env: Env, v: View, vpn: nat, ppn: nat, cached: nat): FaultResult
    requires SpaceOk(v.space)
    requires forall u :: u in v.space.slots && v.space.slots[u].frame != Unallocated ==> v.space.slots[u].frame in v.store
  {
    if vpn !in v.space.slots || !v.space.slots[vpn].perm.r || !v.space.slots[vpn].perm.u then Failed(BadAddress)
    else
      var s := v.space.slots[vpn];
      if vpn !in v.space.table then
        if s.file.Some? then
          if s.file.value.Offset() > RoundUp(env.fileSize(s.file.value.file)) then Failed(BeyondEOF)
          else if s.perm.w then Fixed(BringIn(v, vpn, ppn, env.filePage(s.file.value)))
          else Fixed(MapCached(v, vpn, cached))
        else
          match s.frame
          case Unallocated => Fixed(BringIn(v, vpn, ppn, ZeroPage()))
          case Compressed(_) => Fixed(BringIn(v, vpn, ppn, env.codec.decompress(v.store[s.frame].data)))
          case SwappedOut(_) => Fixed(BringIn(v, vpn, ppn, AsPage(v.store[s.frame].data)))
      else if s.perm.w then
        if v.store[s.frame].refs == 1 then Fixed(Unprotect(v, vpn))
        else Fixed(BringIn(v, vpn, ppn, AsPage(v.store[s.frame].data)))
      else Failed(NoPermission)
  }

  /** A fault that is served gives the page, in memory, the bytes it stood for before: in place when
      the frame has one handle, in a new frame, or in the frame of the page cache. */
  lemma FaultShape(env: Env, v: View, vpn: nat, ppn: nat, cached: nat)
    requires SpaceOk(v.space)
    requires forall u :: u in v.space.slots && v.space.slots[u].frame != Unallocated ==> v.space.slots[u].frame in v.store
    requires DoPageFault(env, v, vpn, ppn, cached).Fixed?
    ensures vpn in v.space.slots
    ensures var s, after := v.space.slots[vpn], DoPageFault(env, v, vpn, ppn, cached).view;
            if vpn in v.space.table && v.store[s.frame].refs == 1 then after == Unprotect(v, vpn)
            else if vpn in v.space.table || s.file.None? || s.perm.w then after == BringIn(v, vpn, ppn, SlotBytes(env, v.store, s))
            else s.frame == Unallocated && after == MapCached(v, vpn, cached)
    ensures var s, after := v.space.slots[vpn], DoPageFault(env, v, vpn, ppn, cached).view;
            var s' := after.space.slots[vpn];
            s'.frame in after.store ==>
              SlotBytes(env, after.store, s') == if vpn in v.space.table || s.file.None? || s.perm.w then SlotBytes(env, v.store, s)
                                                 else AsPage(after.store[InMemory(cached)].data)
  {
    assert vpn in v.space.table ==> v.space.slots[vpn].frame.InMemory?;
  }
}
