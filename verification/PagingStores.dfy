/** Stores that do not go through a writable entry: copies of the kernel to user memory, writes to files,
    and the page cache at work. Whom they reach, and the exact conditions under which they reach nobody
    else. */
module PagingStores {
  import opened Basics
  import opened PagedMemory
  import opened PagingMachine

  // ---------------------------------------------------------------- pages of files not read in yet

  /** The 4096 bytes from `pos` on meet page `k` of the file. */
  predicate Touches(pos: FilePos, k: FileKey) {
    pos.file == k.file && pos.Offset() < (k.index + 1) * 4096 && k.index * 4096 < pos.Offset() + 4096
  }

  /** Page `u` of space `q` stands for bytes of page `k` of a file and has not been read in. */
  predicate Unread(m: Machine, q: nat, u: nat, k: FileKey) {
    && q in m.spaces && u in m.spaces[q].slots
    && var s := m.spaces[q].slots[u];
       s.frame == Unallocated && s.file.Some? && Touches(s.file.value, k)
  }

  ghost predicate NoneUnread(m: Machine, k: FileKey) {
    forall q: nat, u: nat :: !Unread(m, q, u, k)
  }

  /** No file but page `k` changed. */
  ghost predicate OnlyContent(m: Machine, m': Machine, k: FileKey) {
    forall l {:trigger Content(m', l)} :: l != k ==> Content(m', l) == Content(m, l)
  }

  lemma KeyAddress(a: nat, index: nat)
    requires a / 4096 == index
    ensures index * 4096 <= a < (index + 1) * 4096 && a == index * 4096 + a % 4096
  {
  }

  lemma FileBytesApart(m: Machine, m': Machine, k: FileKey, pos: FilePos)
    requires OnlyContent(m, m', k) && !Touches(pos, k)
    ensures FileBytes(m', pos) == FileBytes(m, pos)
  {
    forall i: nat | i < 4096
      ensures FileBytes(m', pos)[i] == FileBytes(m, pos)[i]
    {
      var a := pos.Offset() + i;
      var l := FileKey(pos.file, a / 4096);
      if l == k {
        KeyAddress(a, k.index);
      }
      assert Content(m', l) == Content(m, l);
    }
  }

  /** If one byte of page `k` of a file changed, the pages that stand for it change at that byte alone. */
  lemma FileBytesStore(m: Machine, m': Machine, k: FileKey, offset: nat, byte: bv8, pos: FilePos, i: nat)
    requires OnlyContent(m, m', k) && offset < 4096 && Content(m', k) == Content(m, k)[offset := byte] && i < 4096
    ensures FileBytes(m', pos)[i] ==
            if pos.file == k.file && pos.Offset() + i == k.index * 4096 + offset then byte else FileBytes(m, pos)[i]
  {
    var a := pos.Offset() + i;
    var l := FileKey(pos.file, a / 4096);
    assert l != k ==> Content(m', l) == Content(m, l);
    KeyAddress(a, a / 4096);
    if pos.file == k.file && a == k.index * 4096 + offset {
      InKey(k.index * 4096, offset);
    }
  }

  // ---------------------------------------------------------------- one byte of a frame

  /** Frame `f` holds a page of a file of which page `u` of space `q` stands for a part. */
  ghost predicate ReadsFrom(m: Machine, q: nat, u: nat, f: Frame) {
    exists k :: k in m.cache && InMemory(m.cache[k]) == f && Unread(m, q, u, k)
  }

  lemma SetDataFile(m: Machine, f: Frame, data: Page, k: FileKey)
    requires Inv(m) && f in m.store && k in m.cache && InMemory(m.cache[k]) == f
    ensures OnlyContent(m, SetData(m, f, data), k) && Content(SetData(m, f, data), k) == data
  {
    var m' := SetData(m, f, data);
    forall l | l != k
      ensures Content(m', l) == Content(m, l)
    {
      assert l in m.cache ==> CacheApart(m, k, l);
    }
  }

  /** A frame in use, in memory, and what it holds after one byte is stored. */
  ghost predicate CanPoke(m: Machine, f: Frame, offset: nat) {
    Inv(m) && f.InMemory? && f in m.store && offset < PAGE_SIZE
  }

  ghost function Poked(m: Machine, f: Frame, offset: nat, byte: bv8): Machine
    requires CanPoke(m, f, offset)
  {
    assert CellOk(m, f);
    SetData(m, f, m.store[f].data[offset := byte])
  }

  lemma PokeInv(m: Machine, f: Frame, offset: nat, byte: bv8)
    requires CanPoke(m, f, offset)
    ensures Inv(Poked(m, f, offset, byte))
  {
    assert CellOk(m, f);
    SetDataInv(m, f, m.store[f].data[offset := byte]);
  }

  /** What a store to a frame does to files: page `k` if the frame caches it, and nothing else. */
  lemma PokeContent(m: Machine, f: Frame, offset: nat, byte: bv8, k: FileKey)
    requires CanPoke(m, f, offset) && k in m.cache && InMemory(m.cache[k]) == f
    ensures var m' := Poked(m, f, offset, byte); OnlyContent(m, m', k) && Content(m', k) == Content(m, k)[offset := byte]
  {
    assert CellOk(m, f);
    CachedIsFile(m, k);
    SetDataFile(m, f, m.store[f].data[offset := byte], k);
  }

  lemma PokeUncached(m: Machine, f: Frame, offset: nat, byte: bv8)
    requires CanPoke(m, f, offset) && forall k :: k in m.cache ==> InMemory(m.cache[k]) != f
    ensures SameContent(m, Poked(m, f, offset, byte))
  {
    var m' := Poked(m, f, offset, byte);
    forall k
      ensures Content(m', k) == Content(m, k)
    {
    }
  }

  /** A store to a frame changes the page of everyone behind the frame, the pages not read in yet that
      stand for the file page in it, and no other page. */
  lemma PokeBytes(codec: Codec, m: Machine, f: Frame, offset: nat, byte: bv8, q: nat, u: nat)
    requires CanPoke(m, f, offset) && HasPage(m, q, u)
    ensures var m', page := Poked(m, f, offset, byte), Bytes(codec, m, q, u);
            && HasPage(m', q, u)
            && (Holds(m, q, u, f) ==> Bytes(codec, m', q, u) == page[offset := byte])
            && (!Holds(m, q, u, f) && !ReadsFrom(m, q, u, f) ==> Bytes(codec, m', q, u) == page)
  {
    var m' := Poked(m, f, offset, byte);
    PokeInv(m, f, offset, byte);
    assert SlotOk(m, q, u) && CellOk(m, f);
    var s := m.spaces[q].slots[u];
    if s.frame == Unallocated && s.file.Some? && !ReadsFrom(m, q, u, f) {
      if k :| k in m.cache && InMemory(m.cache[k]) == f {
        PokeContent(m, f, offset, byte, k);
        assert !Unread(m, q, u, k);
        FileBytesApart(m, m', k, s.file.value);
      } else {
        PokeUncached(m, f, offset, byte);
        SameFileBytes(m, m', s.file.value);
      }
    }
  }

  /** Every page not read in yet sees some store to the cached frame. */
  lemma UnreadSees(codec: Codec, m: Machine, k: FileKey, q: nat, u: nat) returns (offset: nat, byte: bv8)
    requires Inv(m) && k in m.cache && Unread(m, q, u, k)
    ensures CanPoke(m, InMemory(m.cache[k]), offset)
    ensures var m' := Poked(m, InMemory(m.cache[k]), offset, byte);
            HasPage(m', q, u) && Bytes(codec, m', q, u) != Bytes(codec, m, q, u)
  {
    var f, pos := InMemory(m.cache[k]), m.spaces[q].slots[u].file.value;
    var start := k.index * 4096;
    var a := if pos.Offset() < start then start else pos.Offset();
    CachedIsFile(m, k);
    offset := a - start;
    var i := a - pos.Offset();
    byte := if Bytes(codec, m, q, u)[i] == 0 then 1 else 0;
    var m' := Poked(m, f, offset, byte);
    PokeInv(m, f, offset, byte);
    PokeContent(m, f, offset, byte, k);
    FileBytesStore(m, m', k, offset, byte, pos, i);
    assert Bytes(codec, m', q, u)[i] == byte;
  }

  // ---------------------------------------------------------------- stores by the kernel

  lemma KernelStoreIs(m: Machine, p: nat, v: nat, offset: nat, byte: bv8)
    requires CanKernelStore(m, p, v, offset)
    ensures v in m.spaces[p].slots && CanPoke(m, m.spaces[p].slots[v].frame, offset)
    ensures KernelStored(m, p, v, offset, byte) == Poked(m, m.spaces[p].slots[v].frame, offset, byte)
  {
    MappedFrame(m, p, v);
  }

  lemma KernelStoreInv(m: Machine, p: nat, v: nat, offset: nat, byte: bv8)
    requires CanKernelStore(m, p, v, offset)
    ensures Inv(KernelStored(m, p, v, offset, byte))
  {
    KernelStoreIs(m, p, v, offset, byte);
    PokeInv(m, m.spaces[p].slots[v].frame, offset, byte);
  }

  /** A store by the kernel changes one byte of the page of everyone behind the frame, the pages not read
      in yet that stand for the file page in it, and nothing else. */
  lemma KernelStoreBytes(codec: Codec, m: Machine, p: nat, v: nat, offset: nat, byte: bv8, q: nat, u: nat)
    requires CanKernelStore(m, p, v, offset) && HasPage(m, q, u)
    ensures v in m.spaces[p].slots
    ensures var m', page, f := KernelStored(m, p, v, offset, byte), Bytes(codec, m, q, u), m.spaces[p].slots[v].frame;
            && HasPage(m', q, u) && m'.spaces == m.spaces
            && (Holds(m, q, u, f) ==> Bytes(codec, m', q, u) == page[offset := byte])
            && (!Holds(m, q, u, f) && !ReadsFrom(m, q, u, f) ==> Bytes(codec, m', q, u) == page)
  {
    KernelStoreIs(m, p, v, offset, byte);
    PokeBytes(codec, m, m.spaces[p].slots[v].frame, offset, byte, q, u);
  }

  /** Page `u` of space `q` holds the same bytes in both. */
  ghost predicate SameAt(codec: Codec, m: Machine, m': Machine, q: nat, u: nat) {
    HasPage(m, q, u) ==> HasPage(m', q, u) && Bytes(codec, m', q, u) == Bytes(codec, m, q, u)
  }

  /** What the page caches hold in frame `f` is the same in both. */
  ghost predicate SameCached(m: Machine, m': Machine, f: Frame) {
    f in m.others && f in m.store ==> f in m'.store && m'.store[f].data == m.store[f].data
  }

  /** Nobody but page `v` of space `p` sees a change: no other page, and no page cache. */
  ghost predicate OthersUnchanged(codec: Codec, m: Machine, m': Machine, p: nat, v: nat) {
    && (forall q: nat, u: nat {:trigger SameAt(codec, m, m', q, u)} :: (q, u) != (p, v) ==> SameAt(codec, m, m', q, u))
    && (forall f {:trigger SameCached(m, m', f)} :: SameCached(m, m', f))
  }

  ghost predicate KernelStoreApart(codec: Codec, m: Machine, p: nat, v: nat, offset: nat, byte: bv8) {
    CanKernelStore(m, p, v, offset) ==> OthersUnchanged(codec, m, KernelStored(m, p, v, offset, byte), p, v)
  }

  /** A frame with one handle, held by a page, is no page of a file. */
  lemma SoleUncached(m: Machine, p: nat, v: nat, f: Frame)
    requires Inv(m) && Holds(m, p, v, f) && f in m.store && m.store[f].refs == 1
    ensures f !in m.others && forall k :: k in m.cache ==> InMemory(m.cache[k]) != f
  {
    SoleHolder(m, p, v, f);
    assert f in m.others ==> OtherOk(m, f);
    forall k | k in m.cache
      ensures InMemory(m.cache[k]) != f
    {
      assert CacheOk(m, k);
    }
  }

  lemma SoleStoreApart(codec: Codec, m: Machine, p: nat, v: nat, offset: nat, byte: bv8)
    requires CanKernelStore(m, p, v, offset) && v in m.spaces[p].slots
    requires m.spaces[p].slots[v].frame in m.store && m.store[m.spaces[p].slots[v].frame].refs == 1
    ensures OthersUnchanged(codec, m, KernelStored(m, p, v, offset, byte), p, v)
  {
    var m', f := KernelStored(m, p, v, offset, byte), m.spaces[p].slots[v].frame;
    MappedFrame(m, p, v);
    SoleHolder(m, p, v, f);
    SoleUncached(m, p, v, f);
    forall q: nat, u: nat | (q, u) != (p, v)
      ensures SameAt(codec, m, m', q, u)
    {
      if HasPage(m, q, u) {
        assert !Holds(m, q, u, f) && !ReadsFrom(m, q, u, f);
        KernelStoreBytes(codec, m, p, v, offset, byte, q, u);
      }
    }
    forall g
      ensures SameCached(m, m', g)
    {
      assert g in m.others ==> OtherOk(m, g);
    }
  }

  /** With a second handle on the frame there is a page or a page cache that sees the store. */
  lemma SharedStoreSeen(codec: Codec, m: Machine, p: nat, v: nat)
    requires CanKernelStore(m, p, v, 0) && v in m.spaces[p].slots
    requires m.spaces[p].slots[v].frame in m.store && m.store[m.spaces[p].slots[v].frame].refs != 1
    ensures exists byte: bv8 :: !KernelStoreApart(codec, m, p, v, 0, byte)
  {
    var f := m.spaces[p].slots[v].frame;
    MappedFrame(m, p, v);
    assert CellOk(m, f);
    var byte: bv8 := if m.store[f].data[0] == 0 then 1 else 0;
    var m' := KernelStored(m, p, v, 0, byte);
    if f in m.others {
      assert m'.store[f].data[0] != m.store[f].data[0];
      assert !SameCached(m, m', f);
    } else {
      var q, u := AnotherHolder(m, p, v, f);
      KernelStoreBytes(codec, m, p, v, 0, byte, q, u);
      assert Bytes(codec, m, q, u)[0] != byte;
      assert !SameAt(codec, m, m', q, u);
    }
    assert !KernelStoreApart(codec, m, p, v, 0, byte);
  }

  lemma AnotherHolder(m: Machine, p: nat, v: nat, f: Frame) returns (q: nat, u: nat)
    requires Inv(m) && Holds(m, p, v, f) && f in m.store && m.store[f].refs != 1 && f !in m.others
    ensures (q, u) != (p, v) && HasPage(m, q, u) && Holds(m, q, u, f)
  {
    assert CellOk(m, f);
    HoldersHas(m, p, v, f);
    var rest := Holders(m, f) - {(p, v)};
    assert |rest| == |Holders(m, f)| - 1;
    var x :| x in rest;
    q, u := x.0, x.1;
    HoldersHas(m, q, u, f);
  }

  /** A store by the kernel through a present entry, whatever its offset and byte, changes no other
      page and no page cache exactly if the frame has one handle. */
  lemma KernelStoreExact(codec: Codec, m: Machine, p: nat, v: nat)
    requires Inv(m) && p in m.spaces && v in m.spaces[p].table
    ensures v in m.spaces[p].slots && m.spaces[p].slots[v].frame in m.store
    ensures (forall offset: nat, byte: bv8 :: KernelStoreApart(codec, m, p, v, offset, byte)) <==>
            m.store[m.spaces[p].slots[v].frame].refs == 1
  {
    MappedFrame(m, p, v);
    if m.store[m.spaces[p].slots[v].frame].refs == 1 {
      forall offset: nat, byte: bv8
        ensures KernelStoreApart(codec, m, p, v, offset, byte)
      {
        if CanKernelStore(m, p, v, offset) {
          SoleStoreApart(codec, m, p, v, offset, byte);
        }
      }
    } else {
      SharedStoreSeen(codec, m, p, v);
    }
  }

  // ---------------------------------------------------------------- writes to files

  /** A write to a file goes to the frame the page cache holds, whoever maps it. */
  ghost predicate CanCacheStore(m: Machine, k: FileKey, offset: nat) {
    Inv(m) && k in m.cache && offset < PAGE_SIZE
  }

  ghost function CacheStored(m: Machine, k: FileKey, offset: nat, byte: bv8): Machine
    requires CanCacheStore(m, k, offset)
  {
    CachedIsFile(m, k);
    Poked(m, InMemory(m.cache[k]), offset, byte)
  }

  lemma CacheStoreInv(m: Machine, k: FileKey, offset: nat, byte: bv8)
    requires CanCacheStore(m, k, offset)
    ensures Inv(CacheStored(m, k, offset, byte))
    ensures var m' := CacheStored(m, k, offset, byte); OnlyContent(m, m', k) && Content(m', k) == Content(m, k)[offset := byte]
  {
    CachedIsFile(m, k);
    PokeInv(m, InMemory(m.cache[k]), offset, byte);
    PokeContent(m, InMemory(m.cache[k]), offset, byte, k);
  }

  /** It reaches the pages that map the frame and those of the file not read in yet, and no others. */
  lemma CacheStoreBytes(codec: Codec, m: Machine, k: FileKey, offset: nat, byte: bv8, q: nat, u: nat)
    requires CanCacheStore(m, k, offset) && HasPage(m, q, u)
    ensures var m', page, f := CacheStored(m, k, offset, byte), Bytes(codec, m, q, u), InMemory(m.cache[k]);
            && HasPage(m', q, u) && m'.spaces == m.spaces
            && (Holds(m, q, u, f) ==> Bytes(codec, m', q, u) == page[offset := byte])
            && (!Holds(m, q, u, f) && !Unread(m, q, u, k) ==> Bytes(codec, m', q, u) == page)
  {
    CachedIsFile(m, k);
    if l :| l in m.cache && InMemory(m.cache[l]) == InMemory(m.cache[k]) && Unread(m, q, u, l) {
      assert CacheApart(m, k, l);
    }
    PokeBytes(codec, m, InMemory(m.cache[k]), offset, byte, q, u);
  }

  ghost predicate CacheStoreApart(codec: Codec, m: Machine, k: FileKey, offset: nat, byte: bv8) {
    CanCacheStore(m, k, offset) ==>
      var m' := CacheStored(m, k, offset, byte);
      forall q: nat, u: nat {:trigger SameAt(codec, m, m', q, u)} :: SameAt(codec, m, m', q, u)
  }

  /** A write to a page of a file, whatever its offset and byte, changes no page of any space exactly if
      all handles of the cached frame are those of page caches and no page that stands for the file page
      is yet to be read in. */
  lemma CacheStoreExact(codec: Codec, m: Machine, k: FileKey)
    requires Inv(m) && k in m.cache
    ensures InMemory(m.cache[k]) in m.store
    ensures (forall offset: nat, byte: bv8 :: CacheStoreApart(codec, m, k, offset, byte)) <==>
            m.store[InMemory(m.cache[k])].refs == Others(m, InMemory(m.cache[k])) && NoneUnread(m, k)
  {
    var f := InMemory(m.cache[k]);
    CachedIsFile(m, k);
    assert CellOk(m, f);
    if m.store[f].refs != Others(m, f) {
      HolderSees(codec, m, k);
    } else if !NoneUnread(m, k) {
      var q: nat, u: nat :| Unread(m, q, u, k);
      var offset, byte := UnreadSees(codec, m, k, q, u);
      assert !SameAt(codec, m, CacheStored(m, k, offset, byte), q, u);
      assert !CacheStoreApart(codec, m, k, offset, byte);
    } else {
      assert Holders(m, f) == {};
      forall offset: nat, byte: bv8
        ensures CacheStoreApart(codec, m, k, offset, byte)
      {
        if CanCacheStore(m, k, offset) {
          UnmappedStoreApart(codec, m, k, offset, byte);
        }
      }
    }
  }

  lemma HolderSees(codec: Codec, m: Machine, k: FileKey)
    requires Inv(m) && k in m.cache && InMemory(m.cache[k]) in m.store
    requires m.store[InMemory(m.cache[k])].refs != Others(m, InMemory(m.cache[k]))
    ensures exists byte: bv8 :: !CacheStoreApart(codec, m, k, 0, byte)
  {
    var f := InMemory(m.cache[k]);
    assert CellOk(m, f);
    var x :| x in Holders(m, f);
    HoldersHas(m, x.0, x.1, f);
    var byte: bv8 := if m.store[f].data[0] == 0 then 1 else 0;
    CacheStoreBytes(codec, m, k, 0, byte, x.0, x.1);
    assert Bytes(codec, m, x.0, x.1)[0] != byte;
    assert !SameAt(codec, m, CacheStored(m, k, 0, byte), x.0, x.1);
    assert !CacheStoreApart(codec, m, k, 0, byte);
  }

  lemma UnmappedStoreApart(codec: Codec, m: Machine, k: FileKey, offset: nat, byte: bv8)
    requires CanCacheStore(m, k, offset) && Holders(m, InMemory(m.cache[k])) == {} && NoneUnread(m, k)
    ensures CacheStoreApart(codec, m, k, offset, byte)
  {
    var m' := CacheStored(m, k, offset, byte);
    forall q: nat, u: nat
      ensures SameAt(codec, m, m', q, u)
    {
      if HasPage(m, q, u) {
        HoldersHas(m, q, u, InMemory(m.cache[k]));
        assert !Unread(m, q, u, k);
        CacheStoreBytes(codec, m, k, offset, byte, q, u);
      }
    }
  }

  // ---------------------------------------------------------------- the page cache

  /** A page of a file comes into the cache, in a frame not in use, ... */
  ghost predicate CanCacheLoad(m: Machine, k: FileKey, ppn: nat) {
    Inv(m) && k !in m.cache && InMemory(ppn) !in m.store
  }

  ghost function CacheLoaded(m: Machine, k: FileKey, ppn: nat): Machine {
    m.(store := Fresh(m.store, InMemory(ppn), Content(m, k)), others := m.others[InMemory(ppn) := 1], cache := m.cache[k := ppn])
  }

  /** ... and leaves it, written back, whoever else has the frame. */
  ghost function CacheDropped(m: Machine, k: FileKey): Machine
    requires k in m.cache
  {
    var f := InMemory(m.cache[k]);
    m.(store := Release(m.store, f), cache := m.cache - {k}, files := m.files[k := Content(m, k)],
       others := if Others(m, f) <= 1 then m.others - {f} else m.others[f := Others(m, f) - 1])
  }

  /** A page past the new end of a file is cut off: it leaves the cache without being written back, and
      what a reader finds there later is arbitrary. */
  ghost function FileCut(m: Machine, k: FileKey, page: Page): Machine {
    var m' := if k in m.cache then CacheDropped(m, k) else m;
    m'.(files := m'.files[k := page])
  }

  /** The address spaces stay, and handles of one frame change with those the page caches have of it. */
  lemma CacheInv(m: Machine, m': Machine, g: Frame)
    requires Inv(m) && m'.spaces == m.spaces && NotWritable(m, g)
    requires forall f :: f != g ==> (f in m'.store <==> f in m.store) && (f in m.store ==> m'.store[f] == m.store[f])
    requires forall f :: f != g ==> (f in m'.others <==> f in m.others) && (f in m.others ==> m'.others[f] == m.others[f])
    requires g in m'.store ==> g.InMemory? && |m'.store[g].data| == PAGE_SIZE && m'.store[g].refs == |Holders(m, g)| + Others(m', g) > 0
    requires g !in m'.store ==> Holders(m, g) == {}
    requires g in m'.others ==> g in m'.store && m'.others[g] > 0
    requires CachesOk(m')
    ensures Inv(m')
  {
    forall q, u | q in m'.spaces && u in m'.spaces[q].slots
      ensures SlotOk(m', q, u)
    {
      assert SlotOk(m, q, u);
      HoldersHas(m, q, u, g);
      assert Holds(m, q, u, m.spaces[q].slots[u].frame);
    }
    forall f | f in m'.store
      ensures CellOk(m', f)
    {
      assert f != g ==> CellOk(m, f);
      SameHolders(m, m', f);
    }
    forall q | q in m'.spaces
      ensures TableOk(m', q)
    {
      assert TableOk(m, q);
    }
    forall f | f in m'.others
      ensures OtherOk(m', f)
    {
      assert f != g ==> OtherOk(m, f);
    }
  }

  lemma CacheLoadInv(m: Machine, k: FileKey, ppn: nat)
    requires CanCacheLoad(m, k, ppn)
    ensures Inv(CacheLoaded(m, k, ppn)) && SameContent(m, CacheLoaded(m, k, ppn))
  {
    var g, m' := InMemory(ppn), CacheLoaded(m, k, ppn);
    NobodyHolds(m, g);
    forall q: nat, u: nat | Holds(m, q, u, g)
      ensures false
    {
      HoldersHas(m, q, u, g);
    }
    forall l | l in m'.cache
      ensures CacheOk(m', l)
      ensures l != k ==> InMemory(m.cache[l]) in m.store
    {
      if l != k {
        assert CacheOk(m, l);
        assert OtherOk(m, InMemory(m.cache[l]));
      }
    }
    forall l, n | l in m'.cache && n in m'.cache
      ensures CacheApart(m', l, n)
    {
      assert l != k && n != k ==> CacheApart(m, l, n);
    }
    CacheInv(m, m', g);
    forall l
      ensures Content(m', l) == Content(m, l)
    {
    }
  }

  lemma DroppedCaches(m: Machine, k: FileKey)
    requires Inv(m) && k in m.cache
    ensures CachesOk(CacheDropped(m, k))
  {
    var m' := CacheDropped(m, k);
    forall l | l in m'.cache
      ensures CacheOk(m', l)
    {
      assert CacheOk(m, l) && CacheApart(m, k, l);
    }
    forall l, n | l in m'.cache && n in m'.cache
      ensures CacheApart(m', l, n)
    {
      assert CacheApart(m, l, n);
    }
  }

  lemma CacheDropInv(m: Machine, k: FileKey)
    requires Inv(m) && k in m.cache
    ensures Inv(CacheDropped(m, k)) && SameContent(m, CacheDropped(m, k))
  {
    var g, m' := InMemory(m.cache[k]), CacheDropped(m, k);
    CachedIsFile(m, k);
    CachedNotWritable(m, g);
    assert CellOk(m, g) && OtherOk(m, g);
    DroppedCaches(m, k);
    CacheInv(m, m', g);
    forall l
      ensures Content(m', l) == Content(m, l)
    {
      if l in m'.cache {
        assert CacheApart(m, k, l);
        CachedIsFile(m, l);
        CachedIsFile(m', l);
      }
    }
  }

  lemma FilesInv(m: Machine, files: map<FileKey, Page>)
    requires Inv(m)
    ensures Inv(m.(files := files))
  {
    var m' := m.(files := files);
    forall q | q in m.spaces
      ensures SameSpace(m, m', q)
    {
    }
    forall q, u | q in m.spaces && u in m.spaces[q].slots
      ensures SameSpace(m, m', q) && SamePage(m, m', q, u)
    {
    }
    SameFramesInv(m, m');
  }

  lemma FileCutInv(m: Machine, k: FileKey, page: Page)
    requires Inv(m)
    ensures Inv(FileCut(m, k, page)) && OnlyContent(m, FileCut(m, k, page), k) && Content(FileCut(m, k, page), k) == page
  {
    if k in m.cache {
      CacheDropInv(m, k);
      FilesInv(CacheDropped(m, k), FileCut(m, k, page).files);
      forall l | l != k
        ensures Content(FileCut(m, k, page), l) == Content(m, l)
      {
        assert Content(CacheDropped(m, k), l) == Content(m, l);
      }
    } else {
      FilesInv(m, FileCut(m, k, page).files);
    }
  }

  /** A page of an address space while the page cache works: its frame stays alive with its data. */
  lemma CacheKeeps(codec: Codec, m: Machine, m': Machine, q: nat, u: nat)
    requires HasPage(m, q, u) && Inv(m') && m'.spaces == m.spaces && SameContent(m, m')
    requires forall f :: f in m.store && f in m'.store ==> m'.store[f].data == m.store[f].data
    ensures HasPage(m', q, u) && Bytes(codec, m', q, u) == Bytes(codec, m, q, u)
  {
    SameBytes(codec, m, m', q, u);
  }

  lemma CacheLoadBytes(codec: Codec, m: Machine, k: FileKey, ppn: nat, q: nat, u: nat)
    requires CanCacheLoad(m, k, ppn) && HasPage(m, q, u)
    ensures var m' := CacheLoaded(m, k, ppn); HasPage(m', q, u) && Bytes(codec, m', q, u) == Bytes(codec, m, q, u)
  {
    CacheLoadInv(m, k, ppn);
    CacheKeeps(codec, m, CacheLoaded(m, k, ppn), q, u);
  }

  lemma CacheDropBytes(codec: Codec, m: Machine, k: FileKey, q: nat, u: nat)
    requires HasPage(m, q, u) && k in m.cache
    ensures var m' := CacheDropped(m, k); HasPage(m', q, u) && Bytes(codec, m', q, u) == Bytes(codec, m, q, u)
  {
    CacheDropInv(m, k);
    CacheKeeps(codec, m, CacheDropped(m, k), q, u);
  }

  lemma FileCutBytes(codec: Codec, m: Machine, k: FileKey, page: Page, q: nat, u: nat)
    requires HasPage(m, q, u) && !Unread(m, q, u, k)
    ensures var m' := FileCut(m, k, page);
            HasPage(m', q, u) && m'.spaces == m.spaces && Bytes(codec, m', q, u) == Bytes(codec, m, q, u)
  {
    var m' := FileCut(m, k, page);
    FileCutInv(m, k, page);
    assert SlotOk(m, q, u) && SlotOk(m', q, u);
    var s := m.spaces[q].slots[u];
    if s.frame == Unallocated && s.file.Some? {
      FileBytesApart(m, m', k, s.file.value);
    }
  }

  ghost predicate FileCutApart(codec: Codec, m: Machine, k: FileKey, page: Page) {
    forall q: nat, u: nat {:trigger SameAt(codec, m, FileCut(m, k, page), q, u)} :: SameAt(codec, m, FileCut(m, k, page), q, u)
  }

  /** Cutting a file off, whatever is read there later, changes no page of any space exactly if no page
      that stands for the part cut off is yet to be read in. */
  lemma FileCutExact(codec: Codec, m: Machine, k: FileKey)
    requires Inv(m)
    ensures (forall page: Page :: FileCutApart(codec, m, k, page)) <==> NoneUnread(m, k)
  {
    if NoneUnread(m, k) {
      forall page: Page
        ensures FileCutApart(codec, m, k, page)
      {
        forall q: nat, u: nat
          ensures SameAt(codec, m, FileCut(m, k, page), q, u)
        {
          if HasPage(m, q, u) {
            assert !Unread(m, q, u, k);
            FileCutBytes(codec, m, k, page, q, u);
          }
        }
      }
    } else {
      var q: nat, u: nat :| Unread(m, q, u, k);
      CutSeen(codec, m, k, q, u);
    }
  }

  lemma CutSeen(codec: Codec, m: Machine, k: FileKey, q: nat, u: nat)
    requires Inv(m) && Unread(m, q, u, k)
    ensures exists page: Page :: !FileCutApart(codec, m, k, page)
  {
    var pos, start := m.spaces[q].slots[u].file.value, k.index * 4096;
    var a := if pos.Offset() < start then start else pos.Offset();
    var i, offset := a - pos.Offset(), a - start;
    var page: Page := Content(m, k)[offset := if Bytes(codec, m, q, u)[i] == 0 then 1 else 0];
    var m' := FileCut(m, k, page);
    FileCutInv(m, k, page);
    FileBytesStore(m, m', k, offset, page[offset], pos, i);
    assert Bytes(codec, m', q, u)[i] == page[offset];
    assert !SameAt(codec, m, m', q, u);
    assert !FileCutApart(codec, m, k, page);
  }

  // ---------------------------------------------------------------- forks and files

  /** After a fork shared a page that is in memory, a store by the kernel through the parent's entry
      changes the child's page too. */
  lemma ForkedStoreSeen(codec: Codec, m: Machine, child: nat, v: nat, parent: nat, offset: nat, byte: bv8)
    requires CanShare(m, child, v, parent) && v in m.spaces[parent].table && offset < PAGE_SIZE
    ensures var forked := Shared(m, child, v, parent);
            && CanKernelStore(forked, parent, v, offset)
            && var after := KernelStored(forked, parent, v, offset, byte);
               HasPage(after, child, v) && Bytes(codec, after, child, v) == Bytes(codec, m, parent, v)[offset := byte]
  {
    var forked := Shared(m, child, v, parent);
    ShareCopies(codec, m, child, v, parent);
    MappedFrame(m, parent, v);
    assert Holds(forked, child, v, forked.spaces[parent].slots[v].frame);
    KernelStoreBytes(codec, forked, parent, v, offset, byte, child, v);
  }

  /** A page of a file that is writable and not read in yet follows a write to the file, even if only the
      page cache has the frame; the fault that reads it in brings the new bytes. */
  lemma UnreadFollows(codec: Codec, m: Machine, k: FileKey, p: nat, v: nat, ppn: nat, size: nat)
    returns (offset: nat, byte: bv8)
    requires Inv(m) && k in m.cache && Unread(m, p, v, k) && InMemory(ppn) !in m.store
    requires var s := m.spaces[p].slots[v]; s.perm.r && s.perm.u && s.perm.w && s.file.value.Offset() <= RoundUp(size)
    ensures CanCacheStore(m, k, offset)
    ensures var written := CacheStored(m, k, offset, byte);
            && CanFault(written, p, v, ppn, size)
            && var after := Faulted(codec, written, p, v, ppn, size);
               && HasPage(after, p, v) && after.spaces[p].slots[v].frame == InMemory(ppn)
               && Bytes(codec, after, p, v) != Bytes(codec, m, p, v)
  {
    offset, byte := UnreadSees(codec, m, k, p, v);
    CachedIsFile(m, k);
    var written := CacheStored(m, k, offset, byte);
    assert SlotOk(m, p, v);
    FaultKeeps(codec, written, p, v, ppn, size, p, v);
    FaultReady(written, p);
  }

  // ---------------------------------------------------------------- file positions

  lemma RefileInv(m: Machine, p: nat, v: nat, pos: FilePos)
    requires CanRefile(m, p, v)
    ensures Inv(Refiled(m, p, v, pos))
  {
    var m' := Refiled(m, p, v, pos);
    assert m'.spaces[p].slots.Keys == m.spaces[p].slots.Keys;
    forall q, u | q in m.spaces && u in m.spaces[q].slots
      ensures SameSpace(m, m', q) && SamePage(m, m', q, u)
    {
    }
    forall q | q in m.spaces
      ensures SameSpace(m, m', q)
    {
    }
    SameFramesInv(m, m');
  }

  /** A new file position changes no page but, perhaps, its own. */
  lemma RefileBytes(codec: Codec, m: Machine, p: nat, v: nat, pos: FilePos, q: nat, u: nat)
    requires CanRefile(m, p, v) && HasPage(m, q, u)
    ensures Keeps(codec, m, p, Refiled(m, p, v, pos), q, u,
                  if (q, u) == (p, v) && m.spaces[p].slots[v].frame == Unallocated then FileBytes(m, pos) else Bytes(codec, m, q, u))
  {
    var m' := Refiled(m, p, v, pos);
    RefileInv(m, p, v, pos);
    assert SlotOk(m, q, u);
    assert SameContent(m, m');
    if (q, u) != (p, v) {
      SameBytes(codec, m, m', q, u);
    } else if m.spaces[p].slots[v].frame == Unallocated {
      SameFileBytes(m, m', pos);
    }
  }

  /** Two positions of the same bytes of the same file. */
  predicate SamePlace(a: FilePos, b: FilePos) {
    a.file == b.file && a.Offset() == b.Offset()
  }

  ghost predicate OwnSame(codec: Codec, m: Machine, p: nat, v: nat, pos: FilePos) {
    CanRefile(m, p, v) ==> SameAt(codec, m, Refiled(m, p, v, pos), p, v)
  }

  /** The same address spaces over other files. */
  ghost predicate OtherFiles(codec: Codec, m: Machine, m': Machine, p: nat, v: nat, pos: FilePos) {
    Inv(m') && m'.spaces == m.spaces ==> OwnSame(codec, m', p, v, pos)
  }

  /** The page keeps its bytes, whatever files hold, exactly if it is in a frame already or its new
      position is the same place. */
  lemma RefileExact(codec: Codec, m: Machine, p: nat, v: nat, pos: FilePos)
    requires CanRefile(m, p, v)
    ensures (forall m': Machine :: OtherFiles(codec, m, m', p, v, pos)) <==>
            m.spaces[p].slots[v].frame != Unallocated || SamePlace(m.spaces[p].slots[v].file.value, pos)
  {
    var s := m.spaces[p].slots[v];
    if s.frame != Unallocated || SamePlace(s.file.value, pos) {
      forall m': Machine
        ensures OtherFiles(codec, m, m', p, v, pos)
      {
        if Inv(m') && m'.spaces == m.spaces {
          RefileBytes(codec, m', p, v, pos, p, v);
          assert s.frame == Unallocated ==> FileBytes(m', pos) == FileBytes(m', s.file.value);
        }
      }
    } else {
      RefileSeen(codec, m, p, v, pos);
    }
  }

  /** Files in which the new position starts with a byte the old one does not. */
  lemma RefileSeen(codec: Codec, m: Machine, p: nat, v: nat, pos: FilePos)
    requires CanRefile(m, p, v) && m.spaces[p].slots[v].frame == Unallocated
    requires !SamePlace(m.spaces[p].slots[v].file.value, pos)
    ensures exists m': Machine :: !OtherFiles(codec, m, m', p, v, pos)
  {
    var k, was := KeyOf(pos), m.spaces[p].slots[v].file.value;
    var page: Page := ZeroPage()[pos.Offset() % 4096 := 1];
    var m' := m.(cache := map[], files := map[k := page]);
    NoCacheInv(m, m'.files);
    RefileBytes(codec, m', p, v, pos, p, v);
    OneByte(m', pos, was);
    assert !OtherFiles(codec, m, m', p, v, pos);
  }

  lemma SameRest(a: nat, b: nat)
    requires a / 4096 == b / 4096 && a % 4096 == b % 4096
    ensures a == b
  {
  }

  lemma OneByte(m: Machine, pos: FilePos, was: FilePos)
    requires m.cache == map[] && m.files == map[KeyOf(pos) := ZeroPage()[pos.Offset() % 4096 := 1]] && !SamePlace(was, pos)
    ensures FileBytes(m, pos)[0] == 1 && FileBytes(m, was)[0] == 0
  {
    assert FileBytes(m, pos)[0] == FileByte(m, pos.file, pos.Offset() + 0);
    assert FileBytes(m, was)[0] == FileByte(m, was.file, was.Offset() + 0);
    if KeyOf(was) == KeyOf(pos) && was.Offset() % 4096 == pos.Offset() % 4096 {
      SameRest(was.Offset(), pos.Offset());
    }
  }

  lemma NoCacheInv(m: Machine, files: map<FileKey, Page>)
    requires Inv(m)
    ensures Inv(m.(cache := map[], files := files))
  {
    var m' := m.(cache := map[], files := files);
    forall q, u | q in m'.spaces && u in m'.spaces[q].slots
      ensures SlotOk(m', q, u)
    {
      assert SlotOk(m, q, u);
    }
    forall f | f in m'.store
      ensures CellOk(m', f)
    {
      assert CellOk(m, f);
      SameHolders(m, m', f);
    }
    forall q | q in m'.spaces
      ensures TableOk(m', q)
    {
      assert TableOk(m, q);
    }
    forall f | f in m'.others
      ensures OtherOk(m', f)
    {
      assert OtherOk(m, f);
    }
  }
}
