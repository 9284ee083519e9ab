/** The write-back cache of disk blocks. */
module BlockCache {
  import opened Basics

  type Block = seq<bv8>

  const PRIORITY_UPPERBOUND := 1

  /** One buffer of the pool. `pins` counts the handles given out besides the pool's own; a buffer
      with no block is unused. */
  datatype Buffer = Buffer(priority: nat, block: Option<nat>, dirty: bool, data: Block, pins: nat)

  /** What a reader of block `b` finds: the buffer that caches it, else the disk. */
  function Lookup(pool: seq<Buffer>, disk: seq<Block>, b: nat, n: nat): Block
    requires n <= |pool| && b < |disk|
  {
    if n == 0 then disk[b]
    else if pool[n - 1].block == Some(b) then pool[n - 1].data
    else Lookup(pool, disk, b, n - 1)
  }

  function Logical(pool: seq<Buffer>, disk: seq<Block>, b: nat): Block
    requires b < |disk|
  {
    Lookup(pool, disk, b, |pool|)
  }

  ghost predicate BufferOk(pool: seq<Buffer>, disk: seq<Block>, i: nat)
    requires i < |pool|
  {
    var buf := pool[i];
    && buf.priority <= 1
    && match buf.block
       case Some(b) => b < |disk| && (!buf.dirty ==> buf.data == disk[b])
       case None => !buf.dirty && buf.pins == 0
  }

  ghost predicate Differ(pool: seq<Buffer>, i: nat, j: nat)
    requires i < |pool| && j < |pool|
  {
    pool[i].block.Some? ==> pool[i].block != pool[j].block
  }

  /** No block is cached twice, a clean buffer equals the disk, and a handle keeps its block. */
  ghost predicate Inv(pool: seq<Buffer>, disk: seq<Block>) {
    && (forall i: nat {:trigger BufferOk(pool, disk, i)} :: i < |pool| ==> BufferOk(pool, disk, i))
    && (forall i: nat, j: nat {:trigger Differ(pool, i, j)} :: i < j < |pool| ==> Differ(pool, i, j))
  }

  ghost predicate SameAt(pool: seq<Buffer>, disk: seq<Block>, pool': seq<Buffer>, disk': seq<Block>, b: nat)
    requires |disk'| == |disk|
  {
    b < |disk| ==> Logical(pool', disk', b) == Logical(pool, disk, b)
  }

  /** No block changes its content. */
  ghost predicate Same(pool: seq<Buffer>, disk: seq<Block>, pool': seq<Buffer>, disk': seq<Block>) {
    |disk'| == |disk| && forall b: nat {:trigger SameAt(pool, disk, pool', disk', b)} :: SameAt(pool, disk, pool', disk', b)
  }

  lemma {:induction false} LookupHit(pool: seq<Buffer>, disk: seq<Block>, b: nat, i: nat, n: nat)
    requires Inv(pool, disk) && i < n <= |pool| && pool[i].block == Some(b) && b < |disk|
    ensures Lookup(pool, disk, b, n) == pool[i].data
  {
    if i < n - 1 {
      assert Differ(pool, i, n - 1);
      LookupHit(pool, disk, b, i, n - 1);
    }
  }

  lemma {:induction false} LookupMiss(pool: seq<Buffer>, disk: seq<Block>, b: nat, n: nat)
    requires n <= |pool| && b < |disk| && forall i :: 0 <= i < n ==> pool[i].block != Some(b)
    ensures Lookup(pool, disk, b, n) == disk[b]
  {
    if n > 0 {
      LookupMiss(pool, disk, b, n - 1);
    }
  }

  /** Buffer `i` changes in a way that block `b` does not see. */
  lemma {:induction false} LookupOther(pool: seq<Buffer>, disk: seq<Block>, disk': seq<Block>, b: nat, i: nat, buf: Buffer, n: nat)
    requires n <= |pool| && i < |pool| && b < |disk| == |disk'| && disk'[b] == disk[b]
    requires pool[i].block != Some(b) && buf.block != Some(b)
    ensures Lookup(pool[i := buf], disk', b, n) == Lookup(pool, disk, b, n)
  {
    if n > 0 {
      LookupOther(pool, disk, disk', b, i, buf, n - 1);
    }
  }

  lemma SameSelf(pool: seq<Buffer>, disk: seq<Block>)
    ensures Same(pool, disk, pool, disk)
  {
    forall b: nat
      ensures SameAt(pool, disk, pool, disk, b)
    {
    }
  }

  lemma SameTwice(p0: seq<Buffer>, d0: seq<Block>, p1: seq<Buffer>, d1: seq<Block>, p2: seq<Buffer>, d2: seq<Block>)
    requires Same(p0, d0, p1, d1) && Same(p1, d1, p2, d2)
    ensures Same(p0, d0, p2, d2)
  {
    forall b: nat
      ensures SameAt(p0, d0, p2, d2, b)
    {
      assert SameAt(p0, d0, p1, d1, b) && SameAt(p1, d1, p2, d2, b);
    }
  }

  // ---------------------------------------------------------------- one buffer changes

  /** The invariant after buffer `i` became `buf` and, perhaps, its block was written. */
  lemma ReplaceInv(pool: seq<Buffer>, disk: seq<Block>, i: nat, pool': seq<Buffer>, disk': seq<Block>)
    requires Inv(pool, disk) && i < |pool| == |pool'| && |disk'| == |disk|
    requires (forall j :: 0 <= j < |pool| && j != i ==> pool'[j] == pool[j]) && BufferOk(pool', disk', i)
    requires forall j: nat {:trigger Differ(pool', i, j)} :: j < |pool| && j != i ==> Differ(pool', i, j)
    requires forall j: nat :: j < |pool| && j != i && pool[j].block.Some? && pool[j].block.value < |disk| ==>
               disk'[pool[j].block.value] == disk[pool[j].block.value]
    ensures Inv(pool', disk')
  {
    forall j: nat | j < |pool'|
      ensures BufferOk(pool', disk', j)
    {
      assert BufferOk(pool, disk, j);
    }
    forall j: nat, k: nat | j < k < |pool'|
      ensures Differ(pool', j, k)
    {
      assert Differ(pool, j, k);
      assert Differ(pool', i, if j == i then k else j) || (j != i && k != i);
    }
  }

  /** One buffer of the sweep: pinned ones are skipped, others lose priority or are released. */
  function Swept(buf: Buffer): Buffer {
    if buf.pins > 0 then buf
    else if buf.priority > 0 then buf.(priority := buf.priority - 1)
    else buf.(dirty := false, block := None)
  }

  function SweptDisk(buf: Buffer, disk: seq<Block>): seq<Block> {
    match buf.block
    case Some(b) => if buf.pins == 0 && buf.priority == 0 && buf.dirty && b < |disk| then disk[b := buf.data] else disk
    case None => disk
  }

  /** A buffer is released only after its block is on the disk. */
  lemma SweepKeeps(pool: seq<Buffer>, disk: seq<Block>, i: nat)
    requires Inv(pool, disk) && i < |pool|
    ensures var pool', disk' := pool[i := Swept(pool[i])], SweptDisk(pool[i], disk);
            Inv(pool', disk') && Same(pool, disk, pool', disk')
  {
    var buf := pool[i];
    var buf', disk' := Swept(buf), SweptDisk(buf, disk);
    var pool' := pool[i := buf'];
    assert BufferOk(pool, disk, i);
    forall j: nat | j < |pool| && j != i
      ensures Differ(pool', i, j)
      ensures pool[j].block.Some? && pool[j].block.value < |disk| ==> disk'[pool[j].block.value] == disk[pool[j].block.value]
    {
      assert if i < j then Differ(pool, i, j) else Differ(pool, j, i);
    }
    ReplaceInv(pool, disk, i, pool', disk');
    forall b: nat
      ensures SameAt(pool, disk, pool', disk', b)
    {
      if b < |disk| {
        if buf.block == Some(b) {
          LookupHit(pool, disk, b, i, |pool|);
          if buf'.block == Some(b) {
            LookupHit(pool', disk', b, i, |pool|);
          } else {
            forall j: nat | j < |pool|
              ensures pool'[j].block != Some(b)
            {
              assert j < i ==> Differ(pool, j, i);
              assert j > i ==> Differ(pool, i, j);
            }
            LookupMiss(pool', disk', b, |pool|);
          }
        } else {
          LookupOther(pool, disk, disk', b, i, buf', |pool|);
        }
      }
    }
  }

  /** An unused buffer takes in a block that no buffer caches. */
  lemma LoadKeeps(pool: seq<Buffer>, disk: seq<Block>, i: nat, b: nat, priority: nat, pins: nat)
    requires Inv(pool, disk) && i < |pool| && pool[i].block.None? && b < |disk| && priority <= 1
    requires forall j :: 0 <= j < |pool| ==> pool[j].block != Some(b)
    ensures var pool' := pool[i := Buffer(priority, Some(b), pool[i].dirty, disk[b], pins)];
            Inv(pool', disk) && Same(pool, disk, pool', disk) && Logical(pool, disk, b) == disk[b]
  {
    var buf := Buffer(priority, Some(b), pool[i].dirty, disk[b], pins);
    var pool' := pool[i := buf];
    assert BufferOk(pool, disk, i);
    forall j: nat | j < |pool| && j != i
      ensures Differ(pool', i, j)
    {
    }
    ReplaceInv(pool, disk, i, pool', disk);
    LookupMiss(pool, disk, b, |pool|);
    LookupHit(pool', disk, b, i, |pool|);
    forall c: nat
      ensures SameAt(pool, disk, pool', disk, c)
    {
      if c < |disk| && c != b {
        LookupOther(pool, disk, disk, c, i, buf, |pool|);
      }
    }
  }

  /** Changing the data of a cached block changes that block alone. */
  lemma ModifyKeeps(pool: seq<Buffer>, disk: seq<Block>, i: nat, b: nat, data: Block)
    requires Inv(pool, disk) && i < |pool| && pool[i].block == Some(b)
    ensures var pool' := pool[i := pool[i].(dirty := true, data := data)];
            && Inv(pool', disk) && b < |disk| && Logical(pool', disk, b) == data
            && forall c: nat :: c < |disk| && c != b ==> Logical(pool', disk, c) == Logical(pool, disk, c)
  {
    var buf := pool[i].(dirty := true, data := data);
    var pool' := pool[i := buf];
    assert BufferOk(pool, disk, i);
    forall j: nat | j < |pool| && j != i
      ensures Differ(pool', i, j)
    {
      assert if i < j then Differ(pool, i, j) else Differ(pool, j, i);
    }
    ReplaceInv(pool, disk, i, pool', disk);
    LookupHit(pool', disk, b, i, |pool|);
    forall c: nat | c < |disk| && c != b
      ensures Logical(pool', disk, c) == Logical(pool, disk, c)
    {
      LookupOther(pool, disk, disk, c, i, buf, |pool|);
    }
  }

  /** Priority and handles of a buffer change. */
  lemma TouchKeeps(pool: seq<Buffer>, disk: seq<Block>, i: nat, priority: nat, pins: nat)
    requires Inv(pool, disk) && i < |pool| && pool[i].block.Some? && priority <= 1
    ensures var pool' := pool[i := pool[i].(priority := priority, pins := pins)];
            Inv(pool', disk) && Same(pool, disk, pool', disk)
  {
    var buf := pool[i].(priority := priority, pins := pins);
    var pool' := pool[i := buf];
    assert BufferOk(pool, disk, i);
    forall j: nat | j < |pool| && j != i
      ensures Differ(pool', i, j)
    {
      assert if i < j then Differ(pool, i, j) else Differ(pool, j, i);
    }
    ReplaceInv(pool, disk, i, pool', disk);
    forall c: nat
      ensures SameAt(pool, disk, pool', disk, c)
    {
      if c < |disk| {
        if buf.block == Some(c) {
          LookupHit(pool, disk, c, i, |pool|);
          LookupHit(pool', disk, c, i, |pool|);
        } else {
          LookupOther(pool, disk, disk, c, i, buf, |pool|);
        }
      }
    }
  }

  // ---------------------------------------------------------------- the manager

  /** The disk as readers see it: the simple device that the cache stands for. */
  function Flat(pool: seq<Buffer>, disk: seq<Block>): (r: seq<Block>)
    ensures |r| == |disk|
  {
    seq(|disk|, b requires 0 <= b < |disk| => Logical(pool, disk, b))
  }

  lemma SameFlat(pool: seq<Buffer>, disk: seq<Block>, pool': seq<Buffer>, disk': seq<Block>)
    requires Same(pool, disk, pool', disk')
    ensures Flat(pool', disk') == Flat(pool, disk)
  {
    forall b: nat | b < |disk|
      ensures Flat(pool', disk')[b] == Flat(pool, disk)[b]
    {
      assert SameAt(pool, disk, pool', disk', b);
    }
  }

  /** The buffers before `n` have been swept. */
  ghost predicate SweptTo(pool: seq<Buffer>, pool': seq<Buffer>, n: nat) {
    |pool'| == |pool| && forall j :: 0 <= j < |pool| ==> pool'[j] == if j < n then Swept(pool[j]) else pool[j]
  }

  /** Handles keep what they had. */
  ghost predicate PinsKept(pool: seq<Buffer>, pool': seq<Buffer>) {
    |pool'| == |pool| && forall j :: 0 <= j < |pool| && pool[j].pins > 0 ==> pool'[j] == pool[j]
  }

  /** How many sweeps until an unpinned buffer is free. */
  function SweepsLeft(buf: Buffer): nat {
    if buf.block.None? then 0 else buf.priority + 1
  }

  /** The pool after `n` whole sweeps. */
  function SweepN(pool: seq<Buffer>, n: nat): (r: seq<Buffer>)
    ensures |r| == |pool|
  {
    if n == 0 then pool
    else
      var before := SweepN(pool, n - 1);
      seq(|pool|, j requires 0 <= j < |pool| => Swept(before[j]))
  }

  ghost predicate SomeUnused(pool: seq<Buffer>) {
    exists j :: 0 <= j < |pool| && pool[j].block.None?
  }

  ghost predicate UnusedAfter(pool: seq<Buffer>, n: nat) {
    SomeUnused(SweepN(pool, n))
  }

  ghost predicate AllPinned(pool: seq<Buffer>) {
    forall j :: 0 <= j < |pool| ==> pool[j].pins > 0
  }

  lemma SweptToOnce(pool: seq<Buffer>, pool': seq<Buffer>)
    requires SweptTo(pool, pool', |pool|)
    ensures pool' == SweepN(pool, 1)
  {
    assert SweepN(pool, 0) == pool;
    assert forall j :: 0 <= j < |pool| ==> pool'[j] == SweepN(pool, 1)[j];
  }

  lemma {:induction false} PinnedStays(pool: seq<Buffer>, n: nat)
    requires AllPinned(pool)
    ensures SweepN(pool, n) == pool
  {
    if n > 0 {
      PinnedStays(pool, n - 1);
    }
  }

  /** An unpinned buffer is unused after two sweeps. */
  lemma UnpinnedGoes(pool: seq<Buffer>, disk: seq<Block>, u: nat)
    requires Inv(pool, disk) && u < |pool| && pool[u].pins == 0
    ensures UnusedAfter(pool, 2)
  {
    assert BufferOk(pool, disk, u);
    assert SweepN(pool, 1)[u] == Swept(SweepN(pool, 0)[u]);
    assert SweepN(pool, 2)[u] == Swept(Swept(pool[u]));
  }

  /** The search for an unused buffer goes on for ever, no sweep ever freeing one, exactly if every
      buffer has a handle outside the pool. */
  lemma AllPinnedStuck(pool: seq<Buffer>, disk: seq<Block>)
    requires Inv(pool, disk)
    ensures (forall n: nat :: !UnusedAfter(pool, n)) <==> AllPinned(pool)
  {
    if AllPinned(pool) {
      forall n: nat
        ensures !UnusedAfter(pool, n)
      {
        PinnedStays(pool, n);
        forall j: nat | j < |pool|
          ensures pool[j].block.Some?
        {
          assert BufferOk(pool, disk, j);
        }
      }
    } else {
      var u :| 0 <= u < |pool| && pool[u].pins == 0;
      UnpinnedGoes(pool, disk, u);
    }
  }

  /** One buffer whose only block is held by a reader. */
  lemma OnePinnedStuck(data: Block, n: nat)
    ensures var pool := [Buffer(0, Some(0), false, data, 1)];
            Inv(pool, [data]) && !UnusedAfter(pool, n)
  {
    var pool, disk := [Buffer(0, Some(0), false, data, 1)], [data];
    forall i: nat | i < |pool|
      ensures BufferOk(pool, disk, i)
    {
    }
    PinnedStays(pool, n);
  }

  class Manager {
    var pool: seq<Buffer>
    var disk: seq<Block>

    ghost predicate Valid()
      reads this
    {
      Inv(pool, disk)
    }

    constructor (buffers: nat, image: seq<Block>, blank: Block)
      ensures Valid() && |pool| == buffers && disk == image
      ensures forall b: nat :: b < |image| ==> Logical(pool, disk, b) == image[b]
    {
      pool, disk := seq(buffers, _ => Buffer(0, None, false, blank, 0)), image;
      new;
      forall b: nat | b < |image|
        ensures Logical(pool, disk, b) == image[b]
      {
        LookupMiss(pool, disk, b, |pool|);
      }
    }

    /** `oom`: one sweep over the pool. */
    method Oom()
      requires Valid()
      modifies this
      ensures Valid() && SweptTo(old(pool), pool, |pool|) && pool == SweepN(old(pool), 1) && Same(old(pool), old(disk), pool, disk)
      ensures Flat(pool, disk) == Flat(old(pool), old(disk))
      ensures forall j :: 0 <= j < |pool| ==>
                var buf := old(pool)[j];
                pool[j] == if buf.pins > 0 then buf
                           else if buf.priority > 0 then buf.(priority := buf.priority - 1)
                           else buf.(dirty := false, block := None)
    {
      SameSelf(pool, disk);
      for i := 0 to |pool|
        invariant Valid() && SweptTo(old(pool), pool, i) && Same(old(pool), old(disk), pool, disk)
      {
        var buf := pool[i];
        SweepKeeps(pool, disk, i);
        SameTwice(old(pool), old(disk), pool, disk, pool[i := Swept(buf)], SweptDisk(buf, disk));
        assert BufferOk(pool, disk, i);
        if buf.pins > 0 {
          assert pool[i := buf] == pool;
        } else if buf.priority > 0 {
          pool := pool[i := buf.(priority := buf.priority - 1)];
        } else {
          match buf.block {
            case Some(b) =>
              if buf.dirty {
                disk := disk[b := buf.data];
              }
            case None =>
          }
          pool := pool[i := buf.(dirty := false, block := None)];
        }
      }
      SweptToOnce(old(pool), pool);
      SameFlat(old(pool), old(disk), pool, disk);
    }

    method FindUnused() returns (found: Option<nat>)
      ensures found.None? ==> forall i :: 0 <= i < |pool| ==> pool[i].block.Some?
      ensures found.Some? ==> found.value < |pool| && pool[found.value].block.None?
    {
      for i := 0 to |pool|
        invariant forall j :: 0 <= j < i ==> pool[j].block.Some?
      {
        if pool[i].block.None? {
          return Some(i);
        }
      }
      found := None;
    }

    /** `alloc_buffer_cache`: sweep until a buffer is unused. If some buffer has no handle outside
        the pool, two sweeps are enough; if all are pinned the kernel loops for ever. */
    method AllocBuffer() returns (i: nat, sweeps: nat)
      requires Valid() && exists u :: 0 <= u < |pool| && pool[u].pins == 0
      modifies this
      ensures Valid() && Same(old(pool), old(disk), pool, disk) && PinsKept(old(pool), pool)
      ensures i < |pool| && pool[i].block.None? && sweeps <= 2
      ensures forall j :: 0 <= j < |pool| && pool[j].block.Some? ==> pool[j].block == old(pool)[j].block
    {
      ghost var u :| 0 <= u < |pool| && pool[u].pins == 0;
      ghost var start := pool;
      SameSelf(pool, disk);
      assert BufferOk(pool, disk, u);
      sweeps := 0;
      var found := FindUnused();
      while found.None?
        invariant Valid() && Same(old(pool), old(disk), pool, disk) && PinsKept(start, pool)
        invariant found.Some? ==> 0 <= found.value < |pool| && pool[found.value].block.None?
        invariant found.None? ==> forall j :: 0 <= j < |pool| ==> pool[j].block.Some?
        invariant u < |pool| && pool[u].pins == 0 && sweeps + SweepsLeft(pool[u]) <= 2
        invariant forall j :: 0 <= j < |pool| && pool[j].block.Some? ==> pool[j].block == start[j].block
        decreases SweepsLeft(pool[u])
      {
        ghost var p, d := pool, disk;
        Oom();
        SameTwice(old(pool), old(disk), p, d, pool, disk);
        sweeps := sweeps + 1;
        found := FindUnused();
      }
      i := found.value;
    }

    /** `try_get_block_cache` */
    method TryGet(b: nat) returns (found: Option<nat>)
      requires Valid()
      modifies this
      ensures Valid() && disk == old(disk) && Same(old(pool), old(disk), pool, disk)
      ensures found.None? <==> forall j :: 0 <= j < |old(pool)| ==> old(pool)[j].block != Some(b)
      ensures found.None? ==> pool == old(pool)
      ensures found.Some? ==> found.value < |old(pool)| && old(pool)[found.value].block == Some(b)
      ensures found.Some? ==> pool == old(pool)[found.value := old(pool)[found.value].(priority := 1, pins := old(pool)[found.value].pins + 1)]
    {
      SameSelf(pool, disk);
      for i := 0 to |pool|
        invariant pool == old(pool) && disk == old(disk)
        invariant forall j :: 0 <= j < i ==> pool[j].block != Some(b)
      {
        if pool[i].block == Some(b) {
          assert BufferOk(pool, disk, i);
          TouchKeeps(pool, disk, i, 1, pool[i].pins + 1);
          var priority := if pool[i].priority < PRIORITY_UPPERBOUND then pool[i].priority + 1 else pool[i].priority;
          pool := pool[i := pool[i].(priority := priority, pins := pool[i].pins + 1)];
          return Some(i);
        }
      }
      found := None;
    }

    /** `get_block_cache`: the handle shows the block's content, and no block changes. */
    method Get(b: nat) returns (i: nat)
      requires Valid() && b < |disk|
      requires (exists u :: 0 <= u < |pool| && pool[u].pins == 0) || (exists u :: 0 <= u < |pool| && pool[u].block == Some(b))
      modifies this
      ensures Valid() && |pool| == |old(pool)| && Flat(pool, disk) == Flat(old(pool), old(disk))
      ensures i < |pool| && pool[i].block == Some(b) && pool[i].data == Flat(pool, disk)[b]
      ensures pool[i].pins == old(pool)[i].pins + 1
      ensures forall j :: 0 <= j < |pool| && j != i && old(pool)[j].pins > 0 ==> pool[j] == old(pool)[j]
      ensures old(pool)[i].pins > 0 ==> pool[i].data == old(pool)[i].data && pool[i].block == old(pool)[i].block
    {
      ghost var p, d := pool, disk;
      var found := TryGet(b);
      match found
      case Some(k) =>
        i := k;
        LookupHit(p, d, b, i, |p|);
        SameFlat(p, d, pool, disk);
      case None =>
        var sweeps;
        i, sweeps := AllocBuffer();
        assert SameAt(p, d, pool, disk, b);
        assert BufferOk(pool, disk, i);
        ghost var q, e := pool, disk;
        var priority := if pool[i].priority < PRIORITY_UPPERBOUND then pool[i].priority + 1 else pool[i].priority;
        LoadKeeps(pool, disk, i, b, priority, pool[i].pins + 1);
        pool := pool[i := Buffer(priority, Some(b), pool[i].dirty, disk[b], pool[i].pins + 1)];
        SameTwice(p, d, q, e, pool, disk);
        SameFlat(p, d, pool, disk);
    }

    /** `modify` through a handle. */
    method Modify(i: nat, data: Block)
      requires Valid() && i < |pool| && pool[i].pins > 0
      modifies this
      ensures Valid() && disk == old(disk)
      ensures pool == old(pool)[i := old(pool)[i].(dirty := true, data := data)]
      ensures pool[i].block.Some? && pool[i].block.value < |disk|
      ensures Flat(pool, disk) == Flat(old(pool), disk)[pool[i].block.value := data]
    {
      assert BufferOk(pool, disk, i);
      ModifyKeeps(pool, disk, i, pool[i].block.value, data);
      pool := pool[i := pool[i].(dirty := true, data := data)];
    }

    /** Drop a handle. */
    method Release(i: nat)
      requires Valid() && i < |pool| && pool[i].pins > 0
      modifies this
      ensures Valid() && disk == old(disk) && Flat(pool, disk) == Flat(old(pool), old(disk))
      ensures pool == old(pool)[i := old(pool)[i].(pins := old(pool)[i].pins - 1)]
    {
      assert BufferOk(pool, disk, i);
      TouchKeeps(pool, disk, i, pool[i].priority, pool[i].pins - 1);
      pool := pool[i := pool[i].(pins := pool[i].pins - 1)];
      SameFlat(old(pool), old(disk), pool, disk);
    }
  }
}
