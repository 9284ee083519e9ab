/** A page of a file in memory, read and written back in runs of consecutive disk blocks. */
module PageCache {
  type Block = seq<bv8>

  function ZeroBlock(size: nat): Block { seq(size, _ => 0) }

  /** The first `n` blocks of the page written one at a time, in list order. */
  function WriteEach(disk: seq<Block>, ids: seq<nat>, page: seq<Block>, n: nat): (r: seq<Block>)
    requires n <= |ids| && n <= |page| && forall k :: 0 <= k < |ids| ==> ids[k] < |disk|
    ensures |r| == |disk|
  {
    if n == 0 then disk else WriteEach(disk, ids, page, n - 1)[ids[n - 1] := page[n - 1]]
  }

  /** What the device does with a buffer of several blocks. */
  function WriteRun(disk: seq<Block>, start: nat, data: seq<Block>): seq<Block>
    requires start + |data| <= |disk|
  {
    disk[..start] + data + disk[start + |data|..]
  }

  /** A run of the list: `n` entries from `from` on that name consecutive blocks. */
  ghost predicate IsRun(ids: seq<nat>, from: nat, start: nat, n: nat) {
    from + n <= |ids| && forall k {:trigger ids[k]} :: from <= k < from + n ==> ids[k] == start + (k - from)
  }

  lemma RunGrows(disk: seq<Block>, start: nat, data: seq<Block>, x: Block)
    requires start + |data| < |disk|
    ensures WriteRun(disk, start, data)[start + |data| := x] == WriteRun(disk, start, data + [x])
  {
  }

  lemma EmptyRun(disk: seq<Block>, start: nat)
    requires start <= |disk|
    ensures WriteRun(disk, start, []) == disk
  {
  }

  /** Writing a run at once is writing its blocks in order. */
  lemma {:induction false} RunIsEach(disk: seq<Block>, ids: seq<nat>, page: seq<Block>, from: nat, start: nat, n: nat)
    requires IsRun(ids, from, start, n) && from + n <= |page| && start + n <= |disk|
    requires forall k :: 0 <= k < |ids| ==> ids[k] < |disk|
    ensures WriteEach(disk, ids, page, from + n) == WriteRun(WriteEach(disk, ids, page, from), start, page[from..from + n])
  {
    var before := WriteEach(disk, ids, page, from);
    if n == 0 {
      EmptyRun(before, start);
      assert page[from..from] == [];
    } else {
      var last := from + n - 1;
      RunIsEach(disk, ids, page, from, start, n - 1);
      assert ids[last] == start + n - 1;
      var data := page[from..last];
      assert |data| == n - 1;
      RunGrows(before, start, data, page[last]);
      SliceGrows(page, from, last);
    }
  }

  lemma SliceGrows(page: seq<Block>, from: nat, last: nat)
    requires from <= last < |page|
    ensures page[from..last] + [page[last]] == page[from..last + 1]
  {
  }

  /** Entry `k` of the list is the last one for its block. */
  predicate LastFor(ids: seq<nat>, k: nat) {
    k < |ids| && forall l :: k < l < |ids| ==> ids[l] != ids[k]
  }

  /** `page` is the page cut into blocks: eight of 512 bytes, or one of 4096. */
  class Page {
    const blockSize: nat
    var page: seq<Block>

    constructor (blockSize: nat, content: seq<Block>)
      ensures page == content && this.blockSize == blockSize
    {
      this.blockSize := blockSize;
      page := content;
    }

    /** `read_in`: an empty list leaves the page alone. */
    method ReadIn(ids: seq<nat>, disk: seq<Block>)
      requires |ids| <= |page| && forall k :: 0 <= k < |ids| ==> ids[k] < |disk|
      modifies this
      ensures ids == [] ==> page == old(page)
      ensures |page| == |old(page)|
      ensures ids != [] ==> forall k :: 0 <= k < |ids| ==> page[k] == disk[ids[k]]
      ensures ids != [] ==> forall k :: |ids| <= k < |page| ==> |page[k]| == blockSize && forall j :: 0 <= j < blockSize ==> page[k][j] == 0
    {
      if ids == [] {
        return;
      }
      var start, run, from := 0, 0, 0;
      for i := 0 to |ids|
        invariant |page| == |old(page)| && from + run == i && (i > 0 ==> run > 0) && IsRun(ids, from, start, run)
        invariant forall k :: 0 <= k < from ==> page[k] == disk[ids[k]]
      {
        if run == 0 {
          start := ids[i];
          run := 1;
        } else if ids[i] != start + run {
          Fill(ids, from, start, run, disk);
          from := from + run;
          start := ids[i];
          run := 1;
        } else {
          run := run + 1;
        }
      }
      Fill(ids, from, start, run, disk);
      page := page[..|ids|] + seq(|page| - |ids|, _ => ZeroBlock(blockSize));
    }

    /** Read one run into its place. */
    method Fill(ghost ids: seq<nat>, from: nat, start: nat, run: nat, disk: seq<Block>)
      requires from + run <= |page| && run > 0 && IsRun(ids, from, start, run)
      requires forall k :: 0 <= k < |ids| ==> ids[k] < |disk|
      modifies this
      ensures |page| == |old(page)| && forall k :: 0 <= k < |page| ==>
                page[k] == if from <= k < from + run && k < |ids| && ids[k] < |disk| then disk[ids[k]] else old(page)[k]
    {
      assert ids[from + run - 1] == start + run - 1;
      page := page[..from] + disk[start..start + run] + page[from + run..];
    }

    /** `write_back`: the disk as if each block had been written in list order, duplicates included. */
    method WriteBack(ids: seq<nat>, disk: seq<Block>) returns (disk': seq<Block>)
      requires |ids| <= |page| && forall k :: 0 <= k < |ids| ==> ids[k] < |disk|
      ensures disk' == WriteEach(disk, ids, page, |ids|) && |disk'| == |disk|
      ensures forall b :: 0 <= b < |disk| && b !in ids ==> disk'[b] == disk[b]
      ensures forall k: nat {:trigger LastFor(ids, k)} :: LastFor(ids, k) ==> disk'[ids[k]] == page[k]
    {
      WriteEachIs(disk, ids, page);
      disk' := WriteRuns(ids, disk);
    }

    /** The loop over runs of consecutive blocks. */
    method WriteRuns(ids: seq<nat>, disk: seq<Block>) returns (disk': seq<Block>)
      requires |ids| <= |page| && forall k :: 0 <= k < |ids| ==> ids[k] < |disk|
      ensures disk' == WriteEach(disk, ids, page, |ids|)
    {
      disk' := disk;
      if ids == [] {
        return;
      }
      var start, run, from := 0, 0, 0;
      for i := 0 to |ids|
        invariant from + run == i && (i > 0 ==> run > 0) && IsRun(ids, from, start, run)
        invariant disk' == WriteEach(disk, ids, page, from)
      {
        if run == 0 {
          start := ids[i];
          run := 1;
        } else if ids[i] != start + run {
          assert ids[from + run - 1] == start + run - 1;
          RunIsEach(disk, ids, page, from, start, run);
          disk' := WriteRun(disk', start, page[from..from + run]);
          from := from + run;
          start := ids[i];
          run := 1;
        } else {
          run := run + 1;
        }
      }
      assert ids[from + run - 1] == start + run - 1;
      RunIsEach(disk, ids, page, from, start, run);
      disk' := WriteRun(disk', start, page[from..from + run]);
    }
  }

  /** Writing back what was read in changes nothing, even if blocks occur twice. */
  lemma {:induction false} ReadWriteBack(disk: seq<Block>, ids: seq<nat>, page: seq<Block>, n: nat)
    requires n <= |ids| <= |page| && forall k :: 0 <= k < |ids| ==> ids[k] < |disk| && page[k] == disk[ids[k]]
    ensures WriteEach(disk, ids, page, n) == disk
  {
    if n > 0 {
      ReadWriteBack(disk, ids, page, n - 1);
    }
  }

  /** A block holds afterwards the last of what was written to it. */
  lemma {:induction false} WriteLast(disk: seq<Block>, ids: seq<nat>, page: seq<Block>, n: nat, k: nat)
    requires k < n <= |ids| && n <= |page| && forall j :: 0 <= j < |ids| ==> ids[j] < |disk|
    requires forall l :: k < l < n ==> ids[l] != ids[k]
    ensures WriteEach(disk, ids, page, n)[ids[k]] == page[k]
  {
    if k < n - 1 {
      WriteLast(disk, ids, page, n - 1, k);
    }
  }

  /** A block that is not listed is not written. */
  lemma {:induction false} WriteOthers(disk: seq<Block>, ids: seq<nat>, page: seq<Block>, n: nat)
    requires n <= |ids| && n <= |page| && forall j :: 0 <= j < |ids| ==> ids[j] < |disk|
    ensures forall b :: 0 <= b < |disk| && b !in ids ==> WriteEach(disk, ids, page, n)[b] == disk[b]
  {
    if n > 0 {
      WriteOthers(disk, ids, page, n - 1);
      assert ids[n - 1] in ids;
    }
  }

  /** Every block afterwards: the last of what was written to it, else what it held. */
  lemma WriteEachIs(disk: seq<Block>, ids: seq<nat>, page: seq<Block>)
    requires |ids| <= |page| && forall j :: 0 <= j < |ids| ==> ids[j] < |disk|
    ensures forall b :: 0 <= b < |disk| && b !in ids ==> WriteEach(disk, ids, page, |ids|)[b] == disk[b]
    ensures forall k: nat {:trigger LastFor(ids, k)} :: LastFor(ids, k) ==> WriteEach(disk, ids, page, |ids|)[ids[k]] == page[k]
  {
    WriteOthers(disk, ids, page, |ids|);
    forall k: nat | LastFor(ids, k)
      ensures WriteEach(disk, ids, page, |ids|)[ids[k]] == page[k]
    {
      WriteLast(disk, ids, page, |ids|, k);
    }
  }

  ghost predicate Agree(ids: seq<nat>, page: seq<Block>, k: nat, l: nat) {
    k < |ids| <= |page| && l < |ids| && ids[k] == ids[l] ==> page[k] == page[l]
  }

  ghost predicate AllAgree(ids: seq<nat>, page: seq<Block>) {
    forall k: nat, l: nat {:trigger Agree(ids, page, k, l)} :: Agree(ids, page, k, l)
  }

  ghost predicate ReadsBack(disk: seq<Block>, ids: seq<nat>, page: seq<Block>, k: nat) {
    k < |ids| <= |page| ==> ids[k] < |disk| && disk[ids[k]] == page[k]
  }

  ghost predicate AllReadBack(disk: seq<Block>, ids: seq<nat>, page: seq<Block>) {
    forall k: nat {:trigger ReadsBack(disk, ids, page, k)} :: ReadsBack(disk, ids, page, k)
  }

  /** Reading in again gives back the page that was written exactly if blocks that occur twice were
      given the same content. */
  lemma WriteReadIn(disk: seq<Block>, ids: seq<nat>, page: seq<Block>)
    requires |ids| <= |page| && forall k :: 0 <= k < |ids| ==> ids[k] < |disk|
    ensures AllReadBack(WriteEach(disk, ids, page, |ids|), ids, page) <==> AllAgree(ids, page)
  {
    var after := WriteEach(disk, ids, page, |ids|);
    if AllReadBack(after, ids, page) {
      forall k: nat, l: nat
        ensures Agree(ids, page, k, l)
      {
        assert ReadsBack(after, ids, page, k) && ReadsBack(after, ids, page, l);
      }
    }
    if AllAgree(ids, page) {
      forall k: nat
        ensures ReadsBack(after, ids, page, k)
      {
        if k < |ids| {
          var l := LastOf(ids, k, |ids|);
          WriteLast(disk, ids, page, |ids|, l);
          assert Agree(ids, page, k, l);
        }
      }
    }
  }

  /** The last occurrence of the block at `k`. */
  lemma {:induction false} LastOf(ids: seq<nat>, k: nat, n: nat) returns (l: nat)
    requires k < n <= |ids|
    ensures k <= l < n && ids[l] == ids[k] && forall j :: l < j < n ==> ids[j] != ids[l]
    decreases n
  {
    if ids[n - 1] == ids[k] {
      l := n - 1;
    } else {
      l := LastOf(ids, k, n - 1);
    }
  }
}
