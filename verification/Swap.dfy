/** The swap device: a bitmap of pages and the disk blocks behind them. A page is eight blocks of
    512 bytes. */
module Swap {
  import opened Basics
  import opened Bitmaps

  type Block = seq<bv8>

  /** Block `k` of page `id`. */
  function BlockAt(blockIds: seq<nat>, id: nat, k: nat): nat
    requires 8 * id + 8 <= |blockIds| && k < 8
  {
    blockIds[8 * id + k]
  }

  function First(blockIds: seq<nat>, id: nat): nat
    requires 8 * id + 8 <= |blockIds|
  {
    BlockAt(blockIds, id, 0)
  }

  /** The eight blocks of a page follow each other on the disk. */
  ghost predicate GroupOk(blockIds: seq<nat>, size: nat, id: nat)
    requires 8 * id + 8 <= |blockIds|
  {
    First(blockIds, id) + 8 <= size && forall k: nat :: k < 8 ==> BlockAt(blockIds, id, k) == First(blockIds, id) + k
  }

  /** No block was handed out twice. */
  ghost predicate NoBlockTwice(blockIds: seq<nat>) {
    forall x, y :: 0 <= x < y < |blockIds| ==> blockIds[x] != blockIds[y]
  }

  lemma GroupsMeet(blockIds: seq<nat>, size: nat, i: nat, j: nat)
    requires 8 * i + 8 <= |blockIds| && 8 * j + 8 <= |blockIds| && GroupOk(blockIds, size, i) && GroupOk(blockIds, size, j)
    requires First(blockIds, i) <= First(blockIds, j) < First(blockIds, i) + 8
    ensures var k := First(blockIds, j) - First(blockIds, i); blockIds[8 * i + k] == blockIds[8 * j]
  {
    assert BlockAt(blockIds, i, First(blockIds, j) - First(blockIds, i)) == First(blockIds, j);
  }

  lemma GroupsApart(blockIds: seq<nat>, size: nat, i: nat, j: nat)
    requires 8 * i + 8 <= |blockIds| && 8 * j + 8 <= |blockIds| && i != j
    requires NoBlockTwice(blockIds) && GroupOk(blockIds, size, i) && GroupOk(blockIds, size, j)
    ensures First(blockIds, i) + 8 <= First(blockIds, j) || First(blockIds, j) + 8 <= First(blockIds, i)
  {
    if First(blockIds, i) <= First(blockIds, j) < First(blockIds, i) + 8 {
      GroupsMeet(blockIds, size, i, j);
      assert false;
    } else if First(blockIds, j) <= First(blockIds, i) < First(blockIds, j) + 8 {
      GroupsMeet(blockIds, size, j, i);
      assert false;
    }
  }

  /** `disk'` is `disk` with the first `n` blocks of `page` written from block `first` on. */
  ghost predicate Written(disk: seq<Block>, first: nat, page: seq<Block>, n: nat, disk': seq<Block>) {
    && n <= |page| && first + n <= |disk| && |disk'| == |disk|
    && forall b {:trigger disk'[b]} :: 0 <= b < |disk| ==> disk'[b] == if first <= b < first + n then page[b - first] else disk[b]
  }

  ghost predicate AllUsed(bitmap: seq<Word>) {
    forall id: nat :: id < 64 * |bitmap| ==> Used(bitmap, id)
  }

  /** The blocks of every page are where they should be. */
  ghost predicate LayoutOk(blockIds: seq<nat>, size: nat, pages: nat) {
    && |blockIds| == 8 * pages && NoBlockTwice(blockIds)
    && (forall id: nat {:trigger GroupOk(blockIds, size, id)} :: id < pages ==> GroupOk(blockIds, size, id))
  }

  function PageOf(disk: seq<Block>, blockIds: seq<nat>, id: nat): seq<Block>
    requires 8 * id + 8 <= |blockIds| && First(blockIds, id) + 8 <= |disk|
  {
    disk[First(blockIds, id)..First(blockIds, id) + 8]
  }

  /** Writing one page changes no other. */
  lemma WriteKeeps(disk: seq<Block>, disk': seq<Block>, blockIds: seq<nat>, id: nat, page: seq<Block>, j: nat)
    requires NoBlockTwice(blockIds) && 8 * id + 8 <= |blockIds| && 8 * j + 8 <= |blockIds| && |page| == 8
    requires GroupOk(blockIds, |disk|, id) && GroupOk(blockIds, |disk|, j)
    requires Written(disk, First(blockIds, id), page, 8, disk')
    ensures PageOf(disk', blockIds, j) == if j == id then page else PageOf(disk, blockIds, j)
  {
    if j != id {
      GroupsApart(blockIds, |disk|, id, j);
    }
  }

  /** The pages stored, by id. */
  ghost function Stored(bitmap: seq<Word>, blockIds: seq<nat>, disk: seq<Block>): (r: map<nat, seq<Block>>)
    requires LayoutOk(blockIds, |disk|, 64 * |bitmap|)
  {
    map id: nat | id < 64 * |bitmap| && Used(bitmap, id) :: assert GroupOk(blockIds, |disk|, id); PageOf(disk, blockIds, id)
  }

  lemma WriteStored(bitmap: seq<Word>, blockIds: seq<nat>, disk: seq<Block>, disk': seq<Block>, id: nat, page: seq<Block>)
    requires LayoutOk(blockIds, |disk|, 64 * |bitmap|) && id < 64 * |bitmap| && |page| == 8
    requires Written(disk, First(blockIds, id), page, 8, disk')
    ensures Stored(SetBit(bitmap, id), blockIds, disk') == Stored(bitmap, blockIds, disk)[id := page]
  {
    var before, after := Stored(bitmap, blockIds, disk), Stored(SetBit(bitmap, id), blockIds, disk');
    assert GroupOk(blockIds, |disk|, id);
    forall j: nat | j < 64 * |bitmap|
      ensures j in after <==> j == id || j in before
      ensures j in after ==> after[j] == if j == id then page else before[j]
    {
      SetUsed(bitmap, id, j);
      assert GroupOk(blockIds, |disk|, j);
      WriteKeeps(disk, disk', blockIds, id, page, j);
    }
    assert after.Keys == before.Keys + {id};
  }

  class Device {
    var bitmap: seq<Word>
    var blockIds: seq<nat>
    var disk: seq<Block>

    ghost predicate Valid()
      reads this
    {
      LayoutOk(blockIds, |disk|, 64 * |bitmap|)
    }

    ghost function Contents(): map<nat, seq<Block>>
      reads this
      requires Valid()
    {
      Stored(bitmap, blockIds, disk)
    }

    constructor (words: nat, blocks: seq<nat>, image: seq<Block>)
      requires LayoutOk(blocks, |image|, 64 * words)
      ensures Valid() && |bitmap| == words && Contents() == map[]
    {
      bitmap, blockIds, disk := seq(words, _ => ZeroWord()), blocks, image;
    }

    /** The lowest id not in use. */
    method AllocPage() returns (r: Option<nat>)
      ensures r.None? <==> AllUsed(bitmap)
      ensures r.Some? ==> r.value < 64 * |bitmap| && !Used(bitmap, r.value) && forall id: nat :: id < r.value ==> Used(bitmap, id)
    {
      for i := 0 to |bitmap|
        invariant forall id: nat :: id < 64 * i ==> Used(bitmap, id)
      {
        FullBits(bitmap, i);
        if !Full(bitmap[i]) {
          var free := TrailingOnes(bitmap[i], 0);
          var id := i * 64 + free;
          assert id / 64 == i && id % 64 == free && !Used(bitmap, id);
          forall j: nat | j < id
            ensures Used(bitmap, j)
          {
            if j >= 64 * i {
              assert j / 64 == i && bitmap[i][j - 64 * i];
            }
          }
          return Some(id);
        }
      }
      r := None;
    }

    /** `write`: the page is stored under an id not in use, and every page in use keeps its content.
        Without room the kernel panics. */
    method Write(page: seq<Block>) returns (r: Option<nat>)
      requires Valid() && |page| == 8
      modifies this
      ensures Valid() && |bitmap| == |old(bitmap)|
      ensures r.None? <==> AllUsed(old(bitmap))
      ensures r.None? ==> Contents() == old(Contents())
      ensures r.Some? ==> r.value < 64 * |bitmap| && r.value !in old(Contents()) && Contents() == old(Contents())[r.value := page]
    {
      r := AllocPage();
      match r
      case None =>
      case Some(id) =>
        assert GroupOk(blockIds, |disk|, id);
        WritePage(First(blockIds, id), page);
        WriteStored(bitmap, blockIds, old(disk), disk, id, page);
        bitmap := SetBit(bitmap, id);
    }

    method WritePage(first: nat, page: seq<Block>)
      requires |page| == 8 && first + 8 <= |disk|
      modifies this`disk
      ensures Written(old(disk), first, page, 8, disk)
    {
      for n := 0 to 8
        invariant Written(old(disk), first, page, n, disk)
      {
        disk := disk[first + n := page[n]];
      }
    }

    /** `read` of an id in use. */
    method Read(id: nat) returns (page: seq<Block>)
      requires Valid() && id in Contents()
      ensures page == Contents()[id]
    {
      assert GroupOk(blockIds, |disk|, id);
      page := PageOf(disk, blockIds, id);
    }

    method Discard(id: nat)
      requires Valid() && id < 64 * |bitmap|
      modifies this
      ensures Valid() && |bitmap| == |old(bitmap)| && Contents() == old(Contents()) - {id}
    {
      ghost var before := Contents();
      bitmap := ClearBit(bitmap, id);
      forall j: nat | j < 64 * |bitmap|
        ensures Used(bitmap, j) <==> j != id && Used(old(bitmap), j)
      {
        ClearUsed(old(bitmap), id, j);
      }
      assert Contents() == before - {id};
    }
  }
}
