/** The bitmap frame allocator, proved to be an allocator of a finite set of frames. */
module BitmapAlloc {
  import opened Basics
  import opened Bitmaps

  /** The frames whose bits among the first `n` are set. */
  function TakenSet(bitmap: seq<Word>, start: nat, n: nat): set<nat>
    requires n <= 64 * |bitmap|
  {
    if n == 0 then {}
    else if Used(bitmap, n - 1) then TakenSet(bitmap, start, n - 1) + {start + n - 1}
    else TakenSet(bitmap, start, n - 1)
  }

  lemma {:induction false} TakenHas(bitmap: seq<Word>, start: nat, n: nat, p: nat)
    requires n <= 64 * |bitmap|
    ensures p in TakenSet(bitmap, start, n) <==> start <= p < start + n && Used(bitmap, p - start)
  {
    if n > 0 {
      TakenHas(bitmap, start, n - 1, p);
    }
  }

  lemma {:induction false} TakenSize(bitmap: seq<Word>, start: nat, n: nat)
    requires n <= 64 * |bitmap|
    ensures |TakenSet(bitmap, start, n)| == UsedCount(bitmap, n)
  {
    if n > 0 {
      TakenSize(bitmap, start, n - 1);
      TakenHas(bitmap, start, n - 1, start + n - 1);
    }
  }

  lemma TakenSetBit(bitmap: seq<Word>, start: nat, n: nat, i: nat)
    requires i < n <= 64 * |bitmap|
    ensures TakenSet(SetBit(bitmap, i), start, n) == TakenSet(bitmap, start, n) + {start + i}
  {
    var after := SetBit(bitmap, i);
    forall p: nat
      ensures p in TakenSet(after, start, n) <==> p in TakenSet(bitmap, start, n) + {start + i}
    {
      TakenHas(after, start, n, p);
      TakenHas(bitmap, start, n, p);
      if start <= p < start + n {
        SetUsed(bitmap, i, p - start);
      }
    }
  }

  lemma TakenClearBit(bitmap: seq<Word>, start: nat, n: nat, i: nat)
    requires i < n <= 64 * |bitmap|
    ensures TakenSet(ClearBit(bitmap, i), start, n) == TakenSet(bitmap, start, n) - {start + i}
  {
    var after := ClearBit(bitmap, i);
    forall p: nat
      ensures p in TakenSet(after, start, n) <==> p in TakenSet(bitmap, start, n) - {start + i}
    {
      TakenHas(after, start, n, p);
      TakenHas(bitmap, start, n, p);
      if start <= p < start + n {
        ClearUsed(bitmap, i, p - start);
      }
    }
  }

  /** Bits beyond the last frame are set, so no frame is found there. */
  ghost predicate Padded(bitmap: seq<Word>, total: nat) {
    forall i :: total <= i < 64 * |bitmap| ==> Used(bitmap, i)
  }

  ghost predicate FreeRun(bitmap: seq<Word>, s: nat, count: nat)
    requires s + count <= 64 * |bitmap|
  {
    forall i :: s <= i < s + count ==> !Used(bitmap, i)
  }

  function SetRun(bitmap: seq<Word>, s: nat, count: nat): (r: seq<Word>)
    requires s + count <= 64 * |bitmap|
    ensures |r| == |bitmap|
  {
    if count == 0 then bitmap else SetBit(SetRun(bitmap, s, count - 1), s + count - 1)
  }

  lemma {:induction false} SetRunUsed(bitmap: seq<Word>, s: nat, count: nat, j: nat)
    requires s + count <= 64 * |bitmap| && j < 64 * |bitmap|
    ensures Used(SetRun(bitmap, s, count), j) <==> s <= j < s + count || Used(bitmap, j)
  {
    if count > 0 {
      SetRunUsed(bitmap, s, count - 1, j);
      SetUsed(SetRun(bitmap, s, count - 1), s + count - 1, j);
    }
  }

  lemma {:induction false} SetRunCount(bitmap: seq<Word>, s: nat, count: nat, n: nat)
    requires s + count <= n <= 64 * |bitmap| && FreeRun(bitmap, s, count)
    ensures UsedCount(SetRun(bitmap, s, count), n) == UsedCount(bitmap, n) + count
  {
    if count > 0 {
      var prev, i := SetRun(bitmap, s, count - 1), s + count - 1;
      SetRunCount(bitmap, s, count - 1, n);
      SetRunUsed(bitmap, s, count - 1, i);
      assert !Used(bitmap, i) && !Used(prev, i);
      CountSet(prev, i, n);
    }
  }

  lemma {:induction false} TakenSetRun(bitmap: seq<Word>, start: nat, n: nat, s: nat, count: nat)
    requires s + count <= n <= 64 * |bitmap|
    ensures TakenSet(SetRun(bitmap, s, count), start, n) == TakenSet(bitmap, start, n) + Range(start + s, start + s + count)
  {
    if count > 0 {
      TakenSetRun(bitmap, start, n, s, count - 1);
      TakenSetBit(SetRun(bitmap, s, count - 1), start, n, s + count - 1);
    }
  }

  lemma ModOnce(x: nat, n: nat)
    requires 0 < n && x < 2 * n
    ensures x % n == if x < n then x else x - n
  {
    if x >= n {
      assert (x - n + n) % n == (x - n) % n;
    }
  }

  /** A 64-bit counter less one. */
  function Decremented(n: nat): nat {
    if n == 0 then 0xFFFF_FFFF_FFFF_FFFF else n - 1
  }

  /** Clearing a bit that is clear changes nothing. */
  lemma ClearFree(bitmap: seq<Word>, i: nat)
    requires i < 64 * |bitmap| && !Used(bitmap, i)
    ensures ClearBit(bitmap, i) == bitmap
  {
    assert bitmap[i / 64][i % 64 := false] == bitmap[i / 64];
  }

  class BitmapFrameAllocator {
    var bitmap: seq<Word>
    var startPpn: nat
    var totalFrames: nat
    var allocHint: nat
    var allocatedCount: nat

    ghost predicate Valid()
      reads this
    {
      && |bitmap| == (totalFrames + 63) / 64
      && Padded(bitmap, totalFrames)
      && allocatedCount == UsedCount(bitmap, totalFrames)
      && (bitmap != [] ==> allocHint < |bitmap|)
    }

    /** The frames given out. */
    ghost function Taken(): set<nat>
      reads this
      requires Valid()
    {
      TakenSet(bitmap, startPpn, totalFrames)
    }

    /** The frames managed. */
    ghost function All(): set<nat>
      reads this
    {
      Range(startPpn, startPpn + totalFrames)
    }

    constructor ()
      ensures Valid() && All() == {}
    {
      bitmap, startPpn, totalFrames, allocHint, allocatedCount := [], 0, 0, 0, 0;
    }

    method Init(start: nat, end: nat)
      requires start < end
      modifies this
      ensures Valid() && Taken() == {} && All() == Range(start, end) && allocatedCount == 0
    {
      startPpn, totalFrames, allocHint, allocatedCount := start, end - start, 0, 0;
      var words := (totalFrames + 63) / 64;
      bitmap := seq(words, _ => ZeroWord());
      var valid := totalFrames % 64;
      if valid != 0 {
        var mask := seq(64, b => b >= valid);
        bitmap := bitmap[words - 1 := mask];
      }
      forall i: nat | i < 64 * |bitmap|
        ensures Used(bitmap, i) <==> i >= totalFrames
      {
      }
      NoneUsed(bitmap, totalFrames);
      TakenSize(bitmap, startPpn, totalFrames);
    }

    /** Look for a free frame, from the hint on and around the end. */
    method FindFree() returns (found: Option<nat>)
      requires Valid()
      ensures found.None? ==> forall k :: 0 <= k < |bitmap| ==> Full(bitmap[k])
      ensures found.Some? ==> found.value < totalFrames && !Used(bitmap, found.value)
    {
      var n := |bitmap|;
      for offset := 0 to n
        invariant forall k :: 0 <= k < n && Scanned(allocHint, n, offset, k) ==> Full(bitmap[k])
      {
        var w := (allocHint + offset) % n;
        ModOnce(allocHint + offset, n);
        if !Full(bitmap[w]) {
          var b := TrailingOnes(bitmap[w], 0);
          var i := w * 64 + b;
          assert i / 64 == w && i % 64 == b && !Used(bitmap, i);
          if i < totalFrames {
            return Some(i);
          }
        }
      }
      found := None;
    }

    /** Mark frame `i` as taken. */
    method Take(i: nat)
      requires Valid() && i < totalFrames && !Used(bitmap, i)
      modifies this
      ensures Valid() && startPpn == old(startPpn) && totalFrames == old(totalFrames)
      ensures startPpn + i !in old(Taken()) && Taken() == old(Taken()) + {startPpn + i}
    {
      TakenSetBit(bitmap, startPpn, totalFrames, i);
      CountSet(bitmap, i, totalFrames);
      SetPadded(bitmap, totalFrames, i);
      TakenHas(bitmap, startPpn, totalFrames, startPpn + i);
      bitmap := SetBit(bitmap, i);
      allocatedCount := allocatedCount + 1;
      allocHint := i / 64;
    }

    /** `alloc_frame` fails exactly if every frame is taken, wherever the hint points. */
    method AllocFrame() returns (r: Option<nat>)
      requires Valid()
      modifies this
      ensures Valid() && All() == old(All())
      ensures r.None? <==> old(Taken()) == All()
      ensures r.None? ==> Taken() == old(Taken())
      ensures r.Some? ==> r.value in All() && r.value !in old(Taken()) && Taken() == old(Taken()) + {r.value}
    {
      var found := FindFree();
      match found
      case None =>
        AllFull(bitmap, startPpn, totalFrames);
        r := None;
      case Some(i) =>
        Take(i);
        r := Some(startPpn + i);
    }

    /** The lowest index of a run of `count` free frames. */
    method FindRun(count: nat) returns (found: Option<nat>)
      requires Valid() && count > 0
      ensures found.None? ==> forall s: nat :: s + count <= totalFrames ==> !FreeRun(bitmap, s, count)
      ensures found.Some? ==> found.value + count <= totalFrames && FreeRun(bitmap, found.value, count)
      ensures found.Some? ==> forall s: nat :: s < found.value ==> !FreeRun(bitmap, s, count)
    {
      var consecutive, first := 0, 0;
      for i := 0 to totalFrames
        invariant consecutive < count && consecutive <= i
        invariant consecutive > 0 ==> first == i - consecutive
        invariant FreeRun(bitmap, i - consecutive, consecutive)
        invariant consecutive < i ==> Used(bitmap, i - consecutive - 1)
        invariant forall s: nat :: s + count <= i ==> !FreeRun(bitmap, s, count)
      {
        if !Used(bitmap, i) {
          if consecutive == 0 {
            first := i;
          }
          consecutive := consecutive + 1;
          if consecutive >= count {
            RunsBefore(bitmap, first, count);
            return Some(first);
          }
        } else {
          consecutive := 0;
        }
        NoRunEnds(bitmap, i + 1, consecutive, count);
      }
      found := None;
    }

    /** The lowest run of `count` free frames. */
    method FindFreeRun(count: nat) returns (found: Option<nat>)
      requires Valid() && count > 0
      ensures found.None? ==> forall p: nat :: !IsFree(All(), Taken(), p, count)
      ensures found.Some? ==> found.value + count <= totalFrames && FreeRun(bitmap, found.value, count)
      ensures found.Some? ==> IsFree(All(), Taken(), startPpn + found.value, count)
      ensures found.Some? ==> forall p: nat :: p < startPpn + found.value ==> !IsFree(All(), Taken(), p, count)
    {
      found := FindRun(count);
      forall p: nat
        ensures IsFree(All(), Taken(), p, count) <==>
                  startPpn <= p && p + count <= startPpn + totalFrames && FreeRun(bitmap, p - startPpn, count)
      {
        FreeIsRun(bitmap, startPpn, totalFrames, p, count);
      }
      assert found.Some? ==> startPpn + found.value - startPpn == found.value;
    }

    /** Mark a run of free frames as taken. */
    method TakeRun(s: nat, count: nat)
      requires Valid() && s + count <= totalFrames && FreeRun(bitmap, s, count)
      modifies this
      ensures Valid() && startPpn == old(startPpn) && totalFrames == old(totalFrames)
      ensures Taken() == old(Taken()) + Range(startPpn + s, startPpn + s + count)
    {
      TakenSetRun(bitmap, startPpn, totalFrames, s, count);
      SetRunCount(bitmap, s, count, totalFrames);
      SetRunPadded(bitmap, totalFrames, s, count);
      MarkRun(s, count);
      allocatedCount := allocatedCount + count;
    }

    method MarkRun(s: nat, count: nat)
      requires s + count <= 64 * |bitmap|
      modifies this`bitmap
      ensures bitmap == SetRun(old(bitmap), s, count)
    {
      for i := 0 to count
        invariant bitmap == SetRun(old(bitmap), s, i)
      {
        bitmap := SetBit(bitmap, s + i);
      }
    }

    /** `alloc_contiguous`: the lowest run of free frames, if there is one; any one frame is enough
        for a run of one. */
    method AllocContiguous(count: nat) returns (r: Option<nat>)
      requires Valid()
      modifies this
      ensures Valid() && All() == old(All())
      ensures r.None? ==> Taken() == old(Taken())
      ensures r.None? <==> count == 0 || forall p: nat :: !IsFree(All(), old(Taken()), p, count)
      ensures r.Some? ==> IsFree(All(), old(Taken()), r.value, count) && Taken() == old(Taken()) + Range(r.value, r.value + count)
      ensures r.Some? && count >= 2 ==> forall p: nat :: p < r.value ==> !IsFree(All(), old(Taken()), p, count)
    {
      if count == 0 {
        return None;
      }
      if count == 1 {
        TakenSubset(bitmap, startPpn, totalFrames);
        OneFree(All(), Taken());
        r := AllocFrame();
        return;
      }
      var found := FindFreeRun(count);
      match found
      case None => r := None;
      case Some(s) =>
        TakeRun(s, count);
        r := Some(startPpn + s);
    }

    /** `dealloc_frame`; without `ok` the kernel panics: for a frame out of range, and in a debug build
        for one that is free. A release build frees a free frame and counts it all the same, so the
        counter is right afterwards exactly if the frame was taken. */
    method DeallocFrame(ppn: nat, debug: bool) returns (ok: bool)
      requires Valid()
      modifies this
      ensures ok <==> ppn in old(All()) && (debug ==> ppn in old(Taken()))
      ensures !ok ==> Valid() && bitmap == old(bitmap) && allocatedCount == old(allocatedCount) && allocHint == old(allocHint)
      ensures startPpn == old(startPpn) && totalFrames == old(totalFrames) && |bitmap| == old(|bitmap|)
      ensures ok ==> TakenSet(bitmap, startPpn, totalFrames) == old(Taken()) - {ppn}
      ensures ok ==> allocatedCount == Decremented(old(allocatedCount)) && (Valid() <==> ppn in old(Taken()))
    {
      TakenHas(bitmap, startPpn, totalFrames, ppn);
      if !(startPpn <= ppn < startPpn + totalFrames) {
        return false;
      }
      var i := ppn - startPpn;
      if debug && !Used(bitmap, i) {
        return false;
      }
      TakenClearBit(bitmap, startPpn, totalFrames, i);
      if Used(bitmap, i) {
        CountClear(bitmap, i, totalFrames);
        ClearPadded(bitmap, totalFrames, i);
      } else {
        ClearFree(bitmap, i);
      }
      bitmap := ClearBit(bitmap, i);
      allocatedCount := Decremented(allocatedCount);
      allocHint := i / 64;
      ok := true;
    }

    method IsAllocated(ppn: nat) returns (r: bool)
      requires Valid()
      ensures r <==> ppn in Taken()
    {
      TakenHas(bitmap, startPpn, totalFrames, ppn);
      r := startPpn <= ppn < startPpn + totalFrames && Used(bitmap, ppn - startPpn);
    }

    method AllocatedFrames() returns (n: nat)
      requires Valid()
      ensures n == |Taken()|
    {
      TakenSize(bitmap, startPpn, totalFrames);
      n := allocatedCount;
    }
  }

  ghost predicate IsFree(all: set<nat>, taken: set<nat>, p: nat, count: nat) {
    Range(p, p + count) <= all && Range(p, p + count) !! taken
  }

  lemma TakenSubset(bitmap: seq<Word>, start: nat, n: nat)
    requires n <= 64 * |bitmap|
    ensures TakenSet(bitmap, start, n) <= Range(start, start + n)
  {
    forall p: nat | p in TakenSet(bitmap, start, n)
      ensures p in Range(start, start + n)
    {
      TakenHas(bitmap, start, n, p);
    }
  }

  lemma OneFree(all: set<nat>, taken: set<nat>)
    requires taken <= all
    ensures taken == all <==> forall p: nat :: !IsFree(all, taken, p, 1)
    ensures forall p: nat :: IsFree(all, taken, p, 1) <==> p in all && p !in taken
  {
    forall p: nat
      ensures IsFree(all, taken, p, 1) <==> p in all && p !in taken
    {
      assert Range(p, p + 1) == {p};
    }
    if taken != all {
      var p :| p in all && p !in taken;
      assert IsFree(all, taken, p, 1);
    }
  }

  lemma FreeIsRun(bitmap: seq<Word>, start: nat, total: nat, p: nat, count: nat)
    requires total <= 64 * |bitmap| && count > 0
    ensures IsFree(Range(start, start + total), TakenSet(bitmap, start, total), p, count) <==>
              start <= p && p + count <= start + total && FreeRun(bitmap, p - start, count)
  {
    var all, taken := Range(start, start + total), TakenSet(bitmap, start, total);
    assert p in Range(p, p + count) && p + count - 1 in Range(p, p + count);
    if start <= p && p + count <= start + total {
      forall q: nat | p <= q < p + count
        ensures q in taken <==> Used(bitmap, q - start)
      {
        TakenHas(bitmap, start, total, q);
      }
      if IsFree(all, taken, p, count) {
        forall i | p - start <= i < p - start + count
          ensures !Used(bitmap, i)
        {
          assert start + i in Range(p, p + count);
        }
      }
    }
  }

  lemma SetRunPadded(bitmap: seq<Word>, total: nat, s: nat, count: nat)
    requires s + count <= total <= 64 * |bitmap| && Padded(bitmap, total)
    ensures Padded(SetRun(bitmap, s, count), total)
  {
    forall j: nat | total <= j < 64 * |bitmap|
      ensures Used(SetRun(bitmap, s, count), j)
    {
      SetRunUsed(bitmap, s, count, j);
    }
  }

  lemma ClearPadded(bitmap: seq<Word>, total: nat, i: nat)
    requires i < total <= 64 * |bitmap| && Padded(bitmap, total)
    ensures Padded(ClearBit(bitmap, i), total)
  {
    forall j: nat | total <= j < 64 * |bitmap|
      ensures Used(ClearBit(bitmap, i), j)
    {
      ClearUsed(bitmap, i, j);
    }
  }

  /** If the last `consecutive` of the first `n` bits are free and the bit before is not, no run of
      `count` ends at `n`. */
  lemma NoRunEnds(bitmap: seq<Word>, n: nat, consecutive: nat, count: nat)
    requires consecutive < count && consecutive <= n <= 64 * |bitmap|
    requires consecutive < n ==> Used(bitmap, n - consecutive - 1)
    ensures count <= n ==> !FreeRun(bitmap, n - count, count)
  {
  }

  /** Two runs of free bits of the same length: if the bit before the second is set, the first does
      not start earlier and reach into it. */
  lemma RunsBefore(bitmap: seq<Word>, first: nat, count: nat)
    requires first + count <= 64 * |bitmap| && count > 0
    requires first > 0 ==> Used(bitmap, first - 1)
    requires forall s: nat :: s + count < first + count && s + count <= first ==> !FreeRun(bitmap, s, count)
    ensures forall s: nat :: s < first ==> !FreeRun(bitmap, s, count)
  {
  }

  /** Word `k` is among the first `offset` words from the hint on, around the end. */
  predicate Scanned(hint: nat, n: nat, offset: nat, k: nat) {
    hint <= k < hint + offset || k + n < hint + offset
  }

  lemma SetPadded(bitmap: seq<Word>, total: nat, i: nat)
    requires i < total <= 64 * |bitmap| && Padded(bitmap, total)
    ensures Padded(SetBit(bitmap, i), total)
  {
    forall j: nat | total <= j < 64 * |bitmap|
      ensures Used(SetBit(bitmap, i), j)
    {
      SetUsed(bitmap, i, j);
    }
  }

  lemma AllFull(bitmap: seq<Word>, start: nat, total: nat)
    requires total <= 64 * |bitmap| && forall k :: 0 <= k < |bitmap| ==> Full(bitmap[k])
    ensures TakenSet(bitmap, start, total) == Range(start, start + total)
  {
    forall p: nat
      ensures p in TakenSet(bitmap, start, total) <==> p in Range(start, start + total)
    {
      TakenHas(bitmap, start, total, p);
      if start <= p < start + total {
        FullBits(bitmap, (p - start) / 64);
      }
    }
  }

  lemma {:induction false} NoneUsed(bitmap: seq<Word>, n: nat)
    requires n <= 64 * |bitmap| && forall i :: 0 <= i < n ==> !Used(bitmap, i)
    ensures UsedCount(bitmap, n) == 0
  {
    if n > 0 {
      NoneUsed(bitmap, n - 1);
    }
  }
}
