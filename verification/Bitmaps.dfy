/** Bitmaps of 64-bit words, a word given by its bits, least significant first. */
module Bitmaps {
  type Word = w: seq<bool> | |w| == 64 witness seq(64, _ => false)

  function ZeroWord(): Word { seq(64, _ => false) }

  predicate Used(bitmap: seq<Word>, i: nat)
    requires i < 64 * |bitmap|
  {
    bitmap[i / 64][i % 64]
  }

  /** `bitmap[i / 64] |= 1 << (i % 64)` */
  function SetBit(bitmap: seq<Word>, i: nat): (r: seq<Word>)
    requires i < 64 * |bitmap|
    ensures |r| == |bitmap|
  {
    bitmap[i / 64 := bitmap[i / 64][i % 64 := true]]
  }

  /** `bitmap[i / 64] &= !(1 << (i % 64))` */
  function ClearBit(bitmap: seq<Word>, i: nat): (r: seq<Word>)
    requires i < 64 * |bitmap|
    ensures |r| == |bitmap|
  {
    bitmap[i / 64 := bitmap[i / 64][i % 64 := false]]
  }

  lemma SetUsed(bitmap: seq<Word>, i: nat, j: nat)
    requires i < 64 * |bitmap| && j < 64 * |bitmap|
    ensures Used(SetBit(bitmap, i), j) <==> i == j || Used(bitmap, j)
  {
    SamePlace(i, j);
  }

  lemma ClearUsed(bitmap: seq<Word>, i: nat, j: nat)
    requires i < 64 * |bitmap| && j < 64 * |bitmap|
    ensures Used(ClearBit(bitmap, i), j) <==> i != j && Used(bitmap, j)
  {
    SamePlace(i, j);
  }

  lemma SamePlace(i: nat, j: nat)
    ensures i / 64 == j / 64 && i % 64 == j % 64 <==> i == j
  {
  }

  /** `(!w).trailing_zeros()`: the lowest clear bit, 64 if all are set. */
  function TrailingOnes(w: Word, n: nat): (r: nat)
    requires n <= 64
    ensures n <= r <= 64
    ensures forall i :: n <= i < r ==> w[i]
    ensures r < 64 ==> !w[r]
    decreases 64 - n
  {
    if n == 64 || !w[n] then n else TrailingOnes(w, n + 1)
  }

  /** `w == u64::MAX` */
  predicate Full(w: Word) {
    TrailingOnes(w, 0) == 64
  }

  /** A word is full exactly if all its bits are set. */
  lemma FullBits(bitmap: seq<Word>, k: nat)
    requires k < |bitmap|
    ensures Full(bitmap[k]) <==> forall i :: 64 * k <= i < 64 * k + 64 ==> Used(bitmap, i)
  {
    var r := TrailingOnes(bitmap[k], 0);
    if r < 64 {
      assert !Used(bitmap, 64 * k + r);
    } else {
      forall i | 64 * k <= i < 64 * k + 64
        ensures Used(bitmap, i)
      {
        assert i / 64 == k && bitmap[k][i - 64 * k];
      }
    }
  }

  /** How many of the first `n` bits are set. */
  function UsedCount(bitmap: seq<Word>, n: nat): (r: nat)
    requires n <= 64 * |bitmap|
    ensures r <= n
  {
    if n == 0 then 0 else UsedCount(bitmap, n - 1) + (if Used(bitmap, n - 1) then 1 else 0)
  }

  lemma {:induction false} CountSet(bitmap: seq<Word>, i: nat, n: nat)
    requires i < 64 * |bitmap| && n <= 64 * |bitmap| && !Used(bitmap, i)
    ensures UsedCount(SetBit(bitmap, i), n) == UsedCount(bitmap, n) + if i < n then 1 else 0
  {
    if n > 0 {
      CountSet(bitmap, i, n - 1);
      SetUsed(bitmap, i, n - 1);
    }
  }

  lemma {:induction false} CountClear(bitmap: seq<Word>, i: nat, n: nat)
    requires i < 64 * |bitmap| && n <= 64 * |bitmap| && Used(bitmap, i)
    ensures UsedCount(ClearBit(bitmap, i), n) == UsedCount(bitmap, n) - if i < n then 1 else 0
    decreases n
  {
    if n > 0 {
      CountClear(bitmap, i, n - 1);
      ClearUsed(bitmap, i, n - 1);
    }
  }
}
