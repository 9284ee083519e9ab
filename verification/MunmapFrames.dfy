/** Which frames an unmapped range gives up, counted area by area as the kernel drops them and page
    by page as a program sees them. */
module MunmapFrames {
  import opened Basics
  import opened PagedMemory
  import opened MapAreas

  /** The index of address `v` in the frames of `a`, clipped to the area. */
  function Clip(a: Area, v: nat): (k: nat)
    ensures k <= |a.frames|
  {
    if v <= a.start then 0 else if v >= a.End() then |a.frames| else v - a.start
  }

  function Count(frames: seq<Frame>, f: Frame, i: nat, j: nat): nat
    requires j <= |frames|
    decreases j
  {
    if i >= j then 0 else Count(frames, f, i, j - 1) + (if frames[j - 1] == f then 1 else 0)
  }

  /** How often `f` is behind pages in [lo, hi). */
  function PageCount(areas: seq<Area>, lo: nat, hi: nat, f: Frame): nat
    decreases hi
  {
    if lo >= hi then 0
    else PageCount(areas, lo, hi - 1, f) +
         (if SlotAt(areas, hi - 1).Some? && SlotAt(areas, hi - 1).value.frame == f then 1 else 0)
  }

  function OwnCount(a: Area, v: nat, f: Frame): nat {
    if a.Has(v) && a.frames[v - a.start] == f then 1 else 0
  }

  /** How often `f` is behind pages of the first `n` areas in [lo, hi). */
  function SumCut(areas: seq<Area>, lo: nat, hi: nat, n: nat, f: Frame): nat
    requires lo <= hi && n <= |areas|
  {
    if n == 0 then 0
    else SumCut(areas, lo, hi, n - 1, f) + Count(areas[n - 1].frames, f, Clip(areas[n - 1], lo), Clip(areas[n - 1], hi))
  }

  function SumOwn(areas: seq<Area>, v: nat, n: nat, f: Frame): nat
    requires n <= |areas|
  {
    if n == 0 then 0 else SumOwn(areas, v, n - 1, f) + OwnCount(areas[n - 1], v, f)
  }

  lemma {:induction false} SumCutStep(areas: seq<Area>, lo: nat, hi: nat, n: nat, f: Frame)
    requires lo < hi && n <= |areas|
    ensures SumCut(areas, lo, hi, n, f) == SumCut(areas, lo, hi - 1, n, f) + SumOwn(areas, hi - 1, n, f)
  {
    if n > 0 {
      SumCutStep(areas, lo, hi, n - 1, f);
    }
  }

  lemma {:induction false} NobodyOwns(areas: seq<Area>, v: nat, n: nat, f: Frame)
    requires n <= |areas| && forall i :: 0 <= i < n ==> !areas[i].Has(v)
    ensures SumOwn(areas, v, n, f) == 0
  {
    if n > 0 {
      NobodyOwns(areas, v, n - 1, f);
    }
  }

  lemma {:induction false} OneOwns(areas: seq<Area>, v: nat, i: nat, n: nat, f: Frame)
    requires WellFormed(areas) && i < n <= |areas| && areas[i].Has(v)
    ensures SumOwn(areas, v, n, f) == OwnCount(areas[i], v, f)
  {
    if n - 1 == i {
      forall j | 0 <= j < i
        ensures !areas[j].Has(v)
      {
        assert Separate(areas[j], areas[i]);
      }
      NobodyOwns(areas, v, i, f);
    } else {
      OneOwns(areas, v, i, n - 1, f);
      assert Separate(areas[i], areas[n - 1]);
    }
  }

  lemma {:induction false} SlotAtNone(areas: seq<Area>, v: nat)
    requires forall i :: 0 <= i < |areas| ==> !areas[i].Has(v)
    ensures SlotAt(areas, v) == None
  {
    if areas != [] {
      SlotAtNone(areas[1..], v);
    }
  }

  lemma OwnedFrame(areas: seq<Area>, v: nat, f: Frame)
    requires WellFormed(areas)
    ensures SumOwn(areas, v, |areas|, f) == if SlotAt(areas, v).Some? && SlotAt(areas, v).value.frame == f then 1 else 0
  {
    if i :| 0 <= i < |areas| && areas[i].Has(v) {
      OneOwns(areas, v, i, |areas|, f);
      SlotAtIndex(areas, i, v);
    } else {
      NobodyOwns(areas, v, |areas|, f);
      SlotAtNone(areas, v);
    }
  }

  lemma {:induction false} NothingCut(areas: seq<Area>, lo: nat, n: nat, f: Frame)
    requires n <= |areas|
    ensures SumCut(areas, lo, lo, n, f) == 0
  {
    if n > 0 {
      NothingCut(areas, lo, n - 1, f);
    }
  }

  /** Both counts agree: the areas give up exactly the frames of the pages in the range. */
  lemma {:induction false} SumCutPages(areas: seq<Area>, lo: nat, hi: nat, f: Frame)
    requires WellFormed(areas) && lo <= hi
    ensures SumCut(areas, lo, hi, |areas|, f) == PageCount(areas, lo, hi, f)
    decreases hi
  {
    if lo == hi {
      NothingCut(areas, lo, |areas|, f);
    } else {
      SumCutPages(areas, lo, hi - 1, f);
      SumCutStep(areas, lo, hi, |areas|, f);
      OwnedFrame(areas, hi - 1, f);
    }
  }

  // ---------------------------------------------------------------- handles of a list of areas

  /** How many pages of the areas have `f` behind them. */
  function Held(areas: seq<Area>, f: Frame): nat {
    if areas == [] then 0 else Count(areas[0].frames, f, 0, |areas[0].frames|) + Held(areas[1..], f)
  }

  /** SumCut, counted from the front. */
  function CutCount(areas: seq<Area>, lo: nat, hi: nat, f: Frame): nat {
    if areas == [] then 0
    else Count(areas[0].frames, f, Clip(areas[0], lo), Clip(areas[0], hi)) + CutCount(areas[1..], lo, hi, f)
  }

  lemma {:induction false} SumCutTail(areas: seq<Area>, lo: nat, hi: nat, n: nat, f: Frame)
    requires lo <= hi && n < |areas|
    ensures SumCut(areas, lo, hi, n + 1, f) ==
            Count(areas[0].frames, f, Clip(areas[0], lo), Clip(areas[0], hi)) + SumCut(areas[1..], lo, hi, n, f)
  {
    if n > 0 {
      SumCutTail(areas, lo, hi, n - 1, f);
    } else {
      assert SumCut(areas, lo, hi, 0, f) == 0;
    }
  }

  lemma {:induction false} SumCutIsCutCount(areas: seq<Area>, lo: nat, hi: nat, f: Frame)
    requires lo <= hi
    ensures SumCut(areas, lo, hi, |areas|, f) == CutCount(areas, lo, hi, f)
  {
    if areas != [] {
      SumCutIsCutCount(areas[1..], lo, hi, f);
      SumCutTail(areas, lo, hi, |areas| - 1, f);
    }
  }

  lemma {:induction false} CountSplitAt(frames: seq<Frame>, f: Frame, i: nat, k: nat, j: nat)
    requires i <= k <= j <= |frames|
    ensures Count(frames, f, i, j) == Count(frames, f, i, k) + Count(frames, f, k, j)
    decreases j
  {
    if k < j {
      CountSplitAt(frames, f, i, k, j - 1);
    }
  }

  lemma {:induction false} CountSlice(frames: seq<Frame>, f: Frame, i: nat, j: nat, n: nat)
    requires i + n <= j <= |frames|
    ensures Count(frames[i..j], f, 0, n) == Count(frames, f, i, i + n)
  {
    if n > 0 {
      CountSlice(frames, f, i, j, n - 1);
    }
  }

  lemma HeldOne(a: Area, f: Frame)
    ensures Held([a], f) == Count(a.frames, f, 0, |a.frames|)
  {
    assert [a][1..] == [];
  }

  lemma HeldTwo(a: Area, b: Area, f: Frame)
    ensures Held([a, b], f) == Count(a.frames, f, 0, |a.frames|) + Count(b.frames, f, 0, |b.frames|)
  {
    assert [a, b][1..] == [b];
    HeldOne(b, f);
  }

  lemma {:induction false} HeldConcat(xs: seq<Area>, ys: seq<Area>, f: Frame)
    ensures Held(xs + ys, f) == Held(xs, f) + Held(ys, f)
  {
    if xs == [] {
      assert xs + ys == ys;
    } else {
      assert (xs + ys)[0] == xs[0] && (xs + ys)[1..] == xs[1..] + ys;
      HeldConcat(xs[1..], ys, f);
    }
  }

  /** The parts of a vector cut at `i` and `j`. */
  lemma CountThree(frames: seq<Frame>, f: Frame, i: nat, j: nat)
    requires i <= j <= |frames|
    ensures Count(frames[..i], f, 0, i) + Count(frames, f, i, j) + Count(frames[j..], f, 0, |frames| - j) ==
            Count(frames, f, 0, |frames|)
  {
    var n := |frames|;
    CountSplitAt(frames, f, 0, i, n);
    CountSplitAt(frames, f, i, j, n);
    CountSlice(frames, f, 0, i, i);
    CountSlice(frames, f, j, n, n - j);
    assert frames[j..n] == frames[j..] && frames[0..i] == frames[..i];
  }

  lemma ThreeFrames(a: Area, lo: nat, hi: nat)
    requires AreaOk(a) && a.start < lo < hi < a.End()
    ensures var (first, second, third) := IntoThree(a, lo, hi).value;
            first.frames == a.frames[..lo - a.start] && second.frames == a.frames[lo - a.start..hi - a.start]
            && third.frames == a.frames[hi - a.start..]
  {
    IntoThreeKeeps(a, lo, hi);
    var (first, second, third) := IntoThree(a, lo, hi).value;
    PieceFrames(first, a, 0, lo - a.start);
    PieceFrames(second, a, lo - a.start, hi - a.start);
    PieceFrames(third, a, hi - a.start, |a.frames|);
  }

  lemma PieceFrames(part: Area, a: Area, i: nat, j: nat)
    requires PieceOf(part, a) && part.start == a.start + i && part.End() == a.start + j
    ensures i <= j <= |a.frames| && part.frames == a.frames[i..j]
    ensures i == 0 ==> part.frames == a.frames[..j]
    ensures j == |a.frames| ==> part.frames == a.frames[i..]
  {
  }

  /** The pieces hold what is before `i` and after `j`. */
  ghost predicate HoldEnds(pieces: seq<Area>, frames: seq<Frame>, i: nat, j: nat, f: Frame) {
    && i <= j <= |frames|
    && Held(pieces, f) == Count(frames[..i], f, 0, i) + Count(frames[j..], f, 0, |frames| - j)
  }

  lemma CutHeldMiddle(a: Area, lo: nat, hi: nat, f: Frame)
    requires AreaOk(a) && a.start < lo < hi < a.End()
    ensures HoldEnds(Cut(a, lo, hi), a.frames, lo - a.start, hi - a.start, f)
  {
    ThreeFrames(a, lo, hi);
    var (first, _, third) := IntoThree(a, lo, hi).value;
    HeldTwo(first, third, f);
    assert Cut(a, lo, hi) == [first, third];
  }

  /** At most one end is kept. */
  lemma CutHeldEnd(a: Area, lo: nat, hi: nat, f: Frame)
    requires AreaOk(a) && lo < hi && CheckOverlapping(a, lo, hi).Some? && !(a.start < lo && hi < a.End())
    ensures HoldEnds(Cut(a, lo, hi), a.frames, Clip(a, lo), Clip(a, hi), f)
  {
    if hi < a.End() {
      HeldOne(ShrinkLower(a, hi), f);
    } else if a.start < lo {
      HeldOne(ShrinkUpper(a, lo), f);
    }
  }

  lemma EndsAddUp(pieces: seq<Area>, frames: seq<Frame>, i: nat, j: nat, f: Frame)
    requires HoldEnds(pieces, frames, i, j, f)
    ensures Held(pieces, f) + Count(frames, f, i, j) == Count(frames, f, 0, |frames|)
  {
    CountThree(frames, f, i, j);
  }

  /** What is left of an area and what is cut from it make up the area. */
  lemma CutHeld(a: Area, lo: nat, hi: nat, f: Frame)
    requires AreaOk(a) && lo < hi
    ensures Held(Cut(a, lo, hi), f) + Count(a.frames, f, Clip(a, lo), Clip(a, hi)) == Count(a.frames, f, 0, |a.frames|)
  {
    if CheckOverlapping(a, lo, hi).None? {
      HeldOne(a, f);
    } else if a.start < lo && hi < a.End() {
      CutHeldMiddle(a, lo, hi, f);
      EndsAddUp(Cut(a, lo, hi), a.frames, Clip(a, lo), Clip(a, hi), f);
    } else {
      CutHeldEnd(a, lo, hi, f);
      EndsAddUp(Cut(a, lo, hi), a.frames, Clip(a, lo), Clip(a, hi), f);
    }
  }

  /** Every handle of the areas is either kept or given up, once. */
  lemma {:induction false} MunmapHeld(areas: seq<Area>, lo: nat, hi: nat, f: Frame)
    requires lo < hi && AllOk(areas)
    ensures Held(MunmapAreas(areas, lo, hi), f) + CutCount(areas, lo, hi, f) == Held(areas, f)
  {
    if areas != [] {
      AllOkTail(areas);
      CutHeld(areas[0], lo, hi, f);
      HeldConcat(Cut(areas[0], lo, hi), MunmapAreas(areas[1..], lo, hi), f);
      MunmapHeld(areas[1..], lo, hi, f);
    }
  }

  /** A frame behind a page is held. */
  lemma {:induction false} SlotIsHeld(areas: seq<Area>, v: nat)
    requires SlotAt(areas, v).Some?
    ensures Held(areas, SlotAt(areas, v).value.frame) > 0
  {
    if areas[0].Has(v) {
      var f, i, n := areas[0].frames[v - areas[0].start], v - areas[0].start, |areas[0].frames|;
      CountSplitAt(areas[0].frames, f, 0, i, n);
      CountSplitAt(areas[0].frames, f, i, i + 1, n);
    } else {
      SlotIsHeld(areas[1..], v);
    }
  }
}
