/** `munmap` in the steps the kernel takes: a pass that cuts areas in place, then deletion of the
    areas that went as a whole, then the split of the one area that had pages on both sides. */
module MunmapSteps {
  import opened Basics
  import opened PagedMemory
  import opened MapAreas
  import opened MunmapFrames
  import opened Spaces

  lemma {:induction false} WithoutPrefix(s: seq<U16>, t: seq<U16>, x: nat, n: nat)
    requires n <= |s| && n <= |t| && forall i :: 0 <= i < n ==> s[i] == t[i]
    ensures Without(s, x, n) == Without(t, x, n)
  {
    if n > 0 {
      WithoutPrefix(s, t, x, n - 1);
    }
  }

  lemma WithoutAppend(s: seq<U16>, y: U16, x: nat)
    ensures Without(s + [y], x, |s| + 1) == if y == x then Without(s, x, |s|) else Without(s, x, |s|) + [y]
  {
    WithoutPrefix(s + [y], s, x, |s|);
  }

  /** Unmapping one more page forgets one more index. */
  lemma {:induction false} ForgetOneMore(active: seq<U16>, frames: seq<Frame>, lo: nat, hi: nat, n: nat)
    requires n <= |active| && lo <= hi < |frames|
    ensures var s := Forget(active, frames, lo, hi, n);
            Forget(active, frames, lo, hi + 1, n) == if frames[hi].InMemory? then Without(s, hi, |s|) else s
  {
    if n > 0 {
      ForgetOneMore(active, frames, lo, hi, n - 1);
      WithoutAppend(Forget(active, frames, lo, hi, n - 1), active[n - 1], hi);
    }
  }

  lemma {:induction false} ForgetNone(active: seq<U16>, frames: seq<Frame>, lo: nat, n: nat)
    requires n <= |active|
    ensures Forget(active, frames, lo, lo, n) == active[..n]
  {
    if n > 0 {
      ForgetNone(active, frames, lo, n - 1);
    }
  }

  /** Pages [i, j) of the vector with nothing behind them any more. */
  function Emptied(frames: seq<Frame>, i: nat, j: nat): (r: seq<Frame>)
    requires j <= |frames|
    ensures |r| == |frames|
    decreases j
  {
    if i >= j then frames else Emptied(frames, i, j - 1)[j - 1 := Unallocated]
  }

  lemma {:induction false} EmptiedAt(frames: seq<Frame>, i: nat, j: nat, k: nat)
    requires j <= |frames| && k < |frames|
    ensures Emptied(frames, i, j)[k] == if i <= k < j then Unallocated else frames[k]
    decreases j
  {
    if i < j {
      EmptiedAt(frames, i, j - 1, k);
    }
  }

  ghost predicate MappedAt(a: Area, table: map<nat, Pte>, v: nat)
    requires a.Has(v)
  {
    v in table <==> a.frames[v - a.start].InMemory?
  }

  /** The store after the frames of pages [lo, hi) are dropped one by one. */
  function DroppedStore(a: Area, lo: nat, hi: nat, store: Store): Store
    requires a.start <= lo <= hi <= a.End()
    decreases hi
  {
    if lo == hi then store else Release(DroppedStore(a, lo, hi - 1, store), a.frames[hi - 1 - a.start])
  }

  /** ... each as often as it occurs. */
  lemma {:induction false} DroppedLowers(a: Area, lo: nat, hi: nat, store: Store, f: Frame)
    requires a.start <= lo <= hi <= a.End() && Counted(store)
    ensures Counted(DroppedStore(a, lo, hi, store))
    ensures Lowered(store, DroppedStore(a, lo, hi, store), f, Count(a.frames, f, lo - a.start, hi - a.start))
    decreases hi
  {
    if lo < hi {
      var before, g := DroppedStore(a, lo, hi - 1, store), a.frames[hi - 1 - a.start];
      DroppedLowers(a, lo, hi - 1, store, f);
      ReleaseLowers(before, g, f);
      LoweredTwice(store, before, Release(before, g), f, Count(a.frames, f, lo - a.start, hi - 1 - a.start), if f == g then 1 else 0);
    }
  }

  /** The table after the entries of pages [lo, hi) are removed one by one. */
  function Unmapped(table: map<nat, Pte>, lo: nat, hi: nat): map<nat, Pte>
    requires lo <= hi
    decreases hi
  {
    if lo == hi then table else Unmapped(table, lo, hi - 1) - {hi - 1}
  }

  lemma {:induction false} UnmappedHas(table: map<nat, Pte>, lo: nat, hi: nat, v: nat)
    requires lo <= hi
    ensures v in Unmapped(table, lo, hi) <==> v in table && !(lo <= v < hi)
    ensures v in Unmapped(table, lo, hi) ==> Unmapped(table, lo, hi)[v] == table[v]
    decreases hi
  {
    if lo < hi {
      UnmappedHas(table, lo, hi - 1, v);
    }
  }

  lemma UnmappedIs(table: map<nat, Pte>, lo: nat, hi: nat)
    requires lo <= hi
    ensures Unmapped(table, lo, hi) == table - Range(lo, hi)
  {
    var t := Unmapped(table, lo, hi);
    forall v: nat
      ensures (v in t <==> v in table && !(lo <= v < hi)) && (v in t ==> t[v] == table[v])
    {
      UnmappedHas(table, lo, hi, v);
    }
  }

  // ---------------------------------------------------------------- munmap, one area at a time

  predicate Middle(a: Area, lo: nat, hi: nat) {
    a.start < lo && hi < a.End() && lo < hi
  }

  predicate Whole(a: Area, lo: nat, hi: nat) {
    CheckOverlapping(a, lo, hi).Some? && lo <= a.start && a.End() <= hi
  }

  /** The pages of `a` in [lo, hi). */
  function CutLo(a: Area, lo: nat): nat { if lo > a.start then lo else a.start }

  function CutHi(a: Area, lo: nat, hi: nat): nat {
    var e := if hi < a.End() then hi else a.End();
    if e < CutLo(a, lo) then CutLo(a, lo) else e
  }

  /** What the pass over the areas leaves at its place; an area that goes is emptied first. */
  function Trim(a: Area, lo: nat, hi: nat): Area
    requires AreaOk(a) && lo < hi && !Middle(a, lo, hi)
  {
    if CheckOverlapping(a, lo, hi).None? then a
    else if Whole(a, lo, hi) then
      a.(frames := Emptied(a.frames, 0, |a.frames|), active := Forget(a.active, a.frames, 0, |a.frames|, |a.active|))
    else if lo <= a.start then ShrinkLower(a, hi)
    else ShrinkUpper(a, lo)
  }

  lemma TrimIsCut(a: Area, lo: nat, hi: nat)
    requires AreaOk(a) && lo < hi && !Middle(a, lo, hi)
    ensures Cut(a, lo, hi) == if Whole(a, lo, hi) then [] else [Trim(a, lo, hi)]
  {
  }

  lemma EmptiedEnds(frames: seq<Frame>, k: nat)
    requires k <= |frames|
    ensures Emptied(frames, 0, k)[k..] == frames[k..]
    ensures Emptied(frames, k, |frames|)[..k] == frames[..k]
  {
    forall i | 0 <= i < |frames|
      ensures i < k ==> Emptied(frames, k, |frames|)[i] == frames[i]
      ensures i >= k ==> Emptied(frames, 0, k)[i] == frames[i]
    {
      EmptiedAt(frames, k, |frames|, i);
      EmptiedAt(frames, 0, k, i);
    }
  }

  /** The three ways the kernel cuts an area of which pages [s, e) were dropped. */
  lemma TrimWays(a: Area, lo: nat, hi: nat, s: nat, e: nat, b: Area)
    requires AreaOk(a) && lo < hi && !Middle(a, lo, hi) && CheckOverlapping(a, lo, hi) == Some((s, e))
    requires b == a.(frames := Emptied(a.frames, s - a.start, e - a.start),
                     active := Forget(a.active, a.frames, s - a.start, e - a.start, |a.active|))
    ensures s == CutLo(a, lo) && e == CutHi(a, lo, hi)
    ensures Whole(a, lo, hi) <==> s == a.start && e == a.End()
    ensures Whole(a, lo, hi) ==> b == Trim(a, lo, hi)
    ensures s == a.start && e != a.End() ==>
              b.(start := e, frames := Resize(Rotate(b.frames, e - s), |b.frames| - (e - s))) == Trim(a, lo, hi)
    ensures s != a.start ==> b.(frames := Resize(b.frames, s - a.start)) == Trim(a, lo, hi)
  {
    if s == a.start {
      LowerFrames(a.frames, e - s);
    } else {
      UpperFrames(a.frames, s - a.start);
    }
  }

  /** Rotating the emptied pages to the end and cutting them off, ... */
  lemma LowerFrames(frames: seq<Frame>, k: nat)
    requires k <= |frames|
    ensures Resize(Rotate(Emptied(frames, 0, k), k), |frames| - k) == frames[k..]
  {
    EmptiedEnds(frames, k);
    RotateDrops(Emptied(frames, 0, k), k);
  }

  /** ... or cutting them off where they are. */
  lemma UpperFrames(frames: seq<Frame>, k: nat)
    requires k <= |frames|
    ensures Resize(Emptied(frames, k, |frames|), k) == frames[..k]
  {
    EmptiedEnds(frames, k);
  }

  ghost predicate NoMiddle(areas: seq<Area>, lo: nat, hi: nat) {
    forall i {:trigger Middle(areas[i], lo, hi)} :: 0 <= i < |areas| ==> !Middle(areas[i], lo, hi)
  }

  /** If one area must be split, no other area is touched, so none is deleted and its index is
      still right when it is split. */
  lemma OthersUntouched(areas: seq<Area>, m: nat, lo: nat, hi: nat, j: nat)
    requires WellFormed(areas) && m < |areas| && j < |areas| && j != m && Middle(areas[m], lo, hi)
    ensures CheckOverlapping(areas[j], lo, hi).None? && !Middle(areas[j], lo, hi)
  {
    assert AreaOk(areas[j]);
    assert if j < m then Separate(areas[j], areas[m]) else Separate(areas[m], areas[j]);
  }

  /** Pages that the first `n` areas lose. */
  function Gone(areas: seq<Area>, lo: nat, hi: nat, n: nat): set<nat>
    requires n <= |areas|
  {
    if n == 0 then {} else Gone(areas, lo, hi, n - 1) + Range(CutLo(areas[n - 1], lo), CutHi(areas[n - 1], lo, hi))
  }

  lemma {:induction false} GoneHas(areas: seq<Area>, lo: nat, hi: nat, n: nat, v: nat)
    requires n <= |areas|
    ensures v in Gone(areas, lo, hi, n) ==> lo <= v < hi && exists j :: 0 <= j < n && areas[j].Has(v)
    ensures lo <= v < hi && (exists j :: 0 <= j < n && areas[j].Has(v)) ==> v in Gone(areas, lo, hi, n)
  {
    if n > 0 {
      GoneHas(areas, lo, hi, n - 1, v);
    }
  }

  /** The pages of an area not yet passed are still mapped as they were. */
  lemma NotGone(areas: seq<Area>, table: map<nat, Pte>, lo: nat, hi: nat, i: nat, v: nat)
    requires WellFormed(areas) && PagesOk(areas, table) && i < |areas| && areas[i].Has(v)
    ensures v !in Gone(areas, lo, hi, i) && MappedAt(areas[i], table, v)
    ensures MappedAt(areas[i], table - Gone(areas, lo, hi, i), v)
  {
    GoneHas(areas, lo, hi, i, v);
    forall j | 0 <= j < i
      ensures !areas[j].Has(v)
    {
      assert Separate(areas[j], areas[i]);
    }
    assert PageOk(areas, table, v);
    SlotAtIndex(areas, i, v);
  }

  /** In the end all pages of the range are gone and no others. */
  lemma GoneIsRange(areas: seq<Area>, table: map<nat, Pte>, lo: nat, hi: nat)
    requires PagesOk(areas, table)
    ensures table - Gone(areas, lo, hi, |areas|) == table - Range(lo, hi)
  {
    forall v | v in table
      ensures v in Gone(areas, lo, hi, |areas|) <==> v in Range(lo, hi)
    {
      assert PageOk(areas, table, v);
      GoneHas(areas, lo, hi, |areas|, v);
      if forall i :: 0 <= i < |areas| ==> !areas[i].Has(v) {
        SlotAtNone(areas, v);
      }
    }
  }

  /** The areas before `n` have been passed, the others not yet. */
  ghost predicate TrimmedAt(olds: seq<Area>, areas: seq<Area>, lo: nat, hi: nat, n: nat, j: nat)
    requires lo < hi && j < |olds| == |areas|
  {
    areas[j] == if j < n && AreaOk(olds[j]) && !Middle(olds[j], lo, hi) then Trim(olds[j], lo, hi) else olds[j]
  }

  ghost predicate Trimmed(olds: seq<Area>, areas: seq<Area>, lo: nat, hi: nat, n: nat)
    requires lo < hi
  {
    && |areas| == |olds|
    && forall j: nat {:trigger TrimmedAt(olds, areas, lo, hi, n, j)} :: j < |olds| ==> TrimmedAt(olds, areas, lo, hi, n, j)
  }

  lemma TrimmedStep(olds: seq<Area>, areas: seq<Area>, lo: nat, hi: nat, n: nat)
    requires lo < hi && n < |olds| && AreaOk(olds[n]) && !Middle(olds[n], lo, hi) && Trimmed(olds, areas, lo, hi, n)
    ensures Trimmed(olds, areas[n := Trim(olds[n], lo, hi)], lo, hi, n + 1)
    ensures areas[n] == olds[n]
  {
    assert TrimmedAt(olds, areas, lo, hi, n, n);
    var next, areas' := n + 1, areas[n := Trim(olds[n], lo, hi)];
    forall j: nat | j < |olds|
      ensures TrimmedAt(olds, areas', lo, hi, next, j)
    {
      assert TrimmedAt(olds, areas, lo, hi, n, j);
    }
  }

  /** The indices before `n` of the areas that go as a whole, in order. */
  function Wholes(areas: seq<Area>, lo: nat, hi: nat, n: nat): seq<nat>
    requires n <= |areas|
  {
    if n == 0 then []
    else Wholes(areas, lo, hi, n - 1) + if Whole(areas[n - 1], lo, hi) then [n - 1] else []
  }

  ghost predicate LoweredAt(store: Store, store': Store, areas: seq<Area>, lo: nat, hi: nat, n: nat, f: Frame)
    requires lo <= hi && n <= |areas|
  {
    Lowered(store, store', f, SumCut(areas, lo, hi, n, f))
  }

  ghost predicate LoweredAll(store: Store, store': Store, areas: seq<Area>, lo: nat, hi: nat, n: nat)
    requires lo <= hi && n <= |areas|
  {
    forall f {:trigger LoweredAt(store, store', areas, lo, hi, n, f)} :: LoweredAt(store, store', areas, lo, hi, n, f)
  }

  lemma ClipCut(a: Area, lo: nat, hi: nat)
    requires AreaOk(a) && lo < hi && CheckOverlapping(a, lo, hi).Some?
    ensures CutLo(a, lo) - a.start == Clip(a, lo) && CutHi(a, lo, hi) - a.start == Clip(a, hi)
  {
  }

  lemma LoweredStep(store: Store, store': Store, areas: seq<Area>, lo: nat, hi: nat, n: nat)
    requires lo < hi && n < |areas| && AreaOk(areas[n]) && CheckOverlapping(areas[n], lo, hi).Some?
    requires Counted(store') && LoweredAll(store, store', areas, lo, hi, n)
    ensures var after := DroppedStore(areas[n], CutLo(areas[n], lo), CutHi(areas[n], lo, hi), store');
            Counted(after) && LoweredAll(store, after, areas, lo, hi, n + 1)
  {
    var a, next := areas[n], n + 1;
    var after := DroppedStore(a, CutLo(a, lo), CutHi(a, lo, hi), store');
    ClipCut(a, lo, hi);
    forall f
      ensures LoweredAt(store, after, areas, lo, hi, next, f)
    {
      assert LoweredAt(store, store', areas, lo, hi, n, f);
      DroppedLowers(a, CutLo(a, lo), CutHi(a, lo, hi), store', f);
      LoweredTwice(store, store', after, f, SumCut(areas, lo, hi, n, f), Count(a.frames, f, Clip(a, lo), Clip(a, hi)));
    }
    DroppedLowers(a, CutLo(a, lo), CutHi(a, lo, hi), store', Unallocated);
  }

  lemma LoweredSkip(store: Store, store': Store, areas: seq<Area>, lo: nat, hi: nat, n: nat)
    requires lo < hi && n < |areas| && CheckOverlapping(areas[n], lo, hi).None? && LoweredAll(store, store', areas, lo, hi, n)
    ensures LoweredAll(store, store', areas, lo, hi, n + 1)
  {
    var next := n + 1;
    forall f
      ensures LoweredAt(store, store', areas, lo, hi, next, f)
    {
      assert LoweredAt(store, store', areas, lo, hi, n, f);
      assert SumCut(areas, lo, hi, n, f) == SumCut(areas, lo, hi, next, f);
    }
  }

  /** What the pass over the areas has done when it comes to area `n`. */
  ghost predicate Passed(olds: seq<Area>, pages: map<nat, Pte>, store: Store, lo: nat, hi: nat,
                         areas: seq<Area>, table: map<nat, Pte>, store': Store, delete: seq<nat>, n: nat)
    requires lo < hi && AllOk(olds) && n <= |olds|
  {
    && Trimmed(olds, areas, lo, hi, n) && delete == Wholes(olds, lo, hi, n)
    && table == pages - Gone(olds, lo, hi, n)
    && LoweredAll(store, store', olds, lo, hi, n) && Counted(store')
  }

  lemma PassedNone(olds: seq<Area>, pages: map<nat, Pte>, store: Store, lo: nat, hi: nat)
    requires lo < hi && AllOk(olds) && Counted(store)
    ensures Passed(olds, pages, store, lo, hi, olds, pages, store, [], 0)
  {
    forall f
      ensures LoweredAt(store, store, olds, lo, hi, 0, f)
    {
    }
    forall j: nat | j < |olds|
      ensures TrimmedAt(olds, olds, lo, hi, 0, j)
    {
    }
  }

  /** Passing an area the range does not meet. */
  lemma PassedBy(olds: seq<Area>, pages: map<nat, Pte>, store: Store, lo: nat, hi: nat,
                 areas: seq<Area>, table: map<nat, Pte>, store': Store, delete: seq<nat>, n: nat)
    requires lo < hi && AllOk(olds) && n < |olds| && CheckOverlapping(olds[n], lo, hi).None?
    requires Passed(olds, pages, store, lo, hi, areas, table, store', delete, n)
    ensures Passed(olds, pages, store, lo, hi, areas, table, store', delete, n + 1)
  {
    assert AreaOk(olds[n]);
    TrimmedStep(olds, areas, lo, hi, n);
    assert areas[n := Trim(olds[n], lo, hi)] == areas;
    LoweredSkip(store, store', olds, lo, hi, n);
    assert Gone(olds, lo, hi, n + 1) == Gone(olds, lo, hi, n);
  }

  /** Passing an area that loses some pages at an end, or all. */
  lemma PassedOne(olds: seq<Area>, pages: map<nat, Pte>, store: Store, lo: nat, hi: nat,
                  areas: seq<Area>, table: map<nat, Pte>, store': Store, delete: seq<nat>, n: nat)
    requires lo < hi && AllOk(olds) && n < |olds| && AreaOk(olds[n])
    requires CheckOverlapping(olds[n], lo, hi).Some? && !Middle(olds[n], lo, hi)
    requires Passed(olds, pages, store, lo, hi, areas, table, store', delete, n)
    ensures var a := olds[n];
            Passed(olds, pages, store, lo, hi, areas[n := Trim(a, lo, hi)], table - Range(CutLo(a, lo), CutHi(a, lo, hi)),
                   DroppedStore(a, CutLo(a, lo), CutHi(a, lo, hi), store'),
                   if Whole(a, lo, hi) then delete + [n] else delete, n + 1)
  {
    TrimmedStep(olds, areas, lo, hi, n);
    LoweredStep(store, store', olds, lo, hi, n);
  }

  // ---------------------------------------------------------------- munmap, deleting and splitting

  /** The areas from index `b` on that do not go. */
  function KeptFrom(olds: seq<Area>, areas: seq<Area>, lo: nat, hi: nat, b: nat): seq<Area>
    requires |olds| == |areas| && b <= |areas|
    decreases |areas| - b
  {
    if b == |areas| then []
    else (if Whole(olds[b], lo, hi) then [] else [areas[b]]) + KeptFrom(olds, areas, lo, hi, b + 1)
  }

  lemma {:induction false} KeptIsMunmap(olds: seq<Area>, areas: seq<Area>, lo: nat, hi: nat, b: nat)
    requires lo < hi && AllOk(olds) && NoMiddle(olds, lo, hi) && Trimmed(olds, areas, lo, hi, |olds|)
    requires b <= |olds| && AllOk(olds[b..])
    ensures KeptFrom(olds, areas, lo, hi, b) == MunmapAreas(olds[b..], lo, hi)
    decreases |olds| - b
  {
    if b < |olds| {
      AllOkTail(olds[b..]);
      assert olds[b..][1..] == olds[b + 1..];
      assert AreaOk(olds[b]) && !Middle(olds[b], lo, hi) && TrimmedAt(olds, areas, lo, hi, |olds|, b);
      TrimIsCut(olds[b], lo, hi);
      KeptIsMunmap(olds, areas, lo, hi, b + 1);
    }
  }

  /** Step back over an area that stays, or delete one that goes. */
  lemma StepBack(olds: seq<Area>, areas: seq<Area>, lo: nat, hi: nat, b: nat)
    requires |olds| == |areas| && b < |areas|
    ensures var now := areas[..b + 1] + KeptFrom(olds, areas, lo, hi, b + 1);
            if Whole(olds[b], lo, hi) then now[..b] + now[b + 1..] == areas[..b] + KeptFrom(olds, areas, lo, hi, b)
            else now == areas[..b] + KeptFrom(olds, areas, lo, hi, b)
  {
    var now := areas[..b + 1] + KeptFrom(olds, areas, lo, hi, b + 1);
    assert now[..b] == areas[..b] && now[b + 1..] == KeptFrom(olds, areas, lo, hi, b + 1);
    assert areas[..b + 1] == areas[..b] + [areas[b]];
  }

  /** `d` is the last index in `gone`, and removing area `d` leaves `rest`. */
  predicate LastOf(gone: seq<nat>, d: nat, others: seq<nat>, now: seq<Area>, rest: seq<Area>) {
    gone == others + [d] && d < |now| && now[..d] + now[d + 1..] == rest
  }

  /** The last area to delete, among the first `b`. */
  lemma {:induction false} LastWhole(olds: seq<Area>, areas: seq<Area>, lo: nat, hi: nat, b: nat, now: seq<Area>, gone: seq<nat>)
    returns (d: nat)
    requires |olds| == |areas| && b <= |areas|
    requires now == areas[..b] + KeptFrom(olds, areas, lo, hi, b) && gone == Wholes(olds, lo, hi, b)
    ensures gone == [] ==> now == KeptFrom(olds, areas, lo, hi, 0)
    ensures gone != [] ==> d < b && LastOf(gone, d, Wholes(olds, lo, hi, d), now, areas[..d] + KeptFrom(olds, areas, lo, hi, d))
  {
    d := 0;
    if b > 0 {
      StepBack(olds, areas, lo, hi, b - 1);
      if Whole(olds[b - 1], lo, hi) {
        d := b - 1;
      } else {
        d := LastWhole(olds, areas, lo, hi, b - 1, now, gone);
      }
    }
  }

  lemma {:induction false} MunmapNothing(areas: seq<Area>, lo: nat, hi: nat)
    requires lo < hi && AllOk(areas)
    requires forall i :: 0 <= i < |areas| ==> CheckOverlapping(areas[i], lo, hi).None?
    ensures MunmapAreas(areas, lo, hi) == areas
  {
    if areas != [] {
      AllOkTail(areas);
      MunmapNothing(areas[1..], lo, hi);
    }
  }

  lemma {:induction false} MunmapConcat(xs: seq<Area>, ys: seq<Area>, lo: nat, hi: nat)
    requires lo < hi && AllOk(xs) && AllOk(ys) && AllOk(xs + ys)
    ensures MunmapAreas(xs + ys, lo, hi) == MunmapAreas(xs, lo, hi) + MunmapAreas(ys, lo, hi)
  {
    if xs == [] {
      assert xs + ys == ys;
    } else {
      AllOkTail(xs);
      AllOkTail(xs + ys);
      assert (xs + ys)[0] == xs[0] && (xs + ys)[1..] == xs[1..] + ys;
      MunmapConcat(xs[1..], ys, lo, hi);
    }
  }

  lemma AllOkPart(areas: seq<Area>, i: nat, j: nat)
    requires AllOk(areas) && i <= j <= |areas|
    ensures AllOk(areas[i..j])
  {
    forall k | 0 <= k < j - i
      ensures AreaOk(areas[i..j][k])
    {
      assert AreaOk(areas[i + k]);
    }
  }

  /** If an area is split, the others stay as they are. */
  lemma MunmapAround(xs: seq<Area>, a: Area, ys: seq<Area>, lo: nat, hi: nat)
    requires lo < hi && AllOk(xs) && AreaOk(a) && AllOk(ys) && AllOk([a] + ys) && AllOk(xs + ([a] + ys))
    requires forall i :: 0 <= i < |xs| ==> CheckOverlapping(xs[i], lo, hi).None?
    requires forall i :: 0 <= i < |ys| ==> CheckOverlapping(ys[i], lo, hi).None?
    ensures MunmapAreas(xs + ([a] + ys), lo, hi) == xs + (Cut(a, lo, hi) + ys)
  {
    MunmapConcat(xs, [a] + ys, lo, hi);
    MunmapNothing(xs, lo, hi);
    MunmapNothing(ys, lo, hi);
    assert ([a] + ys)[1..] == ys;
  }

  lemma MunmapSplit(areas: seq<Area>, m: nat, lo: nat, hi: nat)
    requires WellFormed(areas) && m < |areas| && Middle(areas[m], lo, hi)
    ensures AreaOk(areas[m])
    ensures MunmapAreas(areas, lo, hi) == areas[..m] + (Cut(areas[m], lo, hi) + areas[m + 1..])
  {
    assert AreaOk(areas[m]);
    var xs, ys := areas[0..m], areas[m + 1..|areas|];
    AllOkPart(areas, 0, m);
    AllOkPart(areas, m, |areas|);
    AllOkPart(areas, m + 1, |areas|);
    assert areas[m..|areas|] == [areas[m]] + ys;
    assert areas == xs + ([areas[m]] + ys);
    forall j: nat | j < |areas| && j != m
      ensures CheckOverlapping(areas[j], lo, hi).None?
    {
      OthersUntouched(areas, m, lo, hi, j);
    }
    MunmapAround(xs, areas[m], ys, lo, hi);
  }

  /** ... and only its pages are given up. */
  lemma {:induction false} SumCutOnly(areas: seq<Area>, m: nat, lo: nat, hi: nat, n: nat, f: Frame)
    requires WellFormed(areas) && m < |areas| && Middle(areas[m], lo, hi) && n <= |areas|
    ensures SumCut(areas, lo, hi, n, f) == if m < n then Count(areas[m].frames, f, lo - areas[m].start, hi - areas[m].start) else 0
  {
    if n > 0 {
      SumCutOnly(areas, m, lo, hi, n - 1, f);
      if m != n - 1 {
        OthersUntouched(areas, m, lo, hi, n - 1);
      }
    }
  }

  predicate MiddlePart(second: Area, a: Area, lo: nat, hi: nat) {
    && a.start <= lo <= hi <= a.End() && second.start == lo && second.End() == hi
    && second.frames == a.frames[lo - a.start..hi - a.start]
  }

  lemma SplitLowers(areas: seq<Area>, m: nat, lo: nat, hi: nat, second: Area, store: Store)
    requires WellFormed(areas) && m < |areas| && Middle(areas[m], lo, hi) && MiddlePart(second, areas[m], lo, hi)
    requires Counted(store)
    ensures var after := DroppedStore(second, lo, hi, store);
            LoweredAll(store, after, areas, lo, hi, |areas|) && Counted(after)
  {
    var a, after := areas[m], DroppedStore(second, lo, hi, store);
    forall f
      ensures LoweredAt(store, after, areas, lo, hi, |areas|, f)
    {
      DroppedLowers(second, lo, hi, store, f);
      SumCutOnly(areas, m, lo, hi, |areas|, f);
      CountSlice(a.frames, f, lo - a.start, hi - a.start, hi - lo);
    }
    DroppedLowers(second, lo, hi, store, Unallocated);
  }

  lemma SplitMapped(areas: seq<Area>, table: map<nat, Pte>, m: nat, lo: nat, hi: nat, second: Area)
    requires WellFormed(areas) && PagesOk(areas, table) && m < |areas| && MiddlePart(second, areas[m], lo, hi)
    ensures forall v {:trigger MappedAt(second, table, v)} :: lo <= v < hi ==> MappedAt(second, table, v)
  {
    forall v: nat | lo <= v < hi
      ensures MappedAt(second, table, v)
    {
      assert PageOk(areas, table, v);
      SlotAtIndex(areas, m, v);
    }
  }

  /** What `munmap` leaves is again a well-formed address space, whatever shares its frames. */
  lemma MunmapKeeps(areas: seq<Area>, table: map<nat, Pte>, store: Store, store': Store, lo: nat, hi: nat)
    requires WellFormed(areas) && lo < hi && PagesOk(areas, table) && HeldOk(areas, store)
    requires LoweredAll(store, store', areas, lo, hi, |areas|)
    ensures WellFormed(MunmapAreas(areas, lo, hi))
    ensures PagesOk(MunmapAreas(areas, lo, hi), table - Range(lo, hi))
    ensures OutsideKept(areas, store, MunmapAreas(areas, lo, hi), store') && HeldOk(MunmapAreas(areas, lo, hi), store')
  {
    MunmapWellFormed(areas, lo, hi);
    var after, table' := MunmapAreas(areas, lo, hi), table - Range(lo, hi);
    forall v: nat
      ensures PageOk(after, table', v)
    {
      MunmapSlots(areas, lo, hi, v);
      AreaAtSlot(areas, v);
      assert PageOk(areas, table, v);
    }
    forall f
      ensures OutsideAt(areas, store, after, store', f)
    {
      assert HeldAt(areas, store, f) && LoweredAt(store, store', areas, lo, hi, |areas|, f);
      MunmapHeld(areas, lo, hi, f);
      SumCutIsCutCount(areas, lo, hi, f);
    }
    OutsideHeld(areas, store, after, store');
  }

  /** Splitting area `m` at both ends of the range and unmapping the middle is what `munmap` does. */
  lemma SplitOut(areas: seq<Area>, table: map<nat, Pte>, store: Store, m: nat, lo: nat, hi: nat)
    requires WellFormed(areas) && PagesOk(areas, table) && Counted(store) && m < |areas| && Middle(areas[m], lo, hi)
    ensures AreaOk(areas[m]) && IntoThree(areas[m], lo, hi).Some?
    ensures var (first, second, third) := IntoThree(areas[m], lo, hi).value;
            var after := DroppedStore(second, lo, hi, store);
            && second.start == lo && second.End() == hi
            && (forall v {:trigger MappedAt(second, table, v)} :: lo <= v < hi ==> MappedAt(second, table, v))
            && MunmapAreas(areas, lo, hi) == areas[..m] + ([first, third] + areas[m + 1..])
            && LoweredAll(store, after, areas, lo, hi, |areas|) && Counted(after)
  {
    MunmapSplit(areas, m, lo, hi);
    IntoThreeKeeps(areas[m], lo, hi);
    ThreeFrames(areas[m], lo, hi);
    var (first, second, third) := IntoThree(areas[m], lo, hi).value;
    assert Cut(areas[m], lo, hi) == [first, third];
    assert MiddlePart(second, areas[m], lo, hi);
    SplitMapped(areas, table, m, lo, hi, second);
    SplitLowers(areas, m, lo, hi, second, store);
  }

  lemma RemoveAbsent(table: map<nat, Pte>, v: nat)
    ensures v !in table ==> table - {v} == table
  {
  }

  lemma DroppingActive(a: Area, i: nat, k: nat, active: seq<U16>, mapped: bool)
    requires i <= k < |a.frames| && active == Forget(a.active, a.frames, i, k, |a.active|) && mapped == a.frames[k].InMemory?
    ensures Forget(a.active, a.frames, i, k + 1, |a.active|) == if mapped then Without(active, k, |active|) else active
  {
    ForgetOneMore(a.active, a.frames, i, k, |a.active|);
  }
}
