/** Areas of an address space as the kernel keeps them: a start page, a vector with the frame of
    each page, and the bookkeeping of what is in memory, compressed and swapped out. */
module MapAreas {
  import opened Basics
  import opened PagedMemory

  /** `MapArea` with its `LinearMap`. `file` is the position behind the first page; `active` lists
      indices of pages that can be reclaimed, cut to 16 bits. */
  datatype Area = Area(start: nat, frames: seq<Frame>, perm: Perm, file: Option<FilePos>,
                       active: seq<U16>, compressed: nat, swapped: nat)
  {
    function End(): nat { start + |frames| }

    predicate Has(v: nat) { start <= v < End() }

    function FileAt(v: nat): Option<FilePos>
      requires start <= v
    {
      match file
      case Some(pos) => Some(pos.(page := pos.page + v - start))
      case None => None
    }

    function SlotOf(v: nat): Slot
      requires Has(v)
    {
      Slot(perm, frames[v - start], FileAt(v))
    }
  }

  // ---------------------------------------------------------------- counters and the active list

  function CountCompressed(frames: seq<Frame>, lo: nat, hi: nat): nat
    requires hi <= |frames|
    decreases hi
  {
    if lo >= hi then 0 else CountCompressed(frames, lo, hi - 1) + (if frames[hi - 1].Compressed? then 1 else 0)
  }

  function CountSwapped(frames: seq<Frame>, lo: nat, hi: nat): nat
    requires hi <= |frames|
    decreases hi
  {
    if lo >= hi then 0 else CountSwapped(frames, lo, hi - 1) + (if frames[hi - 1].SwappedOut? then 1 else 0)
  }

  /** The counters never fall short of the frames they count, so decrementing them is safe. */
  predicate CountersOk(a: Area) {
    && CountCompressed(a.frames, 0, |a.frames|) <= a.compressed
    && CountSwapped(a.frames, 0, |a.frames|) <= a.swapped
  }

  lemma {:induction false} CountSplit(frames: seq<Frame>, k: nat, n: nat)
    requires k <= n <= |frames|
    ensures CountCompressed(frames, 0, n) == CountCompressed(frames, 0, k) + CountCompressed(frames, k, n)
    ensures CountSwapped(frames, 0, n) == CountSwapped(frames, 0, k) + CountSwapped(frames, k, n)
  {
    if k < n {
      CountSplit(frames, k, n - 1);
    }
  }

  lemma {:induction false} CountPiece(frames: seq<Frame>, lo: nat, hi: nat, n: nat)
    requires lo <= hi <= |frames| && n <= hi - lo
    ensures CountCompressed(frames[lo..hi], 0, n) == CountCompressed(frames, lo, lo + n)
    ensures CountSwapped(frames[lo..hi], 0, n) == CountSwapped(frames, lo, lo + n)
  {
    if n > 0 {
      CountPiece(frames, lo, hi, n - 1);
    }
  }

  /** The counts of the two parts of a cut add up. */
  lemma CountParts(frames: seq<Frame>, k: nat)
    requires k <= |frames|
    ensures var low, high, n := frames[..k], frames[k..], |frames|;
            && CountCompressed(frames, 0, n) == CountCompressed(low, 0, k) + CountCompressed(high, 0, n - k)
            && CountSwapped(frames, 0, n) == CountSwapped(low, 0, k) + CountSwapped(high, 0, n - k)
  {
    CountSplit(frames, k, |frames|);
    CountPiece(frames, 0, k, k);
    CountPiece(frames, k, |frames|, |frames| - k);
    assert frames[0..k] == frames[..k] && frames[k..|frames|] == frames[k..];
  }

  predicate Reclaimable(frames: seq<Frame>, x: nat) {
    x < |frames| && frames[x].InMemory?
  }

  /** The active list names only pages in memory, each at most once. */
  ghost predicate ActiveOk(frames: seq<Frame>, active: seq<U16>) {
    Distinct(active) && forall x {:trigger Reclaimable(frames, x)} :: x in active ==> Reclaimable(frames, x)
  }

  /** `split_active_into_two`: the indices below the cut, of the first `n`. */
  function ActiveBelow(active: seq<U16>, k: nat, n: nat): seq<U16>
    requires n <= |active|
  {
    if n == 0 then []
    else if active[n - 1] < k then ActiveBelow(active, k, n - 1) + [active[n - 1]]
    else ActiveBelow(active, k, n - 1)
  }

  /** `split_active_into_two`: the indices from the cut on, counted from the cut. */
  function ActiveFrom(active: seq<U16>, k: nat, n: nat): seq<U16>
    requires n <= |active|
  {
    if n == 0 then []
    else if active[n - 1] < k then ActiveFrom(active, k, n - 1)
    else ActiveFrom(active, k, n - 1) + [active[n - 1] - k]
  }

  /** The active list after the pages in memory with index in [lo, hi) were unmapped. */
  function Forget(active: seq<U16>, frames: seq<Frame>, lo: nat, hi: nat, n: nat): seq<U16>
    requires n <= |active|
  {
    if n == 0 then []
    else if lo <= active[n - 1] < hi && Reclaimable(frames, active[n - 1]) then Forget(active, frames, lo, hi, n - 1)
    else Forget(active, frames, lo, hi, n - 1) + [active[n - 1]]
  }

  /** `VecDeque::retain` of everything but one index. */
  function Without(active: seq<U16>, x: nat, n: nat): seq<U16>
    requires n <= |active|
  {
    if n == 0 then []
    else if active[n - 1] == x then Without(active, x, n - 1)
    else Without(active, x, n - 1) + [active[n - 1]]
  }

  ghost predicate Before(active: seq<U16>, n: nat, x: nat)
    requires n <= |active|
  {
    exists i :: 0 <= i < n && active[i] == x
  }

  lemma BeforeStep(active: seq<U16>, n: nat, x: nat)
    requires 0 < n <= |active|
    ensures Before(active, n, x) <==> Before(active, n - 1, x) || x == active[n - 1]
  {
  }

  lemma BeforeAll(active: seq<U16>, x: nat)
    ensures Before(active, |active|, x) <==> x in active
  {
  }

  lemma {:induction false} BelowHas(active: seq<U16>, k: nat, n: nat, x: nat)
    requires n <= |active|
    ensures x in ActiveBelow(active, k, n) <==> x < k && Before(active, n, x)
  {
    if n > 0 {
      BelowHas(active, k, n - 1, x);
      BeforeStep(active, n, x);
    }
  }

  lemma {:induction false} FromHas(active: seq<U16>, k: nat, n: nat, x: nat)
    requires n <= |active|
    ensures x in ActiveFrom(active, k, n) <==> Before(active, n, x + k)
  {
    if n > 0 {
      FromHas(active, k, n - 1, x);
      BeforeStep(active, n, x + k);
    }
  }

  lemma {:induction false} ForgetHas(active: seq<U16>, frames: seq<Frame>, lo: nat, hi: nat, n: nat, x: nat)
    requires n <= |active|
    ensures x in Forget(active, frames, lo, hi, n) <==> Before(active, n, x) && !(lo <= x < hi && Reclaimable(frames, x))
  {
    if n > 0 {
      ForgetHas(active, frames, lo, hi, n - 1, x);
      BeforeStep(active, n, x);
    }
  }

  lemma DistinctAppend(s: seq<U16>, y: U16)
    requires Distinct(s) && y !in s
    ensures Distinct(s + [y])
  {
  }

  lemma {:induction false} SplitDistinct(active: seq<U16>, k: nat, n: nat)
    requires Distinct(active) && n <= |active|
    ensures Distinct(ActiveBelow(active, k, n)) && Distinct(ActiveFrom(active, k, n))
  {
    if n > 0 {
      SplitDistinct(active, k, n - 1);
      var y := active[n - 1];
      assert !Before(active, n - 1, y);
      if y < k {
        BelowHas(active, k, n - 1, y);
        DistinctAppend(ActiveBelow(active, k, n - 1), y);
      } else {
        FromHas(active, k, n - 1, y - k);
        DistinctAppend(ActiveFrom(active, k, n - 1), y - k);
      }
    }
  }

  lemma {:induction false} ForgetDistinct(active: seq<U16>, frames: seq<Frame>, lo: nat, hi: nat, n: nat)
    requires Distinct(active) && n <= |active|
    ensures Distinct(Forget(active, frames, lo, hi, n))
  {
    if n > 0 {
      ForgetDistinct(active, frames, lo, hi, n - 1);
      var y := active[n - 1];
      assert !Before(active, n - 1, y);
      ForgetHas(active, frames, lo, hi, n - 1, y);
      if !(lo <= y < hi && Reclaimable(frames, y)) {
        DistinctAppend(Forget(active, frames, lo, hi, n - 1), y);
      }
    }
  }

  /** Both halves list pages in memory. */
  lemma ActiveHalves(frames: seq<Frame>, active: seq<U16>, k: nat)
    requires ActiveOk(frames, active) && k <= |frames|
    ensures ActiveOk(frames[..k], ActiveBelow(active, k, |active|))
    ensures ActiveOk(frames[k..], ActiveFrom(active, k, |active|))
  {
    var low, high := ActiveBelow(active, k, |active|), ActiveFrom(active, k, |active|);
    SplitDistinct(active, k, |active|);
    forall x | x in low
      ensures Reclaimable(frames[..k], x)
    {
      BelowHas(active, k, |active|, x);
      BeforeAll(active, x);
      assert Reclaimable(frames, x);
    }
    forall x | x in high
      ensures Reclaimable(frames[k..], x)
    {
      FromHas(active, k, |active|, x);
      BeforeAll(active, x + k);
      assert Reclaimable(frames, x + k);
    }
  }

  /** Index `x` is listed exactly if the half it belongs to lists it. */
  ghost predicate Divided(active: seq<U16>, low: seq<U16>, high: seq<U16>, k: nat, x: nat) {
    if x < k then x in active <==> x in low else x in active <==> x - k in high
  }

  /** The halves list pages in memory, and between them exactly the pages that were listed. */
  lemma ActiveSplit(frames: seq<Frame>, active: seq<U16>, k: nat)
    requires ActiveOk(frames, active) && k <= |frames|
    ensures var low, high := ActiveBelow(active, k, |active|), ActiveFrom(active, k, |active|);
            && ActiveOk(frames[..k], low) && ActiveOk(frames[k..], high)
            && forall x: nat :: Divided(active, low, high, k, x)
  {
    var low, high := ActiveBelow(active, k, |active|), ActiveFrom(active, k, |active|);
    ActiveHalves(frames, active, k);
    forall x: nat
      ensures Divided(active, low, high, k, x)
    {
      BeforeAll(active, x);
      if x < k {
        BelowHas(active, k, |active|, x);
      } else {
        FromHas(active, k, |active|, x - k);
      }
    }
  }

  // ---------------------------------------------------------------- splitting

  /** `into_two`; the cut must be strictly inside. */
  function IntoTwo(a: Area, cut: nat): Option<(Area, Area)>
    requires CountersOk(a)
  {
    if cut <= a.start || cut >= a.End() then None
    else
      var k := cut - a.start;
      CountParts(a.frames, k);
      var (c, s) := if a.compressed == 0 && a.swapped == 0 then (0, 0)
                    else (CountCompressed(a.frames[..k], 0, k), CountSwapped(a.frames[..k], 0, k));
      Some((a.(frames := a.frames[..k], active := ActiveBelow(a.active, k, |a.active|), compressed := c, swapped := s),
            Area(cut, a.frames[k..], a.perm, a.FileAt(cut), ActiveFrom(a.active, k, |a.active|), a.compressed - c, a.swapped - s)))
  }

  /** `part` is a piece of `a`: its pages are where and what they were. */
  ghost predicate PieceOf(part: Area, a: Area) {
    && a.start <= part.start && part.End() <= a.End()
    && part.perm == a.perm
    && part.frames == a.frames[part.start - a.start..part.End() - a.start]
    && part.file == a.FileAt(part.start)
  }

  ghost predicate KeepsActive(part: Area, a: Area) {
    ActiveOk(a.frames, a.active) ==> ActiveOk(part.frames, part.active)
  }

  /** What a split keeps: both halves are pieces of the area, and no counter falls short. */
  lemma IntoTwoKeeps(a: Area, cut: nat)
    requires CountersOk(a) && a.start < cut < a.End()
    ensures var (first, second) := IntoTwo(a, cut).value;
            && first.start == a.start && first.End() == second.start == cut && second.End() == a.End()
            && CountersOk(first) && CountersOk(second) && PieceOf(first, a) && PieceOf(second, a)
            && KeepsActive(first, a) && KeepsActive(second, a)
            && first.compressed == CountCompressed(first.frames, 0, |first.frames|) && first.compressed + second.compressed == a.compressed
            && first.swapped == CountSwapped(first.frames, 0, |first.frames|) && first.swapped + second.swapped == a.swapped
  {
    CountParts(a.frames, cut - a.start);
    IntoTwoPieces(a, cut);
    IntoTwoCounters(a, cut);
    IntoTwoActive(a, cut);
  }

  lemma IntoTwoPieces(a: Area, cut: nat)
    requires CountersOk(a) && a.start < cut < a.End()
    ensures var (first, second) := IntoTwo(a, cut).value;
            && first.start == a.start && first.End() == second.start == cut && second.End() == a.End()
            && PieceOf(first, a) && PieceOf(second, a)
  {
    var k := cut - a.start;
    assert a.frames[0..k] == a.frames[..k] && a.frames[k..|a.frames|] == a.frames[k..];
  }

  lemma IntoTwoCounters(a: Area, cut: nat)
    requires CountersOk(a) && a.start < cut < a.End()
    ensures var (first, second) := IntoTwo(a, cut).value; CountersOk(first) && CountersOk(second)
  {
    CountParts(a.frames, cut - a.start);
  }

  lemma IntoTwoActive(a: Area, cut: nat)
    requires CountersOk(a) && a.start < cut < a.End()
    ensures var (first, second) := IntoTwo(a, cut).value; KeepsActive(first, a) && KeepsActive(second, a)
  {
    if ActiveOk(a.frames, a.active) {
      ActiveHalves(a.frames, a.active, cut - a.start);
    }
  }

  lemma PieceOfPiece(c: Area, b: Area, a: Area)
    requires PieceOf(c, b) && PieceOf(b, a)
    ensures PieceOf(c, a)
  {
  }

  /** The pages of a piece are the pages of the area. */
  lemma PieceSlot(part: Area, a: Area, v: nat)
    requires PieceOf(part, a) && part.Has(v)
    ensures a.Has(v) && part.SlotOf(v) == a.SlotOf(v)
  {
    assert part.frames[v - part.start] == a.frames[v - a.start];
  }

  /** `into_three`: split off the tail, then cut that. A second cut outside the tail is refused. */
  function IntoThree(a: Area, cut1: nat, cut2: nat): Option<(Area, Area, Area)>
    requires CountersOk(a)
  {
    match IntoTwo(a, cut1)
    case None => None
    case Some((first, rest)) =>
      IntoTwoKeeps(a, cut1);
      match IntoTwo(rest, cut2)
      case None => None
      case Some((second, third)) => Some((first, second, third))
  }

  lemma IntoThreeKeeps(a: Area, cut1: nat, cut2: nat)
    requires CountersOk(a)
    ensures IntoThree(a, cut1, cut2).Some? <==> a.start < cut1 < cut2 < a.End()
    ensures a.start < cut1 < cut2 < a.End() ==>
              var (first, second, third) := IntoThree(a, cut1, cut2).value;
              && first.start == a.start && first.End() == second.start == cut1
              && second.End() == third.start == cut2 && third.End() == a.End()
              && CountersOk(first) && CountersOk(second) && CountersOk(third)
              && PieceOf(first, a) && PieceOf(second, a) && PieceOf(third, a)
              && KeepsActive(first, a) && KeepsActive(third, a) && KeepsActive(second, a)
  {
    if a.start < cut1 < a.End() {
      IntoTwoKeeps(a, cut1);
      var (first, rest) := IntoTwo(a, cut1).value;
      if cut1 < cut2 < a.End() {
        TailKeeps(rest, a, cut2);
      }
    }
  }

  /** The parts of the tail are pieces of the whole. */
  lemma TailKeeps(rest: Area, a: Area, cut: nat)
    requires CountersOk(rest) && PieceOf(rest, a) && KeepsActive(rest, a) && rest.start < cut < rest.End()
    ensures IntoTwo(rest, cut).Some?
    ensures var (second, third) := IntoTwo(rest, cut).value;
            && second.start == rest.start && second.End() == third.start == cut && third.End() == rest.End()
            && CountersOk(second) && CountersOk(third) && PieceOf(second, a) && PieceOf(third, a)
            && KeepsActive(second, a) && KeepsActive(third, a)
  {
    IntoTwoKeeps(rest, cut);
    var (second, third) := IntoTwo(rest, cut).value;
    PieceOfPiece(second, rest, a);
    PieceOfPiece(third, rest, a);
  }

  // ---------------------------------------------------------------- shrinking

  /** `check_overlapping`. Touching at the lower end counts as an empty overlap. */
  function CheckOverlapping(a: Area, lo: nat, hi: nat): Option<(nat, nat)> {
    if hi < a.start || lo >= a.End() then None
    else Some((if lo > a.start then lo else a.start, if hi < a.End() then hi else a.End()))
  }

  function Rotate(s: seq<Frame>, k: nat): seq<Frame>
    requires k <= |s|
  {
    s[k..] + s[..k]
  }

  function Resize(s: seq<Frame>, n: nat): seq<Frame> {
    if n <= |s| then s[..n] else s + seq(n - |s|, _ => Unallocated)
  }

  /** Moving the start up, by rotating and truncating, drops the first frames. */
  lemma RotateDrops(s: seq<Frame>, k: nat)
    requires k <= |s|
    ensures Resize(Rotate(s, k), |s| - k) == s[k..]
  {
  }

  /** `rshrink_to` above the start: the lower pages go. Neither the active list nor the file
      position is moved along. */
  function ShrinkLower(a: Area, start: nat): Area
    requires a.start <= start <= a.End()
  {
    var k := start - a.start;
    a.(start := start, frames := a.frames[k..], active := Forget(a.active, a.frames, 0, k, |a.active|))
  }

  /** `shrink_to`: the upper pages go. */
  function ShrinkUpper(a: Area, end: nat): Area
    requires a.start <= end <= a.End()
  {
    var k := end - a.start;
    a.(frames := a.frames[..k], active := Forget(a.active, a.frames, k, |a.frames|, |a.active|))
  }

  predicate AreaOk(a: Area) {
    CountersOk(a)
  }

  /** What `munmap` leaves of an area. */
  function Cut(a: Area, lo: nat, hi: nat): seq<Area>
    requires AreaOk(a) && lo < hi
  {
    match CheckOverlapping(a, lo, hi)
    case None => [a]
    case Some((s, e)) =>
      if s == a.start && e == a.End() then []
      else if s == a.start then [ShrinkLower(a, e)]
      else if e == a.End() then [ShrinkUpper(a, s)]
      else
        IntoThreeKeeps(a, lo, hi);
        var (first, _, third) := IntoThree(a, lo, hi).value;
        [first, third]
  }

  // ---------------------------------------------------------------- the pages of a list of areas

  /** The page `v`, found in the first area that has it. */
  function SlotAt(areas: seq<Area>, v: nat): Option<Slot> {
    if areas == [] then None
    else if areas[0].Has(v) then Some(areas[0].SlotOf(v))
    else SlotAt(areas[1..], v)
  }

  predicate Separate(a: Area, b: Area) {
    a.End() <= b.start || b.End() <= a.start
  }

  ghost predicate Apart(areas: seq<Area>, b: Area) {
    forall i {:trigger Separate(areas[i], b)} :: 0 <= i < |areas| ==> Separate(areas[i], b)
  }

  predicate AllOk(areas: seq<Area>) {
    forall i {:trigger AreaOk(areas[i])} :: 0 <= i < |areas| ==> AreaOk(areas[i])
  }

  lemma AllOkTail(areas: seq<Area>)
    requires AllOk(areas) && areas != []
    ensures AreaOk(areas[0]) && AllOk(areas[1..])
  {
    forall i | 0 <= i < |areas[1..]|
      ensures AreaOk(areas[1..][i])
    {
      assert AreaOk(areas[i + 1]);
    }
  }

  /** Areas do not overlap and their counters are safe. */
  ghost predicate WellFormed(areas: seq<Area>) {
    && AllOk(areas)
    && (forall i, j {:trigger Separate(areas[i], areas[j])} :: 0 <= i < j < |areas| ==> Separate(areas[i], areas[j]))
  }

  lemma {:induction false} SlotAtConcat(xs: seq<Area>, ys: seq<Area>, v: nat)
    ensures SlotAt(xs + ys, v) == if SlotAt(xs, v).Some? then SlotAt(xs, v) else SlotAt(ys, v)
  {
    if xs == [] {
      assert xs + ys == ys;
    } else {
      assert (xs + ys)[0] == xs[0] && (xs + ys)[1..] == xs[1..] + ys;
      SlotAtConcat(xs[1..], ys, v);
    }
  }

  /** In a well-formed list the page is found wherever it is. */
  lemma {:induction false} SlotAtIndex(areas: seq<Area>, i: nat, v: nat)
    requires WellFormed(areas) && i < |areas| && areas[i].Has(v)
    ensures SlotAt(areas, v) == Some(areas[i].SlotOf(v))
    decreases i
  {
    if i > 0 {
      assert Separate(areas[0], areas[i]);
      WellFormedTail(areas);
      SlotAtIndex(areas[1..], i - 1, v);
    }
  }

  lemma WellFormedTail(areas: seq<Area>)
    requires WellFormed(areas) && areas != []
    ensures WellFormed(areas[1..])
  {
    var t := areas[1..];
    AllOkTail(areas);
    forall i, j | 0 <= i < j < |t|
      ensures Separate(t[i], t[j])
    {
      assert Separate(areas[i + 1], areas[j + 1]);
    }
  }

  // ---------------------------------------------------------------- munmap, on values

  function MunmapAreas(areas: seq<Area>, lo: nat, hi: nat): seq<Area>
    requires lo < hi && AllOk(areas)
  {
    if areas == [] then []
    else
      AllOkTail(areas);
      Cut(areas[0], lo, hi) + MunmapAreas(areas[1..], lo, hi)
  }

  /** The lower part of a file-backed area is cut off: its file position is then wrong. */
  predicate CutsFileLow(a: Area, lo: nat, hi: nat) {
    a.file.Some? && lo <= a.start < hi < a.End()
  }

  /** The page as `munmap` leaves it: the file position of a page above a cut moves back by the
      number of pages cut off. */
  function KeptSlot(a: Area, lo: nat, hi: nat, v: nat): Slot
    requires a.Has(v) && !(lo <= v < hi)
  {
    if CutsFileLow(a, lo, hi)
    then a.SlotOf(v).(file := Some(a.file.value.(page := a.file.value.page + v - hi)))
    else a.SlotOf(v)
  }

  lemma SingleSlot(a: Area, v: nat)
    ensures SlotAt([a], v) == if a.Has(v) then Some(a.SlotOf(v)) else None
  {
  }

  lemma PairSlot(a: Area, b: Area, v: nat)
    ensures SlotAt([a, b], v) == if a.Has(v) then Some(a.SlotOf(v)) else if b.Has(v) then Some(b.SlotOf(v)) else None
  {
    assert [a, b][1..] == [b];
    SingleSlot(b, v);
  }

  lemma ShrinkLowerSlot(a: Area, lo: nat, hi: nat, v: nat)
    requires lo < hi && lo <= a.start <= hi < a.End()
    ensures ShrinkLower(a, hi).Has(v) <==> a.Has(v) && !(lo <= v < hi)
    ensures a.Has(v) && !(lo <= v < hi) ==> ShrinkLower(a, hi).SlotOf(v) == KeptSlot(a, lo, hi, v)
  {
  }

  lemma ShrinkUpperSlot(a: Area, lo: nat, hi: nat, v: nat)
    requires lo < hi && a.start < lo < a.End() <= hi
    ensures ShrinkUpper(a, lo).Has(v) <==> a.Has(v) && !(lo <= v < hi)
    ensures a.Has(v) && !(lo <= v < hi) ==> ShrinkUpper(a, lo).SlotOf(v) == KeptSlot(a, lo, hi, v)
  {
  }

  /** What is left of an area holds its pages outside the range, and no others. */
  lemma CutSlots(a: Area, lo: nat, hi: nat, v: nat)
    requires AreaOk(a) && lo < hi
    ensures SlotAt(Cut(a, lo, hi), v) == if a.Has(v) && !(lo <= v < hi) then Some(KeptSlot(a, lo, hi, v)) else None
  {
    if a.start < lo && hi < a.End() {
      IntoThreeKeeps(a, lo, hi);
      var (first, _, third) := IntoThree(a, lo, hi).value;
      PairSlot(first, third, v);
      if first.Has(v) {
        PieceSlot(first, a, v);
      } else if third.Has(v) {
        PieceSlot(third, a, v);
      }
    } else if lo <= a.start <= hi < a.End() {
      ShrinkLowerSlot(a, lo, hi, v);
      SingleSlot(ShrinkLower(a, hi), v);
    } else if a.start < lo < a.End() <= hi {
      ShrinkUpperSlot(a, lo, hi, v);
      SingleSlot(ShrinkUpper(a, lo), v);
    } else {
      SingleSlot(a, v);
    }
  }

  /** The first area that has page `v`. */
  function AreaAt(areas: seq<Area>, v: nat): Option<Area> {
    if areas == [] then None else if areas[0].Has(v) then Some(areas[0]) else AreaAt(areas[1..], v)
  }

  lemma {:induction false} AreaAtSlot(areas: seq<Area>, v: nat)
    ensures AreaAt(areas, v).Some? ==> AreaAt(areas, v).value.Has(v)
    ensures SlotAt(areas, v) == if AreaAt(areas, v).Some? then Some(AreaAt(areas, v).value.SlotOf(v)) else None
  {
    if areas != [] && !areas[0].Has(v) {
      AreaAtSlot(areas[1..], v);
    }
  }

  /** `munmap` removes exactly the pages in the range. Every other page keeps its frame and its
      permission, and its file position as well unless the lower part of its file was cut off. */
  lemma {:induction false} MunmapSlots(areas: seq<Area>, lo: nat, hi: nat, v: nat)
    requires lo < hi && AllOk(areas)
    ensures var a := AreaAt(areas, v);
            && (a.Some? ==> a.value.Has(v))
            && SlotAt(MunmapAreas(areas, lo, hi), v) ==
               if a.Some? && !(lo <= v < hi) then Some(KeptSlot(a.value, lo, hi, v)) else None
  {
    if areas != [] {
      AllOkTail(areas);
      SlotAtConcat(Cut(areas[0], lo, hi), MunmapAreas(areas[1..], lo, hi), v);
      CutSlots(areas[0], lo, hi, v);
      MunmapSlots(areas[1..], lo, hi, v);
    }
  }

  lemma KeptSlotExact(a: Area, lo: nat, hi: nat, v: nat)
    requires a.Has(v) && !(lo <= v < hi)
    ensures KeptSlot(a, lo, hi, v).frame == a.SlotOf(v).frame && KeptSlot(a, lo, hi, v).perm == a.SlotOf(v).perm
    ensures KeptSlot(a, lo, hi, v) == a.SlotOf(v) <==> !CutsFileLow(a, lo, hi)
  {
  }

  ghost predicate SameContent(env: Env, store: Store, s: Slot, s': Slot)
    requires s.frame != Unallocated ==> s.frame in store
    requires s'.frame != Unallocated ==> s'.frame in store
  {
    SlotBytes(env, store, s') == SlotBytes(env, store, s)
  }

  /** The page holds what it held, whatever the files hold, exactly if it is in a frame already or no
      file-backed area lost its lower part. */
  lemma KeptBytesExact(a: Area, lo: nat, hi: nat, v: nat, store: Store)
    requires a.Has(v) && !(lo <= v < hi) && (a.SlotOf(v).frame != Unallocated ==> a.SlotOf(v).frame in store)
    ensures KeptSlot(a, lo, hi, v).frame == a.SlotOf(v).frame
    ensures (forall env: Env :: SameContent(env, store, a.SlotOf(v), KeptSlot(a, lo, hi, v))) <==>
            a.SlotOf(v).frame != Unallocated || !CutsFileLow(a, lo, hi)
  {
    var s, s' := a.SlotOf(v), KeptSlot(a, lo, hi, v);
    if s.frame == Unallocated && CutsFileLow(a, lo, hi) {
      var page: Page := ZeroPage()[0 := 1];
      var env := OneFilePage(s'.file.value, page);
      assert SlotBytes(env, store, s')[0] == 1 && SlotBytes(env, store, s)[0] == 0;
      assert !SameContent(env, store, s, s');
    }
  }

  /** Two pages of a file, not yet read: when the first goes, the second stands for the first. */
  lemma ShrinkLowerMovesFile(perm: Perm, file: nat)
    ensures var a := Area(0, [Unallocated, Unallocated], perm, Some(FilePos(file, 0, 0)), [], 0, 0);
            && AreaOk(a) && a.SlotOf(1).file == Some(FilePos(file, 0, 1))
            && SlotAt(Cut(a, 0, 1), 1) == Some(Slot(perm, Unallocated, Some(FilePos(file, 0, 0))))
  {
    var a := Area(0, [Unallocated, Unallocated], perm, Some(FilePos(file, 0, 0)), [], 0, 0);
    assert CountCompressed(a.frames, 0, 1) == 0 && CountSwapped(a.frames, 0, 1) == 0;
    CutSlots(a, 0, 1, 1);
  }

  // ---------------------------------------------------------------- what munmap keeps

  predicate Inside(part: Area, a: Area) {
    a.start <= part.start && part.End() <= a.End()
  }

  ghost predicate PiecesOk(pieces: seq<Area>, a: Area) {
    WellFormed(pieces) && forall i {:trigger Inside(pieces[i], a)} :: 0 <= i < |pieces| ==> Inside(pieces[i], a)
  }

  lemma OnePiece(part: Area, a: Area)
    requires AreaOk(part) && Inside(part, a)
    ensures PiecesOk([part], a)
  {
  }

  lemma TwoPieces(p: Area, q: Area, a: Area)
    requires AreaOk(p) && AreaOk(q) && Separate(p, q) && Inside(p, a) && Inside(q, a)
    ensures PiecesOk([p, q], a)
  {
  }

  lemma ShrinkLowerOk(a: Area, start: nat)
    requires CountersOk(a) && a.start <= start < a.End()
    ensures AreaOk(ShrinkLower(a, start)) && Inside(ShrinkLower(a, start), a)
  {
    CountParts(a.frames, start - a.start);
  }

  lemma ShrinkUpperOk(a: Area, end: nat)
    requires CountersOk(a) && a.start < end <= a.End()
    ensures AreaOk(ShrinkUpper(a, end)) && Inside(ShrinkUpper(a, end), a)
  {
    CountParts(a.frames, end - a.start);
  }

  lemma CutMiddleOk(a: Area, lo: nat, hi: nat)
    requires AreaOk(a) && a.start < lo < hi < a.End()
    ensures PiecesOk(Cut(a, lo, hi), a)
  {
    IntoThreeKeeps(a, lo, hi);
    var (first, _, third) := IntoThree(a, lo, hi).value;
    TwoPieces(first, third, a);
    assert Cut(a, lo, hi) == [first, third];
  }

  lemma CutOk(a: Area, lo: nat, hi: nat)
    requires AreaOk(a) && lo < hi
    ensures PiecesOk(Cut(a, lo, hi), a)
  {
    if a.start < lo && hi < a.End() {
      CutMiddleOk(a, lo, hi);
    } else if lo <= a.start <= hi < a.End() {
      ShrinkLowerOk(a, hi);
      OnePiece(ShrinkLower(a, hi), a);
    } else if a.start < lo < a.End() <= hi {
      ShrinkUpperOk(a, lo);
      OnePiece(ShrinkUpper(a, lo), a);
    } else {
      OnePiece(a, a);
    }
  }

  lemma ApartConcat(xs: seq<Area>, ys: seq<Area>, b: Area)
    requires Apart(xs, b) && Apart(ys, b)
    ensures Apart(xs + ys, b)
  {
    forall i | 0 <= i < |xs + ys|
      ensures Separate((xs + ys)[i], b)
    {
      if i < |xs| {
        assert Separate(xs[i], b);
      } else {
        assert Separate(ys[i - |xs|], b);
      }
    }
  }

  lemma {:induction false} MunmapApart(areas: seq<Area>, lo: nat, hi: nat, b: Area)
    requires lo < hi && AllOk(areas) && Apart(areas, b)
    ensures Apart(MunmapAreas(areas, lo, hi), b)
  {
    if areas != [] {
      AllOkTail(areas);
      CutOk(areas[0], lo, hi);
      assert Separate(areas[0], b);
      var pieces := Cut(areas[0], lo, hi);
      forall i | 0 <= i < |pieces|
        ensures Separate(pieces[i], b)
      {
        assert Inside(pieces[i], areas[0]);
      }
      forall i | 0 <= i < |areas[1..]|
        ensures Separate(areas[1..][i], b)
      {
        assert Separate(areas[i + 1], b);
      }
      MunmapApart(areas[1..], lo, hi, b);
      ApartConcat(Cut(areas[0], lo, hi), MunmapAreas(areas[1..], lo, hi), b);
    }
  }

  lemma WellFormedConcat(xs: seq<Area>, ys: seq<Area>)
    requires WellFormed(xs) && WellFormed(ys)
    requires forall i {:trigger Apart(ys, xs[i])} :: 0 <= i < |xs| ==> Apart(ys, xs[i])
    ensures WellFormed(xs + ys)
  {
    var zs := xs + ys;
    forall i | 0 <= i < |zs|
      ensures AreaOk(zs[i])
    {
      assert i < |xs| ==> AreaOk(xs[i]);
      assert i >= |xs| ==> AreaOk(ys[i - |xs|]);
    }
    forall i, j | 0 <= i < j < |zs|
      ensures Separate(zs[i], zs[j])
    {
      if j < |xs| {
        assert Separate(xs[i], xs[j]);
      } else if i >= |xs| {
        assert Separate(ys[i - |xs|], ys[j - |xs|]);
      } else {
        assert Apart(ys, xs[i]) && Separate(ys[j - |xs|], xs[i]);
      }
    }
  }

  /** `munmap` keeps the areas apart and safely counted. */
  lemma {:induction false} MunmapWellFormed(areas: seq<Area>, lo: nat, hi: nat)
    requires lo < hi && WellFormed(areas)
    ensures WellFormed(MunmapAreas(areas, lo, hi))
  {
    if areas != [] {
      var a, rest := areas[0], areas[1..];
      AllOkTail(areas);
      WellFormedTail(areas);
      CutOk(a, lo, hi);
      MunmapWellFormed(rest, lo, hi);
      var pieces := Cut(a, lo, hi);
      forall i | 0 <= i < |pieces|
        ensures Apart(MunmapAreas(rest, lo, hi), pieces[i])
      {
        assert Inside(pieces[i], a);
        forall j | 0 <= j < |rest|
          ensures Separate(rest[j], pieces[i])
        {
          assert Separate(areas[0], areas[j + 1]);
        }
        MunmapApart(rest, lo, hi, pieces[i]);
      }
      WellFormedConcat(pieces, MunmapAreas(rest, lo, hi));
    }
  }

  // ---------------------------------------------------------------- the active list under munmap

  lemma ShrinkUpperActive(a: Area, end: nat)
    requires a.start <= end <= a.End()
    ensures KeepsActive(ShrinkUpper(a, end), a)
  {
    if ActiveOk(a.frames, a.active) {
      ForgetKeeps(a.frames, a.active, end - a.start, |a.frames|);
    }
  }

  lemma ShrinkNothingActive(a: Area)
    ensures KeepsActive(ShrinkLower(a, a.start), a)
  {
    if ActiveOk(a.frames, a.active) {
      ForgetKeeps(a.frames, a.active, 0, 0);
      assert a.frames[0..] == a.frames;
    }
  }

  /** Unless its lower part goes, what is left of an area still names only pages in memory. */
  lemma CutActive(a: Area, lo: nat, hi: nat, i: nat)
    requires AreaOk(a) && lo < hi && i < |Cut(a, lo, hi)| && !(lo <= a.start < hi < a.End())
    ensures KeepsActive(Cut(a, lo, hi)[i], a)
  {
    if a.start < lo && hi < a.End() {
      IntoThreeKeeps(a, lo, hi);
    } else if a.start < lo < a.End() <= hi {
      ShrinkUpperActive(a, lo);
    } else if hi == a.start {
      ShrinkNothingActive(a);
    }
  }

  lemma ForgetKeeps(frames: seq<Frame>, active: seq<U16>, lo: nat, hi: nat)
    requires ActiveOk(frames, active) && lo <= hi <= |frames|
    ensures ActiveOk(frames, Forget(active, frames, lo, hi, |active|))
    ensures hi == |frames| ==> ActiveOk(frames[..lo], Forget(active, frames, lo, hi, |active|))
  {
    var r := Forget(active, frames, lo, hi, |active|);
    ForgetDistinct(active, frames, lo, hi, |active|);
    forall x | x in r
      ensures Reclaimable(frames, x)
      ensures hi == |frames| ==> Reclaimable(frames[..lo], x)
    {
      ForgetHas(active, frames, lo, hi, |active|, x);
      BeforeAll(active, x);
      assert Reclaimable(frames, x);
    }
  }

  lemma ShrinkLowerName(a: Area, start: nat, x: nat)
    requires ActiveOk(a.frames, a.active) && a.start <= start <= a.End()
    ensures var b, k := ShrinkLower(a, start), start - a.start;
            && (x in b.active <==> x in a.active && x >= k)
            && (Reclaimable(b.frames, x) <==> Reclaimable(a.frames, x + k))
  {
    ForgetHas(a.active, a.frames, 0, start - a.start, |a.active|, x);
    BeforeAll(a.active, x);
    assert x in a.active ==> Reclaimable(a.frames, x);
  }

  ghost predicate StillNames(a: Area, k: nat, x: nat) {
    x in a.active && x >= k ==> Reclaimable(a.frames, x + k)
  }

  ghost predicate AllStillNamed(a: Area, k: nat) {
    forall x: nat :: StillNames(a, k, x)
  }

  /** After the lower `k` pages go, the list is still right exactly when every index kept also names
      a page in memory `k` places further up: the indices are not moved down with the frames. */
  lemma ShrinkLowerActive(a: Area, start: nat)
    requires ActiveOk(a.frames, a.active) && a.start <= start <= a.End()
    ensures var b := ShrinkLower(a, start);
            ActiveOk(b.frames, b.active) <==> AllStillNamed(a, start - a.start)
  {
    var b, k := ShrinkLower(a, start), start - a.start;
    ForgetDistinct(a.active, a.frames, 0, k, |a.active|);
    if ActiveOk(b.frames, b.active) {
      forall x: nat
        ensures StillNames(a, k, x)
      {
        ShrinkLowerName(a, start, x);
        assert x in b.active ==> Reclaimable(b.frames, x);
      }
    }
    if AllStillNamed(a, k) {
      forall x | x in b.active
        ensures Reclaimable(b.frames, x)
      {
        ShrinkLowerName(a, start, x);
        assert StillNames(a, k, x);
      }
    }
  }

  /** Unmapping the first of two pages in memory leaves an index past the end of the frames. */
  lemma ShrinkLowerBreaksActive()
    ensures var a := Area(8, [InMemory(1), InMemory(2)], Perm(true, true, false, true), None, [0, 1], 0, 0);
            ActiveOk(a.frames, a.active) && !ActiveOk(ShrinkLower(a, 9).frames, ShrinkLower(a, 9).active)
  {
    var a := Area(8, [InMemory(1), InMemory(2)], Perm(true, true, false, true), None, [0, 1], 0, 0);
    assert a.active[1] == 1 && !StillNames(a, 1, 1);
    ShrinkLowerActive(a, 9);
  }
}
