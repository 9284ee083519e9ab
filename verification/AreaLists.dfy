/** Changing one area of an address space: replacing it, or splitting it into pieces. */
module AreaLists {
  import opened Basics
  import opened PagedMemory
  import opened MapAreas
  import opened MunmapFrames

  // ---------------------------------------------------------------- replacing an area

  predicate SameRange(a: Area, b: Area) {
    a.start == b.start && |a.frames| == |b.frames|
  }

  /** No other area has the page. */
  lemma OnlyArea(areas: seq<Area>, i: nat, v: nat)
    requires WellFormed(areas) && i < |areas| && areas[i].Has(v)
    ensures forall j :: 0 <= j < |areas| && areas[j].Has(v) ==> j == i
  {
    forall j | 0 <= j < |areas| && j != i
      ensures !areas[j].Has(v)
    {
      assert if j < i then Separate(areas[j], areas[i]) else Separate(areas[i], areas[j]);
    }
  }

  lemma ReplaceOk(areas: seq<Area>, i: nat, b: Area)
    requires WellFormed(areas) && i < |areas| && SameRange(areas[i], b) && AreaOk(b)
    ensures WellFormed(areas[i := b])
  {
    var after := areas[i := b];
    forall j | 0 <= j < |after|
      ensures AreaOk(after[j])
    {
      assert AreaOk(areas[j]);
    }
    forall j, k | 0 <= j < k < |after|
      ensures Separate(after[j], after[k])
    {
      assert Separate(areas[j], areas[k]);
    }
  }

  lemma {:induction false} ReplaceSlot(areas: seq<Area>, i: nat, b: Area, v: nat)
    requires WellFormed(areas) && i < |areas| && SameRange(areas[i], b)
    ensures SlotAt(areas[i := b], v) == if b.Has(v) then Some(b.SlotOf(v)) else SlotAt(areas, v)
  {
    if i == 0 {
      assert areas[i := b][1..] == areas[1..];
    } else {
      assert areas[i := b][1..] == areas[1..][i - 1 := b];
      assert Separate(areas[0], areas[i]);
      WellFormedTail(areas);
      ReplaceSlot(areas[1..], i - 1, b, v);
    }
  }

  lemma {:induction false} ReplaceHeld(areas: seq<Area>, i: nat, b: Area, f: Frame)
    requires i < |areas|
    ensures Held(areas[i := b], f) + Count(areas[i].frames, f, 0, |areas[i].frames|) ==
            Held(areas, f) + Count(b.frames, f, 0, |b.frames|)
  {
    if i == 0 {
      assert areas[i := b][1..] == areas[1..];
    } else {
      assert areas[i := b][1..] == areas[1..][i - 1 := b];
      ReplaceHeld(areas[1..], i - 1, b, f);
    }
  }

  lemma {:induction false} CountUpdate(frames: seq<Frame>, k: nat, g: Frame, f: Frame, n: nat)
    requires k < |frames| && n <= |frames|
    ensures Count(frames[k := g], f, 0, n) + (if k < n && frames[k] == f then 1 else 0) ==
            Count(frames, f, 0, n) + (if k < n && g == f then 1 else 0)
  {
    if n > 0 {
      CountUpdate(frames, k, g, f, n - 1);
    }
  }

  // ---------------------------------------------------------------- splitting an area

  function Splice(areas: seq<Area>, i: nat, pieces: seq<Area>): seq<Area>
    requires i < |areas|
  {
    areas[..i] + (pieces + areas[i + 1..])
  }

  lemma {:induction false} SpliceSlot(areas: seq<Area>, i: nat, pieces: seq<Area>, v: nat)
    requires WellFormed(areas) && i < |areas|
    requires SlotAt(pieces, v) == if areas[i].Has(v) then Some(areas[i].SlotOf(v)) else None
    ensures SlotAt(Splice(areas, i, pieces), v) == SlotAt(areas, v)
  {
    if i == 0 {
      assert Splice(areas, 0, pieces) == pieces + areas[1..];
      SlotAtConcat(pieces, areas[1..], v);
    } else {
      var rest := areas[1..];
      assert Splice(areas, i, pieces)[0] == areas[0] && Splice(areas, i, pieces)[1..] == Splice(rest, i - 1, pieces);
      WellFormedTail(areas);
      SpliceSlot(rest, i - 1, pieces, v);
    }
  }

  lemma {:induction false} SpliceHeld(areas: seq<Area>, i: nat, pieces: seq<Area>, f: Frame)
    requires i < |areas| && Held(pieces, f) == Count(areas[i].frames, f, 0, |areas[i].frames|)
    ensures Held(Splice(areas, i, pieces), f) == Held(areas, f)
  {
    if i == 0 {
      assert Splice(areas, 0, pieces) == pieces + areas[1..];
      HeldConcat(pieces, areas[1..], f);
    } else {
      var rest := areas[1..];
      assert Splice(areas, i, pieces)[0] == areas[0] && Splice(areas, i, pieces)[1..] == Splice(rest, i - 1, pieces);
      SpliceHeld(rest, i - 1, pieces, f);
    }
  }

  lemma SpliceOk(areas: seq<Area>, i: nat, pieces: seq<Area>)
    requires WellFormed(areas) && i < |areas| && PiecesOk(pieces, areas[i])
    ensures WellFormed(Splice(areas, i, pieces))
  {
    var after, n := Splice(areas, i, pieces), |pieces|;
    forall j | 0 <= j < |after|
      ensures AreaOk(after[j])
    {
      assert j < i ==> AreaOk(areas[j]);
      assert i <= j < i + n ==> AreaOk(pieces[j - i]);
      assert i + n <= j ==> AreaOk(areas[j - n + 1]);
    }
    forall j, k | 0 <= j < k < |after|
      ensures Separate(after[j], after[k])
    {
      SplicePair(areas, i, pieces, j, k);
    }
  }

  /** Where an area of the new list comes from. */
  function Origin(i: nat, n: nat, j: nat): nat {
    if j < i then j else if j < i + n then i else j - n + 1
  }

  lemma SplicePair(areas: seq<Area>, i: nat, pieces: seq<Area>, j: nat, k: nat)
    requires WellFormed(areas) && i < |areas| && PiecesOk(pieces, areas[i]) && j < k < |Splice(areas, i, pieces)|
    ensures Separate(Splice(areas, i, pieces)[j], Splice(areas, i, pieces)[k])
  {
    var after, n := Splice(areas, i, pieces), |pieces|;
    var oj, ok := Origin(i, n, j), Origin(i, n, k);
    if oj == ok {
      assert Separate(pieces[j - i], pieces[k - i]);
    } else {
      assert Separate(areas[oj], areas[ok]);
      if oj == i {
        assert Inside(pieces[j - i], areas[i]);
      } else if ok == i {
        assert Inside(pieces[k - i], areas[i]);
      }
    }
  }

  // ---------------------------------------------------------------- active lists

  /** The reclaimer can trust the list. */
  ghost predicate Trusted(a: Area) {
    ActiveOk(a.frames, a.active)
  }

  ghost predicate AllTrusted(areas: seq<Area>) {
    forall i {:trigger Trusted(areas[i])} :: 0 <= i < |areas| ==> Trusted(areas[i])
  }

  lemma TrustedConcat(xs: seq<Area>, ys: seq<Area>)
    requires AllTrusted(xs) && AllTrusted(ys)
    ensures AllTrusted(xs + ys)
  {
    forall i | 0 <= i < |xs + ys|
      ensures Trusted((xs + ys)[i])
    {
      assert i < |xs| ==> Trusted(xs[i]);
      assert i >= |xs| ==> Trusted(ys[i - |xs|]);
    }
  }

  lemma TrustedPart(areas: seq<Area>, i: nat, j: nat)
    requires AllTrusted(areas) && i <= j <= |areas|
    ensures AllTrusted(areas[i..j])
  {
    forall k | 0 <= k < j - i
      ensures Trusted(areas[i..j][k])
    {
      assert Trusted(areas[i + k]);
    }
  }

  lemma TrustedReplace(areas: seq<Area>, i: nat, b: Area)
    requires AllTrusted(areas) && i < |areas| && Trusted(b)
    ensures AllTrusted(areas[i := b])
  {
    var after := areas[i := b];
    forall k | 0 <= k < |after|
      ensures Trusted(after[k])
    {
      assert Trusted(areas[k]);
    }
  }

  /** The lower part of an area is cut off and pages remain: the case in which `set_start` leaves
      the indices behind. */
  predicate CutsLow(a: Area, lo: nat, hi: nat) {
    lo <= a.start < hi < a.End()
  }

  lemma {:induction false} MunmapTrusted(areas: seq<Area>, lo: nat, hi: nat)
    requires lo < hi && AllOk(areas) && AllTrusted(areas) && forall i :: 0 <= i < |areas| ==> !CutsLow(areas[i], lo, hi)
    ensures AllTrusted(MunmapAreas(areas, lo, hi))
  {
    if areas != [] {
      AllOkTail(areas);
      TrustedPart(areas, 1, |areas|);
      assert areas[1..] == areas[1..|areas|];
      MunmapTrusted(areas[1..], lo, hi);
      var pieces := Cut(areas[0], lo, hi);
      forall i | 0 <= i < |pieces|
        ensures Trusted(pieces[i])
      {
        assert Trusted(areas[0]);
        CutActive(areas[0], lo, hi, i);
      }
      TrustedConcat(pieces, MunmapAreas(areas[1..], lo, hi));
    }
  }

  // ---------------------------------------------------------------- a new area in an unmapped range

  predicate ClearOf(a: Area, lo: nat, hi: nat) {
    a.End() <= lo || hi <= a.start
  }

  lemma CutClear(a: Area, lo: nat, hi: nat, i: nat)
    requires AreaOk(a) && lo < hi && i < |Cut(a, lo, hi)|
    ensures ClearOf(Cut(a, lo, hi)[i], lo, hi)
  {
    IntoThreeKeeps(a, lo, hi);
  }

  /** Nothing that `munmap` leaves reaches into the range. */
  lemma {:induction false} MunmapClear(areas: seq<Area>, lo: nat, hi: nat, i: nat)
    requires lo < hi && AllOk(areas) && i < |MunmapAreas(areas, lo, hi)|
    ensures ClearOf(MunmapAreas(areas, lo, hi)[i], lo, hi)
  {
    if areas != [] {
      AllOkTail(areas);
      var pieces := Cut(areas[0], lo, hi);
      if i < |pieces| {
        CutClear(areas[0], lo, hi, i);
      } else {
        MunmapClear(areas[1..], lo, hi, i - |pieces|);
      }
    }
  }

  function Insert(areas: seq<Area>, i: nat, b: Area): seq<Area>
    requires i <= |areas|
  {
    areas[..i] + ([b] + areas[i..])
  }

  lemma InsertOk(areas: seq<Area>, i: nat, b: Area)
    requires WellFormed(areas) && i <= |areas| && AreaOk(b) && Apart(areas, b)
    ensures WellFormed(Insert(areas, i, b))
  {
    var after := Insert(areas, i, b);
    forall j | 0 <= j < |after|
      ensures AreaOk(after[j])
    {
      assert j < i ==> AreaOk(areas[j]);
      assert j > i ==> AreaOk(areas[j - 1]);
    }
    forall j, k | 0 <= j < k < |after|
      ensures Separate(after[j], after[k])
    {
      InsertPair(areas, i, b, j, k);
    }
  }

  lemma InsertPair(areas: seq<Area>, i: nat, b: Area, j: nat, k: nat)
    requires WellFormed(areas) && i <= |areas| && Apart(areas, b) && j < k < |Insert(areas, i, b)|
    ensures Separate(Insert(areas, i, b)[j], Insert(areas, i, b)[k])
  {
    var oj, ok := if j < i then j else j - 1, if k < i then k else k - 1;
    if j == i {
      assert Separate(areas[ok], b);
    } else if k == i {
      assert Separate(areas[oj], b);
    } else {
      assert Separate(areas[oj], areas[ok]);
    }
  }

  lemma {:induction false} InsertSlot(areas: seq<Area>, i: nat, b: Area, v: nat)
    requires i <= |areas| && Apart(areas, b)
    ensures SlotAt(Insert(areas, i, b), v) == if b.Has(v) then Some(b.SlotOf(v)) else SlotAt(areas, v)
  {
    if i == 0 {
      assert Insert(areas, 0, b) == [b] + areas;
      SlotAtConcat([b], areas, v);
      SingleSlot(b, v);
    } else {
      var rest := areas[1..];
      forall j | 0 <= j < |rest|
        ensures Separate(rest[j], b)
      {
        assert Separate(areas[j + 1], b);
      }
      assert Separate(areas[0], b);
      assert Insert(areas, i, b)[0] == areas[0] && Insert(areas, i, b)[1..] == Insert(rest, i - 1, b);
      InsertSlot(rest, i - 1, b, v);
    }
  }

  lemma InsertHeld(areas: seq<Area>, i: nat, b: Area, f: Frame)
    requires i <= |areas|
    ensures Held(Insert(areas, i, b), f) == Held(areas, f) + Count(b.frames, f, 0, |b.frames|)
  {
    HeldConcat(areas[..i], [b] + areas[i..], f);
    HeldConcat([b], areas[i..], f);
    HeldConcat(areas[..i], areas[i..], f);
    HeldOne(b, f);
    assert areas == areas[..i] + areas[i..];
  }
}
