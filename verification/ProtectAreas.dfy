/** `mprotect` on values: one area is cut so that a piece covers exactly the range, and that piece
    changes permission. */
module ProtectAreas {
  import opened Basics
  import opened PagedMemory
  import opened MapAreas
  import opened MunmapFrames
  import opened AreaLists
  import opened Spaces

  /** The pieces of an area, and the index of the one that covers exactly [lo, hi). */
  function Recut(a: Area, lo: nat, hi: nat): (seq<Area>, nat)
    requires AreaOk(a) && a.start <= lo < hi <= a.End()
  {
    if lo == a.start && hi == a.End() then ([a], 0)
    else if lo == a.start then
      var (first, second) := IntoTwo(a, hi).value; ([first, second], 0)
    else if hi == a.End() then
      var (first, second) := IntoTwo(a, lo).value; ([first, second], 1)
    else
      IntoThreeKeeps(a, lo, hi);
      var (first, second, third) := IntoThree(a, lo, hi).value; ([first, second, third], 1)
  }

  ghost predicate PieceOk(part: Area, a: Area) {
    AreaOk(part) && PieceOf(part, a) && KeepsActive(part, a)
  }

  /** The pieces tile the area from `start` on. */
  ghost predicate Tiles(pieces: seq<Area>, a: Area, start: nat) {
    if pieces == [] then start == a.End()
    else PieceOk(pieces[0], a) && pieces[0].start == start && Tiles(pieces[1..], a, pieces[0].End())
  }

  lemma WholeTile(a: Area)
    requires AreaOk(a)
    ensures PieceOk(a, a)
  {
    assert a.frames[0..|a.frames|] == a.frames;
  }

  /** Every cut leaves tiles, one of them the range. */
  lemma RecutTiles(a: Area, lo: nat, hi: nat)
    requires AreaOk(a) && a.start <= lo < hi <= a.End()
    ensures var (pieces, k) := Recut(a, lo, hi);
            Tiles(pieces, a, a.start) && k < |pieces| && pieces[k].start == lo && pieces[k].End() == hi
  {
    if lo == a.start && hi == a.End() {
      WholeTile(a);
      TileOne(a, a);
    } else if lo == a.start || hi == a.End() {
      var cut := if lo == a.start then hi else lo;
      IntoTwoKeeps(a, cut);
      var (first, second) := IntoTwo(a, cut).value;
      TileTwo(first, second, a);
    } else {
      IntoThreeKeeps(a, lo, hi);
      var (first, second, third) := IntoThree(a, lo, hi).value;
      TileTwo(second, third, a);
      TileMore(first, [second, third], a);
    }
  }

  lemma TileOne(p: Area, a: Area)
    requires PieceOk(p, a) && p.End() == a.End()
    ensures Tiles([p], a, p.start)
  {
    assert [p][1..] == [];
  }

  lemma TileMore(p: Area, rest: seq<Area>, a: Area)
    requires PieceOk(p, a) && Tiles(rest, a, p.End())
    ensures Tiles([p] + rest, a, p.start)
  {
    assert ([p] + rest)[1..] == rest;
  }

  lemma TileTwo(p: Area, q: Area, a: Area)
    requires PieceOk(p, a) && PieceOk(q, a) && p.End() == q.start && q.End() == a.End()
    ensures Tiles([p, q], a, p.start)
  {
    TileOne(q, a);
    TileMore(p, [q], a);
  }

  // ---------------------------------------------------------------- what tiles are

  lemma {:induction false} TileAt(pieces: seq<Area>, a: Area, start: nat, i: nat)
    requires Tiles(pieces, a, start) && i < |pieces|
    ensures PieceOk(pieces[i], a) && start <= pieces[i].start
  {
    if i > 0 {
      TileAt(pieces[1..], a, pieces[0].End(), i - 1);
    }
  }

  lemma {:induction false} TileOrder(pieces: seq<Area>, a: Area, start: nat, i: nat, j: nat)
    requires Tiles(pieces, a, start) && i < j < |pieces|
    ensures pieces[i].End() <= pieces[j].start
  {
    if i == 0 {
      TileAt(pieces[1..], a, pieces[0].End(), j - 1);
    } else {
      TileOrder(pieces[1..], a, pieces[0].End(), i - 1, j - 1);
    }
  }

  lemma TilesOk(pieces: seq<Area>, a: Area)
    requires Tiles(pieces, a, a.start)
    ensures PiecesOk(pieces, a)
  {
    forall i | 0 <= i < |pieces|
      ensures AreaOk(pieces[i]) && Inside(pieces[i], a)
    {
      TileAt(pieces, a, a.start, i);
    }
    forall i, j | 0 <= i < j < |pieces|
      ensures Separate(pieces[i], pieces[j])
    {
      TileOrder(pieces, a, a.start, i, j);
    }
  }

  /** Tiles hold the pages of the area, with frame, permission and file position. */
  lemma {:induction false} TilesSlot(pieces: seq<Area>, a: Area, start: nat, v: nat)
    requires Tiles(pieces, a, start) && a.start <= start
    ensures SlotAt(pieces, v) == if start <= v < a.End() then Some(a.SlotOf(v)) else None
  {
    if pieces != [] {
      TilesSlot(pieces[1..], a, pieces[0].End(), v);
      if pieces[0].Has(v) {
        PieceSlot(pieces[0], a, v);
      }
    }
  }

  lemma {:induction false} TilesHeld(pieces: seq<Area>, a: Area, start: nat, f: Frame)
    requires Tiles(pieces, a, start) && a.start <= start <= a.End()
    ensures Held(pieces, f) == Count(a.frames, f, start - a.start, |a.frames|)
  {
    if pieces != [] {
      var i, j := start - a.start, pieces[0].End() - a.start;
      TilesHeld(pieces[1..], a, pieces[0].End(), f);
      CountSlice(a.frames, f, i, j, j - i);
      CountSplitAt(a.frames, f, i, j, |a.frames|);
    }
  }

  // ---------------------------------------------------------------- mprotect

  function Protected(areas: seq<Area>, i: nat, lo: nat, hi: nat, perm: Perm): seq<Area>
    requires i < |areas| && AreaOk(areas[i]) && areas[i].start <= lo < hi <= areas[i].End()
  {
    RecutTiles(areas[i], lo, hi);
    var (pieces, k) := Recut(areas[i], lo, hi);
    var split := Splice(areas, i, pieces);
    split[i + k := split[i + k].(perm := perm)]
  }

  lemma SplitKeeps(areas: seq<Area>, i: nat, lo: nat, hi: nat)
    requires WellFormed(areas) && i < |areas| && AreaOk(areas[i]) && areas[i].start <= lo < hi <= areas[i].End()
    ensures var (pieces, k) := Recut(areas[i], lo, hi);
            var split := Splice(areas, i, pieces);
            && WellFormed(split) && k < |pieces|
            && split[i + k] == pieces[k] && split[i + k].start == lo && split[i + k].End() == hi
  {
    RecutTiles(areas[i], lo, hi);
    var (pieces, k) := Recut(areas[i], lo, hi);
    TilesOk(pieces, areas[i]);
    SpliceOk(areas, i, pieces);
  }

  lemma ProtectedOk(areas: seq<Area>, i: nat, lo: nat, hi: nat, perm: Perm)
    requires WellFormed(areas) && i < |areas| && AreaOk(areas[i]) && areas[i].start <= lo < hi <= areas[i].End()
    ensures WellFormed(Protected(areas, i, lo, hi, perm))
  {
    SplitKeeps(areas, i, lo, hi);
    var (pieces, k) := Recut(areas[i], lo, hi);
    var split := Splice(areas, i, pieces);
    assert AreaOk(split[i + k]);
    ReplaceOk(split, i + k, split[i + k].(perm := perm));
  }

  lemma TilesSplice(areas: seq<Area>, i: nat, pieces: seq<Area>, v: nat)
    requires WellFormed(areas) && i < |areas| && Tiles(pieces, areas[i], areas[i].start)
    ensures SlotAt(Splice(areas, i, pieces), v) == SlotAt(areas, v)
  {
    TilesSlot(pieces, areas[i], areas[i].start, v);
    SpliceSlot(areas, i, pieces, v);
  }

  lemma RepermittedSlot(areas: seq<Area>, j: nat, perm: Perm, v: nat)
    requires WellFormed(areas) && j < |areas|
    ensures SlotAt(areas[j := areas[j].(perm := perm)], v) ==
            if areas[j].Has(v) then Some(areas[j].SlotOf(v).(perm := perm)) else SlotAt(areas, v)
  {
    ReplaceSlot(areas, j, areas[j].(perm := perm), v);
  }

  /** Only the permission changes, and only in the range. */
  lemma ProtectedSlot(areas: seq<Area>, i: nat, lo: nat, hi: nat, perm: Perm, v: nat)
    requires WellFormed(areas) && i < |areas| && AreaOk(areas[i]) && areas[i].start <= lo < hi <= areas[i].End()
    ensures lo <= v < hi ==> SlotAt(areas, v) == Some(areas[i].SlotOf(v))
    ensures SlotAt(Protected(areas, i, lo, hi, perm), v) ==
            if lo <= v < hi then Some(areas[i].SlotOf(v).(perm := perm)) else SlotAt(areas, v)
  {
    SplitKeeps(areas, i, lo, hi);
    RecutTiles(areas[i], lo, hi);
    var (pieces, k) := Recut(areas[i], lo, hi);
    var split := Splice(areas, i, pieces);
    TilesSplice(areas, i, pieces, v);
    RepermittedSlot(split, i + k, perm, v);
    if lo <= v < hi {
      SlotAtIndex(areas, i, v);
      SlotAtIndex(split, i + k, v);
    }
  }

  /** No handle is taken or dropped. */
  lemma ProtectedHeld(areas: seq<Area>, i: nat, lo: nat, hi: nat, perm: Perm, f: Frame)
    requires WellFormed(areas) && i < |areas| && AreaOk(areas[i]) && areas[i].start <= lo < hi <= areas[i].End()
    ensures Held(Protected(areas, i, lo, hi, perm), f) == Held(areas, f)
  {
    RecutTiles(areas[i], lo, hi);
    var (pieces, k) := Recut(areas[i], lo, hi);
    var split := Splice(areas, i, pieces);
    TilesHeld(pieces, areas[i], areas[i].start, f);
    SpliceHeld(areas, i, pieces, f);
    ReplaceHeld(split, i + k, split[i + k].(perm := perm), f);
  }

  /** Entries of the range get the permission without W; no entry comes or goes. */
  function ProtectTable(table: map<nat, Pte>, lo: nat, hi: nat, perm: Perm): map<nat, Pte>
    requires lo <= hi
    decreases hi
  {
    if lo == hi then table
    else
      var t := ProtectTable(table, lo, hi - 1, perm);
      if hi - 1 in t then t[hi - 1 := t[hi - 1].(perm := perm.NoWrite())] else t
  }

  lemma {:induction false} ProtectTableAt(table: map<nat, Pte>, lo: nat, hi: nat, perm: Perm, v: nat)
    requires lo <= hi
    ensures v in ProtectTable(table, lo, hi, perm) <==> v in table
    ensures v in table ==> ProtectTable(table, lo, hi, perm)[v] ==
                           if lo <= v < hi then table[v].(perm := perm.NoWrite()) else table[v]
    decreases hi
  {
    if lo < hi {
      ProtectTableAt(table, lo, hi - 1, perm, v);
    }
  }

  lemma ProtectedPages(areas: seq<Area>, table: map<nat, Pte>, i: nat, lo: nat, hi: nat, perm: Perm)
    requires WellFormed(areas) && i < |areas| && AreaOk(areas[i]) && areas[i].start <= lo < hi <= areas[i].End()
    requires PagesOk(areas, table)
    ensures PagesOk(Protected(areas, i, lo, hi, perm), ProtectTable(table, lo, hi, perm))
  {
    var after, table' := Protected(areas, i, lo, hi, perm), ProtectTable(table, lo, hi, perm);
    forall v: nat
      ensures PageOk(after, table', v)
    {
      assert PageOk(areas, table, v);
      ProtectedSlot(areas, i, lo, hi, perm, v);
      ProtectTableAt(table, lo, hi, perm, v);
    }
  }

  lemma ProtectedHandles(areas: seq<Area>, store: Store, i: nat, lo: nat, hi: nat, perm: Perm)
    requires WellFormed(areas) && i < |areas| && AreaOk(areas[i]) && areas[i].start <= lo < hi <= areas[i].End()
    requires HeldOk(areas, store)
    ensures OutsideKept(areas, store, Protected(areas, i, lo, hi, perm), store)
    ensures HeldOk(Protected(areas, i, lo, hi, perm), store)
  {
    var after := Protected(areas, i, lo, hi, perm);
    forall f
      ensures OutsideAt(areas, store, after, store, f)
    {
      ProtectedHeld(areas, i, lo, hi, perm, f);
    }
    OutsideHeld(areas, store, after, store);
  }

  lemma TilesTrusted(pieces: seq<Area>, a: Area, start: nat)
    requires Tiles(pieces, a, start) && Trusted(a)
    ensures AllTrusted(pieces)
  {
    forall i | 0 <= i < |pieces|
      ensures Trusted(pieces[i])
    {
      TileAt(pieces, a, start, i);
    }
  }

  lemma ProtectedTrusted(areas: seq<Area>, i: nat, lo: nat, hi: nat, perm: Perm)
    requires i < |areas| && AreaOk(areas[i]) && areas[i].start <= lo < hi <= areas[i].End() && AllTrusted(areas)
    ensures AllTrusted(Protected(areas, i, lo, hi, perm))
  {
    RecutTiles(areas[i], lo, hi);
    var (pieces, k) := Recut(areas[i], lo, hi);
    assert Trusted(areas[i]);
    TilesTrusted(pieces, areas[i], areas[i].start);
    TrustedPart(areas, 0, i);
    TrustedPart(areas, i + 1, |areas|);
    TrustedConcat(pieces, areas[i + 1..|areas|]);
    TrustedConcat(areas[0..i], pieces + areas[i + 1..|areas|]);
    var split := Splice(areas, i, pieces);
    assert split == areas[0..i] + (pieces + areas[i + 1..|areas|]);
    assert Trusted(split[i + k]);
    TrustedReplace(split, i + k, split[i + k].(perm := perm));
  }
}
