/** The lists of reclaimable pages over any sequence of calls: as long as no call cuts off the lower
    part of an area and no fault is served in an area of more than 65536 pages, every list names pages
    in memory, each at most once, which is what the reclaimer relies on. */
module TrustRuns {
  import opened Basics
  import opened PagedMemory
  import opened MapAreas
  import opened AreaLists
  import opened AreaFaults
  import ProtectAreas
  import opened ForkSteps

  /** One area more somewhere in the list. */
  ghost predicate Inserted(areas: seq<Area>, b: Area, areas': seq<Area>) {
    exists k: nat :: k <= |areas| && areas' == Insert(areas, k, b)
  }

  /** No area of at most 65536 pages gets a wrong active list. */
  ghost predicate KeepActive(areas: seq<Area>, areas': seq<Area>) {
    && |areas'| == |areas|
    && forall j {:trigger KeepsActive(areas'[j], areas[j])} :: 0 <= j < |areas| ==>
         |areas'[j].frames| == |areas[j].frames| && (|areas[j].frames| <= 65536 ==> KeepsActive(areas'[j], areas[j]))
  }

  /** The calls, by what they do to the list of areas; `Birth` makes the areas of a forked child. */
  datatype Call =
    | Idle
    | Unmap(lo: nat, hi: nat)
    | Protect(i: nat, lo: nat, hi: nat, perm: Perm)
    | Map(lo: nat, hi: nat, perm: Perm, file: Option<FilePos>)
    | Touch
    | Reclaim(i: nat)
    | Birth(ppn: nat)

  ghost predicate Did(areas: seq<Area>, call: Call, areas': seq<Area>) {
    match call
    case Idle => areas' == areas
    case Unmap(lo, hi) => lo < hi && AllOk(areas) && areas' == MunmapAreas(areas, lo, hi)
    case Protect(i, lo, hi, perm) =>
      && i < |areas| && AreaOk(areas[i]) && areas[i].start <= lo < hi <= areas[i].End()
      && areas' == ProtectAreas.Protected(areas, i, lo, hi, perm)
    case Map(lo, hi, perm, file) =>
      lo < hi && AllOk(areas) && Inserted(MunmapAreas(areas, lo, hi), NewArea(lo, hi, perm, file), areas')
    case Touch => KeepActive(areas, areas')
    case Reclaim(i) => i < |areas| == |areas'| && areas' == areas[i := areas'[i]] && areas'[i].active == []
    case Birth(ppn) => HasTrap(areas) && areas' == Child(areas, ppn)
  }

  ghost predicate NoCutLow(areas: seq<Area>, lo: nat, hi: nat) {
    forall i :: 0 <= i < |areas| ==> !CutsLow(areas[i], lo, hi)
  }

  /** The two ways in which a list can go wrong do not occur. */
  ghost predicate Harmless(areas: seq<Area>, call: Call) {
    match call
    case Unmap(lo, hi) => NoCutLow(areas, lo, hi)
    case Map(lo, hi, _, _) => NoCutLow(areas, lo, hi)
    case Touch => forall j :: 0 <= j < |areas| ==> |areas[j].frames| <= 65536
    case _ => true
  }

  lemma TouchTrusted(areas: seq<Area>, areas': seq<Area>)
    requires AllTrusted(areas) && KeepActive(areas, areas') && forall j :: 0 <= j < |areas| ==> |areas[j].frames| <= 65536
    ensures AllTrusted(areas')
  {
    forall j | 0 <= j < |areas'|
      ensures Trusted(areas'[j])
    {
      assert Trusted(areas[j]) && KeepsActive(areas'[j], areas[j]);
    }
  }

  lemma InsertTrusted(areas: seq<Area>, i: nat, b: Area)
    requires AllTrusted(areas) && i <= |areas| && Trusted(b)
    ensures AllTrusted(Insert(areas, i, b))
  {
    TrustedPart(areas, 0, i);
    TrustedPart(areas, i, |areas|);
    TrustedConcat([b], areas[i..|areas|]);
    TrustedConcat(areas[0..i], [b] + areas[i..|areas|]);
    assert Insert(areas, i, b) == areas[0..i] + ([b] + areas[i..|areas|]);
  }

  lemma MapTrusted(areas: seq<Area>, lo: nat, hi: nat, perm: Perm, file: Option<FilePos>, areas': seq<Area>)
    requires AllTrusted(areas) && lo < hi && AllOk(areas) && NoCutLow(areas, lo, hi)
    requires Inserted(MunmapAreas(areas, lo, hi), NewArea(lo, hi, perm, file), areas')
    ensures AllTrusted(areas')
  {
    MunmapTrusted(areas, lo, hi);
    var k: nat :| k <= |MunmapAreas(areas, lo, hi)| && areas' == Insert(MunmapAreas(areas, lo, hi), k, NewArea(lo, hi, perm, file));
    assert Trusted(NewArea(lo, hi, perm, file));
    InsertTrusted(MunmapAreas(areas, lo, hi), k, NewArea(lo, hi, perm, file));
  }

  /** One call. */
  lemma DidTrusted(areas: seq<Area>, call: Call, areas': seq<Area>)
    requires AllTrusted(areas) && Did(areas, call, areas') && Harmless(areas, call)
    ensures AllTrusted(areas')
  {
    match call
    case Idle =>
    case Unmap(lo, hi) => MunmapTrusted(areas, lo, hi);
    case Protect(i, lo, hi, perm) => ProtectAreas.ProtectedTrusted(areas, i, lo, hi, perm);
    case Map(lo, hi, perm, file) => MapTrusted(areas, lo, hi, perm, file, areas');
    case Touch => TouchTrusted(areas, areas');
    case Reclaim(i) =>
      assert Trusted(areas'[i]);
      TrustedReplace(areas, i, areas'[i]);
    case Birth(ppn) => ChildTrusted(areas, ppn);
  }

  /** What a method promises of the lists: they stay right if the call is harmless. */
  ghost predicate TrustKept(areas: seq<Area>, call: Call, areas': seq<Area>) {
    Did(areas, call, areas') && (AllTrusted(areas) && Harmless(areas, call) ==> AllTrusted(areas'))
  }

  lemma DidKept(areas: seq<Area>, call: Call, areas': seq<Area>)
    requires Did(areas, call, areas')
    ensures TrustKept(areas, call, areas')
  {
    if AllTrusted(areas) && Harmless(areas, call) {
      DidTrusted(areas, call, areas');
    }
  }

  ghost predicate DidAt(states: seq<seq<Area>>, calls: seq<Call>, i: nat)
    requires i < |calls| && |states| == |calls| + 1
  {
    Did(states[i], calls[i], states[i + 1]) && Harmless(states[i], calls[i])
  }

  /** Any sequence of calls, from an address space with right lists, such as an empty one, on. */
  ghost predicate Calls(states: seq<seq<Area>>, calls: seq<Call>) {
    && |states| == |calls| + 1 && AllTrusted(states[0])
    && forall i: nat :: i < |calls| ==> DidAt(states, calls, i)
  }

  /** At any point of it the reclaimer can be called on any area: its list names pages in memory, each
      at most once. */
  lemma {:induction false} CallsTrusted(states: seq<seq<Area>>, calls: seq<Call>, k: nat)
    requires Calls(states, calls) && k < |states|
    ensures AllTrusted(states[k])
    ensures forall i :: 0 <= i < |states[k]| ==> ActiveOk(states[k][i].frames, states[k][i].active)
  {
    if k > 0 {
      CallsTrusted(states, calls, k - 1);
      assert DidAt(states, calls, k - 1);
      DidTrusted(states[k - 1], calls[k - 1], states[k]);
    }
    forall i | 0 <= i < |states[k]|
      ensures ActiveOk(states[k][i].frames, states[k][i].active)
    {
      assert Trusted(states[k][i]);
    }
  }
}
