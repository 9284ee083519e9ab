/** The compressed store: slots handed out from a stack of recycled ids, then from a growing tail. */
module Zram {
  import opened Basics
  import opened PagedMemory

  datatype ZramError = InvalidIndex | NoSpace | NotAllocated

  datatype Result<+T> = Ok(value: T) | Err(error: ZramError)

  /** The fields of the device; at most 65535 slots, so that the tail fits 16 bits. */
  datatype State = State(compressed: seq<Option<seq<bv8>>>, recycled: seq<U16>, tail: U16)

  predicate Listed(recycled: seq<U16>, id: nat) {
    exists k :: 0 <= k < |recycled| && recycled[k] == id
  }

  /** A slot is in use if it is below the tail and not recycled. */
  predicate InUse(s: State, id: nat) {
    id < s.tail && !Listed(s.recycled, id)
  }

  ghost predicate SlotOk(s: State, id: nat)
    requires id < |s.compressed|
  {
    s.compressed[id].Some? <==> InUse(s, id)
  }

  ghost predicate Valid(s: State) {
    && s.tail <= |s.compressed| <= 65535
    && (forall k :: 0 <= k < |s.recycled| ==> s.recycled[k] < s.tail)
    && (forall k, l :: 0 <= k < l < |s.recycled| ==> s.recycled[k] != s.recycled[l])
    && (forall id: nat {:trigger SlotOk(s, id)} :: id < |s.compressed| ==> SlotOk(s, id))
  }

  /** What is stored under the ids in use. */
  function Contents(s: State): map<nat, seq<bv8>> {
    map id | 0 <= id < |s.compressed| && s.compressed[id].Some? :: s.compressed[id].value
  }

  // ---------------------------------------------------------------- insert

  /** The id `insert` takes. */
  function NextId(s: State): Option<nat> {
    if s.recycled != [] then Some(s.recycled[|s.recycled| - 1])
    else if s.tail == |s.compressed| then None
    else Some(s.tail)
  }

  function Inserted(s: State, data: seq<bv8>): State
    requires NextId(s).Some? && NextId(s).value < |s.compressed| <= 65535
  {
    var id := NextId(s).value;
    var compressed := s.compressed[id := Some(data)];
    if s.recycled != [] then s.(compressed := compressed, recycled := s.recycled[..|s.recycled| - 1])
    else if id + 1 <= 65535 then s.(compressed := compressed, tail := id + 1) else s
  }

  /** There is room exactly if some slot is not in use, and the id taken is not in use. */
  lemma NextIdFree(s: State)
    requires Valid(s)
    ensures NextId(s).None? <==> forall id: nat :: id < |s.compressed| ==> InUse(s, id)
    ensures NextId(s).Some? ==> NextId(s).value < |s.compressed| && !InUse(s, NextId(s).value)
  {
    if s.recycled != [] {
      var last := |s.recycled| - 1;
      assert Listed(s.recycled, s.recycled[last]) && !InUse(s, s.recycled[last]);
    } else if s.tail < |s.compressed| {
      assert !InUse(s, s.tail);
    }
  }

  lemma InsertedKeeps(s: State, data: seq<bv8>)
    requires Valid(s) && NextId(s).Some? && NextId(s).value < |s.compressed|
    ensures Valid(Inserted(s, data)) && Contents(Inserted(s, data)) == Contents(s)[NextId(s).value := data]
  {
    var t, id := Inserted(s, data), NextId(s).value;
    forall i: nat | i < |s.compressed|
      ensures InUse(t, i) <==> i == id || InUse(s, i)
      ensures SlotOk(t, i)
    {
      InsertedUse(s, data, i);
      assert SlotOk(s, i);
    }
    assert Contents(t) == Contents(s)[id := data];
  }

  lemma InsertedUse(s: State, data: seq<bv8>, i: nat)
    requires Valid(s) && NextId(s).Some? && NextId(s).value < |s.compressed|
    ensures InUse(Inserted(s, data), i) <==> i == NextId(s).value || InUse(s, i)
  {
    var t, id := Inserted(s, data), NextId(s).value;
    if s.recycled != [] {
      var n := |s.recycled| - 1;
      if k :| 0 <= k < |s.recycled| && s.recycled[k] == i {
        assert k < n ==> t.recycled[k] == i;
      }
      if k :| 0 <= k < n && t.recycled[k] == i {
        assert s.recycled[k] == i;
      }
    }
  }

  // ---------------------------------------------------------------- remove

  /** `remove` on an index of the vector. An empty device would wrap `tail - 1` around. */
  function Removed(s: State, id: nat): State
    requires id < |s.compressed| <= 65535
  {
    var s' := s.(compressed := s.compressed[id := None]);
    if s.tail > 0 && id == s.tail - 1 then s'.(tail := id) else s'.(recycled := s.recycled + [id])
  }

  lemma RemovedUse(s: State, id: nat, i: nat)
    requires Valid(s) && id < |s.compressed| && InUse(s, id)
    ensures InUse(Removed(s, id), i) <==> i != id && InUse(s, i)
  {
    var t := Removed(s, id);
    if t.recycled != s.recycled {
      assert t.recycled[|s.recycled|] == id;
      if k :| 0 <= k < |s.recycled| && s.recycled[k] == i {
        assert t.recycled[k] == i;
      }
      if k :| 0 <= k < |t.recycled| && t.recycled[k] == i {
        assert k < |s.recycled| ==> s.recycled[k] == i;
      }
    }
  }

  lemma RemovedKeeps(s: State, id: nat)
    requires Valid(s) && id < |s.compressed| && InUse(s, id)
    ensures Valid(Removed(s, id)) && Contents(Removed(s, id)) == Contents(s) - {id}
  {
    var t := Removed(s, id);
    forall i: nat | i < |s.compressed|
      ensures SlotOk(t, i)
    {
      RemovedUse(s, id, i);
      assert SlotOk(s, i);
    }
    forall k | 0 <= k < |s.recycled|
      ensures s.recycled[k] != id && s.recycled[k] < t.tail
    {
    }
  }

  /** Removing keeps the device in order exactly if the id is in use: a second removal of the same
      id, which no tracker performs, would let the slot be handed out twice or past the tail. */
  lemma RemovedOk(s: State, id: nat)
    requires Valid(s) && id < |s.compressed|
    ensures Valid(Removed(s, id)) <==> InUse(s, id)
  {
    var t := Removed(s, id);
    if InUse(s, id) {
      RemovedKeeps(s, id);
    } else if k :| 0 <= k < |s.recycled| && s.recycled[k] == id {
      assert t.recycled[k] == id;
      assert t.recycled != s.recycled ==> t.recycled[|s.recycled|] == id;
    } else {
      assert t.recycled[|s.recycled|] == id && id >= t.tail;
    }
  }

  class Device {
    var compressed: seq<Option<seq<bv8>>>
    var recycled: seq<U16>
    var tail: U16

    ghost function S(): State
      reads this
    {
      State(compressed, recycled, tail)
    }

    constructor (capacity: nat)
      requires capacity <= 65535
      ensures Valid(S()) && Contents(S()) == map[] && |compressed| == capacity
    {
      compressed, recycled, tail := seq(capacity, _ => None), [], 0;
    }

    method Insert(data: seq<bv8>) returns (r: Result<nat>)
      requires Valid(S())
      modifies this
      ensures Valid(S()) && |compressed| == |old(compressed)|
      ensures r.Err? <==> |old(Contents(S()))| == |compressed|
      ensures r.Err? ==> r.error == NoSpace && S() == old(S())
      ensures r.Ok? ==> r.value < |compressed| && r.value !in old(Contents(S())) && Contents(S()) == old(Contents(S()))[r.value := data]
    {
      ghost var s := S();
      NextIdFree(s);
      ContentsSize(s);
      var id: nat;
      if recycled != [] {
        id := recycled[|recycled| - 1];
        InsertedKeeps(s, data);
        assert SlotOk(s, id);
        recycled := recycled[..|recycled| - 1];
      } else {
        if tail == |compressed| {
          return Err(NoSpace);
        }
        InsertedKeeps(s, data);
        id := tail;
        assert SlotOk(s, id);
        tail := tail + 1;
      }
      compressed := compressed[id := Some(data)];
      assert S() == Inserted(s, data);
      r := Ok(id);
    }

    method Get(id: nat) returns (r: Result<seq<bv8>>)
      requires Valid(S())
      ensures r == if id >= |compressed| then Err(InvalidIndex)
                   else if id !in Contents(S()) then Err(NotAllocated)
                   else Ok(Contents(S())[id])
    {
      if id >= |compressed| {
        return Err(InvalidIndex);
      }
      match compressed[id]
      case Some(data) => r := Ok(data);
      case None => r := Err(NotAllocated);
    }

    method Remove(id: nat) returns (r: Result<seq<bv8>>)
      requires Valid(S())
      modifies this
      ensures |compressed| == |old(compressed)|
      ensures id >= |compressed| ==> r == Err(InvalidIndex) && S() == old(S())
      ensures id in old(Contents(S())) ==> r == Ok(old(Contents(S()))[id]) && Valid(S()) && Contents(S()) == old(Contents(S())) - {id}
      ensures id < |compressed| && id !in old(Contents(S())) ==> r == Err(NotAllocated) && !Valid(S())
    {
      if id >= |compressed| {
        return Err(InvalidIndex);
      }
      ghost var s := S();
      RemovedOk(s, id);
      assert SlotOk(s, id);
      if InUse(s, id) {
        RemovedKeeps(s, id);
      }
      if tail > 0 && id == tail - 1 {
        tail := id;
      } else {
        recycled := recycled + [id];
      }
      var data := compressed[id];
      compressed := compressed[id := None];
      assert S() == Removed(s, id);
      match data
      case Some(d) => r := Ok(d);
      case None => r := Err(NotAllocated);
    }

    /** `write`: compress and insert. */
    method Write(codec: Codec, page: Page) returns (r: Result<nat>)
      requires Valid(S())
      modifies this
      ensures Valid(S()) && |compressed| == |old(compressed)|
      ensures r.Err? <==> |old(Contents(S()))| == |compressed|
      ensures r.Err? ==> r.error == NoSpace && S() == old(S())
      ensures r.Ok? ==> r.value !in old(Contents(S())) && Contents(S()) == old(Contents(S()))[r.value := codec.compress(page)]
    {
      r := Insert(codec.compress(page));
    }

    /** `read`: what was written under an id comes back as long as the id is in use. */
    method Read(codec: Codec, id: nat, ghost page: Page) returns (r: Result<Page>)
      requires codec.Lossless() && Valid(S())
      ensures id in Contents(S()) && Contents(S())[id] == codec.compress(page) ==> r == Ok(page)
      ensures id !in Contents(S()) ==> r.Err?
    {
      var data := Get(id);
      match data
      case Ok(d) => r := Ok(codec.decompress(d));
      case Err(e) => r := Err(e);
    }
  }

  /** As many ids are stored as there are slots exactly if every slot is in use. */
  lemma ContentsSize(s: State)
    requires Valid(s)
    ensures |Contents(s)| == |s.compressed| <==> forall id: nat :: id < |s.compressed| ==> InUse(s, id)
  {
    var all, keys := Range(0, |s.compressed|), Contents(s).Keys;
    RangeSize(0, |s.compressed|);
    SubsetSize(keys, all);
    assert |keys| == |Contents(s)|;
    forall id: nat | id < |s.compressed|
      ensures id in keys <==> InUse(s, id)
    {
      assert SlotOk(s, id);
    }
  }
}
