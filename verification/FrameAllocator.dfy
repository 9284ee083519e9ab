/** The stack allocator of physical frames. */
module FrameAllocator {
  import opened Basics

  /** The frames handed out since `init(l, _)`: below `current` and not recycled. */
  function TakenSet(l: nat, current: nat, recycled: seq<nat>): set<nat> {
    set p | l <= p < current && p !in recycled
  }

  class StackFrameAllocator {
    ghost var start: nat
    var current: nat
    var end: nat
    var recycled: seq<nat>

    ghost predicate Valid()
      reads this
    {
      && start <= current <= end
      && (forall k :: 0 <= k < |recycled| ==> start <= recycled[k] < current)
      && (forall k, l :: 0 <= k < l < |recycled| ==> recycled[k] != recycled[l])
    }

    /** The frames in use. */
    ghost function Used(): set<nat>
      reads this
    {
      TakenSet(start, current, recycled)
    }

    constructor (l: nat, r: nat)
      requires l <= r
      ensures Valid() && Used() == {} && start == l && end == r
    {
      start, current, end, recycled := l, l, r, [];
    }

    /** Every frame handed out is one not in use; the allocator fails exactly if none is left. */
    method Alloc() returns (r: Option<nat>)
      requires Valid()
      modifies this
      ensures Valid() && start == old(start) && end == old(end)
      ensures r.None? <==> old(Used()) == Range(start, end)
      ensures r.None? ==> Used() == old(Used())
      ensures r.Some? ==> start <= r.value < end && r.value !in old(Used()) && Used() == old(Used()) + {r.value}
    {
      if recycled != [] {
        var last := |recycled| - 1;
        var ppn := recycled[last];
        assert recycled == recycled[..last] + [ppn];
        assert ppn in recycled && ppn in Range(start, end);
        recycled := recycled[..last];
        r := Some(ppn);
      } else if current == end {
        r := None;
      } else {
        assert current in Range(start, end);
        current := current + 1;
        r := Some(current - 1);
      }
    }

    /** `dealloc`; without `ok` the kernel panics. A recycled frame is always refused, one never handed
        out only in a debug build, and only above `current`. The allocator stays in order exactly if the
        frame was in use. */
    method Dealloc(ppn: nat, debug: bool) returns (ok: bool)
      requires Valid()
      modifies this
      ensures ok <==> !(debug && ppn >= old(current)) && ppn !in old(recycled)
      ensures start == old(start) && end == old(end) && current == old(current)
      ensures !ok ==> recycled == old(recycled)
      ensures ok ==> recycled == old(recycled) + [ppn] && (Valid() <==> ppn in old(Used()))
      ensures ppn in old(Used()) ==> ok && Valid() && Used() == old(Used()) - {ppn}
    {
      if (debug && ppn >= current) || ppn in recycled {
        return false;
      }
      recycled := recycled + [ppn];
      assert recycled[|recycled| - 1] == ppn;
      ok := true;
    }

    method UnallocatedFrames() returns (n: nat)
      requires Valid()
      ensures n + |Used()| == end - start
    {
      TakenSize(start, current, recycled);
      n := end - current + |recycled|;
    }
  }

  /** Frames handed out and not recycled, and recycled ones, make up those below `current`. */
  lemma TakenSize(l: nat, current: nat, recycled: seq<nat>)
    requires l <= current && (forall k :: 0 <= k < |recycled| ==> l <= recycled[k] < current)
    requires forall i, j :: 0 <= i < j < |recycled| ==> recycled[i] != recycled[j]
    ensures |TakenSet(l, current, recycled)| + |recycled| == current - l
  {
    var free := Recycled(recycled, |recycled|);
    var used, all := TakenSet(l, current, recycled), Range(l, current);
    RangeSize(l, current);
    forall p: nat
      ensures p in all <==> p in used + free
    {
      assert p in free <==> p in recycled;
    }
    assert all == used + free;
    assert used * free == {};
  }

  lemma {:induction false} Recycled(recycled: seq<nat>, n: nat) returns (ids: set<nat>)
    requires n <= |recycled| && forall i, j :: 0 <= i < j < |recycled| ==> recycled[i] != recycled[j]
    ensures forall p :: p in ids <==> exists k :: 0 <= k < n && recycled[k] == p
    ensures |ids| == n
  {
    if n == 0 {
      ids := {};
    } else {
      var less := Recycled(recycled, n - 1);
      ids := less + {recycled[n - 1]};
    }
  }
}
