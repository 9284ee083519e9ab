/** The run queue of the fair scheduler: tasks in a tree ordered by virtual runtime, then id. */
module CfsQueue {
  import opened Basics
  import opened CfsRuntime

  datatype Entity = Entity(vruntime: nat, nice: int, weight: nat, sumExec: nat, execStart: nat)

  predicate EntityOk(e: Entity) {
    -20 <= e.nice <= 19 && e.weight == NiceToWeight(e.nice)
  }

  /** `update_runtime`: nothing if the task was never scheduled in; a clock that went back counts as
      no time. */
  function UpdateRuntime(e: Entity, now: nat): Entity
    requires -20 <= e.nice <= 19
  {
    if e.execStart == 0 then e
    else
      var delta := if now < e.execStart then 0 else now - e.execStart;
      e.(execStart := now, sumExec := e.sumExec + delta, vruntime := e.vruntime + CalcDelta(e.nice, e.weight, delta))
  }

  /** What one turn adds to the virtual runtime, if it lasts between the minimum granularity and
      `limit` and the product fits. */
  lemma TurnGain(e: Entity, now: nat, limit: nat)
    requires EntityOk(e) && 0 < e.execStart <= now && MIN_GRANULARITY_NS <= now - e.execStart <= limit
    requires Fits(e.nice, now - e.execStart)
    ensures var e' := UpdateRuntime(e, now);
            && e.vruntime + MIN_GAIN <= e'.vruntime <= e.vruntime + MaxGain(limit)
            && e'.sumExec == e.sumExec + (now - e.execStart) && EntityOk(e')
  {
    GainAtLeast(e.nice, now - e.execStart);
    GainAtMost(e.nice, now - e.execStart, limit);
  }

  /** The time charged: from when the task was scheduled in, none if the clock went back. */
  function Charged(e: Entity, now: nat): nat {
    if now < e.execStart then 0 else now - e.execStart
  }

  /** A task that was scheduled in is charged and its turn starts anew, at nice 0 for the very time it
      ran; one that was not is left as it is. */
  lemma RuntimeCharged(e: Entity, now: nat)
    requires EntityOk(e)
    ensures var e', time := UpdateRuntime(e, now), Charged(e, now);
            && e'.nice == e.nice && EntityOk(e')
            && (e.execStart == 0 ==> e' == e)
            && (e.execStart > 0 ==> e'.execStart == now && e'.sumExec == e.sumExec + time && e'.vruntime >= e.vruntime)
            && (e.execStart > 0 && e.nice == 0 ==> e'.vruntime == e.vruntime + time)
            && (time == 0 ==> e'.vruntime == e.vruntime)
  {
    OnlyZero(e.nice);
  }

  /** The charge is in proportion to 1024 over the weight of its nice value. */
  lemma ChargedByWeight(e: Entity, now: nat)
    requires EntityOk(e) && e.execStart > 0 && Fits(e.nice, Charged(e, now))
    ensures UpdateRuntime(e, now).vruntime >= e.vruntime
    ensures Accurate(NiceToWeight(e.nice), Charged(e, now), UpdateRuntime(e, now).vruntime - e.vruntime)
  {
    GainIs(e, now);
    GainAccurate(e.nice, Charged(e, now));
  }

  lemma GainIs(e: Entity, now: nat)
    requires EntityOk(e) && e.execStart > 0
    ensures UpdateRuntime(e, now).vruntime - e.vruntime == CalcDelta(e.nice, NiceToWeight(e.nice), Charged(e, now))
  {
  }

  /** Of two tasks charged for the same time the nicer one is not charged less. */
  lemma NicerChargedMore(e: Entity, now: nat, f: Entity, later: nat)
    requires EntityOk(e) && EntityOk(f) && e.nice <= f.nice && e.execStart > 0 && f.execStart > 0
    requires Charged(e, now) == Charged(f, later) && Fits(f.nice, Charged(f, later))
    ensures UpdateRuntime(e, now).vruntime - e.vruntime <= UpdateRuntime(f, later).vruntime - f.vruntime
  {
    GainOrdered(e.nice, f.nice, Charged(f, later));
  }

  /** `place_entity`: never backwards; a new task starts half a latency behind. */
  function Placed(vruntime: nat, min: nat, initial: bool): nat {
    var floor := if initial then min + SCHED_LATENCY_NS / 2 else min;
    if vruntime > floor then vruntime else floor
  }

  /** `saturating_sub`. */
  function Minus(a: nat, b: nat): nat {
    if a < b then 0 else a - b
  }

  datatype Key = Key(vruntime: nat, tid: nat)

  predicate Less(a: Key, b: Key) {
    a.vruntime < b.vruntime || (a.vruntime == b.vruntime && a.tid < b.tid)
  }

  ghost predicate Least(tasks: set<Key>, k: Key) {
    k in tasks && forall o :: o in tasks && o != k ==> Less(k, o)
  }

  class CfsRunQueue {
    var tasks: set<Key>
    var minVruntime: nat
    var totalWeight: nat
    var nrRunning: nat

    constructor ()
      ensures tasks == {} && minVruntime == 0 && nrRunning == 0 && totalWeight == 0
    {
      tasks, minVruntime, totalWeight, nrRunning := {}, 0, 0, 0;
    }

    method Enqueue(tid: nat, e: Entity, isNew: bool) returns (e': Entity)
      modifies this
      ensures e' == e.(vruntime := Placed(e.vruntime, minVruntime, isNew)) && minVruntime == old(minVruntime)
      ensures e'.vruntime >= e.vruntime && e'.vruntime >= old(minVruntime) + if isNew then SCHED_LATENCY_NS / 2 else 0
      ensures e'.vruntime == e.vruntime || e'.vruntime == old(minVruntime) + if isNew then SCHED_LATENCY_NS / 2 else 0
      ensures tasks == old(tasks) + {Key(e'.vruntime, tid)} && totalWeight == old(totalWeight) + e.weight
      ensures nrRunning == old(nrRunning) + 1
      ensures old(nrRunning) == |old(tasks)| ==> (nrRunning == |tasks| <==> Key(e'.vruntime, tid) !in old(tasks))
    {
      var floor := minVruntime;
      if isNew {
        floor := floor + SCHED_LATENCY_NS / 2;
      }
      e' := e.(vruntime := if e.vruntime > floor then e.vruntime else floor);
      tasks := tasks + {Key(e'.vruntime, tid)};
      totalWeight := totalWeight + e.weight;
      nrRunning := nrRunning + 1;
    }

    method Dequeue(tid: nat, e: Entity)
      modifies this
      ensures tasks == old(tasks) - {Key(e.vruntime, tid)} && minVruntime == old(minVruntime)
      ensures old(nrRunning) == |old(tasks)| ==> nrRunning == |tasks|
      ensures Key(e.vruntime, tid) !in old(tasks) ==> totalWeight == old(totalWeight) && nrRunning == old(nrRunning)
      ensures Key(e.vruntime, tid) in old(tasks) ==> totalWeight == if old(totalWeight) < e.weight then 0 else old(totalWeight) - e.weight
    {
      var key := Key(e.vruntime, tid);
      if key in tasks {
        tasks := tasks - {key};
        totalWeight := Minus(totalWeight, e.weight);
        nrRunning := Minus(nrRunning, 1);
      } else {
        assert tasks - {key} == tasks;
      }
    }

    /** The first entry of the tree. */
    method First() returns (k: Key)
      requires tasks != {}
      ensures Least(tasks, k)
    {
      k :| k in tasks;
      var rest := tasks - {k};
      while rest != {}
        invariant rest <= tasks && k in tasks && k !in rest
        invariant forall o :: o in tasks && o !in rest && o != k ==> Less(k, o)
        decreases |rest|
      {
        var o :| o in rest;
        rest := rest - {o};
        if Less(o, k) {
          k := o;
        }
      }
    }

    /** `pick_next`: the task with the least key leaves the queue and raises the minimum. */
    method PickNext() returns (k: Option<Key>)
      modifies this
      ensures k.None? <==> old(tasks) == {}
      ensures k.None? ==> tasks == old(tasks) && minVruntime == old(minVruntime) && totalWeight == old(totalWeight)
      ensures k.Some? ==> totalWeight == if old(totalWeight) < 1024 then 0 else old(totalWeight) - 1024
      ensures k.Some? ==> Least(old(tasks), k.value) && tasks == old(tasks) - {k.value}
      ensures k.Some? ==> minVruntime == if k.value.vruntime > old(minVruntime) then k.value.vruntime else old(minVruntime)
      ensures old(nrRunning) == |old(tasks)| ==> nrRunning == |tasks|
    {
      if tasks == {} {
        return None;
      }
      var first := First();
      tasks := tasks - {first};
      minVruntime := if first.vruntime > minVruntime then first.vruntime else minVruntime;
      totalWeight := Minus(totalWeight, NICE_0_WEIGHT);
      nrRunning := Minus(nrRunning, 1);
      k := Some(first);
    }
  }
}
