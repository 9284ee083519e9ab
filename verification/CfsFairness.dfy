/** Runs of the fair scheduler: the window that virtual runtimes stay in, and how long a queued task
    waits. */
module CfsFairness {
  import opened Basics
  import opened CfsRuntime
  import opened CfsQueue

  /** A task out of the queue, and how much virtual runtime it may still gain before it is queued
      again. */
  datatype Off = Off(vruntime: nat, budget: nat)

  datatype Sched = Sched(queued: map<nat, nat>, off: map<nat, Off>, min: nat)

  datatype Step =
    | Spawn(tid: nat, vruntime: nat)
    | Enqueue(tid: nat, isNew: bool)
    | Pick(tid: nat)
    | Gain(tid: nat, gain: nat)
    | Dequeue(tid: nat)
    | Exit(tid: nat)

  /** The entries of the tree. */
  function Keys(queued: map<nat, nat>): set<Key> {
    set tid | tid in queued :: Key(queued[tid], tid)
  }

  /** Half the latency, or what a turn can gain if that is more. */
  function Window(turn: nat): nat {
    if turn > SCHED_LATENCY_NS / 2 then turn else SCHED_LATENCY_NS / 2
  }

  /** `turn` bounds what a task gains between being picked and being queued again. A new task starts
      at zero, or with the virtual runtime of a task that is in the window. */
  ghost predicate Next(s: Sched, step: Step, s': Sched, turn: nat) {
    match step
    case Spawn(t, v) =>
      t !in s.queued && t !in s.off && v <= s.min + Window(turn) && s' == s.(off := s.off[t := Off(v, 0)])
    case Enqueue(t, isNew) =>
      && t in s.off && t !in s.queued
      && s' == s.(queued := s.queued[t := Placed(s.off[t].vruntime, s.min, isNew)], off := s.off - {t})
    case Pick(t) =>
      && t in s.queued && Least(Keys(s.queued), Key(s.queued[t], t))
      && s' == Sched(s.queued - {t}, s.off[t := Off(s.queued[t], turn)], if s.queued[t] > s.min then s.queued[t] else s.min)
    case Gain(t, g) =>
      && t in s.off && g <= s.off[t].budget
      && s' == s.(off := s.off[t := Off(s.off[t].vruntime + g, s.off[t].budget - g)])
    case Dequeue(t) => t in s.queued && s' == s.(queued := s.queued - {t}, off := s.off[t := Off(s.queued[t], 0)])
    case Exit(t) => t in s.off && s' == s.(off := s.off - {t})
  }

  /** Entering and leaving the queue is entering and leaving the tree of the run queue. */
  lemma KeysStep(queued: map<nat, nat>, t: nat, v: nat)
    ensures t !in queued ==> Keys(queued[t := v]) == Keys(queued) + {Key(v, t)} && Key(v, t) !in Keys(queued)
    ensures t in queued ==> Keys(queued - {t}) == Keys(queued) - {Key(queued[t], t)}
  {
    forall k
      ensures t !in queued ==> (k in Keys(queued[t := v]) <==> k in Keys(queued) + {Key(v, t)})
      ensures t in queued ==> (k in Keys(queued - {t}) <==> k in Keys(queued) - {Key(queued[t], t)})
    {
      KeysHas(queued, k);
      KeysHas(queued[t := v], k);
      KeysHas(queued - {t}, k);
    }
    KeysHas(queued, Key(v, t));
  }

  lemma KeysHas(queued: map<nat, nat>, k: Key)
    ensures k in Keys(queued) <==> k.tid in queued && queued[k.tid] == k.vruntime
  {
    if k.tid in queued && queued[k.tid] == k.vruntime {
      assert Key(queued[k.tid], k.tid) in Keys(queued);
    }
  }

  ghost predicate Inside(s: Sched, turn: nat) {
    && (forall t :: t in s.queued ==> t !in s.off)
    && (forall t :: t in s.queued ==> s.min <= s.queued[t] <= s.min + Window(turn))
    && (forall t :: t in s.off ==> s.off[t].vruntime + s.off[t].budget <= s.min + Window(turn))
  }

  lemma LeastIs(queued: map<nat, nat>, t: nat, u: nat)
    requires t in queued && u in queued && Least(Keys(queued), Key(queued[t], t))
    ensures queued[t] <= queued[u]
  {
    assert Key(queued[u], u) in Keys(queued);
  }

  lemma StepInside(s: Sched, step: Step, s': Sched, turn: nat)
    requires Inside(s, turn) && Next(s, step, s', turn)
    ensures Inside(s', turn) && s.min <= s'.min
    ensures step.Pick? ==> s'.min == s.queued[step.tid]
  {
    if step.Pick? {
      forall u | u in s'.queued
        ensures s'.min <= s'.queued[u]
      {
        LeastIs(s.queued, step.tid, u);
      }
    }
  }

  // ---------------------------------------------------------------- whole runs

  ghost predicate StepAt(ss: seq<Sched>, steps: seq<Step>, turn: nat, i: nat)
    requires i < |steps| && |ss| == |steps| + 1
  {
    Next(ss[i], steps[i], ss[i + 1], turn)
  }

  ghost predicate Run(ss: seq<Sched>, steps: seq<Step>, turn: nat) {
    && |ss| == |steps| + 1 && ss[0] == Sched(map[], map[], 0)
    && forall i :: 0 <= i < |steps| ==> StepAt(ss, steps, turn, i)
  }

  lemma {:induction false} RunInside(ss: seq<Sched>, steps: seq<Step>, turn: nat, k: nat)
    requires Run(ss, steps, turn) && k < |ss|
    ensures Inside(ss[k], turn)
  {
    if k > 0 {
      RunInside(ss, steps, turn, k - 1);
      assert StepAt(ss, steps, turn, k - 1);
      StepInside(ss[k - 1], steps[k - 1], ss[k], turn);
    }
  }

  /** The minimum never decreases. */
  lemma {:induction false} MinRises(ss: seq<Sched>, steps: seq<Step>, turn: nat, i: nat, j: nat)
    requires Run(ss, steps, turn) && i <= j < |ss|
    ensures ss[i].min <= ss[j].min
    decreases j
  {
    if i < j {
      MinRises(ss, steps, turn, i, j - 1);
      RunInside(ss, steps, turn, j - 1);
      assert StepAt(ss, steps, turn, j - 1);
      StepInside(ss[j - 1], steps[j - 1], ss[j], turn);
    }
  }

  /** Fairness window: any two tasks in the queue are at most a window apart. */
  lemma QueuedApart(ss: seq<Sched>, steps: seq<Step>, turn: nat, k: nat, t: nat, u: nat)
    requires Run(ss, steps, turn) && k < |ss| && t in ss[k].queued && u in ss[k].queued
    ensures ss[k].queued[u] <= ss[k].queued[t] + Window(turn)
  {
    RunInside(ss, steps, turn, k);
  }

  /** Successive picks never go backwards. */
  lemma PicksRise(ss: seq<Sched>, steps: seq<Step>, turn: nat, i: nat, j: nat)
    requires Run(ss, steps, turn) && i < j < |steps| && steps[i].Pick? && steps[j].Pick?
    requires steps[i].tid in ss[i].queued && steps[j].tid in ss[j].queued
    ensures ss[i].queued[steps[i].tid] <= ss[j].queued[steps[j].tid]
  {
    RunInside(ss, steps, turn, i);
    RunInside(ss, steps, turn, j);
    assert StepAt(ss, steps, turn, i);
    StepInside(ss[i], steps[i], ss[i + 1], turn);
    MinRises(ss, steps, turn, i + 1, j);
  }

  // ---------------------------------------------------------------- bounded waiting

  /** The tasks `tids` are queued with the virtual runtimes `vs`; task `p` of them has the least key. */
  ghost predicate First(tids: seq<nat>, vs: seq<nat>, p: nat) {
    && p < |vs| == |tids|
    && forall t: nat :: t < |vs| && t != p ==> Less(Key(vs[p], tids[p]), Key(vs[t], tids[t]))
  }

  /** A turn: the first task runs, gains `g` and is queued again. */
  ghost predicate Turn(tids: seq<nat>, vs: seq<nat>, p: nat, g: nat, vs': seq<nat>, turn: nat) {
    First(tids, vs, p) && MIN_GAIN <= g <= turn && vs' == vs[p := vs[p] + g]
  }

  /** How many turns task `t` can still take ahead of task `w`. */
  function Ahead(tids: seq<nat>, vs: seq<nat>, w: nat, t: nat): nat
    requires w < |vs| == |tids| && t < |vs|
  {
    if t != w && Less(Key(vs[t], tids[t]), Key(vs[w], tids[w])) then (vs[w] - vs[t]) / 8652 + 1 else 0
  }

  /** The turns that can still come before the turn of `w`. */
  function Wait(tids: seq<nat>, vs: seq<nat>, w: nat, n: nat): nat
    requires w < |vs| == |tids| && n <= |vs|
  {
    if n == 0 then 0 else Wait(tids, vs, w, n - 1) + Ahead(tids, vs, w, n - 1)
  }

  /** The measure: a turn of another task takes one of its turns ahead of `w`, and nothing else
      changes. */
  lemma AheadStep(tids: seq<nat>, vs: seq<nat>, p: nat, g: nat, vs': seq<nat>, turn: nat, w: nat, t: nat)
    requires Turn(tids, vs, p, g, vs', turn) && w < |vs| && p != w && t < |vs|
    ensures if t == p then Ahead(tids, vs', w, t) + 1 <= Ahead(tids, vs, w, t)
            else Ahead(tids, vs', w, t) == Ahead(tids, vs, w, t)
  {
    assert t == p ==> Less(Key(vs[p], tids[p]), Key(vs[w], tids[w]));
  }

  lemma {:induction false} WaitStep(tids: seq<nat>, vs: seq<nat>, p: nat, g: nat, vs': seq<nat>, turn: nat, w: nat, n: nat)
    requires Turn(tids, vs, p, g, vs', turn) && w < |vs| && p != w && n <= |vs|
    ensures Wait(tids, vs', w, n) + (if p < n then 1 else 0) <= Wait(tids, vs, w, n)
  {
    if n > 0 {
      WaitStep(tids, vs, p, g, vs', turn, w, n - 1);
      AheadStep(tids, vs, p, g, vs', turn, w, n - 1);
    }
  }

  /** No task is more than a window ahead. */
  ghost predicate Within(vs: seq<nat>, window: nat) {
    forall t: nat, u: nat {:trigger vs[t], vs[u]} :: t < |vs| && u < |vs| ==> vs[u] <= vs[t] + window
  }

  lemma {:induction false} WaitBound(tids: seq<nat>, vs: seq<nat>, w: nat, n: nat, window: nat, bound: nat)
    requires w < |vs| == |tids| && n <= |vs| && Within(vs, window) && bound == window / 8652 + 1
    ensures Wait(tids, vs, w, n) <= (if w < n then n - 1 else n) * bound
  {
    if n > 0 {
      WaitBound(tids, vs, w, n - 1, window, bound);
      assert vs[w] <= vs[n - 1] + window;
      assert Ahead(tids, vs, w, n - 1) <= if n - 1 == w then 0 else bound;
      assert n * bound == (n - 1) * bound + bound;
      assert n > 1 ==> (n - 1) * bound == (n - 2) * bound + bound;
    }
  }

  /** Turns no longer than the window keep it. */
  lemma TurnWithin(tids: seq<nat>, vs: seq<nat>, p: nat, g: nat, vs': seq<nat>, turn: nat, window: nat)
    requires Turn(tids, vs, p, g, vs', turn) && Within(vs, window) && turn <= window
    ensures Within(vs', window) && |vs'| == |vs|
  {
    forall t: nat, u: nat | t < |vs'| && u < |vs'|
      ensures vs'[u] <= vs'[t] + window
    {
      assert vs[u] <= vs[t] + window && vs[u] <= vs[p] + window;
      assert t == p || Less(Key(vs[p], tids[p]), Key(vs[t], tids[t]));
    }
  }

  /** `vss` are the states of a run of turns in which the tasks `picks` had their turns. */
  ghost predicate TurnAt(tids: seq<nat>, vss: seq<seq<nat>>, picks: seq<nat>, gains: seq<nat>, turn: nat, i: nat)
    requires i < |picks| == |gains| && |vss| == |picks| + 1
  {
    Turn(tids, vss[i], picks[i], gains[i], vss[i + 1], turn)
  }

  ghost predicate Turns(tids: seq<nat>, vss: seq<seq<nat>>, picks: seq<nat>, gains: seq<nat>, turn: nat) {
    && |vss| == |picks| + 1 && |gains| == |picks| && |vss[0]| == |tids|
    && forall i: nat :: i < |picks| ==> TurnAt(tids, vss, picks, gains, turn, i)
  }

  lemma TurnsFrom(tids: seq<nat>, vss: seq<seq<nat>>, picks: seq<nat>, gains: seq<nat>, turn: nat, i: nat)
    requires Turns(tids, vss, picks, gains, turn) && i <= |picks|
    ensures Turns(tids, vss[i..], picks[i..], gains[i..], turn)
  {
    var a, b, c := vss[i..], picks[i..], gains[i..];
    assert i > 0 ==> TurnAt(tids, vss, picks, gains, turn, i - 1);
    forall k: nat | k < |b|
      ensures TurnAt(tids, a, b, c, turn, k)
    {
      assert TurnAt(tids, vss, picks, gains, turn, i + k);
    }
  }

  /** While the measure lasts: in a run longer than the measure the task gets its turn. */
  lemma {:induction false} PickedWithin(tids: seq<nat>, vss: seq<seq<nat>>, picks: seq<nat>, gains: seq<nat>, turn: nat, w: nat)
    returns (j: nat)
    requires Turns(tids, vss, picks, gains, turn) && w < |tids| && |picks| > Wait(tids, vss[0], w, |tids|)
    ensures j <= Wait(tids, vss[0], w, |tids|) && picks[j] == w
    decreases |picks|
  {
    assert TurnAt(tids, vss, picks, gains, turn, 0);
    if picks[0] == w {
      j := 0;
    } else {
      WaitStep(tids, vss[0], picks[0], gains[0], vss[1], turn, w, |tids|);
      TurnsFrom(tids, vss, picks, gains, turn, 1);
      var k := PickedWithin(tids, vss[1..], picks[1..], gains[1..], turn, w);
      j := k + 1;
    }
  }

  /** Bounded waiting: in a closed set of N tasks that are within a window, every task is picked
      among the next N * (window / d + 1) turns, where d is the least gain of a turn. */
  lemma BoundedWaiting(tids: seq<nat>, vss: seq<seq<nat>>, picks: seq<nat>, gains: seq<nat>, turn: nat, window: nat, w: nat)
    returns (j: nat)
    requires Turns(tids, vss, picks, gains, turn) && w < |tids| && Within(vss[0], window)
    requires |picks| >= |tids| * (window / MIN_GAIN + 1)
    ensures j < |tids| * (window / MIN_GAIN + 1) && picks[j] == w
  {
    var n, bound := |tids|, window / 8652 + 1;
    WaitBound(tids, vss[0], w, n, window, bound);
    assert n * bound == (n - 1) * bound + bound;
    j := PickedWithin(tids, vss, picks, gains, turn, w);
  }

  lemma {:induction false} TurnsWithin(tids: seq<nat>, vss: seq<seq<nat>>, picks: seq<nat>, gains: seq<nat>, turn: nat, window: nat, i: nat)
    requires Turns(tids, vss, picks, gains, turn) && Within(vss[0], window) && turn <= window && i < |vss|
    ensures Within(vss[i], window) && |vss[i]| == |vss[0]|
  {
    if i > 0 {
      TurnsWithin(tids, vss, picks, gains, turn, window, i - 1);
      assert TurnAt(tids, vss, picks, gains, turn, i - 1);
      TurnWithin(tids, vss[i - 1], picks[i - 1], gains[i - 1], vss[i], turn, window);
    }
  }

  /** No starvation: from any moment of a run on, every task has its turn within the bound. */
  lemma NoStarvation(tids: seq<nat>, vss: seq<seq<nat>>, picks: seq<nat>, gains: seq<nat>, turn: nat, window: nat, w: nat, i: nat)
    returns (j: nat)
    requires Turns(tids, vss, picks, gains, turn) && w < |tids| && Within(vss[0], window) && turn <= window
    requires i + |tids| * (window / MIN_GAIN + 1) <= |picks|
    ensures i <= j < i + |tids| * (window / MIN_GAIN + 1) && picks[j] == w
  {
    TurnsWithin(tids, vss, picks, gains, turn, window, i);
    TurnsFrom(tids, vss, picks, gains, turn, i);
    var k := BoundedWaiting(tids, vss[i..], picks[i..], gains[i..], turn, window, w);
    j := i + k;
  }

  // ---------------------------------------------------------------- from reachable states, by run time

  /** The queue that holds the tasks `tids` with the virtual runtimes `vs`. */
  ghost predicate Holds(queued: map<nat, nat>, tids: seq<nat>, vs: seq<nat>) {
    && |tids| == |vs| && Distinct(tids)
    && (forall i: nat :: i < |tids| ==> tids[i] in queued && queued[tids[i]] == vs[i])
    && (forall t :: t in queued ==> t in tids)
  }

  /** The window at the start is the one every reachable state keeps. */
  lemma ReachableWithin(ss: seq<Sched>, steps: seq<Step>, turn: nat, k: nat, tids: seq<nat>, vs: seq<nat>)
    requires Run(ss, steps, turn) && k < |ss| && Holds(ss[k].queued, tids, vs)
    ensures Within(vs, Window(turn))
  {
    forall t: nat, u: nat | t < |vs| && u < |vs|
      ensures vs[u] <= vs[t] + Window(turn)
    {
      QueuedApart(ss, steps, turn, k, tids[t], tids[u]);
    }
  }

  lemma FirstIsLeast(queued: map<nat, nat>, tids: seq<nat>, vs: seq<nat>, p: nat)
    requires Holds(queued, tids, vs) && First(tids, vs, p)
    ensures Least(Keys(queued), Key(vs[p], tids[p]))
  {
    forall o | o in Keys(queued) && o != Key(vs[p], tids[p])
      ensures Less(Key(vs[p], tids[p]), o)
    {
      KeysHas(queued, o);
      var i :| 0 <= i < |tids| && tids[i] == o.tid;
      assert queued[tids[i]] == vs[i];
    }
    KeysHas(queued, Key(vs[p], tids[p]));
  }

  /** A turn is three steps of the scheduler: pick, gain, enqueue. */
  lemma TurnIsSteps(s: Sched, tids: seq<nat>, vs: seq<nat>, p: nat, g: nat, vs': seq<nat>, turn: nat)
    returns (picked: Sched, ran: Sched, last: Sched)
    requires Turn(tids, vs, p, g, vs', turn) && Holds(s.queued, tids, vs)
    requires tids[p] !in s.off && s.min <= vs[p]
    ensures Next(s, Pick(tids[p]), picked, turn)
    ensures Next(picked, Gain(tids[p], g), ran, turn) && Next(ran, Enqueue(tids[p], false), last, turn)
    ensures Holds(last.queued, tids, vs') && last.off == s.off && last.min == vs[p]
  {
    var t := tids[p];
    FirstIsLeast(s.queued, tids, vs, p);
    picked := Sched(s.queued - {t}, s.off[t := Off(vs[p], turn)], vs[p]);
    ran := picked.(off := s.off[t := Off(vs[p] + g, turn - g)]);
    last := Sched((s.queued - {t})[t := vs[p] + g], s.off, vs[p]);
    assert picked.off[t := Off(vs[p] + g, turn - g)] == ran.off;
    assert ran.off - {t} == s.off;
    forall u | u in last.queued
      ensures u in tids
    {
      assert u == t || u in s.queued;
    }
  }

  lemma ExtendRun(ss: seq<Sched>, steps: seq<Step>, turn: nat, step: Step, s: Sched)
    requires Run(ss, steps, turn) && Next(ss[|steps|], step, s, turn)
    ensures Run(ss + [s], steps + [step], turn)
  {
    var ss', steps' := ss + [s], steps + [step];
    forall i | 0 <= i < |steps'|
      ensures StepAt(ss', steps', turn, i)
    {
      assert i < |steps| ==> StepAt(ss, steps, turn, i);
    }
  }

  lemma ExtendByTurn(ss: seq<Sched>, steps: seq<Step>, tids: seq<nat>, vs: seq<nat>, p: nat, g: nat, vs': seq<nat>, turn: nat)
    returns (ss': seq<Sched>, steps': seq<Step>)
    requires Run(ss, steps, turn) && Turn(tids, vs, p, g, vs', turn)
    requires Holds(ss[|steps|].queued, tids, vs) && tids[p] !in ss[|steps|].off
    ensures Run(ss', steps', turn) && steps <= steps' && |steps'| == |steps| + 3 && steps'[|steps|] == Pick(tids[p])
    ensures Holds(ss'[|steps'|].queued, tids, vs') && ss'[|steps'|].off == ss[|steps|].off
  {
    RunInside(ss, steps, turn, |steps|);
    assert tids[p] in ss[|steps|].queued;
    var picked, ran, last := TurnIsSteps(ss[|steps|], tids, vs, p, g, vs', turn);
    ss', steps' := ss + [picked], steps + [Pick(tids[p])];
    ExtendRun(ss, steps, turn, Pick(tids[p]), picked);
    ExtendRun(ss', steps', turn, Gain(tids[p], g), ran);
    ss', steps' := ss' + [ran], steps' + [Gain(tids[p], g)];
    ExtendRun(ss', steps', turn, Enqueue(tids[p], false), last);
    ss', steps' := ss' + [last], steps' + [Enqueue(tids[p], false)];
  }

  ghost predicate PicksAt(steps: seq<Step>, n: nat, tids: seq<nat>, picks: seq<nat>, i: nat)
    requires i < |picks|
  {
    n + 3 * i < |steps| && picks[i] < |tids| && steps[n + 3 * i] == Pick(tids[picks[i]])
  }

  /** A run of turns continues a run of the scheduler, three steps a turn. */
  lemma {:induction false} TurnsExtend(ss: seq<Sched>, steps: seq<Step>, tids: seq<nat>, vss: seq<seq<nat>>,
                                       picks: seq<nat>, gains: seq<nat>, turn: nat)
    returns (ss': seq<Sched>, steps': seq<Step>)
    requires Run(ss, steps, turn) && Turns(tids, vss, picks, gains, turn)
    requires Holds(ss[|steps|].queued, tids, vss[0]) && forall t :: t in tids ==> t !in ss[|steps|].off
    ensures Run(ss', steps', turn) && steps <= steps' && |steps'| == |steps| + 3 * |picks|
    ensures Holds(ss'[|steps'|].queued, tids, vss[|picks|]) && ss'[|steps'|].off == ss[|steps|].off
    ensures forall i: nat :: i < |picks| ==> PicksAt(steps', |steps|, tids, picks, i)
    decreases |picks|
  {
    if picks == [] {
      ss', steps' := ss, steps;
    } else {
      var k := |picks| - 1;
      TurnsBefore(tids, vss, picks, gains, turn);
      var ss0, steps0 := TurnsExtend(ss, steps, tids, vss[..k + 1], picks[..k], gains[..k], turn);
      assert TurnAt(tids, vss, picks, gains, turn, k);
      ss', steps' := ExtendByTurn(ss0, steps0, tids, vss[k], picks[k], gains[k], vss[k + 1], turn);
      forall i: nat | i < |picks|
        ensures PicksAt(steps', |steps|, tids, picks, i)
      {
        if i < k {
          assert PicksAt(steps0, |steps|, tids, picks[..k], i);
        }
      }
    }
  }

  lemma TurnsBefore(tids: seq<nat>, vss: seq<seq<nat>>, picks: seq<nat>, gains: seq<nat>, turn: nat)
    requires Turns(tids, vss, picks, gains, turn) && picks != []
    ensures var k := |picks| - 1; Turns(tids, vss[..k + 1], picks[..k], gains[..k], turn)
  {
    var k := |picks| - 1;
    var a, b, c := vss[..k + 1], picks[..k], gains[..k];
    forall i: nat | i < |b|
      ensures TurnAt(tids, a, b, c, turn, i)
    {
      assert TurnAt(tids, vss, picks, gains, turn, i);
    }
  }

  /** One turn by the clock: the task at nice `nice` ran from `start` to `now`. */
  datatype Timed = Timed(nice: int, start: nat, now: nat)

  /** The turn lasts at least the minimum granularity and at most `limit`. */
  predicate TimedOk(r: Timed, limit: nat) {
    -20 <= r.nice <= 19 && 0 < r.start && r.start + MIN_GRANULARITY_NS <= r.now <= r.start + limit
  }

  /** What `update_runtime` adds. */
  function TimedGain(r: Timed, v: nat): nat
    requires -20 <= r.nice <= 19
  {
    UpdateRuntime(Entity(v, r.nice, NiceToWeight(r.nice), 0, r.start), r.now).vruntime - v
  }

  /** Up to about 64 seconds a turn cannot overflow the product of `calc_delta_vruntime`. */
  predicate LimitOk(limit: nat) {
    limit * 286331153 < 0x1_0000_0000_0000_0000
  }

  lemma LimitFits(nice: int, delta: nat, limit: nat)
    requires -20 <= nice <= 19 && delta <= limit && LimitOk(limit)
    ensures Fits(nice, delta)
  {
    if nice < 19 {
      TablesOrdered(nice + 20, 39);
    }
    MulMonotone(delta, limit, InvWeight(nice), 286331153);
  }

  lemma TimedGainBounds(r: Timed, v: nat, limit: nat)
    requires TimedOk(r, limit) && LimitOk(limit)
    ensures MIN_GAIN <= TimedGain(r, v) <= MaxGain(limit)
  {
    LimitFits(r.nice, r.now - r.start, limit);
    TurnGain(Entity(v, r.nice, NiceToWeight(r.nice), 0, r.start), r.now, limit);
  }

  ghost predicate TimedTurnAt(tids: seq<nat>, vss: seq<seq<nat>>, picks: seq<nat>, runs: seq<Timed>, limit: nat, i: nat)
    requires i < |picks| == |runs| && |vss| == |picks| + 1
  {
    var p, vs := picks[i], vss[i];
    First(tids, vs, p) && TimedOk(runs[i], limit) && vss[i + 1] == vs[p := vs[p] + TimedGain(runs[i], vs[p])]
  }

  /** Turns given by nice values and clock readings alone. */
  ghost predicate TimedTurns(tids: seq<nat>, vss: seq<seq<nat>>, picks: seq<nat>, runs: seq<Timed>, limit: nat) {
    && |vss| == |picks| + 1 && |runs| == |picks| && |vss[0]| == |tids|
    && forall i: nat :: i < |picks| ==> TimedTurnAt(tids, vss, picks, runs, limit, i)
  }

  function Gains(vss: seq<seq<nat>>, picks: seq<nat>, runs: seq<Timed>, n: nat): (r: seq<nat>)
    requires n <= |picks| == |runs| <= |vss|
    requires forall i: nat :: i < n ==> picks[i] < |vss[i]| && -20 <= runs[i].nice <= 19
    ensures |r| == n && forall i: nat :: i < n ==> r[i] == TimedGain(runs[i], vss[i][picks[i]])
  {
    if n == 0 then [] else Gains(vss, picks, runs, n - 1) + [TimedGain(runs[n - 1], vss[n - 1][picks[n - 1]])]
  }

  lemma TimedAreTurns(tids: seq<nat>, vss: seq<seq<nat>>, picks: seq<nat>, runs: seq<Timed>, limit: nat)
    returns (gains: seq<nat>)
    requires TimedTurns(tids, vss, picks, runs, limit) && LimitOk(limit)
    ensures Turns(tids, vss, picks, gains, MaxGain(limit))
  {
    forall i: nat | i < |picks|
      ensures picks[i] < |vss[i]| && -20 <= runs[i].nice <= 19
    {
      assert TimedTurnAt(tids, vss, picks, runs, limit, i);
    }
    gains := Gains(vss, picks, runs, |picks|);
    forall i: nat | i < |picks|
      ensures TurnAt(tids, vss, picks, gains, MaxGain(limit), i)
    {
      assert TimedTurnAt(tids, vss, picks, runs, limit, i);
      TimedGainBounds(runs[i], vss[i][picks[i]], limit);
    }
  }

  /** Fairness, from the clock up: in any reachable state of the scheduler, if its queued tasks then
      take turns of at least the minimum granularity and at most `limit`, whatever their nice values,
      every one of them has a turn among any N * (W / d + 1) in a row, where W is the window of the
      scheduler and d the least gain; and those turns are again a run of the scheduler. */
  lemma FairByClock(ss: seq<Sched>, steps: seq<Step>, limit: nat, tids: seq<nat>, vss: seq<seq<nat>>,
                    picks: seq<nat>, runs: seq<Timed>, w: nat, i: nat)
    returns (j: nat, ss': seq<Sched>, steps': seq<Step>)
    requires LimitOk(limit) && Run(ss, steps, MaxGain(limit)) && TimedTurns(tids, vss, picks, runs, limit)
    requires Holds(ss[|steps|].queued, tids, vss[0]) && (forall t :: t in tids ==> t !in ss[|steps|].off)
    requires w < |tids| && i + |tids| * (Window(MaxGain(limit)) / MIN_GAIN + 1) <= |picks|
    ensures i <= j < i + |tids| * (Window(MaxGain(limit)) / MIN_GAIN + 1) && picks[j] == w
    ensures Run(ss', steps', MaxGain(limit)) && steps <= steps' && |steps'| == |steps| + 3 * |picks|
    ensures steps'[|steps| + 3 * j] == Pick(tids[w])
  {
    var turn := MaxGain(limit);
    var gains := TimedAreTurns(tids, vss, picks, runs, limit);
    ReachableWithin(ss, steps, turn, |steps|, tids, vss[0]);
    j := NoStarvation(tids, vss, picks, gains, turn, Window(turn), w, i);
    ss', steps' := TurnsExtend(ss, steps, tids, vss, picks, gains, turn);
    assert PicksAt(steps', |steps|, tids, picks, j);
  }

  // ---------------------------------------------------------------- weighted shares

  /** The time task `t` ran in the first `n` turns, ... */
  function Ran(picks: seq<nat>, runs: seq<Timed>, t: nat, n: nat): nat
    requires n <= |picks| == |runs|
  {
    if n == 0 then 0
    else Ran(picks, runs, t, n - 1) + if picks[n - 1] == t && runs[n - 1].start <= runs[n - 1].now then runs[n - 1].now - runs[n - 1].start else 0
  }

  /** ... and how many of them were its own. */
  function OwnTurns(picks: seq<nat>, t: nat, n: nat): nat
    requires n <= |picks|
  {
    if n == 0 then 0 else OwnTurns(picks, t, n - 1) + if picks[n - 1] == t then 1 else 0
  }

  /** Each task keeps its nice value. */
  ghost predicate SameNice(picks: seq<nat>, runs: seq<Timed>, nices: seq<int>) {
    && |runs| == |picks|
    && forall i: nat {:trigger runs[i]} :: i < |picks| ==> picks[i] < |nices| && runs[i].nice == nices[picks[i]]
  }

  /** `gain` is `time` * 1024 / weight, up to one for each of `n` turns and the rounding of the table. */
  predicate Share(weight: nat, time: nat, gain: int, n: nat) {
    && weight * gain * 4194304 <= time * (0x1_0000_0000 + weight)
    && time * (0x1_0000_0000 - weight) <= weight * (gain + n) * 4194304
  }

  lemma ShareAdds(w: nat, time: nat, gain: int, n: nat, delta: nat, g: nat)
    requires Share(w, time, gain, n) && Accurate(w, delta, g)
    ensures Share(w, time + delta, gain + g, n + 1)
  {
    assert w * (gain + g) * 4194304 == w * gain * 4194304 + w * g * 4194304;
    assert (time + delta) * (0x1_0000_0000 + w) == time * (0x1_0000_0000 + w) + delta * (0x1_0000_0000 + w);
    assert w * (gain + g + (n + 1)) * 4194304 == w * (gain + n) * 4194304 + w * (g + 1) * 4194304;
    assert (time + delta) * (0x1_0000_0000 - w) == time * (0x1_0000_0000 - w) + delta * (0x1_0000_0000 - w);
  }

  /** What one turn by the clock adds is the time it lasted, by weight. */
  lemma TimedAccurate(r: Timed, v: nat, limit: nat)
    requires TimedOk(r, limit) && LimitOk(limit)
    ensures Accurate(NiceToWeight(r.nice), r.now - r.start, TimedGain(r, v))
  {
    LimitFits(r.nice, r.now - r.start, limit);
    ChargedByWeight(Entity(v, r.nice, NiceToWeight(r.nice), 0, r.start), r.now);
  }

  /** The virtual runtime task `t` gained in the first `n` turns. */
  function Gained(vss: seq<seq<nat>>, t: nat, n: nat): int
    requires n < |vss| && t < |vss[0]| && t < |vss[n]|
  {
    vss[n][t] as int - vss[0][t] as int
  }

  /** The virtual runtime a task gains in any number of turns is its share of the time it ran. */
  lemma {:induction false} GainIsShare(tids: seq<nat>, vss: seq<seq<nat>>, picks: seq<nat>, runs: seq<Timed>, limit: nat,
                                       nices: seq<int>, t: nat, n: nat)
    requires TimedTurns(tids, vss, picks, runs, limit) && LimitOk(limit) && SameNice(picks, runs, nices)
    requires t < |tids| == |nices| && n <= |picks|
    ensures |vss[n]| == |tids|
    ensures Share(NiceToWeight(nices[t]), Ran(picks, runs, t, n), Gained(vss, t, n), OwnTurns(picks, t, n))
  {
    if n > 0 {
      GainIsShare(tids, vss, picks, runs, limit, nices, t, n - 1);
      assert TimedTurnAt(tids, vss, picks, runs, limit, n - 1);
      var r, w := runs[n - 1], NiceToWeight(nices[t]);
      var time, gain, own := Ran(picks, runs, t, n - 1), Gained(vss, t, n - 1), OwnTurns(picks, t, n - 1);
      if picks[n - 1] == t {
        var delta, g := r.now - r.start, TimedGain(r, vss[n - 1][t]);
        TimedAccurate(r, vss[n - 1][t], limit);
        ShareAdds(w, time, gain, own, delta, g);
        assert Ran(picks, runs, t, n) == time + delta && Gained(vss, t, n) == gain + g && OwnTurns(picks, t, n) == own + 1;
      } else {
        assert Ran(picks, runs, t, n) == time && Gained(vss, t, n) == gain && OwnTurns(picks, t, n) == own;
      }
    }
  }

  /** Two shares whose gains are within `d` of each other. */
  lemma SharesMeet(w: nat, time: nat, gain: int, n: nat, w': nat, time': nat, gain': int, n': nat, d: nat)
    requires Share(w, time, gain, n) && Share(w', time', gain', n') && gain <= gain' + d
    ensures w' * (time * (0x1_0000_0000 - w)) <= w * (time' * (0x1_0000_0000 + w')) + w * w' * ((d + n) * 4194304)
  {
    calc {
      w' * (time * (0x1_0000_0000 - w));
    <= { MulOrder(w', time * (0x1_0000_0000 - w), w * (gain + n) * 4194304); }
      w' * (w * (gain + n) * 4194304);
    <= { SharesArith(w, w', gain, gain', d, n); }
      w * (w' * gain' * 4194304) + w * w' * ((d + n) * 4194304);
    <= { MulOrder(w, w' * gain' * 4194304, time' * (0x1_0000_0000 + w')); }
      w * (time' * (0x1_0000_0000 + w')) + w * w' * ((d + n) * 4194304);
    }
  }

  lemma MulOrder(a: nat, x: int, y: int)
    requires x <= y
    ensures a * x <= a * y
  {
  }

  lemma SharesArith(w: nat, w': nat, gain: int, gain': int, d: nat, n: nat)
    requires gain <= gain' + d
    ensures w' * (w * (gain + n) * 4194304) <= w * (w' * gain' * 4194304) + w * w' * ((d + n) * 4194304)
  {
    var k := w * w';
    MulOrder(k, gain + n, gain' + (d + n));
    assert w' * (w * (gain + n) * 4194304) == k * (gain + n) * 4194304;
    assert w * (w' * gain' * 4194304) == k * gain' * 4194304;
    assert k * (gain' + (d + n)) == k * gain' + k * (d + n);
    assert w * w' * ((d + n) * 4194304) == k * (d + n) * 4194304;
  }

  /** Weighted fairness by the clock: from any reachable state on, over any number of turns, the time a
      task ran divided by its weight is at most that of any other queued task, up to two windows, one for
      each turn of its own, and the rounding of the weight table, which is below one in 48388. */
  lemma WeightedFairness(ss: seq<Sched>, steps: seq<Step>, limit: nat, tids: seq<nat>, vss: seq<seq<nat>>,
                         picks: seq<nat>, runs: seq<Timed>, nices: seq<int>, t: nat, u: nat, n: nat)
    requires LimitOk(limit) && Run(ss, steps, MaxGain(limit)) && TimedTurns(tids, vss, picks, runs, limit)
    requires Holds(ss[|steps|].queued, tids, vss[0]) && SameNice(picks, runs, nices)
    requires t < |tids| == |nices| && u < |tids| && n <= |picks|
    ensures var w, w', d := NiceToWeight(nices[t]), NiceToWeight(nices[u]), 2 * Window(MaxGain(limit));
            w' * (Ran(picks, runs, t, n) * (0x1_0000_0000 - w)) <=
            w * (Ran(picks, runs, u, n) * (0x1_0000_0000 + w')) + w * w' * ((d + OwnTurns(picks, t, n)) * 4194304)
  {
    var window := Window(MaxGain(limit));
    var gains := TimedAreTurns(tids, vss, picks, runs, limit);
    ReachableWithin(ss, steps, MaxGain(limit), |steps|, tids, vss[0]);
    TurnsWithin(tids, vss, picks, gains, MaxGain(limit), window, n);
    GainIsShare(tids, vss, picks, runs, limit, nices, t, n);
    GainIsShare(tids, vss, picks, runs, limit, nices, u, n);
    assert vss[n][t] <= vss[n][u] + window && vss[0][u] <= vss[0][t] + window;
    SharesMeet(NiceToWeight(nices[t]), Ran(picks, runs, t, n), Gained(vss, t, n), OwnTurns(picks, t, n),
               NiceToWeight(nices[u]), Ran(picks, runs, u, n), Gained(vss, u, n), OwnTurns(picks, u, n), 2 * window);
  }

  // ---------------------------------------------------------------- any interleaving

  /** Where a task that is not waiting would enter the queue at the earliest: not below the minimum, and
      after the least gain if it was picked. */
  function Earliest(s: Sched, turn: nat, t: nat): nat
    requires t in s.off
  {
    var owed := Minus(s.off[t].budget + MIN_GAIN, turn);
    if s.off[t].vruntime + owed > s.min then s.off[t].vruntime + owed else s.min
  }

  /** How many times a task at `x` can be picked before one at `v`. */
  function TurnsBelow(x: nat, v: nat): nat {
    if x <= v then (v - x) / 8652 + 1 else 0
  }

  /** How many times task `t` can still be picked before a waiting task at `v`. */
  function PicksLeft(s: Sched, turn: nat, v: nat, t: nat): nat {
    if t in s.queued then TurnsBelow(s.queued[t], v) else if t in s.off then TurnsBelow(Earliest(s, turn, t), v) else 0
  }

  lemma TurnsBelowFalls(x: nat, y: nat, v: nat)
    requires x <= y
    ensures TurnsBelow(y, v) <= TurnsBelow(x, v)
    ensures x <= v && x + MIN_GAIN <= y ==> TurnsBelow(y, v) + 1 <= TurnsBelow(x, v)
  {
  }

  /** No task is made, and a task enters the queue after a gain of at least `MIN_GAIN` since it was
      picked, if it was. */
  ghost predicate Worked(s: Sched, step: Step, turn: nat) {
    !step.Spawn? && (step.Enqueue? ==> step.tid in s.off && s.off[step.tid].budget + MIN_GAIN <= turn)
  }

  /** A task that is not picked never enters the queue earlier than it could before. */
  lemma PlaceRises(s: Sched, step: Step, s': Sched, turn: nat, t: nat)
    requires Inside(s, turn) && Next(s, step, s', turn) && Worked(s, step, turn) && MIN_GAIN <= turn && step != Pick(t)
    ensures t in s.queued && t in s'.queued ==> s'.queued[t] == s.queued[t]
    ensures t in s.queued && t in s'.off ==> s.queued[t] <= Earliest(s', turn, t)
    ensures t in s.off && t in s'.off ==> Earliest(s, turn, t) <= Earliest(s', turn, t)
    ensures t in s.off && t in s'.queued ==> Earliest(s, turn, t) <= s'.queued[t]
    ensures t !in s.queued && t !in s.off ==> t !in s'.queued && t !in s'.off
  {
    StepInside(s, step, s', turn);
  }

  /** A pick uses up one of the task's picks, and no other step gives any. */
  lemma PicksLeftStep(s: Sched, step: Step, s': Sched, turn: nat, w: nat, t: nat)
    requires Inside(s, turn) && Next(s, step, s', turn) && Worked(s, step, turn) && MIN_GAIN <= turn
    requires w in s.queued && w in s'.queued && s'.queued[w] == s.queued[w] && t != w
    ensures PicksLeft(s', turn, s.queued[w], t) + (if step == Pick(t) then 1 else 0) <= PicksLeft(s, turn, s.queued[w], t)
  {
    var v := s.queued[w];
    StepInside(s, step, s', turn);
    if step == Pick(t) {
      LeastIs(s.queued, t, w);
      TurnsBelowFalls(s.queued[t], Earliest(s', turn, t), v);
    } else {
      PlaceRises(s, step, s', turn, t);
      if t in s.off && t in s'.off {
        TurnsBelowFalls(Earliest(s, turn, t), Earliest(s', turn, t), v);
      } else if t in s.off && t in s'.queued {
        TurnsBelowFalls(Earliest(s, turn, t), s'.queued[t], v);
      } else if t in s.queued && t in s'.off {
        TurnsBelowFalls(s.queued[t], Earliest(s', turn, t), v);
      }
    }
  }

  /** The picks left to the first `n` tasks other than `w`. */
  function AllPicksLeft(s: Sched, turn: nat, v: nat, w: nat, tids: seq<nat>, n: nat): nat
    requires n <= |tids|
  {
    if n == 0 then 0
    else AllPicksLeft(s, turn, v, w, tids, n - 1) + if tids[n - 1] == w then 0 else PicksLeft(s, turn, v, tids[n - 1])
  }

  predicate PickOf(step: Step, tids: seq<nat>, n: nat)
    requires n <= |tids|
  {
    step.Pick? && step.tid in tids[..n]
  }

  lemma {:induction false} AllPicksLeftStep(s: Sched, step: Step, s': Sched, turn: nat, w: nat, tids: seq<nat>, n: nat)
    requires Inside(s, turn) && Next(s, step, s', turn) && Worked(s, step, turn) && MIN_GAIN <= turn
    requires w in s.queued && w in s'.queued && s'.queued[w] == s.queued[w] && n <= |tids| && Distinct(tids)
    ensures AllPicksLeft(s', turn, s.queued[w], w, tids, n) + (if PickOf(step, tids, n) then 1 else 0)
            <= AllPicksLeft(s, turn, s.queued[w], w, tids, n)
  {
    if n > 0 {
      AllPicksLeftStep(s, step, s', turn, w, tids, n - 1);
      if tids[n - 1] != w {
        PicksLeftStep(s, step, s', turn, w, tids[n - 1]);
      }
      assert tids[..n] == tids[..n - 1] + [tids[n - 1]];
      assert PickOf(step, tids, n) ==> PickOf(step, tids, n - 1) || step == Pick(tids[n - 1]);
      assert !(PickOf(step, tids, n - 1) && step == Pick(tids[n - 1]));
    }
  }

  lemma OneTimesMore(n: nat, bound: nat)
    ensures (n + 1) * bound == n * bound + bound
  {
  }

  lemma OwnBound(s: Sched, turn: nat, w: nat, t: nat, bound: nat)
    requires Inside(s, turn) && w in s.queued && bound == Window(turn) / 8652 + 1
    ensures PicksLeft(s, turn, s.queued[w], t) <= bound
  {
  }

  lemma {:induction false} AllPicksLeftBound(s: Sched, turn: nat, w: nat, tids: seq<nat>, n: nat, bound: nat)
    requires Inside(s, turn) && w in s.queued && n <= |tids| && bound == Window(turn) / 8652 + 1
    ensures AllPicksLeft(s, turn, s.queued[w], w, tids, n) <= (if w in tids[..n] then n - 1 else n) * bound
  {
    if n > 0 {
      AllPicksLeftBound(s, turn, w, tids, n - 1, bound);
      assert tids[..n] == tids[..n - 1] + [tids[n - 1]];
      OneTimesMore(n - 1, bound);
      if w in tids[..n - 1] {
        OneTimesMore(n - 2, bound);
      }
      OwnBound(s, turn, w, tids[n - 1], bound);
    }
  }

  /** All tasks are among `tids`. */
  ghost predicate Among(s: Sched, tids: seq<nat>) {
    (forall t :: t in s.queued ==> t in tids) && (forall t :: t in s.off ==> t in tids)
  }

  function CountPicks(steps: seq<Step>, i: nat, j: nat): nat
    requires i <= j <= |steps|
    decreases j
  {
    if i == j then 0 else CountPicks(steps, i, j - 1) + if steps[j - 1].Pick? then 1 else 0
  }

  ghost predicate WorkedAt(ss: seq<Sched>, steps: seq<Step>, turn: nat, w: nat, k: nat)
    requires k < |steps| && |ss| == |steps| + 1
  {
    Worked(ss[k], steps[k], turn) && w in ss[k].queued && w in ss[k + 1].queued
  }

  lemma {:induction false} PicksUsed(ss: seq<Sched>, steps: seq<Step>, turn: nat, w: nat, i: nat, j: nat, tids: seq<nat>)
    requires Run(ss, steps, turn) && MIN_GAIN <= turn && i <= j <= |steps| && w in ss[i].queued
    requires Distinct(tids) && Among(ss[i], tids) && forall k: nat :: i <= k < j ==> WorkedAt(ss, steps, turn, w, k)
    ensures w in ss[j].queued && ss[j].queued[w] == ss[i].queued[w] && Among(ss[j], tids)
    ensures AllPicksLeft(ss[j], turn, ss[i].queued[w], w, tids, |tids|) + CountPicks(steps, i, j)
            <= AllPicksLeft(ss[i], turn, ss[i].queued[w], w, tids, |tids|)
    decreases j
  {
    if i < j {
      PicksUsed(ss, steps, turn, w, i, j - 1, tids);
      var s, step, s' := ss[j - 1], steps[j - 1], ss[j];
      assert WorkedAt(ss, steps, turn, w, j - 1) && StepAt(ss, steps, turn, j - 1);
      RunInside(ss, steps, turn, j - 1);
      AllPicksLeftStep(s, step, s', turn, w, tids, |tids|);
      assert tids[..|tids|] == tids;
    }
  }

  /** Bounded waiting in every interleaving: with any number of tasks off the queue at once, in any
      stretch of a run in which no task is made and every task that is picked gains at least d before it
      is queued again, a task that waits all through sees at most (N - 1) * (W / d + 1) picks. */
  lemma WaitBoundedByPicks(ss: seq<Sched>, steps: seq<Step>, turn: nat, w: nat, i: nat, j: nat, tids: seq<nat>)
    requires Run(ss, steps, turn) && MIN_GAIN <= turn && i <= j <= |steps| && w in ss[i].queued
    requires Distinct(tids) && Among(ss[i], tids) && forall k: nat :: i <= k < j ==> WorkedAt(ss, steps, turn, w, k)
    ensures CountPicks(steps, i, j) <= (|tids| - 1) * (Window(turn) / MIN_GAIN + 1)
  {
    PicksUsed(ss, steps, turn, w, i, j, tids);
    RunInside(ss, steps, turn, i);
    assert tids[..|tids|] == tids;
    AllPicksLeftBound(ss[i], turn, w, tids, |tids|, Window(turn) / 8652 + 1);
  }
}
