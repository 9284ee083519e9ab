/** The fixed-point arithmetic of the fair scheduler: how much virtual runtime a task gains. */
module CfsRuntime {
  const SCHED_LATENCY_NS: nat := 6_000_000
  const MIN_GRANULARITY_NS: nat := 750_000
  const NICE_0_WEIGHT: nat := 1024

  const NICE_TO_WEIGHT: seq<nat> := [
    88761, 71755, 56483, 46273, 36291, 29154, 23254, 18705, 14949, 11916,
    9548, 7620, 6100, 4904, 3906, 3121, 2501, 1991, 1586, 1277,
    1024, 820, 655, 526, 423, 335, 272, 215, 172, 137,
    110, 87, 70, 56, 45, 36, 29, 23, 18, 15]

  const NICE_TO_INV_WEIGHT: seq<nat> := [
    48388, 59856, 76040, 92818, 118348, 147320, 184698, 229616, 287308, 360437,
    449829, 563644, 704093, 875809, 1099582, 1376151, 1717300, 2157191, 2708050, 3363326,
    4194304, 5237765, 6557202, 8165337, 10153587, 12820798, 15790321, 19976592, 24970740, 31350126,
    39045157, 49367440, 61356676, 76695844, 95443717, 119304647, 148102320, 186737708, 238609294, 286331153]

  function Clamp(nice: int): int {
    if nice < -20 then -20 else if nice > 19 then 19 else nice
  }

  /** Past either end of the range the value at that end counts. */
  function NiceToWeight(nice: int): (r: nat)
    ensures (nice <= -20 ==> r == 88761) && (nice >= 19 ==> r == 15)
    ensures -20 <= nice <= 19 ==> r == NICE_TO_WEIGHT[nice + 20]
  {
    NICE_TO_WEIGHT[Clamp(nice) + 20]
  }

  function InvWeight(nice: int): nat
    requires -20 <= nice <= 19
  {
    NICE_TO_INV_WEIGHT[nice + 20]
  }

  /** `calc_delta_vruntime`, with the product cut to 64 bits. */
  function CalcDelta(nice: int, weight: nat, delta: nat): nat
    requires -20 <= nice <= 19
  {
    if weight == 1024 then delta
    else delta * InvWeight(nice) % 0x1_0000_0000_0000_0000 / 4194304
  }

  /** The product of runtime and inverse weight fits 64 bits. */
  predicate Fits(nice: int, delta: nat)
    requires -20 <= nice <= 19
  {
    delta * InvWeight(nice) < 0x1_0000_0000_0000_0000
  }

  /** `inv` is 2^32 divided by `weight`, up to less than one. */
  predicate IsInverse(weight: nat, inv: nat) {
    weight * inv < 0x1_0000_0000 + weight && 0x1_0000_0000 < weight * inv + weight
  }

  lemma InverseLow(k: nat)
    requires k < 20
    ensures IsInverse(NICE_TO_WEIGHT[k], NICE_TO_INV_WEIGHT[k])
  {
    if k < 10 {
      if k < 5 {
      } else {
      }
    } else if k < 15 {
    } else {
    }
  }

  lemma InverseHigh(k: nat)
    requires 20 <= k < 40
    ensures IsInverse(NICE_TO_WEIGHT[k], NICE_TO_INV_WEIGHT[k])
  {
    if k < 30 {
      if k < 25 {
      } else {
      }
    } else if k < 35 {
    } else {
    }
  }

  lemma Inverse(nice: int)
    requires -20 <= nice <= 19
    ensures IsInverse(NiceToWeight(nice), InvWeight(nice))
  {
    if nice < 0 {
      InverseLow(nice + 20);
    } else {
      InverseHigh(nice + 20);
    }
  }

  lemma WeightStep(k: nat)
    requires k < 39
    ensures NICE_TO_WEIGHT[k] > NICE_TO_WEIGHT[k + 1]
  {
  }

  lemma InverseStep(k: nat)
    requires k < 39
    ensures NICE_TO_INV_WEIGHT[k] < NICE_TO_INV_WEIGHT[k + 1]
  {
  }

  ghost predicate Rising(s: seq<nat>) {
    forall j: nat {:trigger s[j]} :: j + 1 < |s| ==> s[j] < s[j + 1]
  }

  ghost predicate Falling(s: seq<nat>) {
    forall j: nat {:trigger s[j]} :: j + 1 < |s| ==> s[j] > s[j + 1]
  }

  lemma {:induction false} Order(s: seq<nat>, k: nat, l: nat)
    requires k < l < |s|
    ensures Rising(s) ==> s[k] < s[l]
    ensures Falling(s) ==> s[k] > s[l]
    decreases l
  {
    if k < l - 1 {
      Order(s, k, l - 1);
    }
    assert s[l - 1] == s[l - 1];
  }

  /** A nicer task weighs less and gains more. */
  lemma TablesOrdered(k: nat, l: nat)
    requires k < l < 40
    ensures NICE_TO_WEIGHT[k] > NICE_TO_WEIGHT[l] && NICE_TO_INV_WEIGHT[k] < NICE_TO_INV_WEIGHT[l]
  {
    TablesMonotone();
    Order(NICE_TO_WEIGHT, k, l);
    Order(NICE_TO_INV_WEIGHT, k, l);
  }

  lemma TablesMonotone()
    ensures Falling(NICE_TO_WEIGHT) && Rising(NICE_TO_INV_WEIGHT)
  {
    forall j: nat | j + 1 < 40
      ensures NICE_TO_WEIGHT[j] > NICE_TO_WEIGHT[j + 1] && NICE_TO_INV_WEIGHT[j] < NICE_TO_INV_WEIGHT[j + 1]
    {
      WeightStep(j);
      InverseStep(j);
    }
  }

  // ---------------------------------------------------------------- what a task gains

  lemma DivMonotone(a: nat, b: nat)
    requires a <= b
    ensures a / 4194304 <= b / 4194304
  {
  }

  lemma MulMonotone(a: nat, b: nat, c: nat, d: nat)
    requires a <= b && c <= d
    ensures a * c <= b * d
  {
    calc {
      a * c;
    <= b * c;
    <= b * d;
    }
  }

  lemma SmallMod(a: nat)
    requires a < 0x1_0000_0000_0000_0000
    ensures a % 0x1_0000_0000_0000_0000 == a
  {
  }

  /** Without overflow the gain is the product divided by 2^22, rounded down. */
  lemma DeltaIs(nice: int, delta: nat)
    requires -20 <= nice <= 19 && Fits(nice, delta)
    ensures CalcDelta(nice, NiceToWeight(nice), delta) == delta * InvWeight(nice) / 4194304
  {
    SmallMod(delta * InvWeight(nice));
    OnlyZero(nice);
  }

  lemma OnlyZero(nice: int)
    requires -20 <= nice <= 19
    ensures NiceToWeight(nice) == 1024 <==> nice == 0
  {
    if nice < 0 {
      TablesOrdered(nice + 20, 20);
    } else if nice > 0 {
      TablesOrdered(20, nice + 20);
    }
  }

  /** A turn of at least the minimum granularity gains at least this much, even at nice -20. */
  const MIN_GAIN: nat := 8652

  lemma GainAtLeast(nice: int, delta: nat)
    requires -20 <= nice <= 19 && Fits(nice, delta) && delta >= MIN_GRANULARITY_NS
    ensures CalcDelta(nice, NiceToWeight(nice), delta) >= MIN_GAIN
    ensures nice == -20 && delta == MIN_GRANULARITY_NS ==> CalcDelta(nice, NiceToWeight(nice), delta) == MIN_GAIN
  {
    DeltaIs(nice, delta);
    if nice > -20 {
      TablesOrdered(0, nice + 20);
    }
    MulMonotone(750000, delta, 48388, InvWeight(nice));
    DivMonotone(750000 * 48388, delta * InvWeight(nice));
  }

  /** What a turn of at most `limit` nanoseconds can gain. */
  function MaxGain(limit: nat): nat {
    limit * 286331153 / 4194304
  }

  lemma GainAtMost(nice: int, delta: nat, limit: nat)
    requires -20 <= nice <= 19 && Fits(nice, delta) && delta <= limit
    ensures CalcDelta(nice, NiceToWeight(nice), delta) <= MaxGain(limit)
    ensures nice == 19 && delta == limit ==> CalcDelta(nice, NiceToWeight(nice), delta) == MaxGain(limit)
  {
    DeltaIs(nice, delta);
    if nice < 19 {
      TablesOrdered(nice + 20, 39);
    }
    MulMonotone(delta, limit, InvWeight(nice), 286331153);
    DivMonotone(delta * InvWeight(nice), limit * 286331153);
  }

  /** Weighted fairness: for the same runtime a nicer task never gains less. */
  lemma GainOrdered(m: int, n: int, delta: nat)
    requires -20 <= m <= n <= 19 && Fits(n, delta)
    ensures Fits(m, delta) && CalcDelta(m, NiceToWeight(m), delta) <= CalcDelta(n, NiceToWeight(n), delta)
  {
    if m < n {
      TablesOrdered(m + 20, n + 20);
    }
    MulMonotone(delta, delta, InvWeight(m), InvWeight(n));
    DeltaIs(m, delta);
    DeltaIs(n, delta);
    DivMonotone(delta * InvWeight(m), delta * InvWeight(n));
  }

  /** `g` is delta * 1024 / weight, up to one and the rounding of the table: the exact value times
      weight * 2^22 is delta * 2^32. */
  predicate Accurate(weight: nat, delta: nat, g: nat) {
    && weight * g * 4194304 <= delta * (0x1_0000_0000 + weight)
    && delta * (0x1_0000_0000 - weight) <= weight * (g + 1) * 4194304
  }

  lemma GainAccurate(nice: int, delta: nat)
    requires -20 <= nice <= 19 && Fits(nice, delta)
    ensures Accurate(NiceToWeight(nice), delta, CalcDelta(nice, NiceToWeight(nice), delta))
  {
    DeltaIs(nice, delta);
    Inverse(nice);
    Scale(NiceToWeight(nice), InvWeight(nice), delta);
  }

  lemma DivBounds(x: nat)
    ensures x / 4194304 * 4194304 <= x <= (x / 4194304 + 1) * 4194304
  {
  }

  lemma Scale(w: nat, i: nat, delta: nat)
    requires IsInverse(w, i)
    ensures Accurate(w, delta, delta * i / 4194304)
  {
    var g := delta * i / 4194304;
    DivBounds(delta * i);
    ScaleUp(w, i, delta, g);
    ScaleDown(w, i, delta, g);
  }

  lemma ScaleUp(w: nat, i: nat, delta: nat, g: nat)
    requires g * 4194304 <= delta * i && IsInverse(w, i)
    ensures w * g * 4194304 <= delta * (0x1_0000_0000 + w)
  {
    calc {
      w * g * 4194304;
    == w * (g * 4194304);
    <= { MulMonotone(w, w, g * 4194304, delta * i); }
       w * (delta * i);
    == delta * (w * i);
    <= { MulMonotone(delta, delta, w * i, 0x1_0000_0000 + w); }
       delta * (0x1_0000_0000 + w);
    }
  }

  lemma ScaleDown(w: nat, i: nat, delta: nat, g: nat)
    requires delta * i <= (g + 1) * 4194304 && IsInverse(w, i)
    ensures delta * (0x1_0000_0000 - w) <= w * (g + 1) * 4194304
  {
    calc {
      w * (g + 1) * 4194304;
    == w * ((g + 1) * 4194304);
    >= { MulMonotone(w, w, delta * i, (g + 1) * 4194304); }
       w * (delta * i);
    == delta * (w * i);
    }
    if w <= 0x1_0000_0000 {
      MulMonotone(delta, delta, 0x1_0000_0000 - w, w * i);
    } else {
      assert delta * (0x1_0000_0000 - w) <= 0;
    }
  }
}
