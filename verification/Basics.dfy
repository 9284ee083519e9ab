/** Types, sets and lists shared by the models. */
module Basics {
  datatype Option<+T> = None | Some(value: T)

  type U16 = x: nat | x < 0x1_0000

  /** The numbers from `lo` up to but not including `hi`. */
  function Range(lo: nat, hi: nat): (r: set<nat>)
    ensures forall v: nat :: v in r <==> lo <= v < hi
    decreases hi
  {
    if lo >= hi then {} else Range(lo, hi - 1) + {hi - 1}
  }

  lemma {:induction false} RangeSize(lo: nat, hi: nat)
    requires lo <= hi
    ensures |Range(lo, hi)| == hi - lo
    decreases hi
  {
    if lo < hi {
      RangeSize(lo, hi - 1);
    }
  }

  /** No element occurs twice. */
  ghost predicate Distinct<T>(s: seq<T>) {
    forall i, j :: 0 <= i < j < |s| ==> s[i] != s[j]
  }

  lemma SubsetSize<T>(a: set<T>, b: set<T>)
    requires a <= b
    ensures |a| <= |b| && (|a| == |b| <==> a == b)
  {
    assert b == a + (b - a);
    assert |b| == |a| + |b - a|;
  }
}
