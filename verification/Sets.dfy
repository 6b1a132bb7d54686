/** Finite integer ranges and their sizes. */
module Sets {
  predicate Between(lo: nat, x: nat, hi: nat) {
    lo <= x < hi
  }

  function Range(lo: nat, hi: nat): (r: set<nat>)
    requires lo <= hi
    ensures forall x: nat :: x in r <==> lo <= x < hi
    ensures |r| == hi - lo
  {
    RangeSize(lo, hi);
    set x: nat | lo <= x < hi && Between(lo, x, hi)
  }

  lemma {:induction false} RangeSize(lo: nat, hi: nat)
    requires lo <= hi
    ensures |set x: nat | lo <= x < hi && Between(lo, x, hi)| == hi - lo
    decreases hi - lo
  {
    var r := set x: nat | lo <= x < hi && Between(lo, x, hi);
    if lo < hi {
      var next: nat := lo + 1;
      RangeSize(next, hi);
      assert r == {lo} + set x: nat | next <= x < hi && Between(next, x, hi);
    }
  }

  lemma SubsetSize<T>(a: set<T>, b: set<T>)
    requires a <= b
    ensures |a| <= |b|
    ensures |a| == |b| ==> a == b
  {
    assert b == a + (b - a);
  }
}
