/** Sizes of finite sets. */
module Sets {

  lemma {:induction false} SubsetSize<T>(a: set<T>, b: set<T>)
    requires a <= b
    ensures |a| <= |b|
  {
    if a != {} {
      var x :| x in a;
      SubsetSize(a - {x}, b - {x});
    }
  }

  /** The numbers lo, …, hi - 1. */
  function Range(lo: nat, hi: nat): (r: set<nat>)
    ensures forall n: nat :: n in r <==> lo <= n < hi
    decreases hi
  {
    if lo >= hi then {} else Range(lo, hi - 1) + {hi - 1}
  }

  lemma {:induction false} RangeSize(lo: nat, hi: nat)
    requires lo <= hi
    ensures |Range(lo, hi)| == hi - lo
    decreases hi
  {
    if lo < hi {
      RangeSize(lo, hi - 1);
    }
  }

  /** A set that holds all of lo, …, hi - 1 is at least that large. */
  lemma HoldsRange(lo: nat, hi: nat, s: set<nat>)
    requires forall n: nat | lo <= n < hi :: n in s
    ensures hi - lo <= |s|
  {
    if lo <= hi {
      RangeSize(lo, hi);
      SubsetSize(Range(lo, hi), s);
    }
  }
}
