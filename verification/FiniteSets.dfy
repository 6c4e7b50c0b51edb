/** Facts about finite sets that several components count with. */
module FiniteSets {

  lemma {:induction false} SubsetSize<T>(a: set<T>, b: set<T>)
    requires a <= b
    ensures |a| <= |b|
    ensures |a| == |b| ==> a == b
    decreases b
  {
    if a == {} {
    } else {
      var x :| x in a;
      SubsetSize(a - {x}, b - {x});
      assert a == (a - {x}) + {x} && b == (b - {x}) + {x};
    }
  }

  /** The integers from `lo` to `hi`, both included. */
  ghost function Interval(lo: int, hi: int): (r: set<int>)
    ensures forall x :: x in r <==> lo <= x <= hi
    decreases hi - lo
  {
    if lo > hi then {} else Interval(lo, hi - 1) + {hi}
  }

  lemma {:induction false} IntervalSize(lo: int, hi: int)
    ensures |Interval(lo, hi)| == if lo <= hi then hi - lo + 1 else 0
    decreases hi - lo
  {
    if lo <= hi {
      IntervalSize(lo, hi - 1);
    }
  }

  lemma SizeOfRange(s: set<int>, lo: int, hi: int)
    requires lo <= hi && forall x :: x in s <==> lo <= x <= hi
    ensures |s| == hi - lo + 1
  {
    IntervalSize(lo, hi);
    assert s == Interval(lo, hi);
  }
}
