/** Finite sets of integers: elements, sizes and least free numbers. */
module Sets {
  import opened Wrappers

  lemma NonEmpty(s: set<int>)
    ensures s == {} || exists x :: x in s
  {
    if !(exists x :: x in s) {
      assert forall x :: x in s <==> x in {};
    }
  }

  lemma {:induction false} SubsetSize(a: set<int>, b: set<int>)
    requires a <= b
    ensures |a| <= |b| && (|a| == |b| ==> a == b)
    decreases |a|
  {
    if a != {} {
      NonEmpty(a);
      var x :| x in a;
      SubsetSize(a - {x}, b - {x});
      assert a == (a - {x}) + {x} && b == (b - {x}) + {x};
    }
  }

  lemma {:induction false} Min(s: set<int>) returns (m: int)
    requires s != {}
    ensures m in s && forall i | i in s :: m <= i
    decreases |s|
  {
    NonEmpty(s);
    var x :| x in s;
    var rest := s - {x};
    if rest == {} {
      m := x;
    } else {
      var n := Min(rest);
      m := if x < n then x else n;
    }
    forall i | i in s ensures m <= i {
      assert i == x || i in rest;
    }
  }

  lemma MinExists(s: set<int>)
    requires s != {}
    ensures exists m :: m in s && forall i | i in s :: m <= i
  {
    var m := Min(s);
  }

  function Free(used: set<int>, high: int): (r: set<int>)
    ensures forall i :: i in r <==> 1 <= i <= high && i !in used
  {
    set i | 1 <= i <= high && i !in used
  }

  /** The least number of 1 to high not in use. */
  ghost function FirstFree(used: set<int>, high: int): (r: Option<int>)
    ensures r.None? <==> forall i | 1 <= i <= high :: i in used
    ensures r.Some? ==> 1 <= r.value <= high && r.value !in used && forall i | 1 <= i < r.value :: i in used
  {
    var free := Free(used, high);
    assert (forall i | 1 <= i <= high :: i in used) <==> free == {} by { if free != {} { NonEmpty(free); } }
    if free == {} then None
    else
      assert exists m :: m in free && forall i | i in free :: m <= i by { MinExists(free); }
      var m :| m in free && forall i | i in free :: m <= i;
      Some(m)
  }

  method SearchFree(used: set<int>, high: nat) returns (r: Option<int>)
    ensures r == FirstFree(used, high)
  {
    for i := 1 to high + 1
      invariant forall j | 1 <= j < i :: j in used
    {
      if i !in used {
        return Some(i);
      }
    }
    return None;
  }

  lemma {:induction false} RangeSize(n: nat)
    ensures |Free({}, n)| == n
  {
    if n == 0 {
      assert Free({}, 0) == {};
    } else {
      RangeSize(n - 1);
      assert Free({}, n) == Free({}, n - 1) + {n};
    }
  }
}
