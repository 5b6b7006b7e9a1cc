/** Sizes of finite sets. */
module Sets {

  lemma {:induction false} SubsetSize<T>(a: set<T>, b: set<T>)
    requires a <= b
    ensures |a| <= |b|
  {
    if a != {} {
      var x :| x in a;
      SubsetSize(a - {x}, b - {x});
    }
  }

  lemma MeetStep<T>(s: set<T>, a: set<T>, x: T)
    requires x !in a
    ensures |s * (a + {x})| == |s * a| + if x in s then 1 else 0
  {
    var p := s * a;
    if x in s {
      assert s * (a + {x}) == p + {x};
    } else {
      assert s * (a + {x}) == p;
    }
  }
}
