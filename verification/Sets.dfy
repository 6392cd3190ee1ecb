/** Facts about finite sets. */
module Sets {

  lemma {:induction false} SubsetSize<T>(a: set<T>, b: set<T>)
    requires a <= b
    ensures |a| <= |b| && (|a| == |b| ==> a == b)
  {
    if a != {} {
      var x :| x in a;
      SubsetSize(a - {x}, b - {x});
    }
  }

  lemma {:induction false} Highest<T>(all: set<T>, key: T -> nat) returns (m: T)
    requires all != {}
    ensures m in all && forall x | x in all :: key(x) <= key(m)
    decreases all
  {
    m :| m in all;
    if all != {m} {
      assert all == (all - {m}) + {m};
      var h := Highest(all - {m}, key);
      if key(m) < key(h) {
        m := h;
      }
    }
  }
}
