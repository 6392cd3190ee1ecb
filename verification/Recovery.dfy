/** The node set of one service as two sets of indices, and the moves that a run makes on
    them: a marked index disappears, or a node pass grows or marks. */
module Recovery {
  import opened Sets

  datatype Config = Config(all: set<nat>, marked: set<nat>)

  datatype Move = Delete(i: nat) | Pass

  ghost function Low(r: nat): (s: set<nat>)
    ensures |s| == r && forall i: nat :: i in s <==> i < r
  {
    if r == 0 then {} else Low(r - 1) + {r - 1}
  }

  ghost function Lower(all: set<nat>, i: nat): set<nat> {
    set j | j in all && j < i
  }

  /** All but the `r` lowest. */
  ghost function Top(all: set<nat>, r: nat): set<nat> {
    set i | i in all && |Lower(all, i)| >= r
  }

  ghost predicate Valid(c: Config) {
    c.marked <= c.all
  }

  ghost function Unmarked(c: Config): set<nat> {
    c.all - c.marked
  }

  ghost function Moved(c: Config, move: Move, r: nat): Config {
    match move
    case Delete(i) => if i in c.marked then Config(c.all - {i}, c.marked - {i}) else c
    case Pass =>
      if |c.all| < r then Config(c.all + Low(r), c.marked)
      else if |c.all| > r then Config(c.all, c.marked + Top(c.all, r))
      else c
  }

  /** From here a fair run ends at the indices below R, however its steps are ordered:
      nothing unmarked is too high; or nothing low is marked, and fewer than R indices are
      unmarked or all low ones are there; or R - 1 are unmarked, and no pass can mark one
      of several high ones while a low one is still marked. */
  ghost predicate Recovers(c: Config, r: nat) {
    var kept := Unmarked(c);
    || kept <= Low(r)
    || (c.marked !! Low(r) && (|kept| < r || Low(r) <= c.all))
    || (|kept| + 1 == r && (|kept - Low(r)| <= 1 || !Exposed(c, r)))
  }

  /** A marked low index, another marked index, and an unmarked high one above it. */
  ghost predicate Exposed(c: Config, r: nat) {
    exists x, w, y :: x in c.marked && x < r && w in c.marked && w != x && y in Unmarked(c) && r <= y && w < y
  }

  /** What has to go: indices that are marked or too high. */
  ghost function Bad(c: Config, r: nat): set<nat> {
    set i | i in c.all && (r <= i || i in c.marked)
  }

  /* ---- the highest indices ---- */

  lemma TopIsHigh(all: set<nat>, r: nat, i: nat)
    requires i in Top(all, r)
    ensures r <= i
  {
    SubsetSize(Lower(all, i), Low(i));
  }

  lemma {:induction false} TopSize(all: set<nat>, r: nat)
    requires r <= |all|
    ensures |Top(all, r)| == |all| - r
    decreases |all|
  {
    if |all| == r {
      forall i | i in all ensures i !in Top(all, r) {
        SubsetSize(Lower(all, i), all - {i});
      }
      assert Top(all, r) == {};
    } else {
      var m := Highest(all, (i: nat) => i);
      var rest := all - {m};
      assert Lower(all, m) == rest;
      assert forall i | i in rest :: Lower(all, i) == Lower(rest, i);
      TopSize(rest, r);
      assert Top(all, r) == Top(rest, r) + {m};
    }
  }

  /** A set of the right size whose members are above all others is the top. */
  lemma TopUnique(all: set<nat>, r: nat, v: set<nat>)
    requires v <= all && |v| + r == |all| && forall i, j | i in v && j in all - v :: j < i
    ensures v == Top(all, r)
  {
    TopSize(all, r);
    assert |all - v| == r by { assert (all - v) + v == all; }
    forall i | i in v ensures i in Top(all, r) {
      SubsetSize(all - v, Lower(all, i));
    }
    SubsetSize(v, Top(all, r));
  }

  /* ---- moves keep the condition ---- */

  lemma MoveShrinksBad(c: Config, move: Move, r: nat)
    requires Valid(c)
    ensures Valid(Moved(c, move, r)) && Bad(Moved(c, move, r), r) <= Bad(c, r)
  {
    hide Top;
    forall i | i in Top(c.all, r) ensures i in c.all && r <= i {
      InTop(c.all, r, i);
    }
  }

  lemma InTop(all: set<nat>, r: nat, i: nat)
    requires i in Top(all, r)
    ensures i in all && r <= i
  {
    TopIsHigh(all, r, i);
  }

  lemma DeleteKeepsRecovers(c: Config, i: nat, r: nat)
    requires Valid(c) && Recovers(c, r)
    ensures Recovers(Moved(c, Delete(i), r), r)
  {
    var c' := Moved(c, Delete(i), r);
    assert Unmarked(c') == Unmarked(c);
    if Exposed(c', r) {
      var x, w, y :| x in c'.marked && x < r && w in c'.marked && w != x && y in Unmarked(c') && r <= y && w < y;
      assert Exposed(c, r);
    }
  }

  lemma GrowKeepsRecovers(c: Config, r: nat)
    requires Valid(c) && Recovers(c, r) && |c.all| < r
    ensures Recovers(Moved(c, Pass, r), r)
  {
    hide Exposed;
    Sizes(c);
    assert |c.marked| == 0 ==> c.marked == {};
    assert Unmarked(c) <= Low(r) || c.marked !! Low(r);
  }

  lemma Sizes(c: Config)
    requires Valid(c)
    ensures |c.all| == |Unmarked(c)| + |c.marked|
  {
    assert c.marked + Unmarked(c) == c.all;
  }

  lemma MarkKeepsEasy(c: Config, r: nat)
    requires Valid(c) && |c.all| > r
    requires Unmarked(c) <= Low(r) || (c.marked !! Low(r) && (|Unmarked(c)| < r || Low(r) <= c.all))
    ensures Recovers(Moved(c, Pass, r), r)
  {
    hide Top, Exposed, Low;
    var top := Top(c.all, r);
    assert top !! Low(r) by { TopAllHigh(c.all, r); }
    assert Unmarked(Moved(c, Pass, r)) == Unmarked(c) - top;
    SubsetSize(Unmarked(c) - top, Unmarked(c));
  }

  lemma TopAllHigh(all: set<nat>, r: nat)
    ensures Top(all, r) <= all && Top(all, r) !! Low(r)
  {
    hide Top;
    forall i | i in Top(all, r) ensures i in all && r <= i {
      InTop(all, r, i);
    }
  }

  /** One unmarked high index: a pass marks it, or nothing new. */
  lemma MarkKeepsOneHigh(c: Config, r: nat)
    requires Valid(c) && |c.all| > r && |Unmarked(c)| + 1 == r && |Unmarked(c) - Low(r)| <= 1
    ensures Recovers(Moved(c, Pass, r), r)
  {
    hide Top, Exposed, Low;
    var top, kept := Top(c.all, r), Unmarked(c);
    TopAllHigh(c.all, r);
    if top !! kept {
      assert Moved(c, Pass, r).marked == c.marked;
    } else {
      var h :| h in top && h in kept;
      forall i | i in kept - top ensures i in Low(r) {
        if i !in Low(r) {
          SubsetSize({h, i}, kept - Low(r));
        }
      }
      assert Unmarked(Moved(c, Pass, r)) == kept - top;
    }
  }

  lemma MarkKeepsRecovers(c: Config, r: nat)
    requires Valid(c) && Recovers(c, r) && |c.all| > r
    ensures Recovers(Moved(c, Pass, r), r)
  {
    hide Top, Exposed, Low;
    var kept := Unmarked(c);
    if kept <= Low(r) || (c.marked !! Low(r) && (|kept| < r || Low(r) <= c.all)) {
      MarkKeepsEasy(c, r);
    } else if |kept - Low(r)| <= 1 {
      MarkKeepsOneHigh(c, r);
    } else {
      TopAllMarked(c, r);
      assert Moved(c, Pass, r).marked == c.marked;
    }
  }

  /** The third case: what a pass would mark is marked already. */
  lemma TopAllMarked(c: Config, r: nat)
    requires Valid(c) && |Unmarked(c)| + 1 == r && |c.all| > r && !Exposed(c, r)
    requires !(c.marked !! Low(r)) && !(Unmarked(c) <= Low(r))
    ensures Top(c.all, r) <= c.marked
  {
    hide Top;
    var x :| x in c.marked && x in Low(r);
    var y :| y in Unmarked(c) && r <= y;
    var v := c.marked - {x};
    Sizes(c);
    forall i, j | i in v && j in c.all - v ensures j < i {
      NotExposed(c, r, x, i, y);
      if j in Unmarked(c) && r <= j {
        NotExposed(c, r, x, i, j);
      }
    }
    TopUnique(c.all, r, v);
  }

  lemma NotExposed(c: Config, r: nat, x: nat, w: nat, y: nat)
    requires !Exposed(c, r) && x in c.marked && x < r && w in c.marked && w != x && y in Unmarked(c) && r <= y
    ensures y < w
  {
  }

  /** The condition survives every move. */
  lemma MoveKeepsRecovers(c: Config, move: Move, r: nat)
    requires Valid(c) && Recovers(c, r)
    ensures Recovers(Moved(c, move, r), r)
  {
    hide Recovers, Moved;
    match move
    case Delete(i) => DeleteKeepsRecovers(c, i, r);
    case Pass =>
      if |c.all| < r {
        GrowKeepsRecovers(c, r);
      } else if |c.all| > r {
        MarkKeepsRecovers(c, r);
      } else {
        PassIdle(c, r);
      }
  }

  lemma PassIdle(c: Config, r: nat)
    requires |c.all| == r
    ensures Moved(c, Pass, r) == c
  {
  }

  /* ---- progress ---- */

  /** All low indices exist and none of them is marked. */
  ghost predicate Secured(c: Config, r: nat) {
    Low(r) <= c.all && c.marked !! Low(r)
  }

  lemma MoveKeepsSecured(c: Config, move: Move, r: nat)
    requires Secured(c, r)
    ensures Secured(Moved(c, move, r), r)
  {
    hide Top;
    forall i | i in Top(c.all, r) ensures r <= i {
      InTop(c.all, r, i);
    }
  }

  /** Without marks a pass marks something or secures the low indices, and the next one
      marks something. */
  lemma PassProgress(c: Config, r: nat)
    requires Valid(c) && Recovers(c, r) && c.marked == {} && Bad(c, r) != {}
    ensures Moved(c, Pass, r).marked != {} || Secured(Moved(c, Pass, r), r)
    ensures Secured(c, r) ==> Moved(c, Pass, r).marked != {}
  {
    hide Top, Exposed;
    var b :| b in Bad(c, r);
    if |c.all| >= r {
      assert Unmarked(c) == c.all;
      assert Low(r) <= c.all;
      SubsetSize(Low(r) + {b}, c.all);
      TopSize(c.all, r);
      assert Top(c.all, r) != {};
    } else if Secured(c, r) {
      SubsetSize(Low(r), c.all);
    }
  }

  /** With nothing bad left a pass completes the low indices, and nothing moves any more. */
  lemma PassCompletes(c: Config, r: nat)
    requires Valid(c) && Bad(c, r) == {}
    ensures Moved(c, Pass, r) == Config(Low(r), {})
    ensures forall move :: Moved(Config(Low(r), {}), move, r) == Config(Low(r), {})
  {
    assert c.marked == {} by {
      assert forall i | i in c.marked :: i in Bad(c, r);
    }
    assert c.all <= Low(r) by {
      assert forall i | i in c.all :: i in Bad(c, r) || i < r;
    }
    SubsetSize(c.all, Low(r));
  }

  /* ---- the other way: how the rest can be lost ---- */

  /** Nothing is marked and a low index is missing, but there are R or more. */
  ghost predicate Lost(c: Config, r: nat) {
    c.marked == {} && |c.all| >= r && !(Low(r) <= c.all)
  }

  /** With R unmarked indices, or without a marked low one, deleting is enough. */
  lemma LostByDeleting(c: Config, r: nat)
    requires Valid(c) && !Recovers(c, r) && (c.marked !! Low(r) || |Unmarked(c)| >= r)
    ensures Lost(Config(Unmarked(c), {}), r)
  {
    hide Exposed, Low;
  }

  /** Otherwise a low index is marked and there is a high one that is not. */
  lemma LowMarked(c: Config, r: nat) returns (x: nat, y: nat)
    requires Valid(c) && !Recovers(c, r) && !(c.marked !! Low(r))
    ensures x in c.marked && x < r && y in Unmarked(c) && r <= y
  {
    hide Exposed;
    x :| x in c.marked && x in Low(r);
    y :| y in Unmarked(c) && y !in Low(r);
  }

  lemma ExposedMarks(c: Config, r: nat) returns (x: nat, w: nat, y: nat)
    requires !Recovers(c, r) && |Unmarked(c)| + 1 == r
    ensures |Unmarked(c) - Low(r)| >= 2
    ensures x in c.marked && x < r && w in c.marked && w != x && y in Unmarked(c) && r <= y && w < y
  {
    hide Unmarked, Low;
    x, w, y :| x in c.marked && x < r && w in c.marked && w != x && y in Unmarked(c) && r <= y && w < y;
  }

  /** With fewer than R - 1 unmarked: grow while the low index is there, then delete it. */
  lemma LostByGrowing(c: Config, r: nat, x: nat, y: nat)
    requires Valid(c) && |Unmarked(c)| + 1 < r && x in c.marked && x < r && y in Unmarked(c) && r <= y
    ensures var grown := Moved(Config(Unmarked(c) + {x}, {x}), Pass, r);
      x in grown.all && grown.marked == {x} && Lost(Config(grown.all - {x}, {}), r)
  {
    hide Top;
    var grown := Moved(Config(Unmarked(c) + {x}, {x}), Pass, r);
    var rest := grown.all - {x};
    assert |Low(r) - {x}| == r - 1 by { assert (Low(r) - {x}) + {x} == Low(r); }
    SubsetSize((Low(r) - {x}) + {y}, rest);
  }

  /** With R - 1 unmarked: delete down to R + 1 and let a pass mark the highest. */
  lemma OneMoreMarked(c: Config, r: nat, x: nat, w: nat, y: nat)
    requires Valid(c) && |Unmarked(c)| + 1 == r && |Unmarked(c) - Low(r)| >= 2
    requires x in c.marked && x < r && w in c.marked && w != x && y in Unmarked(c) && r <= y && w < y
    ensures var c' := Moved(Config(Unmarked(c) + {x, w}, {x, w}), Pass, r);
      && Valid(c') && x in c'.marked && |Unmarked(c')| + 1 < r && exists z :: z in Unmarked(c') && r <= z
  {
    hide Top, Moved;
    var kept := Unmarked(c);
    var all := kept + {x, w};
    assert |all| == r + 1;
    var m := Highest(all, (i: nat) => i);
    assert m in kept && r <= m;
    TopIsHighest(all, r, m);
    var c' := Moved(Config(all, {x, w}), Pass, r);
    assert c' == Config(all, {x, w} + {m}) by { PassMarksTop(Config(all, {x, w}), r); }
    assert Unmarked(c') == kept - {m};
    SecondHigh(kept, r, m);
  }

  lemma PassMarksTop(c: Config, r: nat)
    requires |c.all| > r
    ensures Moved(c, Pass, r) == Config(c.all, c.marked + Top(c.all, r))
  {
  }

  lemma TopIsHighest(all: set<nat>, r: nat, m: nat)
    requires |all| == r + 1 && m in all && forall i | i in all :: i <= m
    ensures Top(all, r) == {m}
  {
    hide Top;
    var v := {m};
    assert forall i, j | i in v && j in all - v :: j < i;
    TopUnique(all, r, v);
  }

  lemma SecondHigh(kept: set<nat>, r: nat, m: nat)
    requires |kept - Low(r)| >= 2 && m in kept && r <= m
    ensures exists z :: z in kept - {m} && r <= z
  {
    var rest := kept - Low(r) - {m};
    assert kept - Low(r) == rest + {m};
    var z :| z in rest;
    assert z in kept - {m};
  }
}
