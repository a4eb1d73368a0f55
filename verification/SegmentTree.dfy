/** The bottom-up segment tree behind the port dimension
    (fwrule/coverindex.go:316-331, 360-366), for any power-of-two leaf count.
    Node 1 is the root and node `x` has parent `x / 2`; with `Pow2(k)` leaves the
    leaf of port `p` is node `Pow2(k) + p`. */
module SegmentTree {

  function Pow2(k: nat): (r: nat)
    ensures r >= 1
  {
    if k == 0 then 1 else 2 * Pow2(k - 1)
  }

  /** The nodes the insertion loop appends to when it runs from `(lo, hi)`. */
  function Marks(lo: nat, hi: nat): set<nat>
    decreases hi
  {
    if lo >= hi then {} else EdgeMarks(lo, hi) + Marks((lo + lo % 2) / 2, hi / 2)
  }

  /** The marks one round of the loop leaves, all on the level of `lo` and `hi`. */
  function EdgeMarks(lo: nat, hi: nat): set<nat> {
    (if lo % 2 == 1 then {lo} else {}) + (if hi % 2 == 1 then {hi - 1} else {})
  }

  /** One round moves the edge marks of its level from "to do" to "done". */
  lemma {:induction false} MarksStep(lo: nat, hi: nat, done: set<nat>)
    requires lo < hi
    ensures done + Marks(lo, hi) == (done + EdgeMarks(lo, hi)) + Marks((lo + lo % 2) / 2, hi / 2)
    ensures (lo + lo % 2) / 2 <= hi / 2 < hi
  {
    var here, rest := EdgeMarks(lo, hi), Marks((lo + lo % 2) / 2, hi / 2);
    assert Marks(lo, hi) == here + rest;
    assert done + (here + rest) == (done + here) + rest;
  }

  /** The marks a port range leaves: leaves `lo` to `hi`, both included. */
  function RangeMarks(leaves: nat, lo: nat, hi: nat): set<nat> {
    Marks(leaves + lo, leaves + hi + 1)
  }

  /** How many nodes of `marks` the walk from `x` up to the root meets. */
  function Hits(marks: set<nat>, x: nat): nat {
    (if x in marks then 1 else 0) + (if x <= 1 then 0 else Hits(marks, x / 2))
  }

  /** Node `n` is on the walk from `x` up to the root. */
  predicate OnWalk(x: nat, n: nat) {
    n == x || (x > 1 && OnWalk(x / 2, n))
  }

  /** Node `x` is `k` levels below the root. */
  predicate AtLevel(k: nat, x: nat) {
    Pow2(k) <= x < 2 * Pow2(k)
  }

  /** `lo` and `hi` bound a run of nodes of level `k`. */
  predicate RunAtLevel(k: nat, lo: nat, hi: nat) {
    Pow2(k) <= lo <= hi <= 2 * Pow2(k)
  }

  lemma {:induction false} MarksInTree(k: nat, lo: nat, hi: nat)
    requires RunAtLevel(k, lo, hi)
    ensures forall n :: n in Marks(lo, hi) ==> 1 <= n < hi
    decreases k
  {
    if lo < hi && k > 0 {
      MarksInTree(k - 1, (lo + lo % 2) / 2, hi / 2);
    }
  }

  lemma {:induction false} HitsIgnoresLowerLevels(marks: set<nat>, extra: set<nat>, x: nat)
    requires forall n :: n in extra ==> n > x
    ensures Hits(marks + extra, x) == Hits(marks, x)
  {
    if x > 1 {
      HitsIgnoresLowerLevels(marks, extra, x / 2);
    }
  }

  /** The walk from a node meets exactly one mark when the node is in the range
      and none otherwise. */
  lemma {:induction false} WalkMeetsOneMark(k: nat, lo: nat, hi: nat, x: nat)
    requires RunAtLevel(k, lo, hi) && AtLevel(k, x)
    ensures Hits(Marks(lo, hi), x) == if lo <= x < hi then 1 else 0
    decreases k
  {
    if lo < hi {
      var lo', hi' := (lo + lo % 2) / 2, hi / 2;
      var here := EdgeMarks(lo, hi);
      var rest := Marks(lo', hi');
      assert Marks(lo, hi) == rest + here;
      if k > 0 {
        MarksInTree(k - 1, lo', hi');
        WalkMeetsOneMark(k - 1, lo', hi', x / 2);
        HitsIgnoresLowerLevels(rest, here, x / 2);
      } else {
        assert x == 1;
      }
    } else {
      NoHits(x);
    }
  }

  lemma {:induction false} NoHits(x: nat)
    ensures Hits({}, x) == 0
  {
    if x > 1 { NoHits(x / 2); }
  }

  lemma {:induction false} HitsIffOnWalk(marks: set<nat>, x: nat)
    ensures Hits(marks, x) > 0 <==> exists n :: n in marks && OnWalk(x, n)
  {
    if x > 1 {
      HitsIffOnWalk(marks, x / 2);
    }
    if Hits(marks, x) > 0 && x !in marks {
      var n :| n in marks && OnWalk(x / 2, n);
      assert OnWalk(x, n);
    }
    if x in marks { assert OnWalk(x, x); }
  }

  /** No level of the tree receives more than two marks from one range. */
  lemma {:induction false} AtMostTwoMarksPerLevel(k: nat, lo: nat, hi: nat, d: nat) returns (a: nat, b: nat)
    requires RunAtLevel(k, lo, hi)
    ensures forall n :: n in Marks(lo, hi) && AtLevel(d, n) ==> n == a || n == b
    decreases k
  {
    a, b := lo, hi;
    if lo < hi {
      var lo', hi' := (lo + lo % 2) / 2, hi / 2;
      if k > 0 {
        MarksInTree(k - 1, lo', hi');
        if d < k {
          a, b := AtMostTwoMarksPerLevel(k - 1, lo', hi', d);
          LevelsApart(d, k);
        } else {
          LevelsApart(k - 1, d);
          a, b := lo, hi - 1;
        }
      } else {
        a, b := lo, hi - 1;
      }
    }
  }

  lemma {:induction false} LevelsApart(d: nat, k: nat)
    requires d < k
    ensures 2 * Pow2(d) <= Pow2(k)
    decreases k
  {
    if d < k - 1 { LevelsApart(d, k - 1); }
  }

  /** At the leaves: port `p`'s walk meets a mark of the range iff the range
      holds `p`. */
  lemma {:induction false} RangeMarksExact(k: nat, lo: nat, hi: nat, p: nat)
    requires lo <= hi < Pow2(k) && p < Pow2(k)
    ensures Hits(RangeMarks(Pow2(k), lo, hi), Pow2(k) + p) == if lo <= p <= hi then 1 else 0
    ensures (exists n :: n in RangeMarks(Pow2(k), lo, hi) && OnWalk(Pow2(k) + p, n)) <==> lo <= p <= hi
    ensures forall n :: n in RangeMarks(Pow2(k), lo, hi) ==> 1 <= n < 2 * Pow2(k)
  {
    WalkMeetsOneMark(k, Pow2(k) + lo, Pow2(k) + hi + 1, Pow2(k) + p);
    HitsIffOnWalk(RangeMarks(Pow2(k), lo, hi), Pow2(k) + p);
    MarksInTree(k, Pow2(k) + lo, Pow2(k) + hi + 1);
  }
}
