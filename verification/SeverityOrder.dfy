/** The digest order: most severe first, otherwise in arrival order
    (notify/notify.go:228-250). */
module SeverityOrder {
  import opened Findings

  /** The notifier's own ranking: `info` and unknown severities share rank 0. */
  function SeverityRank(s: Severity): nat {
    match s
    case Critical => 4
    case High => 3
    case Medium => 2
    case Low => 1
    case _ => 0
  }

  /** At least as severe: critical, high, medium, low, and then the rest alike. */
  predicate AtLeast(a: Severity, b: Severity) {
    match b
    case Critical => a == Critical
    case High => a in {Critical, High}
    case Medium => a in {Critical, High, Medium}
    case Low => a in {Critical, High, Medium, Low}
    case _ => true
  }

  lemma RankIsOrder(a: Severity, b: Severity)
    ensures SeverityRank(a) >= SeverityRank(b) <==> AtLeast(a, b)
  {}

  function Rank(r: Record): nat {
    SeverityRank(r.report.severity)
  }

  /** The elements of one rank, in order. */
  function OfRank(s: seq<Record>, r: nat): seq<Record> {
    if s == [] then []
    else OfRank(s[..|s| - 1], r) + if Rank(s[|s| - 1]) == r then [s[|s| - 1]] else []
  }

  /** The severity classes below rank `n`, laid out from the most severe down. */
  function Classes(s: seq<Record>, n: nat): seq<Record> {
    if n == 0 then [] else OfRank(s, n - 1) + Classes(s, n - 1)
  }

  function BySeverity(s: seq<Record>): seq<Record> {
    Classes(s, 5)
  }

  ghost predicate Descending(s: seq<Record>) {
    forall i, j :: 0 <= i < j < |s| ==> Rank(s[i]) >= Rank(s[j])
  }

  /** The two lists have the same elements of each rank, in the same order. */
  ghost predicate SameClasses(s: seq<Record>, t: seq<Record>) {
    forall r: nat :: OfRank(s, r) == OfRank(t, r)
  }

  lemma {:induction false} OfRankConcat(a: seq<Record>, b: seq<Record>, r: nat)
    ensures OfRank(a + b, r) == OfRank(a, r) + OfRank(b, r)
  {
    if b == [] {
      assert a + b == a;
    } else {
      var init, last := b[..|b| - 1], b[|b| - 1];
      OfRankConcat(a, init, r);
      assert (a + b)[..|a + b| - 1] == a + init;
    }
  }

  /** Swapping neighbours of different ranks moves nothing within a rank. */
  lemma {:induction false} SwapKeepsClasses(p: seq<Record>, x: Record, y: Record, q: seq<Record>)
    requires Rank(x) != Rank(y)
    ensures SameClasses(p + [x, y] + q, p + [y, x] + q)
  {
    forall r: nat
      ensures OfRank(p + [x, y] + q, r) == OfRank(p + [y, x] + q, r)
    {
      OfRankConcat(p + [x, y], q, r);
      OfRankConcat(p, [x, y], r);
      OfRankConcat(p + [y, x], q, r);
      OfRankConcat(p, [y, x], r);
      OfRankConcat([x], [y], r);
      OfRankConcat([y], [x], r);
      assert [x] + [y] == [x, y] && [y] + [x] == [y, x];
      assert OfRank([x], r) == [] || OfRank([y], r) == [];
    }
  }

  lemma {:induction false} ClassHolds(s: seq<Record>, r: nat)
    ensures forall x :: x in OfRank(s, r) <==> x in s && Rank(x) == r
    ensures (forall x :: x in s ==> Rank(x) != r) ==> OfRank(s, r) == []
  {
    if s != [] {
      ClassHolds(s[..|s| - 1], r);
      assert s == s[..|s| - 1] + [s[|s| - 1]];
    }
  }

  lemma {:induction false} OfRankAppend(s: seq<Record>, x: Record, r: nat)
    ensures OfRank(s + [x], r) == OfRank(s, r) + if Rank(x) == r then [x] else []
  {}

  lemma {:induction false} ClassesAppend(s: seq<Record>, x: Record, n: nat)
    ensures multiset(Classes(s + [x], n)) == multiset(Classes(s, n)) + if Rank(x) < n then multiset{x} else multiset{}
    decreases n
  {
    hide OfRank;
    if n > 0 {
      ClassesAppend(s, x, n - 1);
      OfRankAppend(s, x, n - 1);
    }
  }

  lemma {:induction false} ClassesAppendLeast(s: seq<Record>, x: Record, n: nat)
    requires forall y :: y in s ==> Rank(y) >= Rank(x)
    ensures Classes(s + [x], n) == Classes(s, n) + if Rank(x) < n then [x] else []
    decreases n
  {
    hide OfRank;
    if n > 0 {
      ClassesAppendLeast(s, x, n - 1);
      OfRankAppend(s, x, n - 1);
      if Rank(x) == n - 1 {
        NothingBelow(s, n - 1);
      }
    }
  }

  lemma {:induction false} NothingBelow(s: seq<Record>, n: nat)
    requires forall y :: y in s ==> Rank(y) >= n
    ensures Classes(s, n) == []
    decreases n
  {
    if n > 0 {
      NothingBelow(s, n - 1);
      ClassHolds(s, n - 1);
    }
  }

  /** A descending list is its own layout by severity. */
  lemma {:induction false} DescendingIsLaidOut(t: seq<Record>)
    requires Descending(t)
    ensures t == BySeverity(t)
  {
    hide OfRank, Classes;
    if t == [] {
      NothingBelow(t, 5);
    } else {
      var init, last := t[..|t| - 1], t[|t| - 1];
      DescendingIsLaidOut(init);
      ClassesAppendLeast(init, last, 5);
      assert t == init + [last];
    }
  }

  lemma {:induction false} ClassesDescend(s: seq<Record>, n: nat)
    ensures Descending(Classes(s, n)) && forall x :: x in Classes(s, n) ==> Rank(x) < n
    decreases n
  {
    hide OfRank;
    if n > 0 {
      ClassesDescend(s, n - 1);
      ClassHolds(s, n - 1);
      var a, b := OfRank(s, n - 1), Classes(s, n - 1);
      forall i, j | 0 <= i < j < |a + b|
        ensures Rank((a + b)[i]) >= Rank((a + b)[j])
      {
        assert i < |a| ==> a[i] in a;
        assert j < |a| ==> a[j] in a;
        assert j >= |a| ==> b[j - |a|] in b;
      }
    }
  }

  lemma {:induction false} ClassesKeepOrder(s: seq<Record>, n: nat, r: nat)
    ensures OfRank(Classes(s, n), r) == if r < n then OfRank(s, r) else []
    decreases n
  {
    hide OfRank, Classes;
    if n == 0 {
      NoClasses(s, r);
    } else {
      ClassesKeepOrder(s, n - 1, r);
      ClassOfClass(s, n - 1, r);
      FirstClassThenRest(s, n, r);
      NothingAdded(OfRank(s, r));
    }
  }

  lemma NoClasses(s: seq<Record>, r: nat)
    ensures OfRank(Classes(s, 0), r) == []
  {}

  lemma NothingAdded(s: seq<Record>)
    ensures s + [] == s && [] + s == s
  {}

  lemma {:induction false} FirstClassThenRest(s: seq<Record>, n: nat, r: nat)
    requires n > 0
    ensures OfRank(Classes(s, n), r) == OfRank(OfRank(s, n - 1), r) + OfRank(Classes(s, n - 1), r)
  {
    OfRankConcat(OfRank(s, n - 1), Classes(s, n - 1), r);
  }

  lemma {:induction false} ClassesPartition(s: seq<Record>)
    ensures multiset(BySeverity(s)) == multiset(s)
  {
    hide OfRank;
    if s == [] {
      NothingBelow(s, 5);
    } else {
      var init, last := s[..|s| - 1], s[|s| - 1];
      ClassesPartition(init);
      ClassesAppend(init, last, 5);
      assert s == init + [last] && Rank(last) < 5;
    }
  }

  /** The layout is a descending permutation that keeps the order of equals. */
  lemma {:induction false} BySeverityIsStableSort(s: seq<Record>)
    ensures Descending(BySeverity(s))
    ensures var t := BySeverity(s);
      forall i, j :: 0 <= i < j < |t| ==> AtLeast(t[i].report.severity, t[j].report.severity)
    ensures SameClasses(s, BySeverity(s))
    ensures multiset(BySeverity(s)) == multiset(s)
  {
    hide OfRank, Classes;
    ClassesDescend(s, 5);
    ClassesPartition(s);
    forall a, b { RankIsOrder(a, b); }
    forall r: nat
      ensures OfRank(s, r) == OfRank(BySeverity(s), r)
    {
      ClassesKeepOrder(s, 5, r);
      ClassHolds(s, r);
    }
  }

  lemma {:induction false} ClassOfClass(s: seq<Record>, c: nat, r: nat)
    ensures OfRank(OfRank(s, c), r) == if r == c then OfRank(s, c) else []
  {
    if s != [] {
      var init, last := s[..|s| - 1], s[|s| - 1];
      ClassOfClass(init, c, r);
      OfRankConcat(OfRank(init, c), if Rank(last) == c then [last] else [], r);
    }
  }

  /** Lists with the same classes have the same layout. */
  lemma {:induction false} SameClassesSameLayout(s: seq<Record>, t: seq<Record>, n: nat)
    requires SameClasses(s, t)
    ensures Classes(s, n) == Classes(t, n)
  {
    hide OfRank;
    if n > 0 { SameClassesSameLayout(s, t, n - 1); }
  }

  /** The insertion sort of the source, in place. */
  method SortBySeverity(fs: array<Record>)
    modifies fs
    ensures fs[..] == BySeverity(old(fs[..]))
  {
    ghost var was := fs[..];
    var i := 1;
    while i < fs.Length
      invariant 1 <= i
      invariant i <= fs.Length || fs.Length == 0
      invariant forall x, y :: 0 <= x < y < i && y < fs.Length ==> Rank(fs[x]) >= Rank(fs[y])
      invariant SameClasses(was, fs[..])
    {
      SinkIn(fs, i, was);
      i := i + 1;
    }
    SameClassesSameLayout(was, fs[..], 5);
    DescendingIsLaidOut(fs[..]);
  }

  lemma {:induction false} SwappedNeighbours(was: seq<Record>, s: seq<Record>, t: seq<Record>, j: nat)
    requires 0 < j < |s| && Rank(s[j - 1]) != Rank(s[j]) && SameClasses(was, s)
    requires t == s[j - 1 := s[j]][j := s[j - 1]]
    ensures SameClasses(was, t)
  {
    hide OfRank;
    SwapKeepsClasses(s[..j - 1], s[j - 1], s[j], s[j + 1..]);
    assert s == s[..j - 1] + [s[j - 1], s[j]] + s[j + 1..];
    assert t == s[..j - 1] + [s[j], s[j - 1]] + s[j + 1..];
  }

  /** The inner loop: element `i` moves left past every less severe one. */
  method SinkIn(fs: array<Record>, i: nat, ghost was: seq<Record>)
    requires 0 < i < fs.Length && SameClasses(was, fs[..])
    requires forall x, y :: 0 <= x < y < i ==> Rank(fs[x]) >= Rank(fs[y])
    modifies fs
    ensures SameClasses(was, fs[..])
    ensures forall x, y :: 0 <= x < y <= i ==> Rank(fs[x]) >= Rank(fs[y])
  {
    hide SameClasses, OfRank;
    var j := i;
    while j > 0 && Rank(fs[j]) > Rank(fs[j - 1])
      invariant 0 <= j <= i
      invariant SameClasses(was, fs[..])
      invariant forall x, y :: 0 <= x < y <= i && y != j ==> Rank(fs[x]) >= Rank(fs[y])
    {
      ghost var before := fs[..];
      fs[j], fs[j - 1] := fs[j - 1], fs[j];
      SwappedNeighbours(was, before, fs[..], j);
      j := j - 1;
    }
  }
}
