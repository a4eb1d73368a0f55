/** Posting lists: the ascending rule positions each index bucket holds
    (fwrule/coverindex.go:47, 143-165, 265-272). */
module Postings {

  type Posting = seq<nat>

  /** A map lookup as Go reads it: a missing bucket is an empty one. */
  function Lookup<K>(m: map<K, Posting>, k: K): Posting {
    if k in m then m[k] else []
  }

  ghost predicate Ascending(l: Posting) {
    forall a, b :: 0 <= a < b < |l| ==> l[a] < l[b]
  }

  function DedupTail(l: Posting, idx: nat): Posting {
    if l != [] && l[|l| - 1] == idx then l[..|l| - 1] else l
  }

  /** `append(dedupTail(l, idx), idx)`. */
  function Post(l: Posting, idx: nat): Posting {
    DedupTail(l, idx) + [idx]
  }

  lemma {:induction false} PostAdds(l: Posting, idx: nat)
    requires Ascending(l) && forall j :: j in l ==> j <= idx
    ensures Ascending(Post(l, idx))
    ensures forall j :: j in Post(l, idx) <==> j in l || j == idx
    ensures Post(Post(l, idx), idx) == Post(l, idx)
  {
    var d := DedupTail(l, idx);
    forall k | 0 <= k < |d|
      ensures d[k] == l[k] < idx
    {
      assert l[k] in l && l[|l| - 1] in l;
      assert k < |l| - 1 ==> l[k] < l[|l| - 1];
    }
    assert forall j :: j in l ==> j in d || j == idx;
    assert forall j :: j in d ==> j in l;
  }

  /** Every bucket lists, in order, the positions posted under its key. */
  ghost predicate Buckets<E(!new)>(m: map<E, Posting>, posted: set<(nat, E)>) {
    forall s :: BucketLists(Lookup(m, s), posted, s)
  }

  ghost predicate BucketLists<E(!new)>(l: Posting, posted: set<(nat, E)>, s: E) {
    Ascending(l) && forall j: nat :: j in l <==> (j, s) in posted
  }

  lemma {:induction false} BucketsPost<E(!new)>(m: map<E, Posting>, posted: set<(nat, E)>, idx: nat, e: E)
    requires Buckets(m, posted) && forall p :: p in posted ==> p.0 <= idx
    ensures Buckets(m[e := Post(Lookup(m, e), idx)], posted + {(idx, e)})
  {
    var m' := m[e := Post(Lookup(m, e), idx)];
    forall s
      ensures BucketLists(Lookup(m', s), posted + {(idx, e)}, s)
    {
      assert BucketLists(Lookup(m, s), posted, s);
      if s == e { PostAdds(Lookup(m, e), idx); }
    }
  }

  /** Position `j` is in one of the lists a dimension answers with. */
  ghost predicate InLists(lists: seq<Posting>, j: nat) {
    exists k :: 0 <= k < |lists| && j in lists[k]
  }

  ghost predicate AllAscending(lists: seq<Posting>) {
    forall k :: 0 <= k < |lists| ==> Ascending(lists[k])
  }

  lemma {:induction false} InListsAppend(lists: seq<Posting>, l: Posting, j: nat)
    ensures InLists(lists + [l], j) <==> InLists(lists, j) || j in l
  {
    if j in l { assert (lists + [l])[|lists|] == l; }
    if InLists(lists, j) {
      var k :| 0 <= k < |lists| && j in lists[k];
      assert (lists + [l])[k] == lists[k];
    }
  }

  /** `if len(l) > 0 { out = append(out, l) }`. */
  method Keep(lists: seq<Posting>, l: Posting) returns (r: seq<Posting>)
    ensures AllAscending(lists) && Ascending(l) ==> AllAscending(r)
    ensures forall j: nat :: InLists(r, j) <==> InLists(lists, j) || j in l
  {
    r := lists;
    if |l| > 0 {
      forall j: nat { InListsAppend(lists, l, j); }
      r := lists + [l];
    }
  }

  method Pair(a: Posting, b: Posting) returns (r: seq<Posting>)
    ensures Ascending(a) && Ascending(b) ==> AllAscending(r)
    ensures forall j: nat :: InLists(r, j) <==> j in a || j in b
  {
    r := Keep([], a);
    r := Keep(r, b);
  }

  /** `sort.Search` for the first element at or above `x`. */
  method SearchFrom(l: Posting, x: nat) returns (k: nat)
    requires Ascending(l)
    ensures k <= |l|
    ensures forall a :: 0 <= a < k ==> l[a] < x
    ensures forall a :: k <= a < |l| ==> x <= l[a]
  {
    var hi := |l|;
    k := 0;
    while k < hi
      invariant k <= hi <= |l|
      invariant forall a :: 0 <= a < k ==> l[a] < x
      invariant forall a :: hi <= a < |l| ==> x <= l[a]
    {
      var mid := (k + hi) / 2;
      if l[mid] >= x {
        hi := mid;
      } else {
        k := mid + 1;
      }
    }
  }

  /** The smallest posting at or above `x` across a dimension's lists. */
  method SeekDim(lists: seq<Posting>, x: nat) returns (best: nat, found: bool)
    requires AllAscending(lists)
    ensures found ==> InLists(lists, best) && x <= best
    ensures forall j: nat :: InLists(lists, j) && x <= j ==> found && best <= j
  {
    best, found := 0, false;
    for n := 0 to |lists|
      invariant found ==> InLists(lists, best) && x <= best
      invariant forall m, j: nat :: 0 <= m < n && j in lists[m] && x <= j ==> found && best <= j
    {
      var l := lists[n];
      var k := SearchFrom(l, x);
      forall j: nat | j in l && x <= j
        ensures k < |l| && l[k] <= j
      {
        var a :| 0 <= a < |l| && l[a] == j;
      }
      if k < |l| && (!found || l[k] < best) {
        best, found := l[k], true;
        assert lists[n] == l && best in l;
      }
    }
  }
}
