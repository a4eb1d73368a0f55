/** The port dimension of the cover index (fwrule/coverindex.go:274-368), over
    `Pow2(bits)` ports; the analyser uses `bits == 16`. */
module PortIndex {
  import opened Postings
  import opened Rules
  import opened SegmentTree

  /** A range that is not a run of ports: out of the port space or inverted. */
  predicate Weird(space: nat, lo: int, hi: int) {
    lo < 0 || hi >= space || lo > hi
  }

  /** `query` cannot constrain a rule whose first range is inverted. */
  predicate Constrained(b: seq<PortElem>) {
    IsAnyPort(b) || !b[0].Range? || b[0].lo <= b[0].hi
  }

  /** What the dimension can see of "`a` covers `b`": only the first element of
      `b`, and of a range only its first port, unless `a` holds a weird range. */
  ghost predicate PortReach(space: nat, a: seq<PortElem>, b: seq<PortElem>)
    requires Constrained(b)
  {
    IsAnyPort(a) || (!IsAnyPort(b) &&
      if b[0].Range? then HasWeird(space, a) || HasPoint(space, a, b[0].lo) else b[0] in a)
  }

  ghost predicate HasWeird(space: nat, a: seq<PortElem>) {
    exists lo, hi :: Range(lo, hi) in a && Weird(space, lo, hi)
  }

  ghost predicate HasPoint(space: nat, a: seq<PortElem>, p: int) {
    exists lo, hi :: Range(lo, hi) in a && !Weird(space, lo, hi) && lo <= p <= hi
  }

  /** The dimension over-answers: it never misses a coverer. */
  lemma {:induction false} CoveredIsReached(space: nat, a: seq<PortElem>, b: seq<PortElem>)
    requires PortsCovered(a, b) && Constrained(b)
    ensures PortReach(space, a, b)
  {
    if !IsAnyPort(a) {
      assert b[0] in b;
      var s :| s in a && PortCovers(s, b[0]);
      if b[0].Range? { assert Range(s.lo, s.hi) in a; }
    }
  }

  type Pairs = set<(nat, PortElem)>

  ghost function PostedBy(added: map<nat, seq<PortElem>>): Pairs {
    set j, e | j in added && !IsAnyPort(added[j]) && e in added[j] :: (j, e)
  }

  ghost predicate PostsWeird(space: nat, posted: Pairs, j: nat) {
    exists lo, hi :: (j, Range(lo, hi)) in posted && Weird(space, lo, hi)
  }

  /** An in-domain range that marks node `n`. */
  predicate MarksNode(space: nat, e: PortElem, n: nat) {
    e.Range? && !Weird(space, e.lo, e.hi) && n in RangeMarks(space, e.lo, e.hi)
  }

  /** Position `j` was posted with such a range. */
  ghost predicate PostsNode(space: nat, posted: Pairs, j: nat, n: nat) {
    exists e :: (j, e) in posted && MarksNode(space, e, n)
  }

  ghost predicate PostsPoint(space: nat, posted: Pairs, j: nat, p: int) {
    exists lo, hi :: (j, Range(lo, hi)) in posted && !Weird(space, lo, hi) && lo <= p <= hi
  }

  /** After any postings, a position marks some node on port `p`'s walk iff one of
      its in-domain ranges contains `p`. */
  lemma {:induction false} WalkIffPoint(k: nat, posted: Pairs, j: nat, p: nat)
    requires p < Pow2(k)
    ensures (exists n: nat :: 1 <= n < 2 * Pow2(k) && OnWalk(Pow2(k) + p, n) && PostsNode(Pow2(k), posted, j, n))
       <==> PostsPoint(Pow2(k), posted, j, p)
  {
    if n: nat :| 1 <= n < 2 * Pow2(k) && OnWalk(Pow2(k) + p, n) && PostsNode(Pow2(k), posted, j, n) {
      var e :| (j, e) in posted && MarksNode(Pow2(k), e, n);
      assert e == Range(e.lo, e.hi);
      RangeMarksExact(k, e.lo, e.hi, p);
    }
    if PostsPoint(Pow2(k), posted, j, p) {
      var lo, hi :| (j, Range(lo, hi)) in posted && !Weird(Pow2(k), lo, hi) && lo <= p <= hi;
      RangeMarksExact(k, lo, hi, p);
      var n :| n in RangeMarks(Pow2(k), lo, hi) && OnWalk(Pow2(k) + p, n);
      assert MarksNode(Pow2(k), Range(lo, hi), n) && PostsNode(Pow2(k), posted, j, n);
    }
  }

  lemma {:induction false} PostedIffAdded(space: nat, added: map<nat, seq<PortElem>>, j: nat, p: int)
    ensures PostsWeird(space, PostedBy(added), j) <==>
            j in added && !IsAnyPort(added[j]) && HasWeird(space, added[j])
    ensures PostsPoint(space, PostedBy(added), j, p) <==>
            j in added && !IsAnyPort(added[j]) && HasPoint(space, added[j], p)
  {}

  /** Node `n`'s list is exactly, in order, the positions that mark it. */
  ghost predicate NodeLists(space: nat, posted: Pairs, n: nat, l: Posting) {
    Ascending(l) && forall j: nat :: j in l <==> PostsNode(space, posted, j, n)
  }

  ghost predicate TreeBuckets(space: nat, tree: seq<Posting>, posted: Pairs) {
    forall n: nat :: n < |tree| ==> NodeLists(space, posted, n, tree[n])
  }

  ghost predicate WeirdBucket(space: nat, weird: Posting, posted: Pairs) {
    Ascending(weird) && forall j: nat :: j in weird <==> PostsWeird(space, posted, j)
  }

  lemma {:induction false} PostsNodePost(space: nat, posted: Pairs, idx: nat, e: PortElem, j: nat, n: nat)
    ensures PostsNode(space, posted + {(idx, e)}, j, n) <==>
            PostsNode(space, posted, j, n) || (j == idx && MarksNode(space, e, n))
  {}

  lemma {:induction false} PostsWeirdPost(space: nat, posted: Pairs, idx: nat, e: PortElem, j: nat)
    ensures PostsWeird(space, posted + {(idx, e)}, j) <==>
            (PostsWeird(space, posted, j) || (j == idx && e.Range? && Weird(space, e.lo, e.hi)))
  {}

  lemma {:induction false} NodeListsPost(space: nat, posted: Pairs, idx: nat, e: PortElem, n: nat, l: Posting)
    requires NodeLists(space, posted, n, l) && forall p :: p in posted ==> p.0 <= idx
    ensures NodeLists(space, posted + {(idx, e)}, n, if MarksNode(space, e, n) then Post(l, idx) else l)
  {
    forall j: nat { PostsNodePost(space, posted, idx, e, j, n); }
    PostAdds(l, idx);
  }

  lemma {:induction false} TreeBucketsPost(space: nat, tree: seq<Posting>, tree': seq<Posting>,
                                           posted: Pairs, idx: nat, e: PortElem)
    requires TreeBuckets(space, tree, posted) && forall p :: p in posted ==> p.0 <= idx
    requires if e.Range? && !Weird(space, e.lo, e.hi)
             then Posted(tree, tree', RangeMarks(space, e.lo, e.hi), idx) else tree' == tree
    ensures TreeBuckets(space, tree', posted + {(idx, e)})
  {
    forall n: nat | n < |tree'|
      ensures NodeLists(space, posted + {(idx, e)}, n, tree'[n])
    {
      assert NodeLists(space, posted, n, tree[n]);
      NodeListsPost(space, posted, idx, e, n, tree[n]);
    }
  }

  /** `now` is `was` with `idx` posted at every node of `marks`. */
  ghost predicate Posted(was: seq<Posting>, now: seq<Posting>, marks: set<nat>, idx: nat) {
    |now| == |was| &&
    forall n: nat :: n < |now| ==> now[n] == if n in marks then Post(was[n], idx) else was[n]
  }

  class PortDim {
    var any: Posting
    var weird: Posting
    var str: map<PortElem, Posting>
    const tree: array<Posting>
    const bits: nat
    ghost var added: map<nat, seq<PortElem>>

    function Space(): nat {
      Pow2(bits)
    }

    ghost predicate Holds(posted: Pairs)
      reads this, tree
    {
      && tree.Length == 2 * Space()
      && Buckets(str, posted)
      && TreeBuckets(Space(), tree[..], posted)
      && WeirdBucket(Space(), weird, posted)
    }

    ghost predicate Valid()
      reads this, tree
    {
      && Ascending(any)
      && (forall j :: j in any <==> j in added && IsAnyPort(added[j]))
      && Holds(PostedBy(added))
    }

    constructor (bits: nat)
      ensures Valid() && added == map[] && this.bits == bits && fresh(tree)
    {
      any, weird, str := [], [], map[];
      this.bits := bits;
      tree := new Posting[2 * Pow2(bits)](_ => []);
      added := map[];
      new;
      assert forall n: nat :: n < tree.Length ==> tree[..][n] == [];
    }

    method Add(idx: nat, ports: seq<PortElem>)
      requires Valid() && forall j :: j in added ==> j < idx
      modifies this, tree
      ensures Valid() && added == old(added)[idx := ports]
    {
      ghost var before := PostedBy(added);
      if IsAnyPort(ports) {
        forall k | 0 <= k < |any|
          ensures any[k] < idx
        {
          assert any[k] in any;
        }
        any := any + [idx];
        added := added[idx := ports];
        assert PostedBy(added) == before;
        return;
      }
      ghost var posted := before;
      var inWeird := false;
      for n := 0 to |ports|
        invariant unchanged(`any) && unchanged(`added)
        invariant Holds(posted)
        invariant posted == before + set e | e in ports[..n] :: (idx, e)
        invariant inWeird <==> PostsWeird(Space(), posted, idx)
      {
        assert ports[..n + 1] == ports[..n] + [ports[n]];
        inWeird := AddElem(idx, ports[n], inWeird, posted);
        posted := posted + {(idx, ports[n])};
      }
      added := added[idx := ports];
      assert ports[..|ports|] == ports;
      assert PostedBy(added) == posted;
    }

    /** One round of the `add` loop. */
    method AddElem(idx: nat, e: PortElem, inWeird: bool, ghost posted: Pairs) returns (nowWeird: bool)
      requires Holds(posted) && forall p :: p in posted ==> p.0 <= idx
      requires inWeird <==> PostsWeird(Space(), posted, idx)
      modifies `str, `weird, tree
      ensures Holds(posted + {(idx, e)})
      ensures nowWeird <==> PostsWeird(Space(), posted + {(idx, e)}, idx)
    {
      nowWeird := inWeird;
      forall j: nat { PostsWeirdPost(Space(), posted, idx, e, j); }
      BucketsPost(str, posted, idx, e);
      str := str[e := Post(Lookup(str, e), idx)];
      if e.Range? {
        if Weird(Space(), e.lo, e.hi) {
          if !inWeird {
            PostWeird(idx, posted);
            nowWeird := true;
          }
        } else {
          InsertRange(idx, e.lo, e.hi);
        }
      }
      TreeBucketsPost(Space(), old(tree[..]), tree[..], posted, idx, e);
    }

    method PostWeird(idx: nat, ghost posted: Pairs)
      requires WeirdBucket(Space(), weird, posted) && idx !in weird
      requires forall p :: p in posted ==> p.0 <= idx
      modifies `weird
      ensures Ascending(weird) && weird == old(weird) + [idx]
    {
      forall k | 0 <= k < |weird|
        ensures weird[k] < idx
      {
        assert weird[k] in weird;
        assert PostsWeird(Space(), posted, weird[k]);
      }
      weird := weird + [idx];
    }

    method InsertRange(idx: nat, lo: int, hi: int)
      requires tree.Length == 2 * Space() && !Weird(Space(), lo, hi)
      modifies tree
      ensures Posted(old(tree[..]), tree[..], RangeMarks(Space(), lo, hi), idx)
    {
      hide Marks, Pow2;
      InsertNodes(idx, Space() + lo, Space() + hi + 1);
    }

    /** The `insertRange` loop, from its first node numbers. */
    method InsertNodes(idx: nat, lo: nat, hi: nat)
      requires lo <= hi <= tree.Length
      modifies tree
      ensures Posted(old(tree[..]), tree[..], Marks(lo, hi), idx)
    {
      var l: nat, h: nat := lo, hi;
      ghost var done, was := {}, tree[..];
      while l < h
        invariant l <= h <= hi
        invariant done + Marks(l, h) == Marks(lo, hi)
        invariant Posted(was, tree[..], done, idx)
        decreases h
      {
        MarksStep(l, h, done);
        ghost var next := done + EdgeMarks(l, h);
        l, h := InsertLevel(idx, l, h, done, was);
        done := next;
      }
    }

    /** One round of the `insertRange` loop. */
    method InsertLevel(idx: nat, lo: nat, hi: nat, ghost done: set<nat>, ghost was: seq<Posting>)
      returns (l: nat, h: nat)
      requires lo < hi <= tree.Length && Posted(was, tree[..], done, idx)
      modifies tree
      ensures l == (lo + lo % 2) / 2 && h == hi / 2
      ensures Posted(was, tree[..], done + EdgeMarks(lo, hi), idx)
    {
      hide Posted;
      l, h := lo, hi;
      ghost var now := done;
      if l % 2 == 1 {
        PostAt(l, idx, now, was);
        now := now + {l};
        l := l + 1;
      }
      if h % 2 == 1 {
        h := h - 1;
        PostAt(h, idx, now, was);
        now := now + {h};
      }
      assert now == done + EdgeMarks(lo, hi);
      l := l / 2;
      h := h / 2;
    }

    /** `d.tree[n] = append(dedupTail(d.tree[n], idx), idx)`. */
    method PostAt(n: nat, idx: nat, ghost done: set<nat>, ghost was: seq<Posting>)
      requires n < tree.Length && Posted(was, tree[..], done, idx)
      modifies tree
      ensures Posted(was, tree[..], done + {n}, idx)
    {
      tree[n] := Post(tree[n], idx);
    }

    /** The lists hold exactly the added positions whose ports reach `ports`. */
    method Query(ports: seq<PortElem>) returns (lists: seq<Posting>, constrained: bool)
      requires Valid()
      ensures constrained == Constrained(ports)
      ensures constrained ==> AllAscending(lists)
      ensures constrained ==>
                forall j: nat :: InLists(lists, j) <==> j in added && PortReach(Space(), added[j], ports)
    {
      if IsAnyPort(ports) {
        lists := Pair(any, []);
        return lists, true;
      }
      var be := ports[0];
      ghost var posted := PostedBy(added);
      if !be.Range? {
        assert forall j: nat :: (j, be) in posted <==> j in added && !IsAnyPort(added[j]) && be in added[j];
        lists := Pair(any, Lookup(str, be));
        return lists, true;
      }
      if be.lo > be.hi {
        return [], false;
      }
      lists := QueryRange(be.lo);
      return lists, true;
    }

    /** The lists for a range that starts at port `lo`. */
    method QueryRange(lo: int) returns (lists: seq<Posting>)
      requires Valid()
      ensures AllAscending(lists)
      ensures forall j: nat :: InLists(lists, j) <==>
                j in added && (IsAnyPort(added[j]) || HasWeird(Space(), added[j]) || HasPoint(Space(), added[j], lo))
    {
      lists := Keep([], any);
      lists := Keep(lists, weird);
      if 0 <= lo < Space() {
        lists := CollectWalk(Space() + lo, lists);
      }
      forall j: nat { ListedIffReached(j, lo); }
    }

    /** The upward walk of `query`, from a node to the root. */
    method CollectWalk(leaf: nat, lists0: seq<Posting>) returns (lists: seq<Posting>)
      requires Valid() && leaf < tree.Length && AllAscending(lists0)
      ensures AllAscending(lists)
      ensures forall j: nat :: InLists(lists, j) <==> InLists(lists0, j) || ListedAbove(leaf, j)
    {
      lists := lists0;
      var node: nat := leaf;
      while node >= 1
        invariant node < tree.Length
        invariant AllAscending(lists)
        invariant forall j: nat :: InLists(lists, j) || ListedAbove(node, j) <==>
                                   InLists(lists0, j) || ListedAbove(leaf, j)
      {
        forall j: nat
          ensures ListedAbove(node, j) <==> j in tree[node] || ListedAbove(node / 2, j)
        {
          ListedStep(node, j);
        }
        assert Ascending(tree[..][node]);
        lists := Keep(lists, tree[node]);
        node := node / 2;
      }
    }

    /** Position `j` is listed at some node from `x` up to the root. */
    ghost predicate ListedAbove(x: nat, j: nat)
      reads tree
    {
      exists n: nat :: 1 <= n < tree.Length && OnWalk(x, n) && j in tree[n]
    }

    lemma {:induction false} ListedStep(x: nat, j: nat)
      requires 1 <= x < tree.Length
      ensures ListedAbove(x, j) <==> j in tree[x] || ListedAbove(x / 2, j)
    {}

    lemma {:induction false} ListedIffReached(j: nat, p: int)
      requires Valid()
      ensures j in weird <==> j in added && !IsAnyPort(added[j]) && HasWeird(Space(), added[j])
      ensures 0 <= p < Space() ==>
                (ListedAbove(Space() + p, j) <==> j in added && !IsAnyPort(added[j]) && HasPoint(Space(), added[j], p))
      ensures !(0 <= p < Space()) ==> j in added ==> !HasPoint(Space(), added[j], p)
    {
      var posted := PostedBy(added);
      PostedIffAdded(Space(), added, j, p);
      assert WeirdBucket(Space(), weird, posted);
      if 0 <= p < Space() {
        WalkIffPoint(bits, posted, j, p);
        forall n: nat | 1 <= n < tree.Length
          ensures j in tree[n] <==> PostsNode(Space(), posted, j, n)
        {
          assert NodeLists(Space(), posted, n, tree[..][n]);
        }
      }
    }
  }
}
