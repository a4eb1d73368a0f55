/** The address dimension of the cover index (fwrule/coverindex.go:167-263). */
module AddrIndex {
  import opened Postings
  import opened Rules
  import Cidr

  /** What the dimension can see of "`a` covers `b`": `b` is judged by its first
      element only, and networks by what they really include. */
  ghost predicate AddrReach(a: seq<AddrElem>, b: seq<AddrElem>) {
    IsAnyAddr(a) || (!IsAnyAddr(b) && FirstReached(a, b[0]))
  }

  ghost predicate FirstReached(a: seq<AddrElem>, e: AddrElem) {
    if e.Network? then exists n :: Network(n) in a && Cidr.Within(e.net, n) else e in a
  }

  /** Of the coverers the dimension misses exactly those that cover the first
      network through clashes only. */
  lemma {:induction false} CoveredReachedIffGenuine(a: seq<AddrElem>, b: seq<AddrElem>)
    requires AddrsCovered(a, b)
    ensures AddrReach(a, b) <==> FirstGenuine(a, b)
  {
    if !IsAnyAddr(a) {
      assert b[0] in b;
      var s :| s in a && AddrCovers(s, b[0]);
      if b[0].Network? { SomeWithinIffGenuine(a, s.net, b[0].net); }
    }
  }

  lemma {:induction false} SomeWithinIffGenuine(a: seq<AddrElem>, m: Cidr.Net, sub: Cidr.Net)
    requires Network(m) in a && Cidr.NetContains(m, sub)
    ensures (exists n :: Network(n) in a && Cidr.Within(sub, n)) <==> GenuineFor(a, sub)
  {
    if exists n :: Network(n) in a && Cidr.Within(sub, n) {
      var n :| Network(n) in a && Cidr.Within(sub, n);
      Cidr.WithinIsGenuine(n, m, sub);
    }
    if GenuineFor(a, sub) {
      var n :| Network(n) in a && Cidr.NetContains(n, sub) && !Cidr.FoldClash(n, sub);
      Cidr.NetContainsSoundIffNoClash(n, sub);
    }
  }

  /** So it never misses a coverer whose networks do not clash. */
  lemma {:induction false} CoveredIsReached(a: seq<AddrElem>, b: seq<AddrElem>)
    requires AddrsCovered(a, b) && AddrsUnclashed(a, b)
    ensures AddrReach(a, b)
  {
    AddrsUnclashedIsGenuine(a, b);
    CoveredReachedIffGenuine(a, b);
    if b != [] && b[0].Network? { assert b[0] == Network(b[0].net); }
  }

  /** The (position, element) pairs of the rules that are not "any". */
  ghost function PostedBy(added: map<nat, seq<AddrElem>>): set<(nat, AddrElem)> {
    set j, e | j in added && !IsAnyAddr(added[j]) && e in added[j] :: (j, e)
  }

  ghost predicate HoldsNet(posted: set<(nat, AddrElem)>, key: Cidr.Key, j: nat) {
    exists n :: (j, Network(n)) in posted && Cidr.KeyOf(n) == key
  }

  ghost predicate HasLen(net: map<Cidr.Key, Posting>, bits: nat, ones: nat) {
    exists k :: k in net && |k.masked| == bits && k.ones == ones
  }

  /** Each network bucket lists the positions posted with a network of that key. */
  ghost predicate NetBuckets(net: map<Cidr.Key, Posting>, posted: set<(nat, AddrElem)>) {
    && (forall k :: Ascending(Lookup(net, k)))
    && (forall k, j: nat :: j in Lookup(net, k) <==> HoldsNet(posted, k, j))
  }

  lemma {:induction false} NetBucketsPost(net: map<Cidr.Key, Posting>, posted: set<(nat, AddrElem)>,
                                          idx: nat, n: Cidr.Net)
    requires NetBuckets(net, posted) && forall p :: p in posted ==> p.0 <= idx
    ensures NetBuckets(net[Cidr.KeyOf(n) := Post(Lookup(net, Cidr.KeyOf(n)), idx)], posted + {(idx, Network(n))})
  {
    var k := Cidr.KeyOf(n);
    var after := posted + {(idx, Network(n))};
    var net' := net[k := Post(Lookup(net, k), idx)];
    forall key, j: nat
      ensures HoldsNet(after, key, j) <==> HoldsNet(posted, key, j) || (j == idx && key == k)
    {
      assert (idx, Network(n)) in after;
      if HoldsNet(posted, key, j) {
        var m :| (j, Network(m)) in posted && Cidr.KeyOf(m) == key;
        assert (j, Network(m)) in after;
      }
    }
    PostAdds(Lookup(net, k), idx);
    assert forall key :: Lookup(net', key) == if key == k then Post(Lookup(net, k), idx) else Lookup(net, key);
  }

  lemma {:induction false} NonNetPost(net: map<Cidr.Key, Posting>, posted: set<(nat, AddrElem)>, idx: nat, e: AddrElem)
    requires NetBuckets(net, posted) && !e.Network?
    ensures NetBuckets(net, posted + {(idx, e)})
  {}

  class AddrDim {
    var any: Posting
    var net: map<Cidr.Key, Posting>
    var str: map<AddrElem, Posting>
    const lens4: array<bool>
    const lens6: array<bool>
    ghost var added: map<nat, seq<AddrElem>>

    /** `lens` marks a prefix length iff some network key of that length exists. */
    ghost predicate Lens()
      reads this, lens4, lens6
    {
      && lens4.Length == 33 && lens6.Length == 129 && lens4 != lens6
      && (forall l :: 0 <= l < 33 ==> (lens4[l] <==> HasLen(net, 32, l)))
      && (forall l :: 0 <= l < 129 ==> (lens6[l] <==> HasLen(net, 128, l)))
    }

    /** The buckets hold exactly the `posted` pairs. */
    ghost predicate Holds(posted: set<(nat, AddrElem)>)
      reads this, lens4, lens6
    {
      Buckets(str, posted) && NetBuckets(net, posted) && Lens()
    }

    ghost predicate Valid()
      reads this, lens4, lens6
    {
      && Ascending(any)
      && (forall j :: j in any <==> j in added && IsAnyAddr(added[j]))
      && Holds(PostedBy(added))
    }

    constructor ()
      ensures Valid() && added == map[] && fresh(lens4) && fresh(lens6)
    {
      any, net, str := [], map[], map[];
      lens4 := new bool[33](_ => false);
      lens6 := new bool[129](_ => false);
      added := map[];
    }

    method Add(idx: nat, addrs: seq<AddrElem>)
      requires Valid() && forall j :: j in added ==> j < idx
      modifies this, lens4, lens6
      ensures Valid() && added == old(added)[idx := addrs]
    {
      ghost var before := PostedBy(added);
      if IsAnyAddr(addrs) {
        forall k | 0 <= k < |any|
          ensures any[k] < idx
        {
          assert any[k] in any;
        }
        any := any + [idx];
        added := added[idx := addrs];
        assert PostedBy(added) == before;
        return;
      }
      ghost var posted := before;
      for n := 0 to |addrs|
        invariant unchanged(`any) && unchanged(`added)
        invariant Holds(posted)
        invariant posted == before + set e | e in addrs[..n] :: (idx, e)
      {
        assert addrs[..n + 1] == addrs[..n] + [addrs[n]];
        AddElem(idx, addrs[n], posted);
        posted := posted + {(idx, addrs[n])};
      }
      added := added[idx := addrs];
      assert addrs[..|addrs|] == addrs;
      assert PostedBy(added) == posted;
    }

    method AddElem(idx: nat, e: AddrElem, ghost posted: set<(nat, AddrElem)>)
      requires Holds(posted) && forall p :: p in posted ==> p.0 <= idx
      modifies `str, `net, lens4, lens6
      ensures Holds(posted + {(idx, e)})
    {
      BucketsPost(str, posted, idx, e);
      str := str[e := Post(Lookup(str, e), idx)];
      if !e.Network? {
        NonNetPost(net, posted, idx, e);
        return;
      }
      NetBucketsPost(net, posted, idx, e.net);
      var k := Cidr.KeyOf(e.net);
      PostNet(idx, k);
    }

    method PostNet(idx: nat, k: Cidr.Key)
      requires Lens() && k.ones <= |k.masked|
      modifies `net, lens4, lens6
      ensures Lens() && net == old(net)[k := Post(Lookup(old(net), k), idx)]
    {
      net := net[k := Post(Lookup(net, k), idx)];
      if |k.masked| == 32 {
        lens4[k.ones] := true;
      } else {
        lens6[k.ones] := true;
      }
      forall bits, l
        ensures HasLen(net, bits, l) <==>
          HasLen(old(net), bits, l) || (bits == |k.masked| && l == k.ones)
      {
        assert k in net;
        if HasLen(old(net), bits, l) {
          var key :| key in old(net) && |key.masked| == bits && key.ones == l;
          assert key in net;
        }
      }
    }

    /** The lists hold exactly the added positions whose addresses reach `addrs`. */
    method Query(addrs: seq<AddrElem>) returns (lists: seq<Posting>)
      requires Valid()
      ensures AllAscending(lists)
      ensures forall j: nat :: InLists(lists, j) <==> j in added && AddrReach(added[j], addrs)
    {
      if IsAnyAddr(addrs) {
        lists := Pair(any, []);
        return;
      }
      var be := addrs[0];
      ghost var posted := PostedBy(added);
      if !be.Network? {
        assert forall j: nat :: (j, be) in posted <==> j in added && !IsAnyAddr(added[j]) && be in added[j];
        lists := Pair(any, Lookup(str, be));
        return;
      }
      var ip, ones := Cidr.Fold(be.net.ip), Cidr.FoldedOnes(be.net);
      lists := Keep([], any);
      for l := 0 to ones + 1
        invariant AllAscending(lists)
        invariant forall j: nat :: InLists(lists, j) <==> j in any || Probed(ip, l, j)
      {
        var k := Cidr.CidrKey(ip, l);
        var present := if |ip| == 32 then lens4[l] else lens6[l];
        if present {
          lists := Keep(lists, Lookup(net, k));
        } else {
          assert k !in net;
        }
      }
      forall j: nat
        ensures Probed(ip, ones + 1, j) <==> j in added && !IsAnyAddr(added[j]) && FirstReached(added[j], be)
      {
        ProbedIffReached(be.net, j);
      }
    }

    /** Position `j` sits in the bucket of some prefix of `ip` shorter than `bound`. */
    ghost predicate Probed(ip: Cidr.Address, bound: nat, j: nat)
      reads this
    {
      exists l: nat :: l < bound && j in Lookup(net, Cidr.CidrKey(ip, l))
    }

    lemma {:induction false} ProbedIffReached(sub: Cidr.Net, j: nat)
      requires Valid()
      ensures Probed(Cidr.Fold(sub.ip), Cidr.FoldedOnes(sub) + 1, j)
         <==> j in added && !IsAnyAddr(added[j]) && FirstReached(added[j], Network(sub))
    {
      var ip, ones := Cidr.Fold(sub.ip), Cidr.FoldedOnes(sub);
      var posted := PostedBy(added);
      if Probed(ip, ones + 1, j) {
        var l: nat :| l < ones + 1 && j in Lookup(net, Cidr.CidrKey(ip, l));
        var n :| (j, Network(n)) in posted && Cidr.KeyOf(n) == Cidr.CidrKey(ip, l);
        Cidr.ProbeFindsIffWithin(n, sub);
        assert Network(n) in added[j];
      }
      if j in added && !IsAnyAddr(added[j]) && FirstReached(added[j], Network(sub)) {
        var n :| Network(n) in added[j] && Cidr.Within(sub, n);
        Cidr.ProbeFindsIffWithin(n, sub);
        var l: nat :| l <= ones && Cidr.CidrKey(ip, l) == Cidr.KeyOf(n);
        assert (j, Network(n)) in posted;
        assert HoldsNet(posted, Cidr.CidrKey(ip, l), j);
      }
    }
  }
}
