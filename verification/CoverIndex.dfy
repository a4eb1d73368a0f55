/** The six-dimension cover index and its leapfrog intersection
    (fwrule/coverindex.go:36-165). */
module CoverIndex {
  import opened Postings
  import opened Rules
  import opened Text
  import opened NameIndex
  import opened AddrIndex
  import opened PortIndex
  import SegmentTree

  const PORT_BITS: nat := 16

  const PORT_SPACE: nat := 65536

  lemma PortSpace()
    ensures SegmentTree.Pow2(PORT_BITS) == PORT_SPACE
  {
    assert SegmentTree.Pow2(8) == 256;
    assert SegmentTree.Pow2(12) == 16 * SegmentTree.Pow2(8);
    assert SegmentTree.Pow2(16) == 16 * SegmentTree.Pow2(12);
  }

  /** What the two address dimensions can see of "`j` covers `i`". */
  ghost predicate Reached(j: Rule, i: Rule) {
    AddrReach(j.srcAddrs, i.srcAddrs) && AddrReach(j.dstAddrs, i.dstAddrs)
  }

  /** The first source and destination are genuinely included. */
  ghost predicate FirstsGenuine(j: Rule, i: Rule) {
    FirstGenuine(j.srcAddrs, i.srcAddrs) && FirstGenuine(j.dstAddrs, i.dstAddrs)
  }

  lemma {:induction false} CoveringReachedIffGenuine(j: Rule, i: Rule)
    requires Covers(j, i)
    ensures Reached(j, i) <==> FirstsGenuine(j, i)
  {
    AddrIndex.CoveredReachedIffGenuine(j.srcAddrs, i.srcAddrs);
    AddrIndex.CoveredReachedIffGenuine(j.dstAddrs, i.dstAddrs);
  }

  lemma {:induction false} CoveringRuleIsReached(j: Rule, i: Rule)
    requires Covers(j, i) && Unclashed(j, i)
    ensures Reached(j, i)
  {
    AddrIndex.CoveredIsReached(j.srcAddrs, i.srcAddrs);
    AddrIndex.CoveredIsReached(j.dstAddrs, i.dstAddrs);
  }

  /** The index's own copies of the wildcard lists, both on normalised text. */
  predicate IfaceWildcard(a: string) {
    var n := Norm(a);
    n == "" || n == "any" || n == "all" || n == "*"
  }

  predicate ProtoWildcard(p: string) {
    var n := Norm(p);
    n == "" || n == "any" || n == "ip" || n == "ip4" || n == "ipv4"
  }

  function IfaceTag(r: Rule): Tag {
    Tag(IfaceWildcard(r.iface), Norm(r.iface))
  }

  function ProtoTag(r: Rule): Tag {
    Tag(ProtoWildcard(r.proto), Norm(r.proto))
  }

  /** The interface and protocol dimensions over-answer too, although the index
      trims protocol names and `protoCovers` does not. */
  lemma {:induction false} NamesReached(j: Rule, i: Rule)
    requires Covers(j, i)
    ensures TagMatch(IfaceTag(j), Norm(i.iface))
    ensures TagMatch(ProtoTag(j), Norm(i.proto))
  {
    NormOfLower(j.proto);
    NormOfLower(i.proto);
    if ProtoToken(Lower(j.proto)) { TokensAreTrimmed(Lower(j.proto)); }
  }

  lemma {:induction false} TokensAreTrimmed(p: string)
    requires ProtoToken(p)
    ensures Trim(p) == p
  {}

  // ------------------------------------------------------------------------
  // The leapfrog join

  ghost predicate InAllDims(dims: seq<seq<Posting>>, j: nat) {
    forall d :: 0 <= d < |dims| ==> InLists(dims[d], j)
  }

  /** Every list holds registered positions only, in ascending order. */
  ghost predicate Drawn(dims: seq<seq<Posting>>, positions: set<nat>) {
    && (forall d :: 0 <= d < |dims| ==> AllAscending(dims[d]))
    && (forall d, j: nat :: 0 <= d < |dims| && InLists(dims[d], j) ==> j in positions)
  }

  /** Adds one dimension to the intersection. */
  method With(dims: seq<seq<Posting>>, d: seq<Posting>, ghost positions: set<nat>) returns (r: seq<seq<Posting>>)
    requires Drawn(dims, positions) && AllAscending(d)
    requires forall j: nat :: InLists(d, j) ==> j in positions
    ensures Drawn(r, positions) && |r| == |dims| + 1
    ensures forall j: nat :: InAllDims(r, j) <==> InAllDims(dims, j) && InLists(d, j)
  {
    r := dims + [d];
    forall j: nat
      ensures InAllDims(r, j) <==> InAllDims(dims, j) && InLists(d, j)
    {
      assert InAllDims(r, j) ==> InLists(r[|dims|], j);
      assert InAllDims(r, j) ==> forall k :: 0 <= k < |dims| ==> r[k] == dims[k];
    }
  }

  /** The lowest position listed by every dimension whose rule covers `ri`, or -1. */
  method Leapfrog(dims: seq<seq<Posting>>, rules: seq<Rule>, ri: Rule, ghost positions: set<nat>) returns (r: int)
    requires |dims| > 0
    requires Drawn(dims, positions) && forall j: nat :: j in positions ==> j < |rules|
    ensures -1 <= r < |rules|
    ensures r >= 0 ==> InAllDims(dims, r) && Covers(rules[r], ri)
    ensures forall j: nat :: InAllDims(dims, j) && j < |rules| && Covers(rules[j], ri) ==> 0 <= r <= j
  {
    for d := 0 to |dims| {
      if |dims[d]| == 0 {
        assert forall j: nat :: !InLists(dims[d], j);
        return -1;
      }
    }
    var x: nat := 0;
    while true
      invariant x <= |rules|
      invariant forall j: nat :: InAllDims(dims, j) && j < x ==> !Covers(rules[j], ri)
      decreases |rules| - x
    {
      var aligned := true;
      ghost var x0 := x;
      for d := 0 to |dims|
        invariant aligned && x == x0
        invariant forall m :: 0 <= m < d ==> InLists(dims[m], x)
      {
        var v, ok := SeekDim(dims[d], x);
        if !ok {
          assert forall j: nat :: x <= j ==> !InLists(dims[d], j);
          return -1;
        }
        if v > x {
          assert forall j: nat :: x <= j < v ==> !InLists(dims[d], j);
          assert v in positions;
          x := v;
          aligned := false;
          break;
        }
      }
      if !aligned {
        continue;
      }
      assert InLists(dims[0], x) && x in positions;
      var covers := RuleCovers(rules[x], ri);
      if covers {
        return x;
      }
      x := x + 1;
    }
  }

  ghost predicate NamesVisible(j: Rule, i: Rule) {
    TagMatch(IfaceTag(j), Norm(i.iface)) && TagMatch(ProtoTag(j), Norm(i.proto))
  }

  ghost predicate PortsVisible(j: Rule, i: Rule) {
    && (Constrained(i.srcPorts) ==> PortReach(PORT_SPACE, j.srcPorts, i.srcPorts))
    && (Constrained(i.dstPorts) ==> PortReach(PORT_SPACE, j.dstPorts, i.dstPorts))
  }

  /** All six dimensions list `j` when they answer for `i`. */
  ghost predicate Visible(j: Rule, i: Rule) {
    NamesVisible(j, i) && Reached(j, i) && PortsVisible(j, i)
  }

  /** Of the coverers, the six dimensions together miss exactly those the address
      dimensions cannot reach. */
  lemma {:induction false} VisibleIffReached(j: Rule, i: Rule)
    requires Covers(j, i)
    ensures Visible(j, i) <==> Reached(j, i)
  {
    NamesReached(j, i);
    if Constrained(i.srcPorts) { PortIndex.CoveredIsReached(PORT_SPACE, j.srcPorts, i.srcPorts); }
    if Constrained(i.dstPorts) { PortIndex.CoveredIsReached(PORT_SPACE, j.dstPorts, i.dstPorts); }
  }

  class CoverIndex {
    const iface: NameDim
    const proto: NameDim
    const src: AddrDim
    const dst: AddrDim
    const sport: PortDim
    const dport: PortDim
    /** The rule registered at each position. */
    ghost var added: map<nat, Rule>

    ghost predicate Separate() {
      && iface != proto && src != dst && sport != dport && sport.tree != dport.tree
      && src.lens4 != dst.lens4 && src.lens4 != dst.lens6
      && src.lens6 != dst.lens4 && src.lens6 != dst.lens6
    }

    // Each pair of dimensions has been told exactly the registered rules.

    ghost predicate NamesHold(rules: map<nat, Rule>)
      reads iface, proto
    {
      && iface.Valid() && iface.tags.Keys == rules.Keys
      && proto.Valid() && proto.tags.Keys == rules.Keys
      && forall j :: j in rules ==> iface.tags[j] == IfaceTag(rules[j]) && proto.tags[j] == ProtoTag(rules[j])
    }

    ghost predicate AddrsHold(rules: map<nat, Rule>)
      reads src, src.lens4, src.lens6, dst, dst.lens4, dst.lens6
    {
      && src.Valid() && src.added.Keys == rules.Keys
      && dst.Valid() && dst.added.Keys == rules.Keys
      && forall j :: j in rules ==> src.added[j] == rules[j].srcAddrs && dst.added[j] == rules[j].dstAddrs
    }

    ghost predicate PortsHold(rules: map<nat, Rule>)
      reads sport, sport.tree, dport, dport.tree
    {
      && sport.bits == dport.bits == PORT_BITS
      && sport.Valid() && sport.added.Keys == rules.Keys
      && dport.Valid() && dport.added.Keys == rules.Keys
      && forall j :: j in rules ==> sport.added[j] == rules[j].srcPorts && dport.added[j] == rules[j].dstPorts
    }

    ghost predicate Valid()
      reads this, iface, proto
      reads src, src.lens4, src.lens6, dst, dst.lens4, dst.lens6
      reads sport, sport.tree, dport, dport.tree
    {
      Separate() && NamesHold(added) && AddrsHold(added) && PortsHold(added)
    }

    constructor ()
      ensures Valid() && added == map[]
      ensures fresh(iface) && fresh(proto)
      ensures fresh(src) && fresh(src.lens4) && fresh(src.lens6)
      ensures fresh(dst) && fresh(dst.lens4) && fresh(dst.lens6)
      ensures fresh(sport) && fresh(sport.tree) && fresh(dport) && fresh(dport.tree)
    {
      hide NameDim.Valid, AddrDim.Valid, PortDim.Valid, SegmentTree.Pow2;
      hide CoverIndex.NamesHold, CoverIndex.AddrsHold, CoverIndex.PortsHold;
      iface := new NameDim();
      proto := new NameDim();
      src := new AddrDim();
      dst := new AddrDim();
      sport := new PortDim(PORT_BITS);
      dport := new PortDim(PORT_BITS);
      added := map[];
      new;
      NamesStart();
      AddrsStart();
      PortsStart();
    }

    lemma NamesStart()
      requires iface.Valid() && proto.Valid() && iface.tags == proto.tags == map[]
      ensures NamesHold(map[])
    {}

    lemma AddrsStart()
      requires src.Valid() && dst.Valid() && src.added == dst.added == map[]
      ensures AddrsHold(map[])
    {}

    lemma PortsStart()
      requires sport.Valid() && dport.Valid() && sport.added == dport.added == map[]
      requires sport.bits == dport.bits == PORT_BITS
      ensures PortsHold(map[])
    {}

    method Add(idx: nat, r: Rule)
      requires Valid() && forall j :: j in added ==> j < idx
      modifies `added, iface, proto
      modifies src, src.lens4, src.lens6, dst, dst.lens4, dst.lens6
      modifies sport, sport.tree, dport, dport.tree
      ensures Valid() && added == old(added)[idx := r]
    {
      hide CoverIndex.NamesHold, CoverIndex.AddrsHold, CoverIndex.PortsHold;
      AddNames(idx, r, added);
      AddAddrs(idx, r, added);
      AddPorts(idx, r, added);
      added := added[idx := r];
    }

    method AddNames(idx: nat, r: Rule, ghost was: map<nat, Rule>)
      requires iface != proto && NamesHold(was)
      requires forall j :: j in was ==> j < idx
      modifies iface, proto
      ensures NamesHold(was[idx := r])
    {
      hide NameDim.Valid, IfaceTag, ProtoTag;
      iface.Add(idx, IfaceTag(r));
      proto.Add(idx, ProtoTag(r));
    }

    method AddAddrs(idx: nat, r: Rule, ghost was: map<nat, Rule>)
      requires Separate() && AddrsHold(was)
      requires forall j :: j in was ==> j < idx
      modifies src, src.lens4, src.lens6, dst, dst.lens4, dst.lens6
      ensures AddrsHold(was[idx := r])
    {
      src.Add(idx, r.srcAddrs);
      dst.Add(idx, r.dstAddrs);
    }

    method AddPorts(idx: nat, r: Rule, ghost was: map<nat, Rule>)
      requires Separate() && PortsHold(was)
      requires forall j :: j in was ==> j < idx
      modifies sport, sport.tree, dport, dport.tree
      ensures PortsHold(was[idx := r])
    {
      sport.Add(idx, r.srcPorts);
      dport.Add(idx, r.dstPorts);
    }

    /** Collects the dimensions that constrain `ri`. */
    method Dimensions(ri: Rule) returns (dims: seq<seq<Posting>>)
      requires Valid()
      ensures |dims| > 0 && Drawn(dims, added.Keys)
      ensures forall j: nat :: InAllDims(dims, j) <==> j in added && Visible(added[j], ri)
    {
      hide NameDim.Valid, AddrDim.Valid, PortDim.Valid;
      dims := NameDims(ri, added);
      dims := AddrDims(ri, added, dims);
      dims := PortDims(ri, added, dims);
    }

    method NameDims(ri: Rule, ghost rules: map<nat, Rule>) returns (dims: seq<seq<Posting>>)
      requires NamesHold(rules)
      ensures |dims| > 0 && Drawn(dims, rules.Keys)
      ensures forall j: nat :: InAllDims(dims, j) <==> j in rules && NamesVisible(rules[j], ri)
    {
      var l := iface.Query(Norm(ri.iface));
      dims := With([], l, rules.Keys);
      l := proto.Query(Norm(ri.proto));
      dims := With(dims, l, rules.Keys);
    }

    method AddrDims(ri: Rule, ghost rules: map<nat, Rule>, dims0: seq<seq<Posting>>) returns (dims: seq<seq<Posting>>)
      requires AddrsHold(rules) && Drawn(dims0, rules.Keys)
      ensures |dims| >= |dims0| && Drawn(dims, rules.Keys)
      ensures forall j: nat :: InAllDims(dims, j) <==> InAllDims(dims0, j) && j in rules && Reached(rules[j], ri)
    {
      var l := src.Query(ri.srcAddrs);
      dims := With(dims0, l, rules.Keys);
      l := dst.Query(ri.dstAddrs);
      dims := With(dims, l, rules.Keys);
    }

    method PortDims(ri: Rule, ghost rules: map<nat, Rule>, dims0: seq<seq<Posting>>) returns (dims: seq<seq<Posting>>)
      requires PortsHold(rules) && Drawn(dims0, rules.Keys)
      requires forall j: nat :: InAllDims(dims0, j) ==> j in rules
      ensures |dims| >= |dims0| && Drawn(dims, rules.Keys)
      ensures forall j: nat :: InAllDims(dims, j) <==> InAllDims(dims0, j) && PortsVisible(rules[j], ri)
    {
      hide SegmentTree.Pow2;
      PortSpace();
      dims := dims0;
      var l, constrained := sport.Query(ri.srcPorts);
      if constrained {
        dims := With(dims, l, rules.Keys);
      }
      l, constrained := dport.Query(ri.dstPorts);
      if constrained {
        dims := With(dims, l, rules.Keys);
      }
    }

    /** The lowest added position whose rule covers `ri` among those the address
        dimensions can reach, or -1. */
    method FirstCoverer(rules: seq<Rule>, ri: Rule) returns (r: int)
      requires Valid()
      requires forall j :: j in added ==> j < |rules| && rules[j] == added[j]
      ensures r >= 0 ==> r in added && Covers(added[r], ri) && Reached(added[r], ri)
      ensures forall j :: j in added && Covers(added[j], ri) && Reached(added[j], ri) ==> 0 <= r <= j
      ensures -1 <= r
    {
      hide NameDim.Valid, AddrDim.Valid, PortDim.Valid;
      var dims := Dimensions(ri);
      r := Leapfrog(dims, rules, ri, added.Keys);
      forall j: nat | j in added && Covers(added[j], ri)
        ensures Visible(added[j], ri) <==> Reached(added[j], ri)
      {
        VisibleIffReached(added[j], ri);
      }
    }
  }
}
