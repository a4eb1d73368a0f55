/** The vendor-neutral rule and the match-containment relation (fwrule/rule.go).
    Address and port elements are taken as already parsed: the "any" tokens, one
    network or port range, or a name the parser could not read. */
module Rules {
  import opened Text
  import Cidr

  datatype Action = Allow | Deny | Other

  /** `AnyV4` and `AnyV6` are the texts 0.0.0.0/0 and ::/0. */
  datatype AddrElem = AnyAddr | AnyV4 | AnyV6 | Network(net: Cidr.Net) | NamedAddr(name: string)

  /** Ranges are as read: inverted and out-of-domain ones are values too. */
  datatype PortElem = AnyPort | Range(lo: int, hi: int) | Service(name: string)

  datatype Rule = Rule(
    index: int,
    action: Action,
    iface: string,
    proto: string,
    srcAddrs: seq<AddrElem>,
    dstAddrs: seq<AddrElem>,
    srcPorts: seq<PortElem>,
    dstPorts: seq<PortElem>,
    enabled: bool,
    conditional: bool)

  predicate IsAnyAddr(addrs: seq<AddrElem>) {
    addrs == [] || AnyAddr in addrs || AnyV4 in addrs || AnyV6 in addrs
  }

  predicate IsAnyPort(ports: seq<PortElem>) {
    ports == [] || AnyPort in ports
  }

  predicate AddrCovers(a: AddrElem, b: AddrElem) {
    if b.Network? then a.Network? && Cidr.NetContains(a.net, b.net) else a == b
  }

  predicate PortCovers(a: PortElem, b: PortElem) {
    if b.Range? then a.Range? && a.lo <= b.lo && b.hi <= a.hi else a == b
  }

  predicate SomeAddrCovers(a: seq<AddrElem>, e: AddrElem) {
    exists s :: s in a && AddrCovers(s, e)
  }

  predicate SomePortCovers(a: seq<PortElem>, e: PortElem) {
    exists s :: s in a && PortCovers(s, e)
  }

  /** Every element of `b` is contained in some element of `a`. */
  predicate AddrsCovered(a: seq<AddrElem>, b: seq<AddrElem>) {
    IsAnyAddr(a) || (!IsAnyAddr(b) && forall e :: e in b ==> SomeAddrCovers(a, e))
  }

  predicate PortsCovered(a: seq<PortElem>, b: seq<PortElem>) {
    IsAnyPort(a) || (!IsAnyPort(b) && forall e :: e in b ==> SomePortCovers(a, e))
  }

  predicate ProtoToken(p: string) {
    p == "" || p == "any" || p == "ip" || p == "ip4" || p == "ipv4"
  }

  predicate IfaceToken(i: string) {
    i == "" || i == "any" || i == "all" || i == "*"
  }

  /** Case is folded here but, unlike for interfaces, blanks are kept. */
  predicate ProtoCovers(a: string, b: string) {
    ProtoToken(Lower(a)) || Lower(a) == Lower(b)
  }

  predicate IfaceCovers(a: string, b: string) {
    IfaceToken(Norm(a)) || Norm(a) == Norm(b)
  }

  predicate Covers(j: Rule, i: Rule) {
    && !j.conditional
    && IfaceCovers(j.iface, i.iface)
    && ProtoCovers(j.proto, i.proto)
    && AddrsCovered(j.srcAddrs, i.srcAddrs)
    && AddrsCovered(j.dstAddrs, i.dstAddrs)
    && PortsCovered(j.srcPorts, i.srcPorts)
    && PortsCovered(j.dstPorts, i.dstPorts)
  }

  predicate SameMatch(j: Rule, i: Rule) {
    Covers(j, i) && Covers(i, j)
  }

  // ------------------------------------------------------------------------
  // The loops of the source, each against its declarative form

  /** The network an element parses as, if any. */
  function NetOf(e: AddrElem): (nets: seq<Cidr.Net>)
    ensures |nets| <= 1
  {
    match e
    case AnyV4 => [Cidr.EveryNet(32)]
    case AnyV6 => [Cidr.EveryNet(128)]
    case Network(n) => [n]
    case _ => []
  }

  method ToNets(addrs: seq<AddrElem>) returns (nets: seq<Cidr.Net>)
    ensures forall n :: n in nets <==> exists e :: e in addrs && n in NetOf(e)
  {
    nets := [];
    for k := 0 to |addrs|
      invariant forall n :: n in nets <==> exists e :: e in addrs[..k] && n in NetOf(e)
    {
      assert addrs[..k + 1] == addrs[..k] + [addrs[k]];
      nets := nets + NetOf(addrs[k]);
    }
    assert addrs[..|addrs|] == addrs;
  }

  method ToRanges(ports: seq<PortElem>) returns (rs: seq<(int, int)>)
    ensures forall r :: r in rs <==> Range(r.0, r.1) in ports
  {
    rs := [];
    for k := 0 to |ports|
      invariant forall r :: r in rs <==> Range(r.0, r.1) in ports[..k]
    {
      assert ports[..k + 1] == ports[..k] + [ports[k]];
      if ports[k].Range? {
        rs := rs + [(ports[k].lo, ports[k].hi)];
      }
    }
    assert ports[..|ports|] == ports;
  }

  lemma {:induction false} NetsOfProper(a: seq<AddrElem>, nets: seq<Cidr.Net>)
    requires !IsAnyAddr(a)
    requires forall n :: n in nets <==> exists e :: e in a && n in NetOf(e)
    ensures forall n :: n in nets <==> Network(n) in a
  {
    forall n
      ensures n in nets <==> Network(n) in a
    {
      assert n in NetOf(Network(n));
    }
  }

  method AddrsCover(a: seq<AddrElem>, b: seq<AddrElem>) returns (ok: bool)
    ensures ok == AddrsCovered(a, b)
  {
    if IsAnyAddr(a) {
      return true;
    }
    if IsAnyAddr(b) {
      return false;
    }
    var nets := ToNets(a);
    assert forall n :: n in nets <==> Network(n) in a by { NetsOfProper(a, nets); }
    for k := 0 to |b|
      invariant forall e :: e in b[..k] ==> SomeAddrCovers(a, e)
    {
      assert b[..k + 1] == b[..k] + [b[k]];
      if !b[k].Network? {
        if b[k] !in a {
          assert b[k] in b && !SomeAddrCovers(a, b[k]);
          return false;
        }
        assert AddrCovers(b[k], b[k]);
      } else {
        var found := AnyNetContains(nets, b[k].net);
        if !found {
          forall s | s in a
            ensures !AddrCovers(s, b[k])
          {
            if s.Network? { assert s.net in nets; }
          }
          assert b[k] in b;
          return false;
        }
        var n :| n in nets && Cidr.NetContains(n, b[k].net);
        assert Network(n) in a && AddrCovers(Network(n), b[k]);
      }
    }
    assert b[..|b|] == b;
    return true;
  }

  method AnyNetContains(nets: seq<Cidr.Net>, sub: Cidr.Net) returns (found: bool)
    ensures found <==> exists n :: n in nets && Cidr.NetContains(n, sub)
  {
    for k := 0 to |nets|
      invariant forall n :: n in nets[..k] ==> !Cidr.NetContains(n, sub)
    {
      if Cidr.NetContains(nets[k], sub) {
        return true;
      }
      assert nets[..k + 1] == nets[..k] + [nets[k]];
    }
    assert nets[..|nets|] == nets;
    return false;
  }

  method PortsCover(a: seq<PortElem>, b: seq<PortElem>) returns (ok: bool)
    ensures ok == PortsCovered(a, b)
  {
    if IsAnyPort(a) {
      return true;
    }
    if IsAnyPort(b) {
      return false;
    }
    var ar := ToRanges(a);
    for k := 0 to |b|
      invariant forall e :: e in b[..k] ==> SomePortCovers(a, e)
    {
      assert b[..k + 1] == b[..k] + [b[k]];
      if !b[k].Range? {
        if b[k] !in a {
          assert b[k] in b && !SomePortCovers(a, b[k]);
          return false;
        }
        assert PortCovers(b[k], b[k]);
      } else {
        var found := RangeCoveredBy(b[k].lo, b[k].hi, ar);
        if !found {
          forall s | s in a
            ensures !PortCovers(s, b[k])
          {
            if s.Range? { assert (s.lo, s.hi) in ar; }
          }
          assert b[k] in b;
          return false;
        }
        var s :| s in ar && s.0 <= b[k].lo && b[k].hi <= s.1;
        assert Range(s.0, s.1) in a && PortCovers(Range(s.0, s.1), b[k]);
      }
    }
    assert b[..|b|] == b;
    return true;
  }

  method RangeCoveredBy(lo: int, hi: int, rs: seq<(int, int)>) returns (found: bool)
    ensures found <==> exists s :: s in rs && s.0 <= lo && hi <= s.1
  {
    for k := 0 to |rs|
      invariant forall s :: s in rs[..k] ==> !(s.0 <= lo && hi <= s.1)
    {
      if rs[k].0 <= lo && hi <= rs[k].1 {
        return true;
      }
      assert rs[..k + 1] == rs[..k] + [rs[k]];
    }
    assert rs[..|rs|] == rs;
    return false;
  }

  method RuleCovers(j: Rule, i: Rule) returns (ok: bool)
    ensures ok == Covers(j, i)
  {
    if j.conditional || !IfaceCovers(j.iface, i.iface) || !ProtoCovers(j.proto, i.proto) {
      return false;
    }
    ok := AddrsCover(j.srcAddrs, i.srcAddrs);
    if !ok { return; }
    ok := AddrsCover(j.dstAddrs, i.dstAddrs);
    if !ok { return; }
    ok := PortsCover(j.srcPorts, i.srcPorts);
    if !ok { return; }
    ok := PortsCover(j.dstPorts, i.dstPorts);
  }

  // ------------------------------------------------------------------------
  // The order that containment puts on rules

  /** Some network of `a` includes `n`, and not through a clash. */
  ghost predicate GenuineFor(a: seq<AddrElem>, n: Cidr.Net) {
    exists m :: Network(m) in a && Cidr.NetContains(m, n) && !Cidr.FoldClash(m, n)
  }

  /** Every network of `b` is genuinely included: a caller can check it before the
      call. */
  ghost predicate AddrsGenuine(a: seq<AddrElem>, b: seq<AddrElem>) {
    IsAnyAddr(a) || forall n :: Network(n) in b ==> GenuineFor(a, n)
  }

  /** The same for the first element of `b` alone. */
  ghost predicate FirstGenuine(a: seq<AddrElem>, b: seq<AddrElem>) {
    IsAnyAddr(a) || (b != [] && b[0].Network? ==> GenuineFor(a, b[0].net))
  }

  ghost predicate Genuine(j: Rule, i: Rule) {
    AddrsGenuine(j.srcAddrs, i.srcAddrs) && AddrsGenuine(j.dstAddrs, i.dstAddrs)
  }

  /** No network of `a` clashes with one of `b` in the sense of `Cidr.FoldClash`. */
  ghost predicate AddrsUnclashed(a: seq<AddrElem>, b: seq<AddrElem>) {
    forall m, n :: Network(m) in a && Network(n) in b ==> !Cidr.FoldClash(m, n)
  }

  ghost predicate Unclashed(j: Rule, i: Rule) {
    AddrsUnclashed(j.srcAddrs, i.srcAddrs) && AddrsUnclashed(j.dstAddrs, i.dstAddrs)
  }

  lemma {:induction false} AddrsUnclashedIsGenuine(a: seq<AddrElem>, b: seq<AddrElem>)
    requires AddrsCovered(a, b) && AddrsUnclashed(a, b)
    ensures AddrsGenuine(a, b)
  {
    if !IsAnyAddr(a) {
      forall n | Network(n) in b
        ensures GenuineFor(a, n)
      {
        var s :| s in a && AddrCovers(s, Network(n));
        assert s == Network(s.net);
      }
    }
  }

  lemma {:induction false} UnclashedIsGenuine(j: Rule, i: Rule)
    requires Covers(j, i) && Unclashed(j, i)
    ensures Genuine(j, i)
  {
    AddrsUnclashedIsGenuine(j.srcAddrs, i.srcAddrs);
    AddrsUnclashedIsGenuine(j.dstAddrs, i.dstAddrs);
  }

  predicate SingleAddrs(r: Rule) {
    |r.srcAddrs| <= 1 && |r.dstAddrs| <= 1
  }

  /** The one pair of networks, when one single-address list covers another by
      networks. */
  lemma {:induction false} SingleNetworks(a: seq<AddrElem>, b: seq<AddrElem>)
    requires AddrsCovered(a, b) && !IsAnyAddr(a) && |a| <= 1 && |b| <= 1
    ensures |a| == |b| == 1 && (b[0].Network? ==> a[0].Network? && Cidr.NetContains(a[0].net, b[0].net))
    ensures AddrsUnclashed(a, b) <==> !(b[0].Network? && Cidr.FoldClash(a[0].net, b[0].net))
  {
    assert b[0] in b && SomeAddrCovers(a, b[0]) && AddrCovers(a[0], b[0]);
    assert a == [a[0]] && b == [b[0]];
    assert forall x :: Network(x) in a <==> a[0] == Network(x);
    assert forall x :: Network(x) in b <==> b[0] == Network(x);
  }

  lemma {:induction false} SingleGenuineIsUnclashed(a: seq<AddrElem>, b: seq<AddrElem>)
    requires AddrsCovered(a, b) && |a| <= 1 && |b| <= 1
    ensures AddrsGenuine(a, b) <==> AddrsUnclashed(a, b)
  {
    hide Cidr.NetContains, Cidr.FoldClash;
    if !IsAnyAddr(a) {
      SingleNetworks(a, b);
      if AddrsUnclashed(a, b) { AddrsUnclashedIsGenuine(a, b); }
      if b[0].Network? && AddrsGenuine(a, b) {
        assert b[0] == Network(b[0].net) && GenuineFor(a, b[0].net);
      }
    }
  }

  lemma {:induction false} CoversReflexive(r: Rule)
    ensures Covers(r, r) <==> !r.conditional
  {}

  /** Some network of `a` is accepted as containing `n`. */
  ghost predicate Accepts(a: seq<AddrElem>, n: Cidr.Net) {
    exists m :: Network(m) in a && Cidr.NetContains(m, n)
  }

  /** `n` is genuinely included, or accepted all the same and so are its halves. */
  ghost predicate Composes(a: seq<AddrElem>, n: Cidr.Net)
    decreases |n.ip| - n.ones
  {
    || GenuineFor(a, n)
    || (Accepts(a, n) && n.ones < |n.ip| && Composes(a, Cidr.Half(n, false)) && Composes(a, Cidr.Half(n, true)))
  }

  ghost predicate AddrsCompose(a: seq<AddrElem>, b: seq<AddrElem>) {
    IsAnyAddr(a) || forall n :: Network(n) in b ==> Composes(a, n)
  }

  ghost predicate Composing(k: Rule, j: Rule) {
    AddrsCompose(k.srcAddrs, j.srcAddrs) && AddrsCompose(k.dstAddrs, j.dstAddrs)
  }

  lemma {:induction false} GenuineComposes(k: Rule, j: Rule)
    requires Genuine(k, j)
    ensures Composing(k, j)
  {
    hide GenuineFor;
  }

  lemma {:induction false} ComposesAccepts(a: seq<AddrElem>, n: Cidr.Net, c: Cidr.Net)
    requires Composes(a, n) && Cidr.NetContains(n, c)
    ensures Accepts(a, c)
    decreases |n.ip| - n.ones
  {
    hide Cidr.NetContains, Cidr.FoldClash;
    if GenuineFor(a, n) {
      var m :| Network(m) in a && Cidr.NetContains(m, n) && !Cidr.FoldClash(m, n);
      Cidr.NetContainsTransitive(m, n, c);
    } else {
      var m :| Network(m) in a && Cidr.NetContains(m, n);
      ClashIsMapped(m, n);
      Cidr.ContainedInHalf(n, c);
      Cidr.NoWider(n, c);
      if c != n { ComposesAccepts(a, Cidr.Half(n, c.ip[n.ones]), c); }
    }
  }

  lemma ClashIsMapped(m: Cidr.Net, n: Cidr.Net)
    ensures Cidr.FoldClash(m, n) ==> Cidr.Mapped(n.ip)
  {}

  /** Where `n` does not compose it contains a network that `a` refuses. */
  lemma {:induction false} Refused(a: seq<AddrElem>, n: Cidr.Net) returns (c: Cidr.Net)
    requires !Composes(a, n)
    ensures Cidr.NetContains(n, c) && !Accepts(a, c)
    decreases |n.ip| - n.ones
  {
    hide Cidr.NetContains, Cidr.FoldClash;
    if !Accepts(a, n) {
      Cidr.NetContainsReflexive(n);
      c := n;
    } else {
      var m :| Network(m) in a && Cidr.NetContains(m, n);
      assert Cidr.FoldClash(m, n);
      Cidr.ClashLeavesRoom(m, n);
      var bit := Composes(a, Cidr.Half(n, false));
      Cidr.HalfIsContained(n, bit);
      c := Refused(a, Cidr.Half(n, bit));
      Cidr.MappedOuterNeverClashes(n, Cidr.Half(n, bit));
      Cidr.NetContainsTransitive(n, Cidr.Half(n, bit), c);
    }
  }

  lemma {:induction false} AddrsCoveredTransitive(a: seq<AddrElem>, b: seq<AddrElem>, c: seq<AddrElem>)
    requires AddrsCovered(a, b) && AddrsCovered(b, c) && AddrsCompose(a, b)
    ensures AddrsCovered(a, c)
  {
    hide Composes, Cidr.NetContains;
    if !IsAnyAddr(a) {
      forall e | e in c
        ensures SomeAddrCovers(a, e)
      {
        var m :| m in b && AddrCovers(m, e);
        if e.Network? {
          assert m == Network(m.net);
          ComposesAccepts(a, m.net, e.net);
          var n :| Network(n) in a && Cidr.NetContains(n, e.net);
          assert AddrCovers(Network(n), e);
        }
      }
    }
  }

  lemma {:induction false} AddrsRefused(a: seq<AddrElem>, b: seq<AddrElem>) returns (c: seq<AddrElem>)
    requires !AddrsCompose(a, b)
    ensures AddrsCovered(b, c) && !AddrsCovered(a, c)
  {
    hide Composes, Cidr.NetContains;
    var n :| Network(n) in b && !Composes(a, n);
    var e := Refused(a, n);
    c := [Network(e)];
    assert AddrCovers(Network(n), c[0]) && SomeAddrCovers(b, c[0]);
    forall s | s in a
      ensures !AddrCovers(s, c[0])
    {
      if s.Network? { assert s == Network(s.net); }
    }
    assert c[0] in c && !SomeAddrCovers(a, c[0]);
  }

  lemma {:induction false} PortsCoveredTransitive(a: seq<PortElem>, b: seq<PortElem>, c: seq<PortElem>)
    requires PortsCovered(a, b) && PortsCovered(b, c)
    ensures PortsCovered(a, c)
  {}

  lemma {:induction false} CoversTransitive(k: Rule, j: Rule, i: Rule)
    requires Covers(k, j) && Covers(j, i) && Composing(k, j)
    ensures Covers(k, i)
  {
    AddrsCoveredTransitive(k.srcAddrs, j.srcAddrs, i.srcAddrs);
    AddrsCoveredTransitive(k.dstAddrs, j.dstAddrs, i.dstAddrs);
    PortsCoveredTransitive(k.srcPorts, j.srcPorts, i.srcPorts);
    PortsCoveredTransitive(k.dstPorts, j.dstPorts, i.dstPorts);
  }

  /** What `j` covers is covered by `k` too iff the networks of `j` compose with
      those of `k`. */
  lemma {:induction false} CoversTransitiveIff(k: Rule, j: Rule)
    requires Covers(k, j) && !j.conditional
    ensures (forall i :: Covers(j, i) ==> Covers(k, i)) <==> Composing(k, j)
  {
    hide AddrsCovered, PortsCovered, AddrsCompose;
    CoversReflexive(j);
    if Composing(k, j) {
      forall i | Covers(j, i)
        ensures Covers(k, i)
      {
        CoversTransitive(k, j, i);
      }
    }
    if !AddrsCompose(k.srcAddrs, j.srcAddrs) {
      var c := AddrsRefused(k.srcAddrs, j.srcAddrs);
      assert Covers(j, j.(srcAddrs := c)) && !Covers(k, j.(srcAddrs := c));
    }
    if !AddrsCompose(k.dstAddrs, j.dstAddrs) {
      var c := AddrsRefused(k.dstAddrs, j.dstAddrs);
      assert Covers(j, j.(dstAddrs := c)) && !Covers(k, j.(dstAddrs := c));
    }
  }

  /** Without clashes they always do, and between single networks only then. */
  lemma {:induction false} ComposingIffUnclashedOnSingles(k: Rule, j: Rule)
    requires Covers(k, j)
    ensures Unclashed(k, j) ==> Composing(k, j)
    ensures SingleAddrs(k) && SingleAddrs(j) && Composing(k, j) ==> Unclashed(k, j)
  {
    hide AddrsCovered, AddrsCompose, AddrsUnclashed;
    if Unclashed(k, j) {
      UnclashedIsGenuine(k, j);
      GenuineComposes(k, j);
    }
    if SingleAddrs(k) && SingleAddrs(j) && Composing(k, j) {
      SingleComposesIsUnclashed(k.srcAddrs, j.srcAddrs);
      SingleComposesIsUnclashed(k.dstAddrs, j.dstAddrs);
    }
  }

  lemma {:induction false} SingleComposesIsUnclashed(a: seq<AddrElem>, b: seq<AddrElem>)
    requires AddrsCovered(a, b) && |a| <= 1 && |b| <= 1 && AddrsCompose(a, b)
    ensures AddrsUnclashed(a, b)
  {
    hide Cidr.NetContains, Cidr.FoldClash, AddrsCovered, Composes;
    if !AddrsUnclashed(a, b) {
      var m, n :| Network(m) in a && Network(n) in b && Cidr.FoldClash(m, n);
      assert a == [Network(m)] && b == [Network(n)];
      SingleNetworks(a, b);
      var e := Cidr.ClashEscapes(m, n);
      ComposesAccepts(a, n, e);
      assert false;
    }
  }

  lemma {:induction false} LoneCover(x: AddrElem, z: AddrElem, c: seq<AddrElem>)
    requires x.Network? && z in c && !AddrCovers(x, z)
    ensures !AddrsCovered([x], c)
  {
    hide AddrCovers;
    assert !IsAnyAddr([x]) && !SomeAddrCovers([x], z);
  }

  lemma NetworkCovers(m: Cidr.Net, n: Cidr.Net)
    ensures AddrCovers(Network(m), Network(n)) <==> Cidr.NetContains(m, n)
    ensures Cidr.NetContains(m, n) ==> AddrsCovered([Network(m)], [Network(n)])
  {
    hide Cidr.NetContains;
    assert Network(m) in [Network(m)];
  }

  /** `SameMatch` is reflexive on unconditional rules, symmetric, and transitive
      where their networks compose. */
  lemma {:induction false} SameMatchEquivalence(a: Rule, b: Rule, c: Rule)
    requires !a.conditional
    ensures SameMatch(a, a)
    ensures SameMatch(a, b) <==> SameMatch(b, a)
    ensures SameMatch(a, b) && SameMatch(b, c) && Composing(a, b) && Composing(c, b) ==> SameMatch(a, c)
  {
    CoversReflexive(a);
    if SameMatch(a, b) && SameMatch(b, c) && Composing(a, b) && Composing(c, b) {
      CoversTransitive(a, b, c);
      CoversTransitive(c, b, a);
    }
  }

  /** On rules with single addresses it is always transitive: networks that contain
      each other cannot clash. */
  lemma {:induction false} SameMatchTransitiveOnSingles(a: Rule, b: Rule, c: Rule)
    requires SingleAddrs(a) && SingleAddrs(b) && SingleAddrs(c)
    requires SameMatch(a, b) && SameMatch(b, c)
    ensures SameMatch(a, c)
  {
    MutualCoverIsGenuine(a.srcAddrs, b.srcAddrs);
    MutualCoverIsGenuine(a.dstAddrs, b.dstAddrs);
    MutualCoverIsGenuine(c.srcAddrs, b.srcAddrs);
    MutualCoverIsGenuine(c.dstAddrs, b.dstAddrs);
    GenuineComposes(a, b);
    GenuineComposes(c, b);
    CoversTransitive(a, b, c);
    CoversTransitive(c, b, a);
  }

  lemma {:induction false} MutualCoverIsGenuine(a: seq<AddrElem>, b: seq<AddrElem>)
    requires AddrsCovered(a, b) && AddrsCovered(b, a) && |a| <= 1 && |b| <= 1
    ensures AddrsGenuine(a, b)
  {
    if !IsAnyAddr(a) {
      SingleNetworks(a, b);
      SingleNetworks(b, a);
      if b[0].Network? { assert Cidr.Mapped(b[0].net.ip) ==> b[0].net.ip[95]; }
      SingleGenuineIsUnclashed(a, b);
    }
  }

  function SourcesRule(sources: seq<AddrElem>): Rule {
    Rule(0, Allow, "", "", sources, [], [], [], true, false)
  }

  lemma {:induction false} SourcesDecide(a: seq<AddrElem>, b: seq<AddrElem>)
    ensures Covers(SourcesRule(a), SourcesRule(b)) <==> AddrsCovered(a, b)
  {
    hide AddrsCovered;
    assert AddrsCovered([], []) by { EmptyIsAny(); }
  }

  lemma EmptyIsAny()
    ensures AddrsCovered([], [])
  {}

  lemma {:induction false} PairCovered(a: seq<AddrElem>, x: AddrElem, y: AddrElem)
    requires x.Network? && y.Network?
    requires exists s :: s in a && AddrCovers(s, x)
    requires exists s :: s in a && AddrCovers(s, y)
    ensures AddrsCovered(a, [x]) && AddrsCovered(a, [x, y])
  {
    hide AddrCovers;
    assert SomeAddrCovers(a, x) && SomeAddrCovers(a, y);
    assert !IsAnyAddr([x]) && !IsAnyAddr([x, y]);
  }

  /** With several addresses it is not: wherever containment of networks does not
      compose there are three rules, neighbours the same match, the ends not. */
  lemma {:induction false} SameMatchIsNotTransitive(p: Cidr.Net, m: Cidr.Net, n: Cidr.Net)
    requires Cidr.NetContains(p, m) && Cidr.NetContains(m, n) && !Cidr.NetContains(p, n)
    ensures var a, b, c := [Network(p)], [Network(p), Network(m)], [Network(p), Network(n)];
      && SameMatch(SourcesRule(a), SourcesRule(b)) && SameMatch(SourcesRule(b), SourcesRule(c))
      && !SameMatch(SourcesRule(a), SourcesRule(c))
  {
    var x, y, z := Network(p), Network(m), Network(n);
    var a, b, c := [x], [x, y], [x, z];
    hide Cidr.NetContains, AddrsCovered, Covers;
    Cidr.NetContainsReflexive(p);
    assert AddrCovers(x, x) && AddrCovers(x, y) && AddrCovers(y, z) && !AddrCovers(x, z);
    hide AddrCovers;
    assert x in a && x in b && y in b && x in c;
    SourcesDecide(a, b);
    SourcesDecide(b, a);
    SourcesDecide(b, c);
    SourcesDecide(c, b);
    SourcesDecide(a, c);
    PairCovered(a, x, y);
    PairCovered(b, x, z);
    PairCovered(c, x, y);
    LoneCover(x, z, c);
  }

  lemma {:induction false} SameMatchFailsOnMapped()
    ensures exists a, b, c :: SameMatch(a, b) && SameMatch(b, c) && !SameMatch(a, c)
  {
    Cidr.ContainmentDoesNotCompose();
    hide *;
    SameMatchIsNotTransitive(Cidr.PLAIN, Cidr.MAPPED, Cidr.MAPPED_INNER);
  }
}
