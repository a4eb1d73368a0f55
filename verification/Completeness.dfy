/** The other side of containment: what the analyser finds, and what an issue's
    check and severity say about packets (fwrule/rule.go:95-241,
    fwrule/analyze.go:38-87). */
module Completeness {
  import opened Text
  import opened Rules
  import opened AddrIndex
  import opened CoverIndex
  import opened Analyze
  import opened Packets
  import Cidr

  // ------------------------------------------------------------------------
  // Ports

  /** A range of ports. */
  predicate Proper(e: PortElem) {
    e.Range? ==> 0 <= e.lo <= e.hi < PORT_SPACE
  }

  predicate Whole(e: PortElem) {
    e.Range? && e.lo <= 0 && e.hi >= PORT_SPACE - 1
  }

  /** Between ranges, containment is inclusion of ports. */
  lemma {:induction false} RangeCoversIff(w: World, a: PortElem, b: PortElem)
    requires a.Range? && b.Range? && Proper(b)
    ensures PortCovers(a, b) <==> forall p: nat :: p < PORT_SPACE && PortHolds(w, b, p) ==> PortHolds(w, a, p)
  {
    if forall p: nat :: p < PORT_SPACE && PortHolds(w, b, p) ==> PortHolds(w, a, p) {
      var lo: nat, hi: nat := b.lo, b.hi;
      assert PortHolds(w, b, lo) && PortHolds(w, b, hi);
      assert PortHolds(w, a, lo) && PortHolds(w, a, hi);
    }
  }

  /** One element against a list of proper ones; a range of all ports against ranges
      only, for the code does not take it for "any". */
  predicate PortsTell(a: seq<PortElem>, b: seq<PortElem>) {
    && |a| <= 1 && (forall e :: e in b ==> Proper(e))
    && (a != [] && Whole(a[0]) ==> b != [] && forall e :: e in b ==> e.Range?)
  }

  /** A service name holds every port but one, or that one too if it is `pe`. */
  ghost predicate ServicesBut(w: World, q: int, pe: PortElem) {
    forall s, r :: w.service(s, r) <==> r != q || pe == Service(s)
  }

  /** A port of `b`, under some reading of the names, outside `a`. */
  lemma {:induction false} MissedPort(a: seq<PortElem>, b: seq<PortElem>) returns (q: nat, pe: PortElem)
    requires PortsTell(a, b) && !PortsCovered(a, b)
    ensures q < PORT_SPACE
    ensures forall w :: ServicesBut(w, q, pe) ==> PortsHold(w, b, q) && !PortsHold(w, a, q)
  {
    var x := a[0];
    assert a == [x] && x != AnyPort;
    if IsAnyPort(b) {
      pe := AnyPort;
      q := Outside(x);
    } else {
      pe :| pe in b && !SomePortCovers(a, pe);
      assert x in a && !PortCovers(x, pe);
      q := if !pe.Range? then Outside(x)
           else if x.Range? && x.lo <= pe.lo <= x.hi then pe.hi
           else pe.lo;
    }
    forall w | ServicesBut(w, q, pe)
      ensures PortsHold(w, b, q) && !PortsHold(w, a, q)
    {
      assert !PortHolds(w, x, q);
      if b != [] {
        assert pe in b && PortHolds(w, pe, q);
      }
    }
  }

  /** A port outside a range that does not hold all of them. */
  function Outside(x: PortElem): nat {
    if x.Range? && x.lo <= 0 then PORT_SPACE - 1 else 0
  }

  // ------------------------------------------------------------------------
  // Addresses

  lemma {:induction false} OneBlockSpans(m: Cidr.Block, b: Cidr.Block)
    requires Cidr.Spans({m}, b)
    ensures Cidr.BlockIncludes(m, b)
    decreases b.width - |b.prefix|
  {
    if |b.prefix| < b.width && Cidr.Spans({m}, Cidr.HalfBlock(b, false)) && Cidr.Spans({m}, Cidr.HalfBlock(b, true)) {
      OneBlockSpans(m, Cidr.HalfBlock(b, false));
      OneBlockSpans(m, Cidr.HalfBlock(b, true));
      BothHalves(m, b);
    }
  }

  lemma {:induction false} BothHalves(m: Cidr.Block, b: Cidr.Block)
    requires Cidr.BlockIncludes(m, Cidr.HalfBlock(b, false)) && Cidr.BlockIncludes(m, Cidr.HalfBlock(b, true))
    ensures Cidr.BlockIncludes(m, b)
  {
    var p, q := b.prefix + [false], b.prefix + [true];
    assert p[|b.prefix|] != q[|b.prefix|];
    assert |m.prefix| == |p| ==> m.prefix == p && m.prefix == q;
    assert m.prefix == p[..|m.prefix|] == b.prefix[..|m.prefix|];
  }

  lemma {:induction false} NoBlockSpans(b: Cidr.Block)
    ensures !Cidr.Spans({}, b)
    decreases b.width - |b.prefix|
  {
    if |b.prefix| < b.width { NoBlockSpans(Cidr.HalfBlock(b, false)); }
  }

  /** One element against a list; a mapped network against no plain one, which the
      code refuses, and a network of prefix length 0 against networks only, for the
      code does not take it for "any". */
  predicate AddrsTell(a: seq<AddrElem>, b: seq<AddrElem>) {
    && |a| <= 1
    && (a != [] && a[0].Network? ==>
          && (forall e :: e in b && e.Network? ==> Cidr.Mapped(a[0].net.ip) ==> Cidr.Mapped(e.net.ip))
          && (Cidr.FoldedOnes(a[0].net) == 0 ==> forall e :: e in Elems(b) ==> e.Network?))
  }

  lemma {:induction false} IncludedNetIsAccepted(m: Cidr.Net, n: Cidr.Net)
    requires Cidr.BlockIncludes(Cidr.BlockOf(m), Cidr.BlockOf(n))
    requires Cidr.Mapped(m.ip) ==> Cidr.Mapped(n.ip)
    ensures Cidr.NetContains(m, n) && Cidr.Within(n, m)
  {
    var o, s := Cidr.Fold(m.ip), Cidr.Fold(n.ip);
    var k, l := Cidr.FoldedOnes(m), Cidr.FoldedOnes(n);
    assert o[..k] == s[..l][..k] == s[..k];
    Cidr.WithinIffFoldedContains(m, n);
    assert Cidr.Mapped(m.ip) ==> m.ip[95] && n.ip[95];
  }

  lemma {:induction false} SpannedByOne(a: seq<AddrElem>, b: Cidr.Block)
    requires |a| == 1 && !IsAnyAddr(a) && Cidr.Spans(ListBlocks(a), b)
    ensures a[0].Network? && Cidr.BlockIncludes(Cidr.BlockOf(a[0].net), b)
    ensures b.prefix == [] ==> Cidr.FoldedOnes(a[0].net) == 0
  {
    assert Elems(a) == [a[0]] && a[0] in Elems(a);
    if a[0].Network? {
      var m := Cidr.BlockOf(a[0].net);
      assert m in BlocksOf(a[0]);
      assert ListBlocks(a) == {m};
      OneBlockSpans(m, b);
    } else {
      assert ListBlocks(a) == {};
      NoBlockSpans(b);
    }
  }

  /** What one element really includes of a list, it is found to cover, and the index
      sees it. */
  lemma {:induction false} IncludedIsCovered(a: seq<AddrElem>, b: seq<AddrElem>)
    requires AddrsTell(a, b)
    requires forall e :: e in Elems(b) ==>
               exists width :: width in {32, 128} && ElemAdmits(e, width) && ElemIncluded(a, e, width)
    ensures AddrsCovered(a, b) && AddrReach(a, b)
  {
    hide Cidr.Spans, Cidr.NetContains, Cidr.Mapped, Cidr.FoldedOnes, Cidr.BlockOf, Cidr.BlockIncludes;
    if !IsAnyAddr(a) {
      forall e | e in Elems(b)
        ensures e.Network? || e.NamedAddr?
        ensures SomeAddrCovers(a, e) && FirstReached(a, e)
      {
        ElemIsCovered(a, b, e);
      }
      assert b == [] ==> AnyAddr in Elems(b);
      assert forall e :: e in b ==> e in Elems(b);
    }
  }

  lemma {:induction false} ElemIsCovered(a: seq<AddrElem>, b: seq<AddrElem>, e: AddrElem)
    requires AddrsTell(a, b) && !IsAnyAddr(a) && e in Elems(b)
    requires exists width :: width in {32, 128} && ElemAdmits(e, width) && ElemIncluded(a, e, width)
    ensures e.Network? || e.NamedAddr?
    ensures SomeAddrCovers(a, e) && FirstReached(a, e)
  {
    hide Cidr.Spans, Cidr.NetContains, Cidr.Mapped;
    var width :| width in {32, 128} && ElemAdmits(e, width) && ElemIncluded(a, e, width);
    assert a == [a[0]] && a[0] in a;
    if e.Network? {
      var n := Cidr.BlockOf(e.net);
      assert n in BlocksOf(e) && n.width == width;
      SpannedByOne(a, n);
      assert e in b;
      IncludedNetIsAccepted(a[0].net, e.net);
      assert AddrCovers(a[0], e) && a[0] == Network(a[0].net);
    } else if !e.NamedAddr? || e !in a {
      var all := Cidr.Block(width, []);
      assert Cidr.Spans(ListBlocks(a), all);
      SpannedByOne(a, all);
      assert false;
    } else {
      assert AddrCovers(e, e);
    }
  }

  // ------------------------------------------------------------------------
  // Rules

  /** Each address element of the rule is in one of its packets. */
  predicate AddrsLive(r: Rule) {
    && (forall e :: e in Elems(r.srcAddrs) ==> ElemLive(r, e))
    && (forall e :: e in Elems(r.dstAddrs) ==> ElemLive(r, e))
  }

  predicate ElemLive(r: Rule, e: AddrElem) {
    (ElemAdmits(e, 32) && Admits(r, 32)) || (ElemAdmits(e, 128) && Admits(r, 128))
  }

  /** Pairs of rules about which containment tells all: the earlier one has one
      element per field, the later one no dead element, and none of the forms the
      code is known to refuse meet. */
  predicate Telling(j: Rule, i: Rule) {
    && !j.conditional && AddrsLive(i)
    && AddrsTell(j.srcAddrs, i.srcAddrs) && AddrsTell(j.dstAddrs, i.dstAddrs)
    && PortsTell(j.srcPorts, i.srcPorts) && PortsTell(j.dstPorts, i.dstPorts)
  }

  ghost predicate Inclusion(j: Rule, i: Rule) {
    forall w, p: Packet :: FieldsMatch(w, i, p) ==> FieldsMatch(w, j, p)
  }

  lemma {:induction false} ProperLeaveRoom(ports: seq<PortElem>)
    requires forall e :: e in ports ==> Proper(e)
    ensures PortsLeaveRoom(ports)
  {
    if ports != [] { assert ports[0] in ports && ElemLeavesPort(ports[0]); }
  }

  /** A packet of `i` whose port fields hold given ports. */
  lemma {:induction false} PacketWith(i: Rule, width: nat, q: int, pe: PortElem, sport: nat, dport: nat)
    returns (w: World, p: Packet)
    requires width in {32, 128} && Admits(i, width) && sport < PORT_SPACE && dport < PORT_SPACE
    requires forall w :: ServicesBut(w, q, pe) ==> PortsHold(w, i.srcPorts, sport) && PortsHold(w, i.dstPorts, dport)
    ensures FieldsMatch(w, i, p) && p.sport == sport && p.dport == dport && ServicesBut(w, q, pe)
    ensures forall s :: (w.iface(s, p) <==> s == Norm(i.iface)) && (w.proto(s, p) <==> s == Lower(i.proto))
    ensures forall k, r :: w.hidden(k, r)
  {
    hide AddrsAdmit, AddrsHold, PortsHold;
    var y := EveryZero(width);
    w := ButFor(i, y, AnyAddr, q, pe);
    assert ServicesBut(w, q, pe);
    var src := SomeAddress(w, i.srcAddrs, y);
    var dst := SomeAddress(w, i.dstAddrs, y);
    p := Header("", 0, src, dst, sport, dport);
  }

  lemma {:induction false} AnyHeldPort(ports: seq<PortElem>, q: int, pe: PortElem) returns (p: nat)
    requires forall e :: e in ports ==> Proper(e)
    ensures p < PORT_SPACE && forall w :: ServicesBut(w, q, pe) ==> PortsHold(w, ports, p)
  {
    p := if q == 0 then 1 else 0;
    if ports != [] && ports[0].Range? {
      assert ports[0] in ports;
      p := ports[0].lo;
    }
    forall w | ServicesBut(w, q, pe)
      ensures PortsHold(w, ports, p)
    {
      assert ports != [] ==> ports[0] in ports && PortHolds(w, ports[0], p);
    }
  }

  lemma {:induction false} SourcePortsCovered(j: Rule, i: Rule, width: nat)
    requires Telling(j, i) && Inclusion(j, i) && width in {32, 128} && Admits(i, width)
    ensures PortsCovered(j.srcPorts, i.srcPorts)
  {
    if !PortsCovered(j.srcPorts, i.srcPorts) {
      hide PortsCovered, AddrsTell, AddrsLive, Admits, AddrsHold;
      var q, pe := MissedPort(j.srcPorts, i.srcPorts);
      var d := AnyHeldPort(i.dstPorts, q, pe);
      hide PortsTell, PortsHold;
      var w, p := PacketWith(i, width, q, pe, q, d);
      assert false;
    }
  }

  lemma {:induction false} TargetPortsCovered(j: Rule, i: Rule, width: nat)
    requires Telling(j, i) && Inclusion(j, i) && width in {32, 128} && Admits(i, width)
    ensures PortsCovered(j.dstPorts, i.dstPorts)
  {
    if !PortsCovered(j.dstPorts, i.dstPorts) {
      hide PortsCovered, AddrsTell, AddrsLive, Admits, AddrsHold;
      var q, pe := MissedPort(j.dstPorts, i.dstPorts);
      var s := AnyHeldPort(i.srcPorts, q, pe);
      hide PortsTell, PortsHold;
      var w, p := PacketWith(i, width, q, pe, s, q);
      assert false;
    }
  }

  lemma {:induction false} NamesCovered(j: Rule, i: Rule, width: nat)
    requires Telling(j, i) && Inclusion(j, i) && width in {32, 128} && Admits(i, width)
    ensures IfaceCovers(j.iface, i.iface) && ProtoCovers(j.proto, i.proto)
  {
    hide AddrsTell, AddrsLive, Admits, AddrsHold, PortsHold;
    var s := AnyHeldPort(i.srcPorts, -1, AnyPort);
    var d := AnyHeldPort(i.dstPorts, -1, AnyPort);
    hide PortsTell;
    var w, p := PacketWith(i, width, -1, AnyPort, s, d);
    assert FieldsMatch(w, j, p);
  }

  /** What a rule includes it is found to cover, and the index sees it. */
  lemma {:induction false} InclusionIsCovered(j: Rule, i: Rule)
    requires Telling(j, i) && Inclusion(j, i)
    ensures Covers(j, i) && Includes(j, i) && Reached(j, i)
  {
    assert Includes(j, i) by {
      if !Includes(j, i) {
        var w, p := MissedPacket(j, i);
        assert false;
      }
    }
    ProperLeaveRoom(i.srcPorts);
    ProperLeaveRoom(i.dstPorts);
    hide Inclusion, PortsTell, PortsLeaveRoom, AddrsTell, Admits, AddrsCovered, PortsCovered, AddrReach;
    var first := Elems(i.srcAddrs)[0];
    assert first in Elems(i.srcAddrs) && ElemLive(i, first);
    var width := if Admits(i, 32) then 32 else 128;
    NamesCovered(j, i, width);
    SourcePortsCovered(j, i, width);
    TargetPortsCovered(j, i, width);
    LiveIsIncluded(j, i);
    IncludedIsCovered(j.srcAddrs, i.srcAddrs);
    IncludedIsCovered(j.dstAddrs, i.dstAddrs);
  }

  lemma {:induction false} LiveIsIncluded(j: Rule, i: Rule)
    requires AddrsLive(i) && LeavesRoom(i) && Includes(j, i)
    ensures forall e :: e in Elems(i.srcAddrs) ==>
              exists width :: width in {32, 128} && ElemAdmits(e, width) && ElemIncluded(j.srcAddrs, e, width)
    ensures forall e :: e in Elems(i.dstAddrs) ==>
              exists width :: width in {32, 128} && ElemAdmits(e, width) && ElemIncluded(j.dstAddrs, e, width)
  {
    hide ElemIncluded, ElemAdmits, Admits, Elems;
    forall e | e in Elems(i.srcAddrs)
      ensures exists width :: width in {32, 128} && ElemAdmits(e, width) && ElemIncluded(j.srcAddrs, e, width)
    {
      assert ElemLive(i, e);
      var width := if ElemAdmits(e, 32) && Admits(i, 32) then 32 else 128;
      assert IncludesFamily(j, i, width);
    }
    forall e | e in Elems(i.dstAddrs)
      ensures exists width :: width in {32, 128} && ElemAdmits(e, width) && ElemIncluded(j.dstAddrs, e, width)
    {
      assert ElemLive(i, e);
      var width := if ElemAdmits(e, 32) && Admits(i, 32) then 32 else 128;
      assert IncludesFamily(j, i, width);
    }
  }

  /** For such pairs containment and the realness of the cover are inclusion of
      packets, whatever the names mean. */
  lemma {:induction false} CoversIff(j: Rule, i: Rule)
    requires Telling(j, i)
    ensures Inclusion(j, i) <==> Covers(j, i) && Includes(j, i)
  {
    hide Telling, Covers, Includes;
    if Inclusion(j, i) {
      InclusionIsCovered(j, i);
    } else if Covers(j, i) {
      CoversSoundIff(j, i);
    }
  }

  // ------------------------------------------------------------------------
  // What is reported

  lemma {:induction false} SomePacket(j: Rule, i: Rule) returns (w: World, p: Packet)
    requires Telling(j, i)
    ensures FieldsMatch(w, i, p) && forall k, r :: w.hidden(k, r)
  {
    hide AddrsTell, Admits, PortsHold, ElemAdmits;
    var first := Elems(i.srcAddrs)[0];
    assert first in Elems(i.srcAddrs) && ElemLive(i, first);
    var s := AnyHeldPort(i.srcPorts, -1, AnyPort);
    var d := AnyHeldPort(i.dstPorts, -1, AnyPort);
    hide PortsTell, FieldsMatch;
    w, p := PacketWith(i, if Admits(i, 32) then 32 else 128, -1, AnyPort, s, d);
  }

  lemma FieldsIgnoreHidden(w: World, r: Rule, p: Packet)
    ensures FieldsMatch(w.(hidden := (_, _) => true), r, p) <==> FieldsMatch(w, r, p)
  {}

  /** Unless `j` decides the packet, rule `i` behind it acts on it. */
  lemma {:induction false} ActsUnlessDecided(w: World, j: Rule, i: Rule, p: Packet)
    requires Matches(w, i, 1, p)
    ensures 1 in Fires(w, [j, i], p, {}, 0) <==> !(Matches(w, j, 0, p) && j.action != Other)
  {
    hide Matches;
    assert 1 in Fires(w, [j, i], p, {}, 1);
  }

  /** In any list, a rule whose packets are all those of an earlier terminating rule
      is reported by either pass. */
  lemma {:induction false} InclusionIsReported(rules: seq<Rule>, j: nat, i: nat, viaIndex: bool)
    requires j < i < |rules| && rules[j].enabled && rules[j].action in {Allow, Deny} && rules[i].enabled
    requires Telling(rules[j], rules[i]) && Inclusion(rules[j], rules[i])
    ensures i in Reported(rules, viaIndex)
  {
    InclusionIsCovered(rules[j], rules[i]);
    hide Covers, Reached, Telling, Inclusion;
    assert Blocks(rules, j, i, viaIndex);
  }

  /** A rule that no packet reaches, because of the rule before it, is reported by
      either pass, and a reported one is such a rule where the cover is real. */
  lemma {:induction false} DeadIffReported(j: Rule, i: Rule, viaIndex: bool)
    requires i.enabled && Telling(j, i)
    ensures NeverActs(j, i) <==> 1 in Reported([j, i], viaIndex) && Includes(j, i)
  {
    hide AddrsTell, PortsTell, AddrsLive, Includes, FieldsMatch, Covers, Reached;
    if 1 in Reported([j, i], viaIndex) {
      TwoRuleReportIsSoundIff(j, i, viaIndex);
    }
    if NeverActs(j, i) {
      DeadIsIncluded(j, i);
      InclusionIsCovered(j, i);
      hide Telling, Inclusion;
      InclusionIsReported([j, i], 0, 1, viaIndex);
    }
  }

  lemma {:induction false} DeadIsIncluded(j: Rule, i: Rule)
    requires i.enabled && Telling(j, i) && NeverActs(j, i)
    ensures Terminates(j) && Inclusion(j, i)
  {
    hide AddrsTell, PortsTell, AddrsLive, FieldsMatch, Fires;
    var w0, p0 := SomePacket(j, i);
    ActsUnlessDecided(w0, j, i, p0);
    forall w, p: Packet | FieldsMatch(w, i, p)
      ensures FieldsMatch(w, j, p)
    {
      var w' := w.(hidden := (_, _) => true);
      FieldsIgnoreHidden(w, i, p);
      FieldsIgnoreHidden(w, j, p);
      ActsUnlessDecided(w', j, i, p);
    }
  }

  // ------------------------------------------------------------------------
  // What an issue says

  /** The list decides the packet with that action. */
  ghost predicate Decides(w: World, rules: seq<Rule>, p: Packet, a: Action) {
    a != Other && exists k: nat :: k < |rules| && k in Fires(w, rules, p, {}, 0) && rules[k].action == a
  }

  lemma {:induction false} OneRuleDecides(w: World, r: Rule, p: Packet, a: Action)
    ensures Decides(w, [r], p, a) <==> a != Other && r.action == a && Matches(w, r, 0, p)
  {
    hide Matches;
    assert Fires(w, [r], p, {}, 1) == [];
    assert Fires(w, [r], p, {}, 0) == if Matches(w, r, 0, p) then [0] else [];
    assert Matches(w, r, 0, p) ==> 0 in Fires(w, [r], p, {}, 0);
  }

  lemma {:induction false} FirstRuleDecides(w: World, j: Rule, i: Rule, p: Packet, a: Action)
    requires Matches(w, j, 0, p) && j.action != Other
    ensures Decides(w, [j, i], p, a) <==> j.action == a
  {
    hide Matches;
    assert Fires(w, [j, i], p, {}, 0) == [0];
  }

  /** High severity: left alone the rule would deny the packet, behind the rule it is
      blamed on the packet is allowed. */
  lemma {:induction false} HighIff(w: World, j: Rule, i: Rule, p: Packet)
    requires Terminates(j) && i.enabled && Covers(j, i) && Includes(j, i)
    requires FieldsMatch(w, i, p) && (i.conditional ==> w.hidden(0, p))
    ensures CoverIssue(j, i).severity == High <==> Decides(w, [i], p, Deny) && Decides(w, [j, i], p, Allow)
  {
    CoversSound(w, j, i, p);
    CoversOnlyUnconditional(j, i);
    hide Covers, Includes, FieldsMatch, Decides;
    OneRuleDecides(w, i, p, Deny);
    FirstRuleDecides(w, j, i, p, Allow);
  }

  /** Both rules, each alone, decide every packet alike. */
  ghost predicate Interchangeable(j: Rule, i: Rule) {
    forall w, p, a :: Decides(w, [j], p, a) <==> Decides(w, [i], p, a)
  }

  /** A duplicate: either rule alone does what the other does. */
  lemma {:induction false} DuplicateIff(j: Rule, i: Rule)
    requires Terminates(j) && i.enabled && Covers(j, i) && Includes(j, i) && Telling(i, j)
    ensures CoverIssue(j, i).check == Duplicate && Includes(i, j) <==> Interchangeable(j, i)
  {
    CoversOnlyUnconditional(j, i);
    hide AddrsTell, PortsTell, AddrsLive, Covers, Includes, FieldsMatch, Decides;
    if CoverIssue(j, i).check == Duplicate && Includes(i, j) {
      forall w, p, a
        ensures Decides(w, [j], p, a) <==> Decides(w, [i], p, a)
      {
        OneRuleDecides(w, j, p, a);
        OneRuleDecides(w, i, p, a);
        if FieldsMatch(w, i, p) { CoversSound(w, j, i, p); }
        if FieldsMatch(w, j, p) { CoversSound(w, i, j, p); }
      }
    }
    if Interchangeable(j, i) {
      InterchangeableIncludes(j, i);
      InclusionIsCovered(i, j);
    }
  }

  lemma {:induction false} InterchangeableIncludes(j: Rule, i: Rule)
    requires Terminates(j) && !j.conditional && Telling(i, j) && Interchangeable(j, i)
    ensures Inclusion(i, j) && j.action == i.action
  {
    hide AddrsTell, PortsTell, AddrsLive, FieldsMatch, Decides;
    forall w, p: Packet | FieldsMatch(w, j, p)
      ensures FieldsMatch(w, i, p) && j.action == i.action
    {
      OneRuleDecides(w, j, p, j.action);
      OneRuleDecides(w, i, p, j.action);
    }
    var w, p := SomePacket(i, j);
  }

  /** An issue names the rule and the one it is blamed on; the three severities are
      those of a duplicate, an allowed deny, and any other shadowed rule. */
  lemma {:induction false} IssueNames(j: Rule, i: Rule)
    ensures CoverIssue(j, i).subject == i && CoverIssue(j, i).blamed == j
    ensures CoverIssue(j, i).severity == Low <==> CoverIssue(j, i).check == Duplicate
  {
    hide SameMatch;
  }
}
