/** What a rule list does to packets, and what the analyser's findings say about
    it. First match wins; an `other` action logs and lets the packet fall through
    (fwrule/analyze.go:48-52). */
module Packets {
  import opened Text
  import opened Rules
  import opened CoverIndex
  import opened Analyze
  import Cidr

  datatype Header = Header(ingress: string, protocol: nat, src: Cidr.Address, dst: Cidr.Address, sport: nat, dport: nat)

  /** A packet has two addresses of one family and, in its port fields, ports. */
  type Packet = h: Header | |h.src| == |h.dst| && h.sport < PORT_SPACE && h.dport < PORT_SPACE
    witness Header("", 0, seq(32, _ => false), seq(32, _ => false), 0, 0)

  /** Everything the rule model leaves open: what interface, protocol, address and
      service names stand for, and which of its packets the conditional rule at a
      position really matches. */
  datatype World = World(
    iface: (string, Packet) -> bool,
    proto: (string, Packet) -> bool,
    addr: (string, Cidr.Address) -> bool,
    service: (string, int) -> bool,
    hidden: (nat, Packet) -> bool)

  /** The blocks of addresses an element stands for, names aside. */
  function BlocksOf(e: AddrElem): set<Cidr.Block> {
    match e
    case AnyAddr => {Cidr.Block(32, []), Cidr.Block(128, [])}
    case AnyV4 => {Cidr.Block(32, [])}
    case AnyV6 => {Cidr.Block(128, [])}
    case Network(n) => {Cidr.BlockOf(n)}
    case NamedAddr(_) => {}
  }

  predicate AddrHolds(w: World, e: AddrElem, x: Cidr.Address) {
    if e.NamedAddr? then w.addr(e.name, x) else Cidr.InSome(x, BlocksOf(e))
  }

  predicate PortHolds(w: World, e: PortElem, p: int) {
    match e
    case AnyPort => true
    case Range(lo, hi) => lo <= p <= hi
    case Service(s) => w.service(s, p)
  }

  /** An empty list is "any". */
  function Elems(addrs: seq<AddrElem>): seq<AddrElem> {
    if addrs == [] then [AnyAddr] else addrs
  }

  predicate AddrsHold(w: World, addrs: seq<AddrElem>, x: Cidr.Address) {
    exists e :: e in Elems(addrs) && AddrHolds(w, e, x)
  }

  /** The "ip4" and "ipv4" tokens are read as IPv4 only, the others as both families. */
  predicate ProtoAdmits(proto: string, width: nat) {
    Lower(proto) in {"ip4", "ipv4"} ==> width == 32
  }

  predicate PortsHold(w: World, ports: seq<PortElem>, p: int) {
    ports == [] || exists e :: e in ports && PortHolds(w, e, p)
  }

  /** The words that stand for every interface and for the Internet protocol. */
  const EVERY_IFACE := {"", "any", "all", "*"}
  const EVERY_PROTO := {"", "any", "ip", "ip4", "ipv4"}

  /** The packets the rule's fields describe. */
  predicate FieldsMatch(w: World, r: Rule, p: Packet) {
    && (Norm(r.iface) in EVERY_IFACE || w.iface(Norm(r.iface), p))
    && (if Lower(r.proto) in EVERY_PROTO then ProtoAdmits(r.proto, |p.src|) else w.proto(Lower(r.proto), p))
    && AddrsHold(w, r.srcAddrs, p.src)
    && AddrsHold(w, r.dstAddrs, p.dst)
    && PortsHold(w, r.srcPorts, p.sport)
    && PortsHold(w, r.dstPorts, p.dport)
  }

  predicate Matches(w: World, r: Rule, pos: nat, p: Packet) {
    r.enabled && FieldsMatch(w, r, p) && (r.conditional ==> w.hidden(pos, p))
  }

  /** The positions that act on the packet, in order, from position `k` on, with
      the rules in `deleted` removed: log jumps, then at most one deciding rule. */
  ghost function Fires(w: World, rules: seq<Rule>, p: Packet, deleted: set<nat>, k: nat): seq<nat>
    requires k <= |rules|
    decreases |rules| - k
  {
    if k == |rules| then []
    else if k in deleted || !Matches(w, rules[k], k, p) then Fires(w, rules, p, deleted, k + 1)
    else if rules[k].action == Other then [k] + Fires(w, rules, p, deleted, k + 1)
    else [k]
  }

  /** The positions one of the two forms reports as shadowed or duplicate. */
  ghost function Reported(rules: seq<Rule>, viaIndex: bool): set<nat> {
    set i: nat | i < |rules| && rules[i].enabled && FirstBlocker(rules, i, viaIndex) >= 0
  }

  lemma {:induction false} IssuesNameReported(rules: seq<Rule>, n: nat, viaIndex: bool, x: Issue)
    requires n <= |rules|
    ensures x in Issues(rules, n, viaIndex) <==>
            exists i :: i in Reported(rules, viaIndex) && i < n &&
                        x == CoverIssue(rules[FirstBlocker(rules, i, viaIndex)], rules[i])
  {
    hide Covers, CoverIssue;
    if n > 0 {
      IssuesNameReported(rules, n - 1, viaIndex, x);
      assert n - 1 in Reported(rules, viaIndex) <==> IssueAt(rules, n - 1, viaIndex) != [];
    }
  }

  // ------------------------------------------------------------------------
  // When one rule's packets are all another's

  /** All blocks of a list. */
  function ListBlocks(addrs: seq<AddrElem>): set<Cidr.Block> {
    set e, m | e in Elems(addrs) && m in BlocksOf(e) :: m
  }

  /** What `e` may hold of one family is held by `a`: its blocks are spanned, and a
      name is listed by `a` itself or the whole family is spanned. */
  predicate ElemIncluded(a: seq<AddrElem>, e: AddrElem, width: nat) {
    && (forall b :: b in BlocksOf(e) && b.width == width ==> Cidr.Spans(ListBlocks(a), b))
    && (e.NamedAddr? ==> e in a || Cidr.Spans(ListBlocks(a), Cidr.Block(width, [])))
  }

  predicate AddrsIncluded(a: seq<AddrElem>, b: seq<AddrElem>, width: nat) {
    forall e :: e in Elems(b) ==> ElemIncluded(a, e, width)
  }

  /** Some address of the family may be in the element. */
  predicate ElemAdmits(e: AddrElem, width: nat) {
    e.NamedAddr? || exists b :: b in BlocksOf(e) && b.width == width
  }

  predicate AddrsAdmit(addrs: seq<AddrElem>, width: nat) {
    exists e :: e in Elems(addrs) && ElemAdmits(e, width)
  }

  /** The rule's addresses and protocol leave it packets of the family. */
  predicate Admits(r: Rule, width: nat) {
    AddrsAdmit(r.srcAddrs, width) && AddrsAdmit(r.dstAddrs, width) && ProtoAdmits(r.proto, width)
  }

  predicate ElemLeavesPort(e: PortElem) {
    e.Range? ==> e.lo <= e.hi && e.lo < PORT_SPACE && 0 <= e.hi
  }

  /** Some port may be in the list. */
  predicate PortsLeaveRoom(ports: seq<PortElem>) {
    ports == [] || exists e :: e in ports && ElemLeavesPort(e)
  }

  predicate LeavesRoom(r: Rule) {
    PortsLeaveRoom(r.srcPorts) && PortsLeaveRoom(r.dstPorts)
  }

  predicate IncludesFamily(j: Rule, i: Rule, width: nat) {
    Admits(i, width) ==>
      && AddrsIncluded(j.srcAddrs, i.srcAddrs, width) && AddrsIncluded(j.dstAddrs, i.dstAddrs, width)
      && ProtoAdmits(j.proto, width)
  }

  /** What makes a cover real: the covered rule's ports leave it no packet, or in
      each family it admits its addresses are spanned. A caller can compute it. */
  predicate Includes(j: Rule, i: Rule) {
    LeavesRoom(i) ==> IncludesFamily(j, i, 32) && IncludesFamily(j, i, 128)
  }

  lemma {:induction false} BlocksAreBlocks(e: AddrElem)
    ensures forall b :: b in BlocksOf(e) ==> Cidr.IsBlock(b)
  {}

  lemma {:induction false} SpannedIsHeld(w: World, a: seq<AddrElem>, b: Cidr.Block, x: Cidr.Address)
    requires Cidr.IsBlock(b) && Cidr.Spans(ListBlocks(a), b) && Cidr.InBlock(x, b)
    ensures AddrsHold(w, a, x)
  {
    hide Cidr.InBlock;
    Cidr.SpannedAddress(ListBlocks(a), b, x);
    var m :| m in ListBlocks(a) && Cidr.InBlock(x, m);
    var e :| e in Elems(a) && m in BlocksOf(e);
    assert AddrHolds(w, e, x);
  }

  lemma {:induction false} AddrsIncludedSound(w: World, a: seq<AddrElem>, b: seq<AddrElem>, x: Cidr.Address)
    requires AddrsHold(w, b, x)
    ensures AddrsAdmit(b, |x|)
    ensures AddrsIncluded(a, b, |x|) ==> AddrsHold(w, a, x)
  {
    hide Cidr.Spans, BlocksOf;
    var e :| e in Elems(b) && AddrHolds(w, e, x);
    if e.NamedAddr? {
      if AddrsIncluded(a, b, |x|) {
        assert ElemIncluded(a, e, |x|);
        if e in a {
          assert e in Elems(a);
        } else {
          SpannedIsHeld(w, a, Cidr.Block(|x|, []), x);
        }
      }
    } else {
      var m :| m in BlocksOf(e) && Cidr.InBlock(x, m);
      BlocksAreBlocks(e);
      if AddrsIncluded(a, b, |x|) {
        assert ElemIncluded(a, e, |x|);
        SpannedIsHeld(w, a, m, x);
      }
    }
  }

  lemma {:induction false} PortsCoveredSound(w: World, a: seq<PortElem>, b: seq<PortElem>, p: nat)
    requires PortsCovered(a, b) && PortsHold(w, b, p)
    ensures PortsHold(w, a, p)
  {}

  lemma {:induction false} HeldPortLeavesRoom(w: World, ports: seq<PortElem>, p: nat)
    requires p < PORT_SPACE && PortsHold(w, ports, p)
    ensures PortsLeaveRoom(ports)
  {
    if ports != [] {
      var e :| e in ports && PortHolds(w, e, p);
      assert ElemLeavesPort(e);
    }
  }

  /** A real cover is inclusion of packet sets, whatever the names mean. */
  lemma {:induction false} CoversSound(w: World, j: Rule, i: Rule, p: Packet)
    requires Covers(j, i) && Includes(j, i) && FieldsMatch(w, i, p)
    ensures FieldsMatch(w, j, p)
  {
    hide AddrsCovered, PortsCovered, AddrsIncluded, AddrsAdmit, AddrsHold, PortsHold, PortsLeaveRoom;
    HeldPortLeavesRoom(w, i.srcPorts, p.sport);
    HeldPortLeavesRoom(w, i.dstPorts, p.dport);
    AddrsIncludedSound(w, j.srcAddrs, i.srcAddrs, p.src);
    AddrsIncludedSound(w, j.dstAddrs, i.dstAddrs, p.dst);
    PortsCoveredSound(w, j.srcPorts, i.srcPorts, p.sport);
    PortsCoveredSound(w, j.dstPorts, i.dstPorts, p.dport);
    assert Admits(i, |p.src|) && IncludesFamily(j, i, |p.src|);
    assert IfaceToken(Norm(j.iface)) || Norm(j.iface) == Norm(i.iface);
    assert ProtoToken(Lower(j.proto)) || Lower(j.proto) == Lower(i.proto);
  }

  /** The reading in which interfaces and protocols have the names of rule `i`, every
      name but one matches everything but one address, and every service but one
      everything but one port; conditional rules hide nothing. */
  function ButFor(i: Rule, x: Cidr.Address, e: AddrElem, q: int, pe: PortElem): World {
    World(
      (s, _) => s == Norm(i.iface),
      (s, _) => s == Lower(i.proto),
      (s, y) => y != x || e == NamedAddr(s),
      (s, r) => r != q || pe == Service(s),
      (_, _) => true)
  }

  lemma {:induction false} SomePort(w: World, ports: seq<PortElem>, q: int) returns (p: nat)
    requires PortsLeaveRoom(ports)
    requires forall s, r :: r != q ==> w.service(s, r)
    ensures p < PORT_SPACE && PortsHold(w, ports, p)
  {
    p := 0;
    if ports != [] {
      var e :| e in ports && ElemLeavesPort(e);
      p := if e.Range? then (if e.lo > 0 then e.lo else 0) else if q == 0 then 1 else 0;
      assert PortHolds(w, e, p);
    }
  }

  /** Whatever address the names shun, some address of the family is held. */
  lemma {:induction false} SomeAddress(w: World, addrs: seq<AddrElem>, x: Cidr.Address) returns (y: Cidr.Address)
    requires AddrsAdmit(addrs, |x|)
    requires forall s, z :: z != x ==> w.addr(s, z)
    ensures |y| == |x| && AddrsHold(w, addrs, y)
  {
    hide BlocksOf;
    var s :| s in Elems(addrs) && ElemAdmits(s, |x|);
    if s.NamedAddr? {
      y := x[0 := !x[0]];
    } else {
      var b :| b in BlocksOf(s) && b.width == |x|;
      BlocksAreBlocks(s);
      y := FirstOf(b);
    }
    assert AddrHolds(w, s, y);
  }

  lemma FirstOf(b: Cidr.Block) returns (y: Cidr.Address)
    requires Cidr.IsBlock(b)
    ensures Cidr.InBlock(y, b)
  {
    y := b.prefix + seq(b.width - |b.prefix|, _ => false);
  }

  /** An address that `e` may hold and `a` does not. */
  lemma {:induction false} MissedAddress(a: seq<AddrElem>, e: AddrElem, width: nat, i: Rule, q: int, pe: PortElem)
    returns (x: Cidr.Address)
    requires (width == 32 || width == 128) && !ElemIncluded(a, e, width)
    ensures |x| == width
    ensures var w := ButFor(i, x, e, q, pe); AddrHolds(w, e, x) && !AddrsHold(w, a, x)
  {
    hide Cidr.Spans;
    BlocksAreBlocks(e);
    var b := Cidr.Block(width, []);
    if !e.NamedAddr? {
      b :| b in BlocksOf(e) && b.width == width && !Cidr.Spans(ListBlocks(a), b);
    }
    x := Cidr.Gap(ListBlocks(a), b);
    hide Cidr.InBlock;
    var w := ButFor(i, x, e, q, pe);
    forall s | s in Elems(a)
      ensures !AddrHolds(w, s, x)
    {
      if !s.NamedAddr? {
        assert forall m :: m in BlocksOf(s) ==> m in ListBlocks(a);
      }
    }
  }

  lemma {:induction false} MissedByList(a: seq<AddrElem>, b: seq<AddrElem>, width: nat, i: Rule, q: int, pe: PortElem)
    returns (x: Cidr.Address, e: AddrElem)
    requires (width == 32 || width == 128) && !AddrsIncluded(a, b, width)
    ensures |x| == width
    ensures var w := ButFor(i, x, e, q, pe); AddrsHold(w, b, x) && !AddrsHold(w, a, x)
  {
    hide ElemIncluded, AddrHolds;
    e :| e in Elems(b) && !ElemIncluded(a, e, width);
    x := MissedAddress(a, e, width, i, q, pe);
  }

  /** A packet of `i`, under some reading of the names, that `j` misses. */
  lemma {:induction false} MissedPacket(j: Rule, i: Rule) returns (w: World, p: Packet)
    requires !Includes(j, i)
    ensures FieldsMatch(w, i, p) && !FieldsMatch(w, j, p) && forall k, q :: w.hidden(k, q)
  {
    var width := if IncludesFamily(j, i, 32) then 128 else 32;
    hide AddrsIncluded, AddrsAdmit, AddrsHold, PortsHold, PortsLeaveRoom;
    assert !IncludesFamily(j, i, width) && Admits(i, width);
    var src: Cidr.Address, dst: Cidr.Address, e := EveryZero(width), EveryZero(width), AnyAddr;
    if !AddrsIncluded(j.srcAddrs, i.srcAddrs, width) {
      src, e := MissedByList(j.srcAddrs, i.srcAddrs, width, i, -1, AnyPort);
      w := ButFor(i, src, e, -1, AnyPort);
      dst := SomeAddress(w, i.dstAddrs, src);
    } else if !AddrsIncluded(j.dstAddrs, i.dstAddrs, width) {
      dst, e := MissedByList(j.dstAddrs, i.dstAddrs, width, i, -1, AnyPort);
      w := ButFor(i, dst, e, -1, AnyPort);
      src := SomeAddress(w, i.srcAddrs, dst);
    } else {
      w := ButFor(i, src, e, -1, AnyPort);
      var y := src;
      src := SomeAddress(w, i.srcAddrs, y);
      dst := SomeAddress(w, i.dstAddrs, y);
    }
    var sport := SomePort(w, i.srcPorts, -1);
    var dport := SomePort(w, i.dstPorts, -1);
    p := Header("", 0, src, dst, sport, dport);
  }

  function EveryZero(width: nat): Cidr.Address
    requires width == 32 || width == 128
  {
    seq(width, _ => false)
  }

  /** A cover is inclusion of packet sets, whatever the names mean, iff it is real. */
  lemma {:induction false} CoversSoundIff(j: Rule, i: Rule)
    requires Covers(j, i)
    ensures (forall w, p: Packet :: FieldsMatch(w, i, p) ==> FieldsMatch(w, j, p)) <==> Includes(j, i)
  {
    hide Covers, Includes, FieldsMatch;
    if Includes(j, i) {
      forall w, p: Packet | FieldsMatch(w, i, p)
        ensures FieldsMatch(w, j, p)
      {
        CoversSound(w, j, i, p);
      }
    } else {
      var w, p := MissedPacket(j, i);
      assert !(FieldsMatch(w, i, p) ==> FieldsMatch(w, j, p));
    }
  }

  // ------------------------------------------------------------------------
  // Simple conditions that make a cover real

  /** Where the coverer holds "any", it holds all of each family the covered rule
      admits: no 0.0.0.0/0 covers what may be IPv6, no ::/0 what may be IPv4. */
  predicate FamiliesKept(j: Rule, i: Rule) {
    FamilyKept(j, i, 32) && FamilyKept(j, i, 128)
  }

  predicate FamilyKept(j: Rule, i: Rule, width: nat) {
    Admits(i, width) ==>
      && (IsAnyAddr(j.srcAddrs) ==> Cidr.Block(width, []) in ListBlocks(j.srcAddrs))
      && (IsAnyAddr(j.dstAddrs) ==> Cidr.Block(width, []) in ListBlocks(j.dstAddrs))
      && ProtoAdmits(j.proto, width)
  }

  ghost predicate ListFamiliesKept(rules: seq<Rule>) {
    forall j, i :: 0 <= j < i < |rules| ==> FamiliesKept(rules[j], rules[i])
  }

  /** No text that stands for one family only. */
  predicate NoFamilyTokens(r: Rule) {
    AnyV4 !in r.srcAddrs && AnyV6 !in r.srcAddrs && AnyV4 !in r.dstAddrs && AnyV6 !in r.dstAddrs
    && Lower(r.proto) !in {"ip4", "ipv4"}
  }

  lemma {:induction false} NoFamilyTokensKeepFamilies(rules: seq<Rule>)
    requires forall r :: r in rules ==> NoFamilyTokens(r)
    ensures ListFamiliesKept(rules)
  {
    hide AddrsAdmit;
    forall j, i, width | 0 <= j < i < |rules| && width in {32, 128}
      ensures FamilyKept(rules[j], rules[i], width)
    {
      assert rules[j] in rules;
      AnyHoldsBoth(rules[j].srcAddrs, width);
      AnyHoldsBoth(rules[j].dstAddrs, width);
    }
  }

  lemma {:induction false} AnyHoldsBoth(a: seq<AddrElem>, width: nat)
    requires width in {32, 128} && AnyV4 !in a && AnyV6 !in a
    ensures IsAnyAddr(a) ==> Cidr.Block(width, []) in ListBlocks(a)
  {
    if IsAnyAddr(a) {
      assert AnyAddr in Elems(a) && Cidr.Block(width, []) in BlocksOf(AnyAddr);
    }
  }

  lemma {:induction false} WholeFamilySpans(blocks: set<Cidr.Block>, b: Cidr.Block)
    requires Cidr.Block(b.width, []) in blocks
    ensures Cidr.Spans(blocks, b)
  {
    assert Cidr.BlockIncludes(Cidr.Block(b.width, []), b);
  }

  lemma {:induction false} GenuineAddrsIncluded(a: seq<AddrElem>, b: seq<AddrElem>, width: nat)
    requires AddrsCovered(a, b) && AddrsGenuine(a, b)
    requires IsAnyAddr(a) ==> Cidr.Block(width, []) in ListBlocks(a)
    ensures AddrsIncluded(a, b, width)
  {
    hide Cidr.NetContains, Cidr.FoldClash, AddrsGenuine, ListBlocks, BlocksOf;
    forall e | e in Elems(b)
      ensures ElemIncluded(a, e, width)
    {
      if IsAnyAddr(a) {
        forall m: Cidr.Block | m.width == width
          ensures Cidr.Spans(ListBlocks(a), m)
        {
          WholeFamilySpans(ListBlocks(a), m);
        }
      } else {
        GenuineElemIncluded(a, b, e, width);
      }
    }
  }

  lemma {:induction false} GenuineElemIncluded(a: seq<AddrElem>, b: seq<AddrElem>, e: AddrElem, width: nat)
    requires AddrsCovered(a, b) && AddrsGenuine(a, b) && !IsAnyAddr(a) && e in b
    ensures ElemIncluded(a, e, width)
  {
    hide Cidr.NetContains, Cidr.FoldClash, Cidr.BlockOf, Cidr.BlockIncludes;
    assert SomeAddrCovers(a, e);
    if e.Network? {
      assert e == Network(e.net) && GenuineFor(a, e.net);
      var m :| Network(m) in a && Cidr.NetContains(m, e.net) && !Cidr.FoldClash(m, e.net);
      Cidr.NetContainsSoundIffNoClash(m, e.net);
      Cidr.WithinIsBlockInclusion(m, e.net);
      assert Cidr.BlockOf(m) in BlocksOf(Network(m)) && Cidr.BlockOf(m) in ListBlocks(a);
    }
  }

  /** A genuine cover that keeps families apart is real. */
  lemma {:induction false} GenuineIncludes(j: Rule, i: Rule)
    requires Covers(j, i) && Genuine(j, i) && FamiliesKept(j, i)
    ensures Includes(j, i)
  {
    hide AddrsCovered, AddrsGenuine, ListBlocks, AddrsIncluded, Admits;
    forall width | width in {32, 128}
      ensures IncludesFamily(j, i, width)
    {
      if Admits(i, width) {
        GenuineAddrsIncluded(j.srcAddrs, i.srcAddrs, width);
        GenuineAddrsIncluded(j.dstAddrs, i.dstAddrs, width);
      }
    }
  }

  // ------------------------------------------------------------------------
  // Reported rules

  lemma {:induction false} NothingAfterDecision(w: World, rules: seq<Rule>, p: Packet, j: nat, k: nat)
    requires k <= j < |rules| && Matches(w, rules[j], j, p) && rules[j].action != Other
    ensures forall x :: x in Fires(w, rules, p, {}, k) ==> x <= j
    decreases |rules| - k
  {
    if k < j { NothingAfterDecision(w, rules, p, j, k + 1); }
  }

  lemma {:induction false} FiredRulesMatch(w: World, rules: seq<Rule>, p: Packet, deleted: set<nat>, k: nat)
    requires k <= |rules|
    ensures forall x :: x in Fires(w, rules, p, deleted, k) ==> k <= x < |rules| && Matches(w, rules[x], x, p)
    decreases |rules| - k
  {
    if k < |rules| { FiredRulesMatch(w, rules, p, deleted, k + 1); }
  }

  /** Every reported rule has a blocker that really covers it. */
  ghost predicate ReportsSound(rules: seq<Rule>, viaIndex: bool) {
    forall i :: i in Reported(rules, viaIndex) ==>
      exists j :: Blocks(rules, j, i, viaIndex) && Includes(rules[j], rules[i])
  }

  lemma {:induction false} UnclashedReportsAreSound(rules: seq<Rule>, viaIndex: bool)
    requires ListUnclashed(rules) && ListFamiliesKept(rules)
    ensures ReportsSound(rules, viaIndex)
  {
    hide Covers, Unclashed, Genuine, Includes, FamiliesKept;
    forall i | i in Reported(rules, viaIndex)
      ensures exists j :: Blocks(rules, j, i, viaIndex) && Includes(rules[j], rules[i])
    {
      var j := FirstBlocker(rules, i, viaIndex);
      UnclashedIsGenuine(rules[j], rules[i]);
      GenuineIncludes(rules[j], rules[i]);
    }
  }

  /** On single addresses the index reports soundly whatever clashes the list has. */
  lemma {:induction false} IndexedReportsAreSoundOnSingles(rules: seq<Rule>)
    requires ListFamiliesKept(rules) && forall r :: r in rules ==> SingleAddrs(r)
    ensures ReportsSound(rules, true)
  {
    hide Covers, Unclashed, Genuine, Includes, FamiliesKept;
    forall i | i in Reported(rules, true)
      ensures exists j :: Blocks(rules, j, i, true) && Includes(rules[j], rules[i])
    {
      var j := FirstBlocker(rules, i, true);
      assert rules[j] in rules && rules[i] in rules;
      SingletonReachedIffUnclashed(rules[j], rules[i]);
      UnclashedIsGenuine(rules[j], rules[i]);
      GenuineIncludes(rules[j], rules[i]);
    }
  }

  /** A soundly reported rule is dead: no packet makes it act, as a decision or as
      a log jump, whatever the names mean and whatever the conditional rules hide. */
  lemma {:induction false} ReportedNeverFires(w: World, rules: seq<Rule>, p: Packet, viaIndex: bool)
    requires ReportsSound(rules, viaIndex)
    ensures forall i :: i in Fires(w, rules, p, {}, 0) ==> i !in Reported(rules, viaIndex)
  {
    hide Covers, FieldsMatch, Includes;
    FiredRulesMatch(w, rules, p, {}, 0);
    forall i | i in Fires(w, rules, p, {}, 0)
      ensures i !in Reported(rules, viaIndex)
    {
      if i in Reported(rules, viaIndex) {
        var j :| Blocks(rules, j, i, viaIndex) && Includes(rules[j], rules[i]);
        CoversSound(w, rules[j], rules[i], p);
        assert !rules[j].conditional by { CoversOnlyUnconditional(rules[j], rules[i]); }
        NothingAfterDecision(w, rules, p, j, 0);
      }
    }
  }

  lemma CoversOnlyUnconditional(j: Rule, i: Rule)
    requires Covers(j, i)
    ensures !j.conditional
  {}

  lemma {:induction false} DeletingSilentRules(w: World, rules: seq<Rule>, p: Packet, deleted: set<nat>, k: nat)
    requires k <= |rules|
    requires forall i :: i in Fires(w, rules, p, {}, k) ==> i !in deleted
    ensures Fires(w, rules, p, deleted, k) == Fires(w, rules, p, {}, k)
    decreases |rules| - k
  {
    if k < |rules| {
      if !Matches(w, rules[k], k, p) || rules[k].action == Other {
        DeletingSilentRules(w, rules, p, deleted, k + 1);
      }
    }
  }

  /** Deleting every reported rule at once changes nothing for any packet: the same
      rules log it and the same rule decides it. */
  lemma {:induction false} DeletingReportedChangesNothing(w: World, rules: seq<Rule>, p: Packet, viaIndex: bool)
    requires ReportsSound(rules, viaIndex)
    ensures Fires(w, rules, p, Reported(rules, viaIndex), 0) == Fires(w, rules, p, {}, 0)
  {
    ReportedNeverFires(w, rules, p, viaIndex);
    DeletingSilentRules(w, rules, p, Reported(rules, viaIndex), 0);
  }

  /** No packet makes the second of the two rules act. */
  ghost predicate NeverActs(j: Rule, i: Rule) {
    forall w, p :: 1 !in Fires(w, [j, i], p, {}, 0)
  }

  /** A rule that either pass reports against the terminating rule before it never
      acts, and deleting it changes nothing, iff the cover is real. */
  lemma {:induction false} TwoRuleReportIsSoundIff(j: Rule, i: Rule, viaIndex: bool)
    requires 1 in Reported([j, i], viaIndex)
    ensures Reported([j, i], viaIndex) == {1}
    ensures NeverActs(j, i) <==> Includes(j, i)
    ensures (forall w, p :: Fires(w, [j, i], p, Reported([j, i], viaIndex), 0) == Fires(w, [j, i], p, {}, 0))
       <==> Includes(j, i)
  {
    hide Covers, Includes, FieldsMatch;
    OnlySecondReported(j, i, viaIndex);
    CoversOnlyUnconditional(j, i);
    forall w, p {
      TwoRuleFires(w, j, i, p);
    }
    if Includes(j, i) {
      CoversSoundIff(j, i);
    } else {
      var w, p := MissedPacket(j, i);
      TwoRuleFires(w, j, i, p);
      assert 1 in Fires(w, [j, i], p, {}, 0);
    }
  }

  lemma {:induction false} OnlySecondReported(j: Rule, i: Rule, viaIndex: bool)
    requires 1 in Reported([j, i], viaIndex)
    ensures Reported([j, i], viaIndex) == {1}
    ensures Terminates(j) && i.enabled && Covers(j, i)
  {
    hide Covers;
    var k := FirstBlocker([j, i], 1, viaIndex);
    assert Blocks([j, i], k, 1, viaIndex);
  }

  lemma {:induction false} TwoRuleFires(w: World, j: Rule, i: Rule, p: Packet)
    requires Terminates(j) && !j.conditional && i.enabled
    ensures 1 in Fires(w, [j, i], p, {}, 0) <==> !FieldsMatch(w, j, p) && Matches(w, i, 1, p)
    ensures Fires(w, [j, i], p, {1}, 0) == Fires(w, [j, i], p, {}, 0) <==> 1 !in Fires(w, [j, i], p, {}, 0)
  {
    hide FieldsMatch;
    var rules := [j, i];
    assert Fires(w, rules, p, {1}, 1) == [] && Fires(w, rules, p, {}, 2) == [];
  }

  /** In whatever list it stands, a rule behind a terminating one that covers it is
      dead, iff the cover is real. */
  lemma {:induction false} BlameIsSoundIff(j: Rule, i: Rule)
    requires Terminates(j) && i.enabled && Covers(j, i)
    ensures Includes(j, i) <==>
            forall rules: seq<Rule>, a: nat, b: nat, w, p ::
              a < b < |rules| && rules[a] == j && rules[b] == i ==> b !in Fires(w, rules, p, {}, 0)
  {
    hide Covers, Includes, FieldsMatch;
    CoversOnlyUnconditional(j, i);
    if Includes(j, i) {
      forall rules: seq<Rule>, a: nat, b: nat, w, p | a < b < |rules| && rules[a] == j && rules[b] == i
        ensures b !in Fires(w, rules, p, {}, 0)
      {
        DeadBehind(rules, a, b, w, p);
      }
    } else {
      var w, p := MissedPacket(j, i);
      TwoRuleFires(w, j, i, p);
      assert [j, i][0] == j && [j, i][1] == i && 1 in Fires(w, [j, i], p, {}, 0);
    }
  }

  lemma {:induction false} DeadBehind(rules: seq<Rule>, a: nat, b: nat, w: World, p: Packet)
    requires a < b < |rules| && Terminates(rules[a]) && Covers(rules[a], rules[b]) && Includes(rules[a], rules[b])
    ensures b !in Fires(w, rules, p, {}, 0)
  {
    hide Covers, Includes, FieldsMatch;
    CoversOnlyUnconditional(rules[a], rules[b]);
    FiredRulesMatch(w, rules, p, {}, 0);
    if Matches(w, rules[b], b, p) {
      CoversSound(w, rules[a], rules[b], p);
      NothingAfterDecision(w, rules, p, a, 0);
    }
  }

  // ------------------------------------------------------------------------
  // Reports that are wrong

  lemma {:induction false} SourceDecides(w: World, sources: seq<AddrElem>, pos: nat, p: Packet)
    ensures Matches(w, SourcesRule(sources), pos, p) <==> AddrsHold(w, sources, p.src)
  {
    hide AddrHolds;
    assert Lower("") == "" && Norm("") == "";
    assert AddrsHold(w, [], p.dst) by { EmptyHolds(w, p.dst); }
  }

  lemma EmptyHolds(w: World, x: Cidr.Address)
    ensures AddrsHold(w, [], x)
  {
    assert Cidr.InBlock(x, Cidr.Block(|x|, [])) && AnyAddr in Elems([]) && AddrHolds(w, AnyAddr, x);
  }

  lemma {:induction false} NetworkHolds(w: World, n: Cidr.Net, x: Cidr.Address)
    ensures AddrHolds(w, Network(n), x) <==> Cidr.InNet(x, n)
  {
    Cidr.InNetIsInBlock(x, n);
  }

  /** 10.1.1.0 is in the mapped network and not in the plain one. */
  lemma {:induction false} PassedBy() returns (x: Cidr.Address)
    ensures x == Cidr.PLAIN.ip[23 := true] && |x| == 32
    ensures Cidr.InNet(x, Cidr.MAPPED) && !Cidr.InNet(x, Cidr.PLAIN)
  {
    x := Cidr.PLAIN.ip[23 := true];
    assert Cidr.Mapped(Cidr.MAPPED.ip) && Cidr.Fold(Cidr.MAPPED.ip) == Cidr.PLAIN.ip;
    assert Cidr.PLAIN.ip[..16] == x[..16];
    assert Cidr.PLAIN.ip[..24][23] != x[..24][23];
  }

  /** The second of two source rules decides a packet the first does not hold. */
  lemma {:induction false} SecondDecides(w: World, a: seq<AddrElem>, b: seq<AddrElem>, p: Packet)
    requires !AddrsHold(w, a, p.src) && AddrsHold(w, b, p.src)
    ensures Fires(w, [SourcesRule(a), SourcesRule(b)], p, {}, 0) == [1]
  {
    SourceDecides(w, a, 0, p);
    SourceDecides(w, b, 1, p);
    hide Matches;
    assert Fires(w, [SourcesRule(a), SourcesRule(b)], p, {}, 1) == [1];
  }

  /** Without the clash condition the reference's findings can be wrong: 10.1.1.0
      passes the /24 by and is decided by the rule reported as dead. */
  lemma {:induction false} MappedReportIsWrong(w: World)
    ensures var rules := [SourcesRule([Network(Cidr.PLAIN)]), SourcesRule([Network(Cidr.MAPPED)])];
      var x: Cidr.Address := Cidr.PLAIN.ip[23 := true];
      1 in Reported(rules, false) && Fires(w, rules, Header("", 6, x, x, 0, 0), {}, 0) == [1]
  {
    var a, b := [Network(Cidr.PLAIN)], [Network(Cidr.MAPPED)];
    var x := PassedBy();
    Cidr.ContainmentDoesNotCompose();
    NetworkCovers(Cidr.PLAIN, Cidr.MAPPED);
    SourcesDecide(a, b);
    hide Covers, Cidr.InNet, Cidr.NetContains, AddrHolds;
    assert Blocks([SourcesRule(a), SourcesRule(b)], 0, 1, false);
    NetworkHolds(w, Cidr.PLAIN, x);
    NetworkHolds(w, Cidr.MAPPED, x);
    assert b[0] in Elems(b);
    SecondDecides(w, a, b, Header("", 6, x, x, 0, 0));
  }

  /** So can the indexed pass's, once the first sources agree: it judges a rule by its
      first address only. */
  lemma {:induction false} IndexedReportIsWrong(w: World, viaIndex: bool)
    ensures var rules := [TwoSources(Cidr.SHARED, Cidr.PLAIN), TwoSources(Cidr.SHARED, Cidr.MAPPED)];
      var x: Cidr.Address := Cidr.PLAIN.ip[23 := true];
      1 in Reported(rules, viaIndex) && Fires(w, rules, Header("", 6, x, x, 0, 0), {}, 0) == [1]
  {
    var s := Network(Cidr.SHARED);
    var a, b := [s, Network(Cidr.PLAIN)], [s, Network(Cidr.MAPPED)];
    var x := PassedBy();
    Cidr.ContainmentDoesNotCompose();
    Cidr.SharedIsElsewhere();
    SharedSourcesCover(Cidr.SHARED, Cidr.PLAIN, Cidr.MAPPED);
    SharedSourcesReached(Cidr.SHARED, Cidr.PLAIN, Cidr.MAPPED);
    hide Covers, Reached, Cidr.InNet, Cidr.NetContains, AddrHolds;
    assert Blocks([SourcesRule(a), SourcesRule(b)], 0, 1, viaIndex);
    NetworkHolds(w, Cidr.SHARED, x);
    NetworkHolds(w, Cidr.PLAIN, x);
    NetworkHolds(w, Cidr.MAPPED, x);
    assert b[1] in Elems(b);
    SecondDecides(w, a, b, Header("", 6, x, x, 0, 0));
  }

  /** Both passes let 0.0.0.0/0 cover any IPv6 network and ::/0 any IPv4 one, whose
      packets it does not hold: the rule reported as dead decides them. No network
      clashes. */
  lemma {:induction false} OtherFamilyReportIsWrong(w: World, e: AddrElem, n: Cidr.Net, viaIndex: bool)
    requires e == AnyV4 || e == AnyV6
    requires |Cidr.Fold(n.ip)| == if e == AnyV4 then 128 else 32
    ensures var rules, x := [SourcesRule([e]), SourcesRule([Network(n)])], Cidr.Fold(n.ip);
      && 1 in Reported(rules, viaIndex) && ListUnclashed(rules)
      && Fires(w, rules, Header("", 6, x, x, 0, 0), {}, 0) == [1]
  {
    var a, b, x := [e], [Network(n)], Cidr.Fold(n.ip);
    assert e in a && IsAnyAddr(a) && AddrsCovered(a, b);
    SourcesDecide(a, b);
    hide Covers, AddrsCovered;
    assert Blocks([SourcesRule(a), SourcesRule(b)], 0, 1, viaIndex);
    NetworkHolds(w, n, x);
    assert b[0] in Elems(b);
    assert Cidr.InNet(x, n) && !AddrHolds(w, e, x);
    hide AddrHolds;
    SecondDecides(w, a, b, Header("", 6, x, x, 0, 0));
  }
}
