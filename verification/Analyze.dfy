/** The shadow and duplicate pass (fwrule/analyze.go:31-132): the indexed form, the
    quadratic reference, and when the two agree. */
module Analyze {
  import opened Rules
  import opened CoverIndex
  import opened AddrIndex
  import Cidr

  datatype Check = Duplicate | Shadowed
  datatype Severity = High | Medium | Low

  /** An issue's texts are functions of the two rules it names. */
  datatype Issue = Issue(check: Check, severity: Severity, subject: Rule, blamed: Rule)

  function CoverIssue(rj: Rule, ri: Rule): Issue {
    if SameMatch(rj, ri) && rj.action == ri.action then Issue(Duplicate, Low, ri, rj)
    else if ri.action == Deny && rj.action == Allow then Issue(Shadowed, High, ri, rj)
    else Issue(Shadowed, Medium, ri, rj)
  }

  /** Rule `j` decides every packet that reaches it and matches. */
  predicate Terminates(r: Rule) {
    r.enabled && r.action != Other
  }

  /** Earlier rule `j` makes rule `i` unreachable by the reference's test and, with
      `viaIndex`, also within what the index's address dimensions can see. */
  ghost predicate Blocks(rules: seq<Rule>, j: int, i: int, viaIndex: bool) {
    && 0 <= j < i < |rules|
    && Terminates(rules[j]) && Covers(rules[j], rules[i])
    && (viaIndex ==> Reached(rules[j], rules[i]))
  }

  ghost function BlockerBelow(rules: seq<Rule>, i: nat, n: nat, viaIndex: bool): (r: int)
    ensures r == -1 || (0 <= r < n && Blocks(rules, r, i, viaIndex))
    ensures forall j :: j < n && Blocks(rules, j, i, viaIndex) ==> 0 <= r <= j
  {
    if n == 0 then -1
    else
      var r := BlockerBelow(rules, i, n - 1, viaIndex);
      if r >= 0 then r else if Blocks(rules, n - 1, i, viaIndex) then n - 1 else -1
  }

  /** The position of the earliest rule that blocks rule `i`, or -1. */
  ghost function FirstBlocker(rules: seq<Rule>, i: nat, viaIndex: bool): (r: int)
    ensures r == -1 || Blocks(rules, r, i, viaIndex)
    ensures forall j :: Blocks(rules, j, i, viaIndex) ==> 0 <= r <= j
  {
    BlockerBelow(rules, i, i, viaIndex)
  }

  ghost function IssueAt(rules: seq<Rule>, i: nat, viaIndex: bool): seq<Issue>
    requires i < |rules|
  {
    var j := FirstBlocker(rules, i, viaIndex);
    if rules[i].enabled && j >= 0 then [CoverIssue(rules[j], rules[i])] else []
  }

  /** The issues for the first `n` rules, in order. */
  ghost function Issues(rules: seq<Rule>, n: nat, viaIndex: bool): seq<Issue>
    requires n <= |rules|
  {
    if n == 0 then [] else Issues(rules, n - 1, viaIndex) + IssueAt(rules, n - 1, viaIndex)
  }

  ghost predicate RegisteredBelow(ix: CoverIndex, rules: seq<Rule>, i: nat)
    requires i <= |rules|
    reads ix
  {
    && (forall j :: j in ix.added <==> 0 <= j < i && Terminates(rules[j]) && !rules[j].conditional)
    && (forall j :: j in ix.added ==> ix.added[j] == rules[j])
  }

  /** The index answers with the earliest blocker it can see. */
  method IssueFor(ix: CoverIndex, rules: seq<Rule>, i: nat) returns (found: seq<Issue>)
    requires i < |rules| && ix.Valid() && RegisteredBelow(ix, rules, i)
    ensures found == IssueAt(rules, i, true)
  {
    hide CoverIndex.Valid, CoverIssue, Reached, AddrsCovered, PortsCovered, IfaceCovers, ProtoCovers;
    found := [];
    if rules[i].enabled {
      var j := ix.FirstCoverer(rules, rules[i]);
      assert forall k :: Blocks(rules, k, i, true) <==>
          k in ix.added && Covers(ix.added[k], rules[i]) && Reached(ix.added[k], rules[i]);
      if j >= 0 {
        found := [CoverIssue(rules[j], rules[i])];
      }
    }
  }

  lemma NothingRegistered(ix: CoverIndex, rules: seq<Rule>)
    requires ix.added == map[]
    ensures RegisteredBelow(ix, rules, 0)
  {}

  /** The end of one round: a rule that can block others enters the index. */
  method Register(ix: CoverIndex, rules: seq<Rule>, i: nat)
    requires i < |rules| && ix.Valid() && RegisteredBelow(ix, rules, i)
    modifies ix`added, ix.iface, ix.proto
    modifies ix.src, ix.src.lens4, ix.src.lens6, ix.dst, ix.dst.lens4, ix.dst.lens6
    modifies ix.sport, ix.sport.tree, ix.dport, ix.dport.tree
    ensures ix.Valid() && RegisteredBelow(ix, rules, i + 1)
  {
    hide CoverIndex.Valid;
    var ri := rules[i];
    if ri.enabled && ri.action != Other && !ri.conditional {
      ix.Add(i, ri);
    }
  }

  /** The indexed pass. Where no networks clash its answer is the reference's. */
  method ShadowAndDuplicate(rules: seq<Rule>) returns (out: seq<Issue>)
    ensures out == Issues(rules, |rules|, true)
    ensures ListUnclashed(rules) ==> out == Issues(rules, |rules|, false)
  {
    hide CoverIndex.Valid, RegisteredBelow, IssueAt, Covers, Unclashed;
    out := [];
    var ix := new CoverIndex();
    NothingRegistered(ix, rules);
    for i := 0 to |rules|
      invariant ix.Valid() && fresh(ix) && fresh(ix.iface) && fresh(ix.proto)
      invariant fresh(ix.src) && fresh(ix.src.lens4) && fresh(ix.src.lens6)
      invariant fresh(ix.dst) && fresh(ix.dst.lens4) && fresh(ix.dst.lens6)
      invariant fresh(ix.sport) && fresh(ix.sport.tree) && fresh(ix.dport) && fresh(ix.dport.tree)
      invariant RegisteredBelow(ix, rules, i)
      invariant out == Issues(rules, i, true)
    {
      hide CoverIndex.Valid;
      var found := IssueFor(ix, rules, i);
      out := out + found;
      Register(ix, rules, i);
    }
    if ListUnclashed(rules) { IndexedEqualsReference(rules); }
  }

  /** The quadratic scan, with its own copy of the issue switch. */
  method ShadowAndDuplicateQuadratic(rules: seq<Rule>) returns (out: seq<Issue>)
    ensures out == Issues(rules, |rules|, false)
  {
    hide Covers;
    out := [];
    for i := 0 to |rules|
      invariant out == Issues(rules, i, false)
    {
      var ri := rules[i];
      if !ri.enabled {
        continue;
      }
      for j := 0 to i
        invariant out == Issues(rules, i, false)
        invariant forall k :: 0 <= k < j ==> !Blocks(rules, k, i, false)
      {
        var covers := RuleCovers(rules[j], ri);
        if !rules[j].enabled || rules[j].action == Other || !covers {
          continue;
        }
        assert Blocks(rules, j, i, false);
        var same := RuleCovers(ri, rules[j]);
        if same && rules[j].action == ri.action {
          out := out + [Issue(Duplicate, Low, ri, rules[j])];
        } else if ri.action == Deny && rules[j].action == Allow {
          out := out + [Issue(Shadowed, High, ri, rules[j])];
        } else {
          out := out + [Issue(Shadowed, Medium, ri, rules[j])];
        }
        break;
      }
    }
  }

  // ------------------------------------------------------------------------
  // The indexed form against its reference

  /** No network of an earlier rule clashes with one of a later rule. */
  ghost predicate ListUnclashed(rules: seq<Rule>) {
    forall j, i :: 0 <= j < i < |rules| ==> Unclashed(rules[j], rules[i])
  }

  predicate PlainElems(addrs: seq<AddrElem>) {
    forall e :: e in addrs && e.Network? ==> !Cidr.Mapped(e.net.ip)
  }

  /** The list holds no IPv4-mapped IPv6 network. */
  ghost predicate NoMappedNetworks(rules: seq<Rule>) {
    forall r :: r in rules ==> PlainElems(r.srcAddrs) && PlainElems(r.dstAddrs)
  }

  lemma {:induction false} NoMappedIsUnclashed(rules: seq<Rule>)
    requires NoMappedNetworks(rules)
    ensures ListUnclashed(rules)
  {}

  /** Rule `i` gets the same coverer from both forms iff the earliest coverer
      includes the rule's first source and destination without a clash. */
  lemma {:induction false} SameBlockerIffGenuine(rules: seq<Rule>, i: nat)
    requires i < |rules|
    ensures FirstBlocker(rules, i, true) == FirstBlocker(rules, i, false) <==>
            (var j := FirstBlocker(rules, i, false); j >= 0 ==> FirstsGenuine(rules[j], rules[i]))
  {
    hide Covers, Reached, FirstsGenuine;
    var j := FirstBlocker(rules, i, false);
    if j >= 0 {
      CoveringReachedIffGenuine(rules[j], rules[i]);
      if Reached(rules[j], rules[i]) {
        assert Blocks(rules, j, i, true);
      }
    }
    assert forall k :: Blocks(rules, k, i, true) ==> Blocks(rules, k, i, false);
  }

  /** With single sources and destinations the clash is the whole story: the index
      misses a coverer iff one of its networks clashes. */
  lemma {:induction false} SingletonReachedIffUnclashed(j: Rule, i: Rule)
    requires Covers(j, i)
    requires SingleAddrs(j) && SingleAddrs(i)
    ensures Reached(j, i) <==> Unclashed(j, i)
  {
    SingleAddrReachedIffUnclashed(j.srcAddrs, i.srcAddrs);
    SingleAddrReachedIffUnclashed(j.dstAddrs, i.dstAddrs);
  }

  lemma {:induction false} SingleAddrReachedIffUnclashed(a: seq<AddrElem>, b: seq<AddrElem>)
    requires AddrsCovered(a, b) && |a| <= 1 && |b| <= 1
    ensures AddrReach(a, b) <==> AddrsUnclashed(a, b)
  {
    CoveredReachedIffGenuine(a, b);
    SingleGenuineIsUnclashed(a, b);
    hide Cidr.NetContains, Cidr.FoldClash, GenuineFor, AddrReach;
    assert b != [] ==> b == [b[0]];
  }

  ghost predicate SameBlame(rules: seq<Rule>, i: nat)
    requires i < |rules|
  {
    rules[i].enabled ==>
      var j := FirstBlocker(rules, i, false);
      j >= 0 ==> FirstsGenuine(rules[j], rules[i])
  }

  lemma {:induction false} IssuesAgree(rules: seq<Rule>, n: nat)
    requires n <= |rules| && forall i: nat :: i < n ==> SameBlame(rules, i)
    ensures Issues(rules, n, true) == Issues(rules, n, false)
  {
    hide Covers, Reached, FirstsGenuine, CoverIssue;
    if n > 0 {
      IssuesAgree(rules, n - 1);
      assert SameBlame(rules, n - 1);
      SameBlockerIffGenuine(rules, n - 1);
    }
  }

  lemma {:induction false} SubjectsBelow(rules: seq<Rule>, n: nat, viaIndex: bool)
    requires n <= |rules|
    ensures forall x :: x in Issues(rules, n, viaIndex) ==> exists k :: 0 <= k < n && rules[k] == x.subject
  {
    hide Covers, Reached;
    if n > 0 { SubjectsBelow(rules, n - 1, viaIndex); }
  }

  ghost predicate Distinct(rules: seq<Rule>) {
    forall a, b :: 0 <= a < b < |rules| ==> rules[a] != rules[b]
  }

  lemma IssueNamesBlamed(a: Rule, b: Rule, r: Rule)
    requires CoverIssue(a, r) == CoverIssue(b, r)
    ensures a == b
  {
    hide SameMatch;
  }

  lemma {:induction false} SameIssueForcesSameBlame(rules: seq<Rule>, i: nat)
    requires i < |rules| && Distinct(rules) && IssueAt(rules, i, true) == IssueAt(rules, i, false)
    ensures SameBlame(rules, i)
  {
    hide Covers, Reached, FirstsGenuine, CoverIssue;
    SameBlockerIffGenuine(rules, i);
    var j, k := FirstBlocker(rules, i, true), FirstBlocker(rules, i, false);
    if rules[i].enabled && k >= 0 {
      assert j >= 0 && CoverIssue(rules[j], rules[i]) == CoverIssue(rules[k], rules[i]);
      IssueNamesBlamed(rules[j], rules[k], rules[i]);
    }
  }

  lemma {:induction false} AgreementForcesSameBlame(rules: seq<Rule>, n: nat)
    requires n <= |rules| && Distinct(rules)
    requires Issues(rules, n, true) == Issues(rules, n, false)
    ensures forall i: nat :: i < n ==> SameBlame(rules, i)
  {
    hide Covers, Reached, FirstsGenuine, SameMatch, SameBlame;
    if n > 0 {
      var i := n - 1;
      var s, t := Issues(rules, i, true), Issues(rules, i, false);
      var a, b := IssueAt(rules, i, true), IssueAt(rules, i, false);
      SubjectsBelow(rules, i, true);
      SubjectsBelow(rules, i, false);
      TailsAgree(rules[i], s, a, t, b);
      SameIssueForcesSameBlame(rules, i);
      AgreementForcesSameBlame(rules, i);
    }
  }

  /** Equal lists whose optional last entries alone concern rule `r` agree on the
      last entry. */
  lemma {:induction false} TailsAgree(r: Rule, s: seq<Issue>, a: seq<Issue>, t: seq<Issue>, b: seq<Issue>)
    requires s + a == t + b && |a| <= 1 && |b| <= 1
    requires forall x :: x in a || x in b ==> x.subject == r
    requires forall x :: x in s || x in t ==> x.subject != r
    ensures s == t && a == b
  {
    forall x
      ensures x in a <==> x in b
    {
      assert x in s + a <==> x in t + b;
    }
    assert |a| == |b| by {
      if |a| > 0 { assert a[0] in a; }
      if |b| > 0 { assert b[0] in b; }
    }
    assert s == (s + a)[..|s|] && t == (t + b)[..|t|];
    assert a == (s + a)[|s|..] && b == (t + b)[|t|..];
  }

  /** The indexed pass reports exactly the reference's issues, in the same order
      and blaming the same rules, on every list without a clash. */
  lemma {:induction false} IndexedEqualsReference(rules: seq<Rule>)
    requires ListUnclashed(rules)
    ensures Issues(rules, |rules|, true) == Issues(rules, |rules|, false)
  {
    forall i: nat | i < |rules|
      ensures SameBlame(rules, i)
    {
      var j := FirstBlocker(rules, i, false);
      if j >= 0 {
        CoveringRuleIsReached(rules[j], rules[i]);
        CoveringReachedIffGenuine(rules[j], rules[i]);
      }
    }
    IssuesAgree(rules, |rules|);
  }

  /** `reindex` (fwparse/parse.go:60-65): afterwards no two rules are the same. */
  method Reindex(rules: array<Rule>)
    modifies rules
    ensures forall i :: 0 <= i < rules.Length ==> rules[i] == old(rules[i]).(index := i + 1)
    ensures Distinct(rules[..])
  {
    for i := 0 to rules.Length
      invariant forall j :: 0 <= j < i ==> rules[j] == old(rules[j]).(index := j + 1)
      invariant forall j :: i <= j < rules.Length ==> rules[j] == old(rules[j])
    {
      rules[i] := rules[i].(index := i + 1);
    }
  }

  /** ... and, whatever the list, exactly when the earliest coverer of each enabled
      rule includes its first addresses without a clash. Rules of one parse are distinct:
      each carries its own position. */
  lemma {:induction false} IndexedEqualsReferenceIff(rules: seq<Rule>)
    requires Distinct(rules)
    ensures Issues(rules, |rules|, true) == Issues(rules, |rules|, false) <==>
            forall i: nat :: i < |rules| ==> SameBlame(rules, i)
  {
    if forall i: nat :: i < |rules| ==> SameBlame(rules, i) {
      IssuesAgree(rules, |rules|);
    }
    if Issues(rules, |rules|, true) == Issues(rules, |rules|, false) {
      AgreementForcesSameBlame(rules, |rules|);
    }
  }

  lemma {:induction false} ReachedTransitive(k: Rule, j: Rule, i: Rule)
    requires Covers(k, j) && Covers(j, i) && Genuine(k, j) && Reached(j, i)
    ensures Reached(k, i)
  {
    AddrReachTransitive(k.srcAddrs, j.srcAddrs, i.srcAddrs);
    AddrReachTransitive(k.dstAddrs, j.dstAddrs, i.dstAddrs);
  }

  lemma {:induction false} AddrReachTransitive(a: seq<AddrElem>, b: seq<AddrElem>, c: seq<AddrElem>)
    requires AddrsCovered(a, b) && AddrsGenuine(a, b) && AddrReach(b, c)
    ensures AddrReach(a, c)
  {
    hide Cidr.NetContains, Cidr.FoldClash;
    if !IsAnyAddr(a) {
      var e := c[0];
      if e.Network? {
        var n :| Network(n) in b && Cidr.Within(e.net, n);
        assert GenuineFor(a, n);
        var m :| Network(m) in a && Cidr.NetContains(m, n) && !Cidr.FoldClash(m, n);
        Cidr.NetContainsSoundIffNoClash(m, n);
        assert Cidr.Within(e.net, m);
      } else {
        assert e in b && SomeAddrCovers(a, e);
      }
    }
  }

  /** A rule that a finding of either pass blames is itself covered only through
      clashes: so the pass reports it iff some earlier terminating rule that the pass
      sees covers it through one. */
  lemma {:induction false} BlamedRuleIsNotReported(rules: seq<Rule>, i: nat, viaIndex: bool)
    requires i < |rules|
    ensures var j := FirstBlocker(rules, i, viaIndex);
      && (j >= 0 ==> (FirstBlocker(rules, j, viaIndex) == -1 <==> !BlockedThroughClash(rules, j, viaIndex)))
      && (j >= 0 && ListUnclashed(rules) ==> FirstBlocker(rules, j, viaIndex) == -1)
  {
    hide Covers, Genuine, Unclashed, Reached;
    var j := FirstBlocker(rules, i, viaIndex);
    if j >= 0 {
      var k := FirstBlocker(rules, j, viaIndex);
      if k >= 0 {
        assert Blocks(rules, k, j, viaIndex) && !Blocks(rules, k, i, viaIndex);
        assert !Genuine(rules[k], rules[j]) by {
          if Genuine(rules[k], rules[j]) {
            GenuineComposes(rules[k], rules[j]);
            CoversTransitive(rules[k], rules[j], rules[i]);
            if viaIndex { ReachedTransitive(rules[k], rules[j], rules[i]); }
          }
        }
        if Unclashed(rules[k], rules[j]) { UnclashedIsGenuine(rules[k], rules[j]); }
        assert BlockedThroughClash(rules, j, viaIndex);
      }
    }
  }

  /** Some earlier terminating rule covers rule `j`, but not genuinely. */
  ghost predicate BlockedThroughClash(rules: seq<Rule>, j: nat, viaIndex: bool) {
    exists k: nat :: k < j < |rules| && Blocks(rules, k, j, viaIndex) && !Genuine(rules[k], rules[j])
  }

  /** On single addresses the indexed pass never blames a rule it reports, mapped
      networks included. */
  lemma {:induction false} IndexedBlameOnSingles(rules: seq<Rule>, i: nat)
    requires i < |rules| && forall r :: r in rules ==> SingleAddrs(r)
    ensures var j := FirstBlocker(rules, i, true); j >= 0 ==> FirstBlocker(rules, j, true) == -1
  {
    hide Covers, Genuine, Unclashed, Reached;
    BlamedRuleIsNotReported(rules, i, true);
    var j := FirstBlocker(rules, i, true);
    forall k: nat | k < j < |rules| && Blocks(rules, k, j, true)
      ensures Genuine(rules[k], rules[j])
    {
      assert rules[k] in rules && rules[j] in rules;
      SingletonReachedIffUnclashed(rules[k], rules[j]);
      UnclashedIsGenuine(rules[k], rules[j]);
    }
  }

  // ------------------------------------------------------------------------
  // Lists on which the clash shows

  function SourceRule(index: int, net: Cidr.Net): Rule {
    Rule(index, Allow, "", "", [Network(net)], [], [], [], true, false)
  }

  /** The reference blames the /24 for the wider mapped network; the index finds
      no coverer, and none really exists. */
  lemma {:induction false} MappedNetworkDisagrees()
    ensures var rules := [SourceRule(1, Cidr.PLAIN), SourceRule(2, Cidr.MAPPED)];
      && Cidr.FoldClash(Cidr.PLAIN, Cidr.MAPPED)
      && FirstBlocker(rules, 1, false) == 0
      && FirstBlocker(rules, 1, true) == -1
      && !Cidr.Within(Cidr.MAPPED, Cidr.PLAIN)
  {
    var rules := [SourceRule(1, Cidr.PLAIN), SourceRule(2, Cidr.MAPPED)];
    Cidr.ContainmentDoesNotCompose();
    Cidr.NetContainsSoundIffNoClash(Cidr.PLAIN, Cidr.MAPPED);
    assert AddrCovers(rules[0].srcAddrs[0], rules[1].srcAddrs[0]);
    assert SomeAddrCovers(rules[0].srcAddrs, rules[1].srcAddrs[0]);
    assert Covers(rules[0], rules[1]);
    assert Blocks(rules, 0, 1, false);
    assert !Reached(rules[0], rules[1]);
  }

  /** Of three rules the second is blamed for the third and is itself reported. */
  lemma {:induction false} BlamedRuleCanBeReported()
    ensures var rules := [SourceRule(1, Cidr.PLAIN), SourceRule(2, Cidr.MAPPED), SourceRule(3, Cidr.MAPPED_INNER)];
      FirstBlocker(rules, 2, false) == 1 && FirstBlocker(rules, 1, false) == 0
  {
    var rules := [SourceRule(1, Cidr.PLAIN), SourceRule(2, Cidr.MAPPED), SourceRule(3, Cidr.MAPPED_INNER)];
    Cidr.ContainmentDoesNotCompose();
    SourcesCover(1, Cidr.PLAIN, 2, Cidr.MAPPED);
    SourcesCover(2, Cidr.MAPPED, 3, Cidr.MAPPED_INNER);
    SourcesCover(1, Cidr.PLAIN, 3, Cidr.MAPPED_INNER);
    hide Covers;
    assert Blocks(rules, 0, 1, false) && Blocks(rules, 1, 2, false) && !Blocks(rules, 0, 2, false);
  }

  lemma {:induction false} SourcesCover(a: int, m: Cidr.Net, b: int, n: Cidr.Net)
    ensures Covers(SourceRule(a, m), SourceRule(b, n)) <==> Cidr.NetContains(m, n)
  {
    hide Cidr.NetContains;
    NetworkCovers(m, n);
    if !Cidr.NetContains(m, n) { LoneCover(Network(m), Network(n), [Network(n)]); }
    EmptyIsAny();
    hide AddrsCovered;
  }

  function TwoSources(s: Cidr.Net, n: Cidr.Net): Rule {
    SourcesRule([Network(s), Network(n)])
  }

  lemma {:induction false} SharedSourcesReached(s: Cidr.Net, m: Cidr.Net, n: Cidr.Net)
    ensures Reached(TwoSources(s, m), TwoSources(s, n))
  {
    assert Cidr.Within(s, s);
    assert Network(s) in TwoSources(s, m).srcAddrs;
  }

  lemma {:induction false} SharedSourcesCover(s: Cidr.Net, m: Cidr.Net, n: Cidr.Net)
    requires !Cidr.NetContains(s, n)
    ensures Covers(TwoSources(s, m), TwoSources(s, n)) <==> Cidr.NetContains(m, n)
  {
    var z, x, y := Network(s), Network(m), Network(n);
    Cidr.NetContainsReflexive(s);
    hide Cidr.NetContains;
    SourcesDecide([z, x], [z, y]);
    hide Covers;
    assert AddrCovers(z, z) && !AddrCovers(z, y) && (AddrCovers(x, y) <==> Cidr.NetContains(m, n));
    hide AddrCovers;
    assert z in [z, x] && x in [z, x] && y in [z, y];
    if AddrCovers(x, y) {
      PairCovered([z, x], z, y);
    } else {
      assert !SomeAddrCovers([z, x], y);
      assert !IsAnyAddr([z, x]);
    }
  }

  /** With several addresses the indexed pass too can blame a rule it reports. */
  lemma {:induction false} IndexedBlamedRuleCanBeReported(viaIndex: bool)
    ensures var rules := [TwoSources(Cidr.SHARED, Cidr.PLAIN), TwoSources(Cidr.SHARED, Cidr.MAPPED),
                          TwoSources(Cidr.SHARED, Cidr.MAPPED_INNER)];
      FirstBlocker(rules, 2, viaIndex) == 1 && FirstBlocker(rules, 1, viaIndex) == 0
  {
    hide Covers, Reached, Cidr.NetContains;
    var s, a, b, c := Cidr.SHARED, Cidr.PLAIN, Cidr.MAPPED, Cidr.MAPPED_INNER;
    Cidr.ContainmentDoesNotCompose();
    Cidr.SharedIsElsewhere();
    SharedSourcesCover(s, a, b);
    SharedSourcesCover(s, b, c);
    SharedSourcesCover(s, a, c);
    SharedSourcesReached(s, a, b);
    SharedSourcesReached(s, b, c);
    var rules := [TwoSources(s, a), TwoSources(s, b), TwoSources(s, c)];
    assert Blocks(rules, 0, 1, viaIndex) && Blocks(rules, 1, 2, viaIndex) && !Blocks(rules, 0, 2, viaIndex);
  }
}
