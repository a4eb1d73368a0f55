/** CIDR networks as `net.ParseCIDR` yields them and as `netContains`
    (fwrule/rule.go:130-138), `normCIDR` and `cidrKey`
    (fwrule/coverindex.go:184-211) read them. Addresses are bit strings, most
    significant bit first: 32 bits for IPv4 and 128 bits for IPv6. */
module Cidr {

  type Address = x: seq<bool> | |x| == 32 || |x| == 128 witness seq(32, _ => false)

  datatype IPNet = IPNet(ip: Address, ones: nat)

  /** The parser masks the address: no bit is set beyond the prefix. */
  ghost predicate Masked(n: IPNet) {
    n.ones <= |n.ip| && forall k :: n.ones <= k < |n.ip| ==> !n.ip[k]
  }

  type Net = n: IPNet | Masked(n) witness IPNet(seq(32, _ => false), 0)

  /** 0.0.0.0/0 and ::/0, by their width. */
  function EveryNet(width: nat): Net
    requires width == 32 || width == 128
  {
    IPNet(seq(width, _ => false), 0)
  }

  /** An IPv4-mapped IPv6 address: 80 zero bits, then 16 one bits (section
      2.5.5.2 of RFC 4291). */
  predicate Mapped(ip: Address) {
    |ip| == 128 && forall k :: 0 <= k < 96 ==> ip[k] == (80 <= k)
  }

  /** `To4` where it applies: a mapped address becomes the IPv4 address it holds. */
  function Fold(ip: Address): Address {
    if Mapped(ip) then ip[96..] else ip
  }

  /** A mapped network always has at least 96 prefix bits, so folding its prefix
      length never goes below zero: the `ok == false` exits of `normCIDR` cannot
      be taken on a parsed network. */
  function FoldedOnes(n: Net): (ones: nat)
    ensures ones <= |Fold(n.ip)|
  {
    if Mapped(n.ip) then
      assert n.ip[95];
      n.ones - 96
    else n.ones
  }

  predicate SamePrefix(x: Address, y: Address, ones: nat)
    requires ones <= |x|
  {
    |x| == |y| && x[..ones] == y[..ones]
  }

  /** `net.IPNet.Contains`: compares the folded forms under the folded mask. */
  predicate Contains(n: Net, ip: Address) {
    SamePrefix(Fold(n.ip), Fold(ip), FoldedOnes(n))
  }

  /** `netContains`: the prefix lengths are compared unfolded. */
  predicate NetContains(outer: Net, sub: Net) {
    Contains(outer, sub.ip) && outer.ones <= sub.ones
  }

  function Mask(ip: Address, ones: nat): (m: Address) {
    seq(|ip|, i requires 0 <= i < |ip| => i < ones && ip[i])
  }

  /** `cidrKey`: the masked address and the prefix length, as one map key. */
  datatype Key = Key(masked: Address, ones: nat)

  function CidrKey(ip: Address, ones: nat): Key {
    Key(Mask(ip, ones), ones)
  }

  function KeyOf(n: Net): Key {
    CidrKey(Fold(n.ip), FoldedOnes(n))
  }

  // ------------------------------------------------------------------------
  // The address set a network stands for (section 3.1 of RFC 4632)

  predicate InNet(x: Address, n: Net) {
    SamePrefix(Fold(n.ip), x, FoldedOnes(n))
  }

  /** Every address of `sub` is an address of `outer`. */
  ghost predicate Within(sub: Net, outer: Net) {
    forall x: Address :: InNet(x, sub) ==> InNet(x, outer)
  }

  /** Go's containment test is membership in that set, for every address that is
      not itself an IPv4-mapped one. */
  lemma ContainsIsMembership(n: Net, x: Address)
    requires !Mapped(x)
    ensures Contains(n, x) <==> InNet(x, n)
  {}

  /** The computed test behind `Within`: both families and lengths folded. */
  predicate FoldedContains(outer: Net, sub: Net) {
    Contains(outer, sub.ip) && FoldedOnes(outer) <= FoldedOnes(sub)
  }

  lemma {:induction false} WithinIffFoldedContains(outer: Net, sub: Net)
    ensures Within(sub, outer) <==> FoldedContains(outer, sub)
  {
    var o, s := Fold(outer.ip), Fold(sub.ip);
    if FoldedContains(outer, sub) {
      forall x: Address | InNet(x, sub)
        ensures InNet(x, outer)
      {
        var k, m := FoldedOnes(outer), FoldedOnes(sub);
        assert x[..k] == x[..m][..k] == s[..m][..k] == s[..k];
      }
    }
    if !Contains(outer, sub.ip) {
      assert InNet(s, sub) && !InNet(s, outer);
    } else if FoldedOnes(sub) < FoldedOnes(outer) {
      // flip the first bit `sub` leaves free: still in `sub`, not in `outer`
      var k, m := FoldedOnes(sub), FoldedOnes(outer);
      var x: Address := s[k := !s[k]];
      assert x[..k] == s[..k];
      assert x[..m][k] != s[..m][k];
      assert InNet(x, sub) && !InNet(x, outer);
    }
  }

  lemma {:induction false} MaskSamePrefix(x: Address, y: Address, ones: nat)
    requires ones <= |x|
    ensures SamePrefix(x, y, ones) <==> CidrKey(x, ones) == CidrKey(y, ones)
  {
    var mx, my := Mask(x, ones), Mask(y, ones);
    if SamePrefix(x, y, ones) {
      forall i | 0 <= i < |x|
        ensures mx[i] == my[i]
      {
        if i < ones {
          assert x[i] == x[..ones][i] == y[..ones][i] == y[i];
        }
      }
      assert mx == my;
    }
    if mx == my {
      forall i | 0 <= i < ones
        ensures x[i] == y[i]
      {
        assert mx[i] == x[i] && my[i] == y[i];
      }
      assert x[..ones] == y[..ones];
    }
  }

  /** The probe `query` makes for a representative network finds the exact bucket
      of `outer` at some prefix length up to its own iff `outer` really includes
      it. This holds for every pair of networks, mapped ones included. */
  lemma {:induction false} ProbeFindsIffWithin(outer: Net, sub: Net)
    ensures (exists l: nat :: l <= FoldedOnes(sub) && CidrKey(Fold(sub.ip), l) == KeyOf(outer))
       <==> Within(sub, outer)
  {
    WithinIffFoldedContains(outer, sub);
    var k := FoldedOnes(outer);
    MaskSamePrefix(Fold(outer.ip), Fold(sub.ip), k);
    if FoldedContains(outer, sub) {
      assert k <= FoldedOnes(sub) && CidrKey(Fold(sub.ip), k) == KeyOf(outer);
    }
  }

  // ------------------------------------------------------------------------
  // Where the unfolded length comparison and the folded one part

  /** A plain IPv4 network against a mapped one whose folded prefix is shorter. */
  predicate FoldClash(outer: Net, sub: Net) {
    !Mapped(outer.ip) && Mapped(sub.ip) && outer.ones > FoldedOnes(sub)
  }

  /** For networks written in the same form, `netContains` is set inclusion. */
  lemma {:induction false} NetContainsIffWithin(outer: Net, sub: Net)
    requires Mapped(outer.ip) == Mapped(sub.ip)
    ensures NetContains(outer, sub) <==> Within(sub, outer)
  {
    WithinIffFoldedContains(outer, sub);
    assert Mapped(outer.ip) ==> outer.ip[95] && sub.ip[95];
  }

  /** Of the pairs `netContains` accepts, it is wrong about exactly the clashing
      ones. */
  lemma {:induction false} NetContainsSoundIffNoClash(outer: Net, sub: Net)
    requires NetContains(outer, sub)
    ensures Within(sub, outer) <==> !FoldClash(outer, sub)
  {
    WithinIffFoldedContains(outer, sub);
    assert Mapped(outer.ip) ==> outer.ip[95];
    assert Mapped(sub.ip) ==> sub.ip[95];
  }

  /** A network that really includes `sub` is accepted without a clash, or another
      accepted one does not clash either. */
  lemma {:induction false} WithinIsGenuine(n: Net, m: Net, sub: Net)
    requires Within(sub, n) && NetContains(m, sub)
    ensures (NetContains(n, sub) && !FoldClash(n, sub)) || !FoldClash(m, sub)
  {
    WithinIffFoldedContains(n, sub);
    assert Mapped(n.ip) ==> n.ip[95];
    assert Mapped(sub.ip) ==> sub.ip[95];
  }

  lemma NetContainsReflexive(n: Net)
    ensures NetContains(n, n)
  {}

  lemma {:induction false} NetContainsTransitive(a: Net, b: Net, c: Net)
    requires NetContains(a, b) && NetContains(b, c)
    requires !FoldClash(a, b)
    ensures NetContains(a, c)
  {}

  /** `netContains` composes after an accepted pair iff that pair does not clash. */
  lemma {:induction false} NetContainsTransitiveIff(a: Net, b: Net)
    requires NetContains(a, b)
    ensures (forall c: Net :: NetContains(b, c) ==> NetContains(a, c)) <==> !FoldClash(a, b)
  {
    if FoldClash(a, b) {
      var c := ClashEscapes(a, b);
    }
  }

  /** An address of the mapped network that the plain one leaves out, as a network
      of its own: the first bit `b` leaves free, flipped. */
  lemma {:induction false} ClashEscapes(a: Net, b: Net) returns (c: Net)
    requires NetContains(a, b) && FoldClash(a, b)
    ensures NetContains(b, c) && !NetContains(a, c)
  {
    var k := FoldedOnes(b);
    assert b.ones == 96 + k && b.ip[95];
    c := IPNet(b.ip[b.ones := !b.ip[b.ones]], 128);
    assert Mapped(c.ip);
    var fa, fb, fc := Fold(a.ip), Fold(b.ip), Fold(c.ip);
    assert fc == fb[k := !fb[k]];
    assert fb[..k] == fc[..k];
    assert fa[..a.ones][k] == fb[..a.ones][k] != fc[..a.ones][k];
  }

  // ------------------------------------------------------------------------
  // Halving a network

  function Half(n: Net, bit: bool): Net
    requires n.ones < |n.ip|
  {
    IPNet(n.ip[n.ones := bit], n.ones + 1)
  }

  lemma {:induction false} HalfIsContained(n: Net, bit: bool)
    requires Mapped(n.ip) && n.ones < 128
    ensures Mapped(Half(n, bit).ip) && NetContains(n, Half(n, bit))
  {
    assert n.ip[95];
    var k := FoldedOnes(n);
    assert Fold(Half(n, bit).ip) == Fold(n.ip)[k := bit];
  }

  /** What a mapped network contains is the network itself, or lies in a half. */
  lemma {:induction false} ContainedInHalf(n: Net, c: Net)
    requires Mapped(n.ip) && NetContains(n, c)
    ensures Mapped(c.ip)
    ensures c.ones == n.ones ==> c == n
    ensures c.ones > n.ones ==> NetContains(Half(n, c.ip[n.ones]), c)
  {}

  lemma NoWider(n: Net, c: Net)
    requires NetContains(n, c)
    ensures n.ones <= c.ones
  {}

  lemma ClashLeavesRoom(m: Net, n: Net)
    requires NetContains(m, n) && FoldClash(m, n)
    ensures Mapped(n.ip) && n.ones < 128
  {}

  lemma MappedOuterNeverClashes(n: Net, c: Net)
    requires Mapped(n.ip)
    ensures !FoldClash(n, c)
  {}

  // ------------------------------------------------------------------------
  // Networks as blocks of addresses

  /** The addresses of one width, 32 or 128 bits, that start with a prefix. */
  datatype Block = Block(width: nat, prefix: seq<bool>)

  predicate InBlock(x: Address, b: Block) {
    |x| == b.width && b.prefix <= x
  }

  function BlockOf(n: Net): Block {
    Block(|Fold(n.ip)|, Fold(n.ip)[..FoldedOnes(n)])
  }

  lemma {:induction false} InNetIsInBlock(x: Address, n: Net)
    ensures InNet(x, n) <==> InBlock(x, BlockOf(n))
  {
    if InBlock(x, BlockOf(n)) {
      assert x[..FoldedOnes(n)] == BlockOf(n).prefix;
    }
  }

  predicate BlockIncludes(m: Block, b: Block) {
    m.width == b.width && m.prefix <= b.prefix
  }

  function HalfBlock(b: Block, bit: bool): Block {
    Block(b.width, b.prefix + [bit])
  }

  /** One of the blocks includes `b`, or both halves of `b` are spanned. */
  predicate Spans(blocks: set<Block>, b: Block)
    decreases b.width - |b.prefix|
  {
    || (exists m :: m in blocks && BlockIncludes(m, b))
    || (|b.prefix| < b.width && Spans(blocks, HalfBlock(b, false)) && Spans(blocks, HalfBlock(b, true)))
  }

  predicate InSome(x: Address, blocks: set<Block>) {
    exists m :: m in blocks && InBlock(x, m)
  }

  predicate IsBlock(b: Block) {
    (b.width == 32 || b.width == 128) && |b.prefix| <= b.width
  }

  lemma {:induction false} SpannedAddress(blocks: set<Block>, b: Block, x: Address)
    requires IsBlock(b) && Spans(blocks, b) && InBlock(x, b)
    ensures InSome(x, blocks)
    decreases b.width - |b.prefix|
  {
    if m :| m in blocks && BlockIncludes(m, b) {
      assert m.prefix <= b.prefix <= x;
      assert InBlock(x, m);
    } else {
      var h := HalfBlock(b, x[|b.prefix|]);
      assert h.prefix == x[..|b.prefix| + 1];
      SpannedAddress(blocks, h, x);
    }
  }

  /** An address of `b` that none of the blocks holds. */
  lemma {:induction false} Gap(blocks: set<Block>, b: Block) returns (x: Address)
    requires IsBlock(b) && !Spans(blocks, b)
    ensures InBlock(x, b) && !InSome(x, blocks)
    decreases b.width - |b.prefix|
  {
    if |b.prefix| == b.width {
      x := b.prefix;
      forall m | m in blocks
        ensures !InBlock(x, m)
      {
        assert !BlockIncludes(m, b);
      }
    } else {
      var bit := Spans(blocks, HalfBlock(b, false));
      x := Gap(blocks, HalfBlock(b, bit));
      assert b.prefix <= HalfBlock(b, bit).prefix <= x;
    }
  }

  /** The blocks span `b` iff together they hold each of its addresses. */
  lemma {:induction false} SpansIff(blocks: set<Block>, b: Block)
    requires IsBlock(b)
    ensures Spans(blocks, b) <==> forall x: Address :: InBlock(x, b) ==> InSome(x, blocks)
  {
    hide Spans, InSome;
    if Spans(blocks, b) {
      forall x: Address | InBlock(x, b)
        ensures InSome(x, blocks)
      {
        SpannedAddress(blocks, b, x);
      }
    } else {
      var x := Gap(blocks, b);
    }
  }

  lemma {:induction false} WithinIsBlockInclusion(outer: Net, sub: Net)
    requires Within(sub, outer)
    ensures BlockIncludes(BlockOf(outer), BlockOf(sub))
  {
    WithinIffFoldedContains(outer, sub);
    var o, s := Fold(outer.ip), Fold(sub.ip);
    var k, m := FoldedOnes(outer), FoldedOnes(sub);
    assert o[..k] == s[..k] == s[..m][..k];
  }

  // ------------------------------------------------------------------------
  // Addresses written without a prefix length

  /** `toNets` gives an address that has an IPv4 form 32 prefix bits, in whichever
      form it is written. */
  function BareOnes(ip: Address): nat {
    if |Fold(ip)| == 32 then 32 else 128
  }

  function BareNet(ip: Address): Net {
    IPNet(Mask(ip, BareOnes(ip)), BareOnes(ip))
  }

  /** So a bare address stands for itself alone, except in its mapped form: that is
      read as ::/32, which does not even hold it. */
  lemma {:induction false} BareNetIsHostIff(ip: Address)
    ensures (forall x: Address :: InNet(x, BareNet(ip)) <==> x == Fold(ip)) <==> !Mapped(ip)
  {
    var n := BareNet(ip);
    if Mapped(ip) {
      assert !n.ip[95];
      assert !InNet(Fold(ip), n);
    } else {
      assert n.ip == ip;
      forall x: Address
        ensures InNet(x, n) <==> x == ip
      {
        if InNet(x, n) { assert ip[..|ip|] == ip && x[..|x|] == x; }
      }
    }
  }

  // ------------------------------------------------------------------------
  // Three networks on which containment does not compose

  /** 10.1.0.0/24. */
  const PLAIN: Net := IPNet(seq(32, i => i == 4 || i == 6 || i == 15), 24)

  /** 8.0.0.0/24. */
  const SHARED: Net := IPNet(seq(32, i => i == 4), 24)

  /** ::ffff:10.1.0.0/112, that is 10.1.0.0/16 once folded. */
  const MAPPED: Net := IPNet(seq(128, i => 80 <= i < 96 || i == 100 || i == 102 || i == 111), 112)

  /** ::ffff:10.1.1.0/120, that is 10.1.1.0/24 once folded. */
  const MAPPED_INNER: Net :=
    IPNet(seq(128, i => 80 <= i < 96 || i == 100 || i == 102 || i == 111 || i == 119), 120)

  lemma {:induction false} ContainmentDoesNotCompose()
    ensures FoldClash(PLAIN, MAPPED)
    ensures NetContains(PLAIN, MAPPED) && NetContains(MAPPED, MAPPED_INNER) && !NetContains(PLAIN, MAPPED_INNER)
  {
    assert Mapped(MAPPED.ip) && Mapped(MAPPED_INNER.ip);
    var p, m, n := PLAIN.ip, Fold(MAPPED.ip), Fold(MAPPED_INNER.ip);
    assert m == p && n == p[23 := true];
    assert m[..16] == n[..16];
    assert p[..24][23] != n[..24][23];
  }

  lemma {:induction false} SharedIsElsewhere()
    ensures !NetContains(SHARED, MAPPED_INNER) && !NetContains(SHARED, MAPPED)
    ensures !InNet(PLAIN.ip[23 := true], SHARED)
  {
    assert Mapped(MAPPED.ip) && Mapped(MAPPED_INNER.ip);
    var s, m, n, x := SHARED.ip, Fold(MAPPED.ip), Fold(MAPPED_INNER.ip), PLAIN.ip[23 := true];
    assert !s[..24][6] && m[..24][6] && n[..24][6] && x[..24][6];
  }
}
