/** ASA object-group expansion (fwparse/ciscoasa_objects.go:27-138) and the sorted
    de-duplication it rests on (fwparse/parse.go:67-80). */
module AsaObjects {
  import opened Text

  const ASA_MAX_EXPAND := 256

  /** A literal value, or a reference when `ref` is not empty. */
  datatype Member = Member(literal: string, ref: string)

  type Table = map<string, seq<Member>>

  // ------------------------------------------------------------------------
  // Reachability in the reference graph

  predicate Refers(t: Table, a: string, b: string)
    requires a in t
  {
    b in t && b != "" && exists m :: m in t[a] && m.ref == b
  }

  /** `s` is a literal of definition `n`, or a name it refers to that has none. */
  predicate LeafOf(t: Table, n: string, s: string)
    requires n in t
  {
    s != "" && exists m :: m in t[n] && ((m.ref == "" && m.literal == s) || (m.ref == s && s !in t))
  }

  ghost predicate IsPath(t: Table, p: seq<string>, avoid: set<string>) {
    && p != []
    && (forall i :: 0 <= i < |p| ==> p[i] in t && p[i] !in avoid)
    && (forall i :: 0 < i < |p| ==> Refers(t, p[i - 1], p[i]))
  }

  /** Some path of references from `name`, avoiding `avoid`, ends at a definition
      with leaf `s`. */
  ghost predicate Reachable(t: Table, name: string, s: string, avoid: set<string>) {
    exists p :: IsPath(t, p, avoid) && p[0] == name && LeafOf(t, p[|p| - 1], s)
  }

  // ------------------------------------------------------------------------
  // The set the walk collects, and whether it stays under the cap

  /** What `resolve` collects below `name` when the names in `seen` are on the path. */
  ghost function Leaves(t: Table, name: string, seen: set<string>): set<string>
    requires name in t
    decreases t.Keys - seen, 0
  {
    if name in seen then {} else AllLeaves(t, t[name], seen + {name})
  }

  ghost function AllLeaves(t: Table, ms: seq<Member>, path: set<string>): set<string>
    decreases t.Keys - path, |ms| + 2
  {
    if ms == [] then {}
    else AllLeaves(t, ms[..|ms| - 1], path) + MemberLeaves(t, ms[|ms| - 1], path)
  }

  ghost function MemberLeaves(t: Table, m: Member, path: set<string>): set<string>
    decreases t.Keys - path, 1
  {
    if m.ref == "" then (if m.literal == "" then {} else {m.literal})
    else if m.ref in t then Leaves(t, m.ref, path)
    else {m.ref}
  }

  /** The length of the working list after the members `ms`: repeats count. */
  ghost function Tally(t: Table, ms: seq<Member>, path: set<string>): nat {
    if ms == [] then 0
    else Tally(t, ms[..|ms| - 1], path) + |MemberLeaves(t, ms[|ms| - 1], path)|
  }

  /** No working list on the walk ever grows past the cap. */
  ghost predicate Fits(t: Table, name: string, seen: set<string>)
    requires name in t
    decreases t.Keys - seen, 0
  {
    name in seen || AllFit(t, t[name], seen + {name})
  }

  ghost predicate AllFit(t: Table, ms: seq<Member>, path: set<string>)
    decreases t.Keys - path, |ms| + 1
  {
    Tally(t, ms, path) <= ASA_MAX_EXPAND &&
    forall m :: m in ms && m.ref != "" && m.ref in t ==> Fits(t, m.ref, path)
  }

  lemma {:induction false} AllLeavesMembers(t: Table, ms: seq<Member>, path: set<string>, s: string)
    ensures s in AllLeaves(t, ms, path) <==> exists m :: m in ms && s in MemberLeaves(t, m, path)
  {
    if ms != [] {
      var init, last := ms[..|ms| - 1], ms[|ms| - 1];
      AllLeavesMembers(t, init, path, s);
      assert AllLeaves(t, ms, path) == AllLeaves(t, init, path) + MemberLeaves(t, last, path);
      assert forall m :: m in ms <==> m in init || m == last by {
        assert ms == init + [last];
      }
      if m :| m in ms && s in MemberLeaves(t, m, path) {
        assert m == last || (m in init && s in AllLeaves(t, init, path));
      }
    }
  }

  lemma {:induction false} LeavesWithinTally(t: Table, ms: seq<Member>, path: set<string>)
    ensures |AllLeaves(t, ms, path)| <= Tally(t, ms, path)
  {
    if ms != [] {
      LeavesWithinTally(t, ms[..|ms| - 1], path);
      var a, b := AllLeaves(t, ms[..|ms| - 1], path), MemberLeaves(t, ms[|ms| - 1], path);
      assert AllLeaves(t, ms, path) == a + b;
      assert |a + b| == |a| + |b| - |a * b|;
    }
  }

  lemma {:induction false} PathToLeaf(t: Table, name: string, seen: set<string>, s: string) returns (p: seq<string>)
    requires name in t && s in Leaves(t, name, seen)
    ensures IsPath(t, p, seen) && p[0] == name && LeafOf(t, p[|p| - 1], s)
    decreases t.Keys - seen
  {
    AllLeavesMembers(t, t[name], seen + {name}, s);
    var m :| m in t[name] && s in MemberLeaves(t, m, seen + {name});
    if m.ref != "" && m.ref in t {
      var q := PathToLeaf(t, m.ref, seen + {name}, s);
      p := [name] + q;
    } else {
      p := [name];
    }
  }

  lemma {:induction false} LeafOfPath(t: Table, p: seq<string>, seen: set<string>, s: string)
    requires IsPath(t, p, seen) && LeafOf(t, p[|p| - 1], s)
    ensures s in Leaves(t, p[0], seen)
    decreases |p|
  {
    var path := seen + {p[0]};
    if i :| 0 < i < |p| && p[i] == p[0] {
      LeafOfPath(t, p[i..], seen, s); // the walk need not come back to its start
    } else if |p| == 1 {
      var m :| m in t[p[0]] && ((m.ref == "" && m.literal == s) || (m.ref == s && s !in t));
      assert s in MemberLeaves(t, m, path);
      AllLeavesMembers(t, t[p[0]], path, s);
    } else {
      LeafOfPath(t, p[1..], path, s);
      assert Refers(t, p[0], p[1]);
      var m :| m in t[p[0]] && m.ref == p[1];
      assert s in MemberLeaves(t, m, path);
      AllLeavesMembers(t, t[p[0]], path, s);
    }
  }

  /** The path-local walk collects exactly what is reachable by any path that avoids
      the seen names, cycles included. */
  lemma {:induction false} LeavesAreReachable(t: Table, name: string, seen: set<string>, s: string)
    requires name in t
    ensures s in Leaves(t, name, seen) <==> Reachable(t, name, s, seen)
  {
    if s in Leaves(t, name, seen) {
      var p := PathToLeaf(t, name, seen, s);
    }
    if Reachable(t, name, s, seen) {
      var p :| IsPath(t, p, seen) && p[0] == name && LeafOf(t, p[|p| - 1], s);
      LeafOfPath(t, p, seen, s);
    }
  }

  // ------------------------------------------------------------------------
  // The cap, on the graph

  ghost predicate RepeatFree(p: seq<string>) {
    forall i, j :: 0 <= i < j < |p| ==> p[i] != p[j]
  }

  ghost function Names(p: seq<string>): set<string> {
    set x | x in p
  }

  /** The definition a path ends at lists no more than the cap, repeats counted, of
      what is reachable from its members off the path. */
  ghost predicate EndFits(t: Table, p: seq<string>, seen: set<string>)
    requires IsPath(t, p, seen)
  {
    Tally(t, t[p[|p| - 1]], seen + Names(p)) <= ASA_MAX_EXPAND
  }

  lemma RestIsRepeatFree(p: seq<string>)
    requires p != [] && RepeatFree(p)
    ensures RepeatFree(p[1..]) && p[0] !in p[1..]
  {}

  lemma {:induction false} FitsOnPath(t: Table, p: seq<string>, seen: set<string>)
    requires IsPath(t, p, seen) && RepeatFree(p) && Fits(t, p[0], seen)
    ensures EndFits(t, p, seen)
    decreases |p|
  {
    hide Tally, RepeatFree;
    var path := seen + {p[0]};
    if |p| == 1 {
      assert seen + Names(p) == path;
    } else {
      assert Refers(t, p[0], p[1]);
      assert p == [p[0]] + p[1..];
      RestIsRepeatFree(p);
      FitsOnPath(t, p[1..], path);
      assert path + Names(p[1..]) == seen + Names(p);
    }
  }

  lemma {:induction false} OverfullPath(t: Table, name: string, seen: set<string>) returns (p: seq<string>)
    requires name in t && !Fits(t, name, seen)
    ensures IsPath(t, p, seen) && p[0] == name && RepeatFree(p) && !EndFits(t, p, seen)
    decreases t.Keys - seen
  {
    hide Tally;
    var path := seen + {name};
    if Tally(t, t[name], path) > ASA_MAX_EXPAND {
      p := [name];
      assert seen + Names(p) == path;
    } else {
      var m :| m in t[name] && m.ref != "" && m.ref in t && !Fits(t, m.ref, path);
      var q := OverfullPath(t, m.ref, path);
      p := [name] + q;
      assert Refers(t, name, m.ref);
      assert path + Names(q) == seen + Names(p);
    }
  }

  /** A reference expands iff no definition at the end of a repeat-free path from it
      lists more than the cap. */
  lemma {:induction false} FitsIffPathsFit(t: Table, name: string, seen: set<string>)
    requires name in t
    ensures Fits(t, name, seen) <==>
            forall p :: IsPath(t, p, seen) && p[0] == name && RepeatFree(p) ==> EndFits(t, p, seen)
  {
    hide Fits, EndFits;
    if Fits(t, name, seen) {
      forall p | IsPath(t, p, seen) && p[0] == name && RepeatFree(p)
        ensures EndFits(t, p, seen)
      {
        FitsOnPath(t, p, seen);
      }
    } else {
      var p := OverfullPath(t, name, seen);
    }
  }

  // ------------------------------------------------------------------------
  // dedupeStrings

  method SortStrings(ss: seq<string>) returns (out: seq<string>)
    requires forall i, j :: 0 <= i < j < |ss| ==> ss[i] != ss[j]
    ensures StrictlySorted(out) && forall x :: x in out <==> x in ss
  {
    out := [];
    for n := 0 to |ss|
      invariant StrictlySorted(out)
      invariant forall x :: x in out <==> x in ss[..n]
    {
      assert ss[..n + 1] == ss[..n] + [ss[n]];
      out := InsertString(out, ss[n]);
    }
    assert ss[..|ss|] == ss;
  }

  method InsertString(l: seq<string>, s: string) returns (out: seq<string>)
    requires StrictlySorted(l) && s !in l
    ensures StrictlySorted(out) && forall x :: x in out <==> x in l || x == s
  {
    var k := 0;
    while k < |l| && Less(l[k], s)
      invariant k <= |l|
      invariant forall i :: 0 <= i < k ==> Less(l[i], s)
    {
      k := k + 1;
    }
    hide Less;
    forall i | k <= i < |l|
      ensures Less(s, l[i])
    {
      LessIsStrict(l[k], s);
      if k < i { LessIsTransitive(s, l[k], l[i]); }
    }
    out := l[..k] + [s] + l[k..];
    assert l == l[..k] + l[k..];
  }

  method DedupeStrings(ss: seq<string>) returns (out: seq<string>)
    ensures StrictlySorted(out)
    ensures forall x :: x in out <==> x in ss && x != ""
  {
    var seen: set<string> := {};
    out := [];
    for n := 0 to |ss|
      invariant forall i, j :: 0 <= i < j < |out| ==> out[i] != out[j]
      invariant forall x :: x in out <==> x in ss[..n] && x != ""
      invariant forall x :: x in seen <==> x in out
    {
      assert ss[..n + 1] == ss[..n] + [ss[n]];
      if ss[n] == "" || ss[n] in seen {
        continue;
      }
      seen := seen + {ss[n]};
      out := out + [ss[n]];
    }
    assert ss[..|ss|] == ss;
    out := SortStrings(out);
  }

  // ------------------------------------------------------------------------
  // resolve and expand

  /** The `seen` map, shared by one walk. */
  class PathSet {
    var names: set<string>

    constructor ()
      ensures names == {}
    {
      names := {};
    }
  }

  method Resolve(t: Table, name: string, seen: PathSet) returns (out: seq<string>, ok: bool)
    requires name in t
    modifies seen
    ensures seen.names == old(seen.names)
    ensures ok == Fits(t, name, old(seen.names))
    ensures if ok then Lists(out, Leaves(t, name, old(seen.names))) else out == []
    decreases t.Keys - seen.names
  {
    hide StrictlySorted;
    if name in seen.names {
      NothingListed();
      return [], true;
    }
    seen.names := seen.names + {name};
    var ms := t[name];
    ghost var path := seen.names;
    var raw := [];
    assert AllFit(t, ms[..0], path) && AllLeaves(t, ms[..0], path) == {} && Tally(t, ms[..0], path) == 0;
    hide AllFit, AllLeaves, Tally, Lists;
    for n := 0 to |ms|
      invariant seen.names == path
      invariant AllFit(t, ms[..n], path)
      invariant |raw| == Tally(t, ms[..n], path)
      invariant forall x :: x in raw <==> x in AllLeaves(t, ms[..n], path)
    {
      var m := ms[n];
      MemberRound(t, ms, path, n);
      if m.ref == "" {
        if m.literal != "" {
          raw := raw + [m.literal];
        }
      } else if m.ref in t {
        var sub, subOK := Resolve(t, m.ref, seen);
        if !subOK {
          FitsPrefix(t, ms, path, n + 1);
          seen.names := seen.names - {name};
          return [], false;
        }
        ListsElements(sub, Leaves(t, m.ref, path));
        raw := raw + sub;
      } else {
        raw := raw + [m.ref];
      }
      if |raw| > ASA_MAX_EXPAND {
        FitsPrefix(t, ms, path, n + 1);
        seen.names := seen.names - {name};
        return [], false;
      }
    }
    assert ms[..|ms|] == ms;
    out := DedupeStrings(raw);
    AllLeavesNamed(t, ms, path);
    assert Lists(out, AllLeaves(t, ms, path)) by { SortedListing(out, AllLeaves(t, ms, path)); }
    seen.names := seen.names - {name};
    return out, true;
  }

  /** What one round of the member loop adds. */
  lemma {:induction false} MemberRound(t: Table, ms: seq<Member>, path: set<string>, n: nat)
    requires n < |ms|
    ensures Tally(t, ms[..n + 1], path) == Tally(t, ms[..n], path) + |MemberLeaves(t, ms[n], path)|
    ensures AllLeaves(t, ms[..n + 1], path) == AllLeaves(t, ms[..n], path) + MemberLeaves(t, ms[n], path)
    ensures AllFit(t, ms[..n], path) ==>
              (AllFit(t, ms[..n + 1], path) <==>
               Tally(t, ms[..n + 1], path) <= ASA_MAX_EXPAND &&
               (ms[n].ref != "" && ms[n].ref in t ==> Fits(t, ms[n].ref, path)))
  {
    hide MemberLeaves, Fits;
    assert ms[..n + 1][..n] == ms[..n];
    assert forall m :: m in ms[..n + 1] <==> m in ms[..n] || m == ms[n];
  }

  lemma {:induction false} FitsPrefix(t: Table, ms: seq<Member>, path: set<string>, n: nat)
    requires n <= |ms|
    ensures AllFit(t, ms, path) ==> AllFit(t, ms[..n], path)
  {
    hide MemberLeaves, Fits;
    TallyGrows(t, ms, path, n);
  }

  lemma {:induction false} ListsElements(l: seq<string>, s: set<string>)
    requires Lists(l, s)
    ensures |l| == |s| && forall x :: x in l <==> x in s
  {
    ListsSize(l, s);
  }

  lemma SortedListing(l: seq<string>, s: set<string>)
    requires StrictlySorted(l) && forall x :: x in l <==> x in s
    ensures Lists(l, s)
  {}

  lemma {:induction false} TallyGrows(t: Table, ms: seq<Member>, path: set<string>, n: nat)
    requires n <= |ms|
    ensures Tally(t, ms[..n], path) <= Tally(t, ms, path)
    decreases |ms|
  {
    if n < |ms| {
      TallyGrows(t, ms[..|ms| - 1], path, n);
      assert ms[..|ms| - 1][..n] == ms[..n];
    } else {
      assert ms[..n] == ms;
    }
  }

  /** No leaf is the empty string. */
  lemma {:induction false} AllLeavesNamed(t: Table, ms: seq<Member>, path: set<string>)
    ensures "" !in AllLeaves(t, ms, path)
    decreases t.Keys - path, |ms| + 1
  {
    if ms != [] {
      AllLeavesNamed(t, ms[..|ms| - 1], path);
      var m := ms[|ms| - 1];
      if m.ref != "" && m.ref in t {
        if m.ref !in path { AllLeavesNamed(t, t[m.ref], path + {m.ref}); }
        assert "" !in Leaves(t, m.ref, path);
      }
      assert "" !in MemberLeaves(t, m, path);
    }
  }

  /** `r` is what a reference to `name` stands for. */
  ghost predicate ExpansionOf(t: Table, name: string, r: seq<string>) {
    if name in t && Fits(t, name, {}) && Leaves(t, name, {}) != {}
    then Lists(r, Leaves(t, name, {}))
    else r == [name]
  }

  /** The answer does not depend on who computes it, so a cached one is the same. */
  lemma {:induction false} ExpansionIsUnique(t: Table, name: string, r: seq<string>, q: seq<string>)
    requires ExpansionOf(t, name, r) && ExpansionOf(t, name, q)
    ensures r == q
  {
    if name in t && Fits(t, name, {}) && Leaves(t, name, {}) != {} {
      ListsIsUnique(r, q, Leaves(t, name, {}));
    }
  }

  /** All or nothing: the bare name, or every reachable leaf, in order, without
      repeats and at most 256 of them. */
  lemma {:induction false} ExpandsWhollyOrNotAtAll(t: Table, name: string, r: seq<string>)
    requires ExpansionOf(t, name, r)
    ensures r == [name] ||
            (StrictlySorted(r) && 1 <= |r| <= ASA_MAX_EXPAND && forall s :: s in r <==> Reachable(t, name, s, {}))
  {
    hide Reachable, StrictlySorted;
    if name in t && Fits(t, name, {}) && Leaves(t, name, {}) != {} {
      var s := Leaves(t, name, {});
      forall x { LeavesAreReachable(t, name, {}, x); }
      ListsSize(r, s);
      ListsEmpty(r, s);
      FitsBoundsLeaves(t, name, {});
    }
  }

  lemma {:induction false} FitsBoundsLeaves(t: Table, name: string, seen: set<string>)
    requires name in t && Fits(t, name, seen)
    ensures |Leaves(t, name, seen)| <= ASA_MAX_EXPAND
  {
    LeavesWithinTally(t, t[name], seen + {name});
  }

  /** More than 256 distinct reachable leaves always give the bare name. */
  lemma {:induction false} TooManyLeavesKeepTheName(t: Table, name: string, r: seq<string>, s: set<string>)
    requires ExpansionOf(t, name, r)
    requires |s| > ASA_MAX_EXPAND && forall x :: x in s ==> Reachable(t, name, x, {})
    ensures r == [name]
  {
    if r != [name] {
      ExpandsWhollyOrNotAtAll(t, name, r);
      ListsSize(r, Leaves(t, name, {}));
      assert s <= Leaves(t, name, {});
      SubsetSize(s, Leaves(t, name, {}));
    }
  }

  lemma {:induction false} SubsetSize(a: set<string>, b: set<string>)
    requires a <= b
    ensures |a| <= |b|
  {
    assert b == a + (b - a) && |a + (b - a)| == |a| + |b - a|;
  }

  /** The cap counts repeats: two references to one group of more than 128 leaves
      are refused, however few leaves they have between them. */
  lemma {:induction false} RepeatsCountAgainstTheCap(t: Table, a: string, b: string, r: seq<string>)
    requires a in t && b in t && b != "" && t[a] == [Member("", b), Member("", b)]
    requires |Leaves(t, b, {a})| > 128
    requires ExpansionOf(t, a, r)
    ensures r == [a] && Leaves(t, a, {}) == Leaves(t, b, {a})
  {
    var m, path := Member("", b), {} + {a};
    assert path == {a};
    assert t[a] == [m, m] && [m, m][..1] == [m] && [m][..0] == [];
    assert Tally(t, [m], path) == Tally(t, [], path) + |MemberLeaves(t, m, path)|;
    assert AllLeaves(t, [m], path) == AllLeaves(t, [], path) + MemberLeaves(t, m, path);
    assert Tally(t, [m, m], path) == Tally(t, [m], path) + |MemberLeaves(t, m, path)|;
    assert AllLeaves(t, [m, m], path) == AllLeaves(t, [m], path) + MemberLeaves(t, m, path);
    assert MemberLeaves(t, m, path) == Leaves(t, b, {a});
    assert !AllFit(t, t[a], path);
  }

  /** The value a member adds by itself: its literal, or the name it refers to. */
  function ValueOf(m: Member): string {
    if m.ref == "" then m.literal else m.ref
  }

  function ValueCount(ms: seq<Member>): nat {
    if ms == [] then 0
    else ValueCount(ms[..|ms| - 1]) + if ValueOf(ms[|ms| - 1]) != "" then 1 else 0
  }

  /** Its members are literals and names without a definition. */
  predicate Flat(t: Table, ms: seq<Member>) {
    forall m :: m in ms ==> m.ref == "" || m.ref !in t
  }

  lemma {:induction false} FlatMembers(t: Table, ms: seq<Member>, path: set<string>, s: string)
    requires Flat(t, ms)
    ensures Tally(t, ms, path) == ValueCount(ms)
    ensures s in AllLeaves(t, ms, path) <==> s != "" && exists m :: m in ms && ValueOf(m) == s
  {
    if ms != [] {
      var init, last := ms[..|ms| - 1], ms[|ms| - 1];
      assert last in ms && forall m :: m in ms <==> m in init || m == last by {
        assert ms == init + [last];
      }
      FlatMembers(t, init, path, s);
      assert AllLeaves(t, ms, path) == AllLeaves(t, init, path) + MemberLeaves(t, last, path);
    }
  }

  lemma {:induction false} FlatLeaves(t: Table, name: string)
    requires name in t && Flat(t, t[name])
    ensures Fits(t, name, {}) <==> ValueCount(t[name]) <= 256
    ensures forall s :: s in Leaves(t, name, {}) <==> s != "" && exists m :: m in t[name] && ValueOf(m) == s
  {
    assert {} + {name} == {name};
    forall s
      ensures s in AllLeaves(t, t[name], {name}) <==> s != "" && exists m :: m in t[name] && ValueOf(m) == s
      ensures Tally(t, t[name], {name}) == ValueCount(t[name])
    {
      FlatMembers(t, t[name], {name}, s);
    }
    FlatMembers(t, t[name], {name}, "");
    hide Tally, AllLeaves;
  }

  /** A group without nested groups expands to its non-empty values, undefined names
      among them, in order and once each, iff it has 1 to 256 of them, repeats
      counted. */
  lemma {:induction false} FlatGroupExpandsIff(t: Table, name: string, r: seq<string>)
    requires name in t && Flat(t, t[name])
    ensures ExpansionOf(t, name, r) <==>
            if 1 <= ValueCount(t[name]) <= 256
            then StrictlySorted(r) && forall s :: s in r <==> s != "" && exists m :: m in t[name] && ValueOf(m) == s
            else r == [name]
  {
    hide Fits, Leaves, StrictlySorted, ValueOf;
    FlatLeaves(t, name);
    SomeValue(t[name]);
    var leaves := Leaves(t, name, {});
    if m :| m in t[name] && ValueOf(m) != "" {
      assert ValueOf(m) in leaves;
    }
    if s :| s in leaves {
      var m :| m in t[name] && ValueOf(m) == s;
    }
  }

  lemma {:induction false} SomeValue(ms: seq<Member>)
    ensures ValueCount(ms) > 0 <==> exists m :: m in ms && ValueOf(m) != ""
  {
    if ms != [] {
      SomeValue(ms[..|ms| - 1]);
      assert ms == ms[..|ms| - 1] + [ms[|ms| - 1]];
    }
  }

  lemma {:induction false} PairOfMembers(t: Table, m: Member, n: Member, path: set<string>)
    ensures AllLeaves(t, [m, n], path) == MemberLeaves(t, m, path) + MemberLeaves(t, n, path)
    ensures Tally(t, [m, n], path) == |MemberLeaves(t, m, path)| + |MemberLeaves(t, n, path)|
  {
    assert [m, n][..1] == [m] && [m][..0] == [];
    assert AllLeaves(t, [m], path) == AllLeaves(t, [], path) + MemberLeaves(t, m, path);
    assert Tally(t, [m], path) == Tally(t, [], path) + |MemberLeaves(t, m, path)|;
  }

  /** A cycle does not keep the bare name: the back reference adds nothing, and each
      of two groups that refer to each other expands to the literals of both. */
  lemma {:induction false} CycleExpands(t: Table, a: string, b: string, x: string, y: string, r: seq<string>)
    requires a in t && b in t && a != b && a != "" && b != "" && x != "" && y != ""
    requires t[a] == [Member(x, ""), Member("", b)] && t[b] == [Member("", a), Member(y, "")]
    ensures ExpansionOf(t, a, r) <==> Lists(r, {x, y})
  {
    var lx, ly, ra, rb := Member(x, ""), Member(y, ""), Member("", a), Member("", b);
    var inner := {a} + {b};
    PairOfMembers(t, ra, ly, inner);
    assert Leaves(t, a, inner) == {} && Fits(t, a, inner);
    hide AllLeaves, Tally;
    assert Leaves(t, b, {a}) == {y} && Fits(t, b, {a});
    PairOfMembers(t, lx, rb, {a});
    assert {} + {a} == {a};
    assert Leaves(t, a, {}) == {x} + {y} && Fits(t, a, {});
    assert {x} + {y} == {x, y};
  }

  /** A: h1, B and B: A, h2. */
  lemma {:induction false} TwoGroupCycle()
    ensures var t := map["A" := [Member("h1", ""), Member("", "B")], "B" := [Member("", "A"), Member("h2", "")]];
      ExpansionOf(t, "A", ["h1", "h2"])
  {
    var t := map["A" := [Member("h1", ""), Member("", "B")], "B" := [Member("", "A"), Member("h2", "")]];
    CycleExpands(t, "A", "B", "h1", "h2", ["h1", "h2"]);
    assert Less("h1", "h2");
  }

  lemma {:induction false} ResolvedExpansion(t: Table, name: string, out: seq<string>, ok: bool)
    requires name in t && ok == Fits(t, name, {})
    requires if ok then Lists(out, Leaves(t, name, {})) else out == []
    ensures ExpansionOf(t, name, if !ok || |out| == 0 then [name] else out)
  {
    hide Leaves, Fits, StrictlySorted;
    if ok { ListsEmpty(out, Leaves(t, name, {})); }
  }

  lemma UndefinedExpansion(t: Table, name: string)
    requires name !in t
    ensures ExpansionOf(t, name, [name])
  {}

  class Objects {
    const nets: Table
    const svcs: Table
    var netCache: map<string, seq<string>>
    var svcCache: map<string, seq<string>>

    ghost predicate Cached(t: Table, cache: map<string, seq<string>>) {
      forall n :: n in cache ==> n in t && ExpansionOf(t, n, cache[n])
    }

    ghost predicate Valid()
      reads this
    {
      Cached(nets, netCache) && Cached(svcs, svcCache)
    }

    constructor (nets: Table, svcs: Table)
      ensures Valid() && this.nets == nets && this.svcs == svcs
    {
      this.nets, this.svcs := nets, svcs;
      netCache, svcCache := map[], map[];
    }

    /** With any history of earlier calls, the answer is the uncached one. */
    method Expand(name: string, isNet: bool) returns (r: seq<string>)
      requires Valid()
      modifies `netCache, `svcCache
      ensures Valid() && ExpansionOf(if isNet then nets else svcs, name, r)
    {
      hide ExpansionOf, Fits, Leaves, Lists;
      var table, cache := svcs, svcCache;
      if isNet {
        table, cache := nets, netCache;
      }
      if name !in table {
        UndefinedExpansion(table, name);
        return [name];
      }
      if name in cache {
        return cache[name];
      }
      var seen := new PathSet();
      var out, ok := Resolve(table, name, seen);
      ResolvedExpansion(table, name, out, ok);
      if !ok || |out| == 0 {
        out := [name];
      }
      if isNet {
        netCache := netCache[name := out];
      } else {
        svcCache := svcCache[name := out];
      }
      return out;
    }
  }
}
