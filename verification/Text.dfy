/** String helpers of the rule model: `strings.ToLower`, `strings.TrimSpace` and
    `norm` (fwrule/rule.go:277), on ASCII text. */
module Text {

  function LowerChar(c: char): char {
    if 'A' <= c <= 'Z' then ((c as int) + 32) as char else c
  }

  function Lower(s: string): string {
    seq(|s|, i requires 0 <= i < |s| => LowerChar(s[i]))
  }

  predicate IsSpace(c: char) {
    c == ' ' || '\t' <= c <= '\r'
  }

  function TrimLeft(s: string): string {
    if s != [] && IsSpace(s[0]) then TrimLeft(s[1..]) else s
  }

  function TrimRight(s: string): string {
    if s != [] && IsSpace(s[|s| - 1]) then TrimRight(s[..|s| - 1]) else s
  }

  function Trim(s: string): string {
    TrimRight(TrimLeft(s))
  }

  function Norm(s: string): string {
    Lower(Trim(s))
  }

  lemma {:induction false} LowerTrimLeft(s: string)
    ensures Lower(TrimLeft(s)) == TrimLeft(Lower(s))
  {
    if s != [] && IsSpace(s[0]) {
      LowerTrimLeft(s[1..]);
      assert Lower(s)[1..] == Lower(s[1..]);
    }
  }

  lemma {:induction false} LowerTrimRight(s: string)
    ensures Lower(TrimRight(s)) == TrimRight(Lower(s))
  {
    if s != [] && IsSpace(s[|s| - 1]) {
      LowerTrimRight(s[..|s| - 1]);
      assert Lower(s)[..|s| - 1] == Lower(s[..|s| - 1]);
    }
  }

  /** Trimming and case folding commute, so text that agrees after case folding
      alone also agrees after `norm`. */
  lemma {:induction false} NormOfLower(s: string)
    ensures Norm(s) == Trim(Lower(s))
  {
    LowerTrimRight(TrimLeft(s));
    LowerTrimLeft(s);
  }

  // ------------------------------------------------------------------------
  // What folding and trimming leave

  predicate IsCapital(c: char) {
    'A' <= c <= 'Z'
  }

  /** A capital and its small letter. */
  predicate IsCasePair(c: char, d: char) {
    IsCapital(c) && d as int - 'a' as int == c as int - 'A' as int
  }

  /** Folding leaves no capital and changes nothing but case. */
  lemma {:induction false} LowerFoldsCase(s: string)
    ensures |Lower(s)| == |s|
    ensures forall i :: 0 <= i < |s| ==>
              !IsCapital(Lower(s)[i]) && (Lower(s)[i] == s[i] || IsCasePair(s[i], Lower(s)[i]))
  {
    assert 'a' as int == 'A' as int + 32;
  }

  predicate IsBlank(s: string) {
    forall c :: c in s ==> c in {' ', '\t', '\n', '\U{0B}', '\U{0C}', '\r'}
  }

  /** Trimming cuts blanks off both ends, and all of them. */
  lemma {:induction false} TrimCutsBlanks(s: string) returns (p: string, q: string)
    ensures s == p + Trim(s) + q && IsBlank(p) && IsBlank(q)
    ensures Trim(s) != [] ==> !IsBlank(Trim(s)[..1]) && !IsBlank(Trim(s)[|Trim(s)| - 1..])
  {
    p := TrimLeftCuts(s);
    q := TrimRightCuts(TrimLeft(s));
    var l, t := TrimLeft(s), Trim(s);
    hide TrimLeft, TrimRight, IsSpace, IsBlank;
    Rejoined(p, t, q);
    if t != [] {
      assert l[0] == t[0];
      NotBlank(t[0]);
      NotBlank(t[|t| - 1]);
      assert t[..1] == [t[0]] && t[|t| - 1..] == [t[|t| - 1]];
    }
  }

  lemma Rejoined(p: string, t: string, q: string)
    ensures p + (t + q) == p + t + q
  {}

  lemma {:induction false} NotBlank(c: char)
    requires !IsSpace(c)
    ensures !IsBlank([c])
  {
    assert c in [c];
  }

  lemma {:induction false} TrimLeftCuts(s: string) returns (p: string)
    ensures s == p + TrimLeft(s) && IsBlank(p)
    ensures TrimLeft(s) != [] ==> !IsSpace(TrimLeft(s)[0])
  {
    p := [];
    if s != [] && IsSpace(s[0]) {
      p := TrimLeftCuts(s[1..]);
      p := [s[0]] + p;
    }
  }

  lemma {:induction false} TrimRightCuts(s: string) returns (q: string)
    ensures s == TrimRight(s) + q && IsBlank(q)
    ensures TrimRight(s) != [] ==> !IsSpace(TrimRight(s)[|TrimRight(s)| - 1])
  {
    q := [];
    if s != [] && IsSpace(s[|s| - 1]) {
      q := TrimRightCuts(s[..|s| - 1]);
      q := q + [s[|s| - 1]];
    }
  }

  // ------------------------------------------------------------------------
  // The order of strings

  /** Go's `<` on strings. */
  predicate Less(a: string, b: string) {
    b != [] && (a == [] || a[0] < b[0] || (a[0] == b[0] && Less(a[1..], b[1..])))
  }

  /** The two agree up to `k`, where `a` ends first or has the smaller character. */
  predicate BeforeAt(a: string, b: string, k: nat) {
    k <= |a| && k < |b| && a[..k] == b[..k] && (k == |a| || a[k] < b[k])
  }

  /** The order is that of the first difference, a proper prefix coming first. */
  lemma {:induction false} LessIff(a: string, b: string)
    ensures Less(a, b) <==> exists k: nat :: BeforeAt(a, b, k)
  {
    if a != [] && b != [] && a[0] == b[0] {
      LessIff(a[1..], b[1..]);
      if k: nat :| BeforeAt(a[1..], b[1..], k) {
        assert a[..k + 1] == [a[0]] + a[1..][..k] && b[..k + 1] == [b[0]] + b[1..][..k];
        assert BeforeAt(a, b, k + 1);
      }
      if k: nat :| BeforeAt(a, b, k) {
        assert k > 0;
        assert a[1..][..k - 1] == a[..k][1..] && b[1..][..k - 1] == b[..k][1..];
        assert BeforeAt(a[1..], b[1..], k - 1);
      }
    } else if Less(a, b) {
      assert BeforeAt(a, b, 0);
    } else {
      forall k: nat
        ensures !BeforeAt(a, b, k)
      {
        assert k > 0 && k <= |a| && k < |b| ==> a[..k][0] == a[0] && b[..k][0] == b[0];
      }
    }
  }

  lemma {:induction false} LessIsStrict(a: string, b: string)
    ensures Less(a, b) ==> !Less(b, a) && a != b
    ensures a != b ==> Less(a, b) || Less(b, a)
  {
    if a != [] && b != [] && a[0] == b[0] {
      LessIsStrict(a[1..], b[1..]);
      assert a == [a[0]] + a[1..] && b == [b[0]] + b[1..];
    }
  }

  lemma {:induction false} LessIsTransitive(a: string, b: string, c: string)
    requires Less(a, b) && Less(b, c)
    ensures Less(a, c)
  {
    if a != [] && a[0] == b[0] == c[0] {
      LessIsTransitive(a[1..], b[1..], c[1..]);
    }
  }

  ghost predicate StrictlySorted(l: seq<string>) {
    forall i, j :: 0 <= i < j < |l| ==> Less(l[i], l[j])
  }

  /** `l` lists the set `s`: in order and without repeats. */
  ghost predicate Lists(l: seq<string>, s: set<string>) {
    StrictlySorted(l) && forall x :: x in l <==> x in s
  }

  lemma {:induction false} ListsIsUnique(k: seq<string>, l: seq<string>, s: set<string>)
    requires Lists(k, s) && Lists(l, s)
    ensures k == l
    decreases |k|
  {
    ListsEmpty(k, s);
    ListsEmpty(l, s);
    if k != [] {
      assert k[0] in s && k[0] in l;
      assert l[0] in s && l[0] in k;
      LessIsStrict(k[0], l[0]);
      ListsRest(k, s);
      ListsRest(l, s);
      ListsIsUnique(k[1..], l[1..], s - {k[0]});
    }
  }

  lemma NothingListed()
    ensures Lists([], {})
  {}

  lemma {:induction false} ListsEmpty(l: seq<string>, s: set<string>)
    requires Lists(l, s)
    ensures l == [] <==> s == {}
  {
    if |l| > 0 { assert l[0] in s; }
  }

  lemma {:induction false} ListsRest(l: seq<string>, s: set<string>)
    requires Lists(l, s) && l != []
    ensures Lists(l[1..], s - {l[0]})
  {
    LessIsStrict(l[0], l[0]);
    assert l == [l[0]] + l[1..];
    assert forall i :: 1 <= i < |l| ==> Less(l[0], l[i]);
  }

  lemma {:induction false} ListsSize(l: seq<string>, s: set<string>)
    requires Lists(l, s)
    ensures |l| == |s|
  {
    if l == [] {
      assert s == {};
    } else {
      assert l[0] in s;
      ListsRest(l, s);
      ListsSize(l[1..], s - {l[0]});
    }
  }
}
