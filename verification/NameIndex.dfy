/** The interface and protocol dimensions of the cover index: a wildcard list and
    exact-name buckets (fwrule/coverindex.go:37-40, 80-92, 104-105). */
module NameIndex {
  import opened Postings

  /** How a rule is filed: under the wildcards or under a normalised name. */
  datatype Tag = Tag(wild: bool, key: string)

  ghost predicate TagMatch(t: Tag, key: string) {
    t.wild || t.key == key
  }

  lemma {:induction false} AppendAscending(l: Posting, idx: nat)
    requires Ascending(l) && forall j: nat :: j in l ==> j < idx
    ensures Ascending(l + [idx])
    ensures forall j: nat :: j in l + [idx] <==> j in l || j == idx
  {
    assert forall k :: 0 <= k < |l| ==> l[k] in l;
  }

  class NameDim {
    var wild: Posting
    var eq: map<string, Posting>
    ghost var tags: map<nat, Tag>

    ghost predicate Valid()
      reads this
    {
      && Ascending(wild)
      && (forall j: nat :: j in wild <==> j in tags && tags[j].wild)
      && (forall k :: Ascending(Lookup(eq, k)))
      && (forall k, j: nat :: j in Lookup(eq, k) <==> j in tags && !tags[j].wild && tags[j].key == k)
    }

    constructor ()
      ensures Valid() && tags == map[]
    {
      wild, eq, tags := [], map[], map[];
    }

    method Add(idx: nat, t: Tag)
      requires Valid() && forall j :: j in tags ==> j < idx
      modifies this
      ensures Valid() && tags == old(tags)[idx := t]
    {
      if t.wild {
        AppendAscending(wild, idx);
        wild := wild + [idx];
      } else {
        assert forall j: nat :: j in Lookup(eq, t.key) ==> j in tags;
        AppendAscending(Lookup(eq, t.key), idx);
        eq := eq[t.key := Lookup(eq, t.key) + [idx]];
        assert forall k :: Lookup(eq, k) == if k == t.key then Lookup(old(eq), k) + [idx] else Lookup(old(eq), k);
      }
      tags := tags[idx := t];
    }

    method Query(key: string) returns (lists: seq<Posting>)
      requires Valid()
      ensures AllAscending(lists)
      ensures forall j: nat :: InLists(lists, j) <==> j in tags && TagMatch(tags[j], key)
    {
      lists := Pair(wild, Lookup(eq, key));
    }
  }
}
