/** Whole-ACL operations of libacl on the ring: copying, comparing and computing
    the mask. */
module AclOps {
  import opened AclEntry
  import opened AclRing

  // ----- acl_dup, acl_cmp

  /** What `acl_cmp` compares: the qualifier counts for named entries only. */
  function Normal(e: Entry): Entry {
    if Named(e.tag) then e else e.(id := UNDEFINED_ID)
  }

  predicate SameAcl(s: seq<Entry>, t: seq<Entry>) {
    |s| == |t| && forall i :: 0 <= i < |s| ==> Normal(s[i]) == Normal(t[i])
  }

  /** `acl_dup`. */
  method Dup(acl: AclObj) returns (d: AclObj)
    requires acl.Valid()
    ensures d.Valid() && fresh(d.Repr)
    ensures d.Entries == acl.Entries && acl.Valid()
  {
    hide Linked, Distinct, Holds;
    d := new AclObj(acl.used);
    var i: nat := 0;
    var p := acl.First();
    while p != acl.head
      invariant i <= |acl.Nodes| && p == acl.At(i) && (p == acl.head <==> i == |acl.Nodes|)
      invariant acl.Valid()
      invariant d.Valid() && fresh(d.Repr) && d.Entries == acl.Entries[..i]
      decreases |acl.Nodes| - i
    {
      var e := acl.Read(p, i);
      var n := d.Append(e);
      p := acl.Next(p, i);
      i := i + 1;
    }
    assert i == |acl.Nodes|;
  }

  /** `acl_cmp`: 0 exactly when the two hold the same ACL. */
  method Cmp(acl1: AclObj, acl2: AclObj) returns (r: int)
    requires acl1.Valid() && acl2.Valid()
    ensures r == 0 || r == 1
    ensures r == 0 <==> SameAcl(acl1.Entries, acl2.Entries)
  {
    hide Linked, Distinct, Holds;
    if acl1.used != acl2.used {
      return 1;
    }
    var i: nat := 0;
    var p1 := acl1.First();
    var p2 := acl2.First();
    while p1 != acl1.head
      invariant i <= |acl1.Nodes| && p1 == acl1.At(i) && (p1 == acl1.head <==> i == |acl1.Nodes|)
      invariant p2 == acl2.At(i)
      invariant forall j :: 0 <= j < i ==> Normal(acl1.Entries[j]) == Normal(acl2.Entries[j])
      decreases |acl1.Nodes| - i
    {
      var e1 := acl1.Read(p1, i);
      var e2 := acl2.Read(p2, i);
      if e1.tag != e2.tag {
        return 1;
      }
      if e1.perm != e2.perm {
        return 1;
      }
      if Named(e1.tag) && e1.id != e2.id {
        return 1;
      }
      p1 := acl1.Next(p1, i);
      p2 := acl2.Next(p2, i);
      i := i + 1;
    }
    return 0;
  }

  // ----- acl_calc_mask

  predicate GroupClass(tag: int) {
    tag == USER || tag == GROUP_OBJ || tag == GROUP
  }

  predicate AllKnownTags(s: seq<Entry>) {
    forall i :: 0 <= i < |s| ==> KnownTag(s[i].tag)
  }

  function Union(p: Perm, q: Perm): Perm {
    p | q
  }

  /** The union of the group-class permissions. */
  function GroupPerms(s: seq<Entry>): Perm {
    if s == [] then 0
    else
      var rest, e := GroupPerms(s[..|s| - 1]), s[|s| - 1];
      if GroupClass(e.tag) then Union(rest, e.perm) else rest
  }

  /** Position of the last mask entry, or -1. */
  function LastMask(s: seq<Entry>): (k: int)
    ensures -1 <= k < |s|
    ensures k >= 0 ==> s[k].tag == MASK
    ensures forall i :: k < i < |s| ==> s[i].tag != MASK
  {
    if s == [] then -1 else if s[|s| - 1].tag == MASK then |s| - 1 else LastMask(s[..|s| - 1])
  }

  /** Value form of `acl_calc_mask`. */
  function CalcMask(s: seq<Entry>): (r: seq<Entry>) {
    if !AllKnownTags(s) then s
    else
      var k, m := LastMask(s), Entry(MASK, UNDEFINED_ID, GroupPerms(s));
      if k >= 0 then s[k := s[k].(perm := GroupPerms(s))] else InsertAt(s, FirstGreater(s, m), m)
  }

  /** Every permission of `p` is in `q`. */
  predicate Within(p: Perm, q: Perm) {
    p & q == p
  }

  lemma WithinUnion(p: Perm, q: Perm)
    ensures Within(p, Union(p, q)) && Within(q, Union(p, q))
  {
  }

  lemma UnionWithin(p: Perm, q: Perm, bound: Perm)
    requires Within(p, bound) && Within(q, bound)
    ensures Within(Union(p, q), bound)
  {
  }

  lemma WithinTrans(p: Perm, q: Perm, r: Perm)
    requires Within(p, q) && Within(q, r)
    ensures Within(p, r)
  {
  }

  /** The computed mask lets every group-class permission through. */
  lemma {:induction false} GroupPermsUpper(s: seq<Entry>, i: nat)
    requires i < |s| && GroupClass(s[i].tag)
    ensures Within(s[i].perm, GroupPerms(s))
  {
    hide Within, Union;
    var t, e := s[..|s| - 1], s[|s| - 1];
    WithinUnion(GroupPerms(t), e.perm);
    if i < |t| {
      assert t[i] == s[i];
      GroupPermsUpper(t, i);
      if GroupClass(e.tag) {
        WithinTrans(s[i].perm, GroupPerms(t), GroupPerms(s));
      }
    }
  }

  /** ... and nothing more. */
  lemma {:induction false} GroupPermsLeast(s: seq<Entry>, bound: Perm)
    requires forall i :: 0 <= i < |s| && GroupClass(s[i].tag) ==> Within(s[i].perm, bound)
    ensures Within(GroupPerms(s), bound)
  {
    if s == [] {
      assert Within(0, bound);
    } else {
      hide Within, Union;
      var t, e := s[..|s| - 1], s[|s| - 1];
      GroupPermsLeast(t, bound);
      if GroupClass(e.tag) {
        UnionWithin(GroupPerms(t), e.perm, bound);
      }
    }
  }

  lemma ScanStep(s: seq<Entry>, i: nat)
    requires i < |s|
    ensures var g := GroupPerms(s[..i]);
      GroupPerms(s[..i + 1]) == if GroupClass(s[i].tag) then Union(g, s[i].perm) else g
    ensures LastMask(s[..i + 1]) == if s[i].tag == MASK then i else LastMask(s[..i])
    ensures AllKnownTags(s[..i + 1]) <==> AllKnownTags(s[..i]) && KnownTag(s[i].tag)
    ensures AllKnownTags(s) ==> KnownTag(s[i].tag)
  {
    hide Union;
    assert s[..i + 1][..i] == s[..i];
  }

  lemma ScanStart()
    ensures GroupPerms([]) == 0 && LastMask([]) == -1 && AllKnownTags([])
  {
  }

  /** The loop of `acl_calc_mask`. */
  method ScanGroupClass(acl: AclObj) returns (ok: bool, perm: Perm, maskNode: EntryObj?)
    requires acl.Valid()
    ensures ok == AllKnownTags(acl.Entries)
    ensures ok ==> perm == GroupPerms(acl.Entries)
    ensures ok ==> var k := LastMask(acl.Entries); maskNode == if k >= 0 then acl.Nodes[k] else null
  {
    hide Linked, Distinct, Holds, Union, GroupPerms, LastMask, AllKnownTags;
    ghost var s := acl.Entries;
    var i: nat := 0;
    ScanStart();
    assert s[..0] == [];
    perm, maskNode := 0, null;
    var p := acl.First();
    while p != acl.head
      invariant i <= |s| && p == acl.At(i) && (p == acl.head <==> i == |s|)
      invariant AllKnownTags(s[..i]) && perm == GroupPerms(s[..i])
      invariant var k := LastMask(s[..i]); maskNode == if k >= 0 then acl.Nodes[k] else null
      decreases |s| - i
    {
      var e := acl.Read(p, i);
      ScanStep(s, i);
      if e.tag == MASK {
        maskNode := p;
      } else if GroupClass(e.tag) {
        perm := Union(perm, e.perm);
      } else if e.tag != USER_OBJ && e.tag != OTHER {
        return false, 0, null;
      }
      p := acl.Next(p, i);
      i := i + 1;
    }
    assert s[..i] == s;
    ok := true;
  }

  /** `acl_calc_mask`. */
  method UpdateMask(acl: AclObj) returns (ok: bool)
    requires acl.Valid()
    modifies acl.Repr
    ensures acl.Valid() && fresh(acl.Repr - old(acl.Repr))
    ensures ok == AllKnownTags(old(acl.Entries))
    ensures acl.Entries == CalcMask(old(acl.Entries))
  {
    hide Linked, Distinct, Holds, Union, InsertAt;
    ghost var s := acl.Entries;
    var perm, maskNode;
    ok, perm, maskNode := ScanGroupClass(acl);
    if !ok {
      return;
    }
    ghost var k := LastMask(s);
    var blank := Entry(MASK, UNDEFINED_ID, 0);
    if maskNode == null {
      k := FirstGreater(s, blank);
      FirstGreaterPerm(s, blank, perm);
      InsertedAt(s, k, blank, blank.(perm := perm));
      maskNode := acl.InsertEntry(blank);
    }
    var e := acl.Read(maskNode, k);
    acl.Fill(maskNode, e.(perm := perm), k);
  }
}
