/** What removing the extended entries of a valid ACL does to permissions. */
module AclExtended {
  import opened AclEntry
  import opened AclCheck
  import opened AclMode
  import opened AclTools

  lemma {:induction false} KeepMembers(s: seq<Entry>)
    ensures forall e :: e in Keep(s) <==> e in s && Base(e.tag)
  {
    if s != [] {
      KeepMembers(s[..|s| - 1]);
      assert s == s[..|s| - 1] + [s[|s| - 1]];
    }
  }

  lemma {:induction false} KeepShape(s: seq<Entry>)
    requires Known(s) && Strict(s)
    ensures Known(Keep(s)) && Strict(Keep(s))
  {
    if s != [] {
      var t, e := s[..|s| - 1], s[|s| - 1];
      assert s == t + [e];
      Extend(t, e);
      KeepShape(t);
      if Base(e.tag) {
        Extend(Keep(t), e);
        KeepMembers(t);
        forall i | 0 <= i < |Keep(t)|
          ensures Keep(t)[i].tag < e.tag
        {
          assert Keep(t)[i] in t;
        }
      }
    }
  }

  lemma {:induction false} KeepTags(s: seq<Entry>, tag: int)
    ensures HasTag(Keep(s), tag) <==> Base(tag) && HasTag(s, tag)
    ensures Base(tag) ==> PermOf(Keep(s), tag) == PermOf(s, tag)
  {
    if s != [] {
      var t, e := s[..|s| - 1], s[|s| - 1];
      assert s == t + [e];
      Extend(t, e);
      KeepTags(t, tag);
      if Base(e.tag) {
        Extend(Keep(t), e);
        assert Keep(s)[..|Keep(s)| - 1] == Keep(t);
      }
    }
  }

  lemma {:induction false} PermAt(s: seq<Entry>, k: nat)
    requires k < |s| && Single(s, s[k].tag)
    ensures PermOf(s, s[k].tag) == s[k].perm
  {
    if k < |s| - 1 {
      assert s[..|s| - 1][k] == s[k];
      PermAt(s[..|s| - 1], k);
    }
  }

  lemma {:induction false} PermElsewhere(s: seq<Entry>, k: nat, perm: Perm, tag: int)
    requires k < |s| && s[k].tag != tag
    ensures PermOf(s[k := s[k].(perm := perm)], tag) == PermOf(s, tag)
  {
    var r := s[k := s[k].(perm := perm)];
    if k < |s| - 1 {
      assert r[..|s| - 1] == s[..|s| - 1][k := s[k].(perm := perm)];
      PermElsewhere(s[..|s| - 1], k, perm, tag);
    } else {
      assert r[..|s| - 1] == s[..|s| - 1];
    }
  }

  /** Narrowing changes the owning group's permissions and nothing else. */
  lemma NarrowedMeans(s: seq<Entry>)
    requires ValidList(s) && Strict(s)
    ensures ValidList(Narrowed(s)) && Strict(Narrowed(s))
    ensures forall t :: HasTag(Narrowed(s), t) <==> HasTag(s, t)
    ensures PermOf(Narrowed(s), GROUP_OBJ) ==
            if HasTag(s, MASK) then Masked(PermOf(s, GROUP_OBJ), PermOf(s, MASK)) else PermOf(s, GROUP_OBJ)
    ensures forall t :: t != GROUP_OBJ ==> PermOf(Narrowed(s), t) == PermOf(s, t)
  {
    hide Masked;
    var m, g := Find(s, MASK, UNDEFINED_ID), Find(s, GROUP_OBJ, UNDEFINED_ID);
    var r := Narrowed(s);
    assert |r| == |s| && forall i :: 0 <= i < |s| ==> r[i].tag == s[i].tag && r[i].id == s[i].id;
    assert ValidList(r) && Strict(r) by {
      SameTags(s, r);
    }
    SameTags(s, r);
    if m >= 0 {
      PermAt(s, m);
      PermAt(s, g);
      PermAt(r, g);
      forall t | t != GROUP_OBJ ensures PermOf(r, t) == PermOf(s, t) {
        PermElsewhere(s, g, r[g].perm, t);
      }
    }
  }

  lemma SameTags(s: seq<Entry>, r: seq<Entry>)
    requires |r| == |s| && forall i :: 0 <= i < |s| ==> r[i].tag == s[i].tag && r[i].id == s[i].id
    ensures forall t :: HasTag(r, t) <==> HasTag(s, t)
    ensures ValidList(s) <==> ValidList(r)
    ensures Strict(s) <==> Strict(r)
  {
    forall t ensures HasTag(r, t) <==> HasTag(s, t) {
      if HasTag(s, t) {
        var i :| 0 <= i < |s| && s[i].tag == t;
        assert r[i].tag == t;
      }
      if HasTag(r, t) {
        var i :| 0 <= i < |r| && r[i].tag == t;
        assert s[i].tag == t;
      }
    }
  }

  /** Effective permissions of the owning group. */
  function EffectiveGroup(s: seq<Entry>): Perm {
    if HasTag(s, MASK) then PermOf(s, GROUP_OBJ) & PermOf(s, MASK) & RWX else PermOf(s, GROUP_OBJ) & RWX
  }

  /** Removing the extended entries of a valid ACL leaves the three base
      entries: still valid, equivalent to a mode, with owner, others and the
      owning group's effective permissions as they were. */
  lemma RemoveExtendedMeans(s: seq<Entry>)
    requires Code(s) == 0
    ensures var r := RemoveExtended(s);
      && Code(r) == 0 && !Extended(r) && |r| == 3
      && PermOf(r, USER_OBJ) == PermOf(s, USER_OBJ) && PermOf(r, OTHER) == PermOf(s, OTHER)
      && EffectiveGroup(r) == EffectiveGroup(s)
  {
    hide ValidAcl, Code, Masked, Strict, Known;
    AcceptsExactly(s);
    ValidListIff(s);
    NarrowedMeans(s);
    var n := Narrowed(s);
    var r := Keep(n);
    KeepShape(n);
    KeepTags(n, USER_OBJ);
    KeepTags(n, GROUP_OBJ);
    KeepTags(n, OTHER);
    KeepTags(n, USER);
    KeepTags(n, GROUP);
    KeepTags(n, MASK);
    AcceptedStrict(r);
    UnextendedIsMinimal(r);
    MaskedMeans(PermOf(s, GROUP_OBJ), PermOf(s, MASK));
  }
}
