/** The helpers `setfacl` builds on: searching, permission updates, cloning and
    removing entries of one ACL. */
module AclTools {
  import opened AclEntry
  import opened AclRing

  // ----- find_entry

  /** The entry `find_entry` looks for; with no qualifier given any entry of
      the tag will do, with one given only named tags can match. */
  predicate Matches(e: Entry, tag: int, id: Id) {
    e.tag == tag && (id == UNDEFINED_ID || (Named(tag) && e.id == id))
  }

  /** Index of the first match, or -1. */
  function Find(s: seq<Entry>, tag: int, id: Id): (k: int)
    ensures -1 <= k < |s|
    ensures k >= 0 ==> Matches(s[k], tag, id)
    ensures forall i :: 0 <= i < (if k < 0 then |s| else k) ==> !Matches(s[i], tag, id)
  {
    if s == [] then -1
    else if Matches(s[0], tag, id) then 0
    else
      var k := Find(s[1..], tag, id);
      if k < 0 then -1 else k + 1
  }

  lemma FindUnique(s: seq<Entry>, tag: int, id: Id, k: int)
    requires -1 <= k < |s| && (k >= 0 ==> Matches(s[k], tag, id))
    requires forall i :: 0 <= i < (if k < 0 then |s| else k) ==> !Matches(s[i], tag, id)
    ensures Find(s, tag, id) == k
  {
    var f := Find(s, tag, id);
    if f >= 0 {
      assert Matches(s[f], tag, id);
    }
  }

  /** `find_entry`; it walks with the cursor. */
  method FindEntry(acl: AclObj, tag: int, id: Id) returns (ent: EntryObj?, ghost k: int)
    requires acl.Valid()
    modifies acl`curr
    ensures acl.Valid()
    ensures k == Find(acl.Entries, tag, id)
    ensures (ent == null <==> k < 0) && (k >= 0 ==> k < |acl.Nodes| && ent == acl.Nodes[k])
  {
    hide Linked, Distinct, Holds;
    ghost var s := acl.Entries;
    ghost var i: nat := 0;
    ent := acl.GetFirst();
    while ent != null
      invariant acl.Valid()
      invariant i <= |s| && ent == (if i < |s| then acl.Nodes[i] else null)
      invariant i < |s| ==> acl.curr == acl.Nodes[i]
      invariant forall j :: 0 <= j < i ==> !Matches(s[j], tag, id)
      decreases |s| - i
    {
      var e := acl.Read(ent, i);
      if tag == e.tag {
        if id != UNDEFINED_ID {
          if !Named(e.tag) {
            // acl_get_qualifier fails and ends the search
            NoneMatch(s, tag, id);
            return null, -1;
          }
          if e.id == id {
            FindUnique(s, tag, id, i);
            return ent, i;
          }
        } else {
          FindUnique(s, tag, id, i);
          return ent, i;
        }
      }
      ent := acl.GetNext(i);
      i := i + 1;
    }
    FindUnique(s, tag, id, -1);
    k := -1;
  }

  lemma NoneMatch(s: seq<Entry>, tag: int, id: Id)
    requires id != UNDEFINED_ID && !Named(tag)
    ensures Find(s, tag, id) == -1
  {
    FindUnique(s, tag, id, -1);
  }

  // ----- has_execute_perms, set_perm

  predicate CanExecute(p: Perm) {
    p & EXECUTE != 0
  }

  predicate AnyExecute(s: seq<Entry>) {
    exists i :: 0 <= i < |s| && CanExecute(s[i].perm)
  }

  /** `has_execute_perms`. */
  method HasExecutePerms(acl: AclObj) returns (r: bool)
    requires acl.Valid()
    modifies acl`curr
    ensures acl.Valid() && r == AnyExecute(acl.Entries)
  {
    hide Linked, Distinct, Holds, CanExecute;
    ghost var s := acl.Entries;
    ghost var i: nat := 0;
    var ent := acl.GetFirst();
    while ent != null
      invariant acl.Valid()
      invariant i <= |s| && ent == (if i < |s| then acl.Nodes[i] else null)
      invariant i < |s| ==> acl.curr == acl.Nodes[i]
      invariant forall j :: 0 <= j < i ==> !CanExecute(s[j].perm)
      decreases |s| - i
    {
      var e := acl.Read(ent, i);
      if CanExecute(e.perm) {
        return true;
      }
      ent := acl.GetNext(i);
      i := i + 1;
    }
    r := false;
  }

  /** `acl_add_perm` or `acl_delete_perm` for one bit. */
  function SetBit(p: Perm, bit: Perm, on: bool): Perm {
    if on then p | bit else p & (0xFFFF_FFFF ^ bit)
  }

  /** `set_perm`, bit by bit. */
  function WithPerm(before: Perm, perm: Perm): Perm {
    SetBit(SetBit(SetBit(before, READ, perm & READ != 0), WRITE, perm & WRITE != 0), EXECUTE, perm & EXECUTE != 0)
  }

  /** The rwx bits come from the command, all other bits stay. */
  lemma WithPermMeans(before: Perm, perm: Perm)
    ensures WithPerm(before, perm) == (before & 0xFFFF_FFF8) | (perm & RWX)
  {
  }

  /** What `remove_extended_entries` leaves the owning group. */
  function Masked(perm: Perm, mask: Perm): Perm {
    var p := if mask & READ == 0 then SetBit(perm, READ, false) else perm;
    var q := if mask & WRITE == 0 then SetBit(p, WRITE, false) else p;
    if mask & EXECUTE == 0 then SetBit(q, EXECUTE, false) else q
  }

  /** Its effective permissions without the mask are those it had under it. */
  lemma MaskedMeans(perm: Perm, mask: Perm)
    ensures Masked(perm, mask) & RWX == perm & mask & RWX
    ensures Masked(perm, mask) & 0xFFFF_FFF8 == perm & 0xFFFF_FFF8
  {
  }

  // ----- CMD_ENTRY_REPLACE and CMD_REMOVE_ENTRY

  /** The entry a replace command creates when it finds none. */
  function NewEntry(tag: int, id: Id, perm: Perm): Entry {
    Entry(if KnownTag(tag) then tag else UNDEFINED_TAG, if Named(tag) then id else UNDEFINED_ID, WithPerm(0, perm))
  }

  function Replace(s: seq<Entry>, tag: int, id: Id, perm: Perm): seq<Entry> {
    var k := Find(s, tag, id);
    if k >= 0 then s[k := s[k].(perm := WithPerm(s[k].perm, perm))]
    else Reorder(s + [NewEntry(tag, id, perm)], |s|)
  }

  function Remove(s: seq<Entry>, tag: int, id: Id): seq<Entry> {
    var k := Find(s, tag, id);
    if k >= 0 then RemoveAt(s, k) else s
  }

  /** A new entry, filled in with up to three calls, each re-inserting it. */
  method AddEntry(acl: AclObj, tag: int, id: Id) returns (ent: EntryObj, ghost k: nat)
    requires acl.Valid()
    modifies acl.Repr
    ensures acl.Valid() && k < |acl.Nodes| && acl.Nodes[k] == ent
    ensures fresh(acl.Repr - old(acl.Repr))
    ensures var e := NewEntry(tag, id, 0).(perm := 0); var s := old(acl.Entries) + [e];
            acl.Entries == Reorder(s, |old(acl.Entries)|) && k == Slot(s, |old(acl.Entries)|)
  {
    hide Linked, Distinct, Holds, InsertAt, RemoveAt, WithPerm, Reorder;
    ghost var s, ns := acl.Entries, acl.Nodes;
    ent := acl.CreateEntry();
    k := |s|;
    var e := BLANK.(tag := tag);
    assert (s + [BLANK])[k := e] == s + [e];
    var ok := acl.SetTagType(ent, tag, k);
    if !ok {
      Stays(s, BLANK);
      return;
    }
    k := Slot(s + [e], |s|);
    Landed(s, e);
    Lands(ns, ent, k);
    if id != UNDEFINED_ID && Named(tag) {
      Stays(s, e);
      assert (s + [e])[k := e.(id := id)] == s + [e.(id := id)];
      ok := acl.SetQualifier(ent, id, k);
      k := Slot(s + [e.(id := id)], |s|);
      MoveNowhere(ns + [ent], |s|);
      Lands(ns, ent, k);
    } else if id != UNDEFINED_ID {
      ok := acl.SetQualifier(ent, id, k);
    }
  }

  /** CMD_ENTRY_REPLACE. */
  method ReplaceEntry(acl: AclObj, tag: int, id: Id, perm: Perm)
    requires acl.Valid()
    modifies acl.Repr
    ensures acl.Valid() && acl.Entries == Replace(old(acl.Entries), tag, id, perm)
    ensures fresh(acl.Repr - old(acl.Repr))
  {
    hide Linked, Distinct, Holds, WithPerm, Reorder, Matches;
    ghost var s := acl.Entries;
    var ent, k := FindEntry(acl, tag, id);
    if ent == null {
      ent, k := AddEntry(acl, tag, id);
      RefillReordered(s, NewEntry(tag, id, 0).(perm := 0), WithPerm(0, perm));
    }
    var e := acl.Read(ent, k);
    acl.Fill(ent, e.(perm := WithPerm(e.perm, perm)), k);
  }

  /** Setting the permissions afterwards is the same as creating with them. */
  lemma RefillReordered(s: seq<Entry>, e: Entry, perm: Perm)
    ensures var f := e.(perm := perm); var k := Slot(s + [e], |s|);
            Reorder(s + [e], |s|)[k] == e && Reorder(s + [e], |s|)[k := f] == Reorder(s + [f], |s|)
  {
    var f := e.(perm := perm);
    RemoveLast(s, e);
    RemoveLast(s, f);
    FirstGreaterPerm(s, e, perm);
    InsertedAt(s, Slot(s + [e], |s|), e, f);
  }

  /** CMD_REMOVE_ENTRY. */
  method RemoveEntry(acl: AclObj, tag: int, id: Id)
    requires acl.Valid()
    modifies acl.Repr
    ensures acl.Valid() && acl.Entries == Remove(old(acl.Entries), tag, id)
    ensures acl.Repr == old(acl.Repr)
  {
    hide Linked, Distinct, Holds, Matches, RemoveAt;
    var ent, k := FindEntry(acl, tag, id);
    if ent != null {
      acl.DeleteEntry(ent, k);
    }
  }

  // ----- clone_entry

  /** A copy of `e` put at its place in `to`, and then under its new tag; an
      unknown tag is refused and leaves the copy as it is. */
  function Copied(to: seq<Entry>, e: Entry, tag: int): seq<Entry> {
    var p, t := Slot(to + [e], |to|), Reorder(to + [e], |to|);
    ReorderLength(to + [e], |to|);
    if KnownTag(tag) then Reorder(t[p := e.(tag := tag)], p) else t
  }

  lemma ReorderLength(s: seq<Entry>, k: nat)
    requires k < |s|
    ensures |Reorder(s, k)| == |s|
  {
  }

  /** The target ACL after cloning the first `fromTag` entry of `from`. */
  function CloneAny(from: seq<Entry>, fromTag: int, to: seq<Entry>, toTag: int): seq<Entry> {
    var k := Find(from, fromTag, UNDEFINED_ID);
    if k >= 0 then Copied(to, from[k], toTag) else to
  }

  /** The same for tags without a qualifier, as all callers have it. */
  function Clone(from: seq<Entry>, fromTag: int, to: seq<Entry>, toTag: int): seq<Entry> {
    var k := Find(from, fromTag, UNDEFINED_ID);
    if k >= 0 then Insert(to, from[k].(tag := toTag)) else to
  }

  lemma CloneUnnamed(from: seq<Entry>, fromTag: int, to: seq<Entry>, toTag: int)
    requires KnownTag(fromTag) && !Named(fromTag) && KnownTag(toTag) && !Named(toTag)
    ensures CloneAny(from, fromTag, to, toTag) == Clone(from, fromTag, to, toTag)
  {
    hide Reorder, Slot, Insert;
    var k := Find(from, fromTag, UNDEFINED_ID);
    if k >= 0 {
      AppendReorder(to, from[k]);
      Retagged(to, from[k], toTag);
    }
  }

  /** `clone_entry`; source and target may be the same ACL. */
  method CloneEntry(from: AclObj, fromTag: int, to: AclObj, toTag: int) returns (r: int)
    requires from.Valid() && to.Valid() && (from == to || from.Repr !! to.Repr)
    modifies from`curr, to.Repr
    ensures to.Valid() && r == if Find(old(from.Entries), fromTag, UNDEFINED_ID) >= 0 then 0 else 1
    ensures to.Entries == CloneAny(old(from.Entries), fromTag, old(to.Entries), toTag)
    ensures fresh(to.Repr - old(to.Repr))
    ensures from != to ==> from.Valid() && from.Entries == old(from.Entries) && from.Repr == old(from.Repr)
  {
    hide Linked, Distinct, Holds, InsertAt, RemoveAt, Copied;
    var ent, k := FindEntry(from, fromTag, UNDEFINED_ID);
    r := 1;
    if ent != null {
      var e := from.Read(ent, k);
      PutClone(to, e, toTag);
      r := 0;
    }
  }

  method PutClone(to: AclObj, e: Entry, toTag: int)
    requires to.Valid()
    modifies to.Repr
    ensures to.Valid() && to.Entries == Copied(old(to.Entries), e, toTag)
    ensures fresh(to.Repr - old(to.Repr))
  {
    hide AclObj.Valid, InsertAt, RemoveAt, Reorder, Slot;
    ghost var s, ns := to.Entries, to.Nodes;
    AclShape(to);
    var n := to.CreateEntry();
    assert to.Nodes[|s|] == n;
    assert (s + [BLANK])[|s| := e] == s + [e];
    to.PutEntry(n, e, |s|);
    ghost var p := Slot(s + [e], |s|);
    LandedNode(ns, n, p);
    LandedEntry(s, e);
    ReorderLength(s + [e], |s|);
    AclShape(to);
    var ok := to.SetTagType(n, toTag, p);
  }

  lemma AclShape(acl: AclObj)
    requires acl.Valid()
    ensures |acl.Nodes| == |acl.Entries| && acl in acl.Repr && acl.head in acl.Repr
    ensures forall i :: 0 <= i < |acl.Nodes| ==> acl.Nodes[i] in acl.Repr
  {
  }

  lemma LandedNode(ns: seq<EntryObj>, n: EntryObj, p: nat)
    requires p <= |ns|
    ensures InsertAt(RemoveAt(ns + [n], |ns|), p, n)[p] == n
  {
    Lands(ns, n, p);
  }

  lemma LandedEntry(s: seq<Entry>, e: Entry)
    ensures |Reorder(s + [e], |s|)| == |s| + 1 && Reorder(s + [e], |s|)[Slot(s + [e], |s|)] == e
  {
    Landed(s, e);
  }

  lemma Retagged(s: seq<Entry>, e: Entry, tag: int)
    requires Settled(e) && Settled(e.(tag := tag))
    ensures var p := FirstGreater(s, e);
            Insert(s, e)[p] == e && Reorder(Insert(s, e)[p := e.(tag := tag)], p) == Insert(s, e.(tag := tag))
  {
    var p, f := FirstGreater(s, e), e.(tag := tag);
    InsertedAt(s, p, e, f);
    assert RemoveAt(InsertAt(s, p, f), p) == s;
  }

  // ----- remove_extended_entries

  predicate Base(tag: int) {
    tag != USER && tag != GROUP && tag != MASK
  }

  /** The entries that survive. */
  function Keep(s: seq<Entry>): seq<Entry> {
    if s == [] then []
    else
      var rest, e := Keep(s[..|s| - 1]), s[|s| - 1];
      if Base(e.tag) then rest + [e] else rest
  }

  /** The owning group cut down to the mask, if both are there. */
  function Narrowed(s: seq<Entry>): seq<Entry> {
    var m, g := Find(s, MASK, UNDEFINED_ID), Find(s, GROUP_OBJ, UNDEFINED_ID);
    if m >= 0 && g >= 0 then s[g := s[g].(perm := Masked(s[g].perm, s[m].perm))] else s
  }

  function RemoveExtended(s: seq<Entry>): seq<Entry> {
    Keep(Narrowed(s))
  }

  method NarrowGroup(acl: AclObj)
    requires acl.Valid()
    modifies acl.Repr
    ensures acl.Valid() && acl.Entries == Narrowed(old(acl.Entries)) && acl.Repr == old(acl.Repr)
  {
    hide Linked, Distinct, Holds, Matches, Masked;
    var mask, m := FindEntry(acl, MASK, UNDEFINED_ID);
    var group, g := FindEntry(acl, GROUP_OBJ, UNDEFINED_ID);
    if mask != null && group != null {
      var me := acl.Read(mask, m);
      var ge := acl.Read(group, g);
      acl.Fill(group, ge.(perm := Masked(ge.perm, me.perm)), g);
    }
  }

  /** One round of the loop of `remove_extended_entries`, ending with the step
      to the next entry. */
  method VisitEntry(acl: AclObj, ent: EntryObj, ghost k: nat) returns (next: EntryObj?)
    requires acl.Valid() && k < |acl.Nodes| && ent == acl.Nodes[k] && acl.curr == ent
    modifies acl.Repr
    ensures acl.Valid() && (next != null ==> acl.curr == next)
    ensures acl.Repr == old(acl.Repr)
    ensures var j := if Base(old(acl.Entries)[k].tag) then k + 1 else k;
            next == if j < |acl.Nodes| then acl.Nodes[j] else null
    ensures acl.Entries == if Base(old(acl.Entries)[k].tag) then old(acl.Entries) else RemoveAt(old(acl.Entries), k)
  {
    hide Linked, Distinct, Holds, RemoveAt;
    var e := acl.Read(ent, k);
    if Base(e.tag) {
      next := acl.GetNext(k);
    } else {
      Neighbour(acl.head, acl.Nodes, k);
      acl.DeleteEntry(ent, k);
      next := acl.GetNext(k - 1);
    }
  }

  /** The list after `i` rounds, and where the cursor then is. */
  function Midway(t: seq<Entry>, i: nat): seq<Entry>
    requires i <= |t|
  {
    Keep(t[..i]) + t[i..]
  }

  function Kept(t: seq<Entry>, i: nat): nat
    requires i <= |t|
  {
    |Keep(t[..i])|
  }

  lemma MidwayStep(t: seq<Entry>, i: nat)
    requires i < |t|
    ensures var s, k := Midway(t, i), Kept(t, i);
      && k < |s| && s[k] == t[i]
      && Midway(t, i + 1) == (if Base(t[i].tag) then s else RemoveAt(s, k))
      && Kept(t, i + 1) == (if Base(t[i].tag) then k + 1 else k)
      && |Midway(t, i)| == Kept(t, i) + |t| - i
  {
    assert t[..i + 1][..i] == t[..i] && t[i..] == [t[i]] + t[i + 1..];
    var s, k := Midway(t, i), Kept(t, i);
    assert s[..k] == Keep(t[..i]) && s[k + 1..] == t[i + 1..];
  }

  lemma MidwayEnds(t: seq<Entry>)
    ensures Midway(t, 0) == t && Kept(t, 0) == 0
    ensures Midway(t, |t|) == Keep(t) && Kept(t, |t|) == |Midway(t, |t|)|
  {
    assert t[..|t|] == t;
  }

  /** The loop of `remove_extended_entries`.  Deleting under the cursor moves it
      back, so every entry is still met once; `visited` records the walk. */
  method DropExtended(acl: AclObj) returns (ghost visited: seq<Entry>)
    requires acl.Valid()
    modifies acl.Repr
    ensures acl.Valid() && acl.Entries == Keep(old(acl.Entries))
    ensures visited == old(acl.Entries)
    ensures acl.Repr == old(acl.Repr)
  {
    hide Linked, Distinct, Holds, RemoveAt, Keep, Midway, Kept;
    ghost var t, i: nat := acl.Entries, 0;
    MidwayEnds(t);
    visited := [];
    var ent := acl.GetFirst();
    while ent != null
      invariant acl.Valid() && i <= |t| && visited == t[..i]
      invariant acl.Entries == Midway(t, i) && Kept(t, i) <= |acl.Entries|
      invariant i == |t| <==> Kept(t, i) == |acl.Entries|
      invariant ent == if i < |t| then acl.Nodes[Kept(t, i)] else null
      invariant ent != null ==> acl.curr == ent
      invariant acl.Repr == old(acl.Repr)
      decreases |t| - i
    {
      MidwayStep(t, i);
      if i + 1 < |t| {
        MidwayStep(t, i + 1);
      }
      visited := visited + [acl.Entries[Kept(t, i)]];
      ent := VisitEntry(acl, ent, Kept(t, i));
      i := i + 1;
    }
  }

  /** `remove_extended_entries`. */
  method RemoveExtendedEntries(acl: AclObj) returns (ghost visited: seq<Entry>)
    requires acl.Valid()
    modifies acl.Repr
    ensures acl.Valid() && acl.Entries == RemoveExtended(old(acl.Entries))
    ensures visited == Narrowed(old(acl.Entries))
    ensures acl.Repr == old(acl.Repr)
  {
    hide Linked, Distinct, Holds, Keep, Narrowed;
    NarrowGroup(acl);
    visited := DropExtended(acl);
  }
}
