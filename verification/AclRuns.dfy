/** Canonical order over whole runs of the ACL editing calls, starting from an
    empty ACL. */
module AclRuns {
  import opened AclEntry
  import opened AclRing
  import opened AclOps

  /** The editing calls; `k` names an entry by its place in the ring. */
  datatype Op =
    | Create
    | CopyInto(k: nat, e: Entry)
    | SetTag(k: nat, tag: int)
    | SetId(k: nat, id: Id)
    | SetPerm(k: nat, perm: Perm)
    | Delete(k: nat)
    | Mask
    | Duplicate

  predicate InRange(s: seq<Entry>, op: Op) {
    (op.CopyInto? || op.SetTag? || op.SetId? || op.SetPerm? || op.Delete?) ==> op.k < |s|
  }

  /** Does the call write a tag or a qualifier, and what entry results? */
  predicate Writes(s: seq<Entry>, op: Op)
    requires InRange(s, op)
  {
    op.CopyInto? || (op.SetTag? && KnownTag(op.tag)) || (op.SetId? && Named(s[op.k].tag))
  }

  function Written(s: seq<Entry>, op: Op): Entry
    requires InRange(s, op) && Writes(s, op)
  {
    match op
    case CopyInto(_, e) => e
    case SetTag(k, tag) => s[k].(tag := tag)
    case SetId(k, id) => s[k].(id := id)
  }

  function Apply(s: seq<Entry>, op: Op): seq<Entry>
    requires InRange(s, op)
  {
    match op
    case Create => s + [BLANK]
    case Delete(k) => RemoveAt(s, k)
    case Mask => CalcMask(s)
    case SetPerm(k, perm) => s[k := s[k].(perm := perm)]
    case Duplicate => s
    case _ => if Writes(s, op) then Reorder(s[op.k := Written(s, op)], op.k) else s
  }

  /** Every settled entry is at least as great as all entries before it. */
  predicate Ordered(s: seq<Entry>) {
    forall i, j :: 0 <= i < j < |s| && Settled(s[j]) ==> !Less(s[j], s[i])
  }

  /** Writing an unsettled value leaves the entry where it is, so it must not
      exceed the settled entries behind it; writing at the end of the ring, as
      every caller in the repository does, always qualifies. */
  predicate Harmless(s: seq<Entry>, op: Op)
    requires InRange(s, op)
  {
    Writes(s, op) && !Settled(Written(s, op)) ==>
      forall j :: op.k < j < |s| && Settled(s[j]) ==> !Less(s[j], Written(s, op))
  }

  lemma RemoveOrdered(s: seq<Entry>, k: nat)
    requires Ordered(s) && k < |s|
    ensures Ordered(RemoveAt(s, k))
  {
    var r := RemoveAt(s, k);
    forall i, j | 0 <= i < j < |r| && Settled(r[j]) ensures !Less(r[j], r[i]) {
      assert r[i] == s[if i < k then i else i + 1];
      assert r[j] == s[if j < k then j else j + 1];
    }
  }

  lemma InsertOrdered(s: seq<Entry>, e: Entry)
    requires Ordered(s) && Settled(e)
    ensures Ordered(Insert(s, e))
  {
    var r, p := Insert(s, e), FirstGreater(s, e);
    forall i, j | 0 <= i < j < |r| && Settled(r[j]) ensures !Less(r[j], r[i]) {
      assert i < p ==> r[i] == s[i];
      assert i > p ==> r[i] == s[i - 1];
      assert j < p ==> r[j] == s[j];
      assert j > p ==> r[j] == s[j - 1];
    }
  }

  /** One call keeps the order exactly when it is harmless. */
  lemma StepOrdered(s: seq<Entry>, op: Op)
    requires Ordered(s) && InRange(s, op)
    ensures Ordered(Apply(s, op)) <==> Harmless(s, op)
  {
    match op
    case Create =>
    case Delete(k) => RemoveOrdered(s, k);
    case SetPerm(k, perm) =>
    case Duplicate =>
    case Mask =>
      MaskOrdered(s);
    case _ =>
      if Writes(s, op) {
        WrittenOrdered(s, op.k, Written(s, op));
      }
  }

  lemma WrittenOrdered(s: seq<Entry>, k: nat, e: Entry)
    requires Ordered(s) && k < |s|
    ensures Ordered(Reorder(s[k := e], k)) <==>
            (!Settled(e) ==> forall j :: k < j < |s| && Settled(s[j]) ==> !Less(s[j], e))
  {
    hide Ordered;
    var t := s[k := e];
    if Settled(e) {
      RemoveOrdered(s, k);
      assert RemoveAt(t, k) == RemoveAt(s, k);
      InsertOrdered(RemoveAt(s, k), e);
    } else {
      MoveNowhere(t, k);
      WriteOrdered(s, k, e);
    }
  }

  lemma WriteOrdered(s: seq<Entry>, k: nat, e: Entry)
    requires Ordered(s) && k < |s| && !Settled(e)
    ensures Ordered(s[k := e]) <==> forall j :: k < j < |s| && Settled(s[j]) ==> !Less(s[j], e)
  {
    var t := s[k := e];
    if Ordered(t) {
      forall j | k < j < |s| && Settled(s[j]) ensures !Less(s[j], e) {
        assert t[k] == e && t[j] == s[j];
      }
    }
  }

  lemma MaskOrdered(s: seq<Entry>)
    requires Ordered(s)
    ensures Ordered(CalcMask(s))
  {
    if AllKnownTags(s) && LastMask(s) < 0 {
      InsertOrdered(s, Entry(MASK, UNDEFINED_ID, GroupPerms(s)));
    }
  }

  // ----- Runs

  predicate Runs(s: seq<Entry>, ops: seq<Op>)
    decreases |ops|
  {
    ops == [] || (InRange(s, ops[0]) && Runs(Apply(s, ops[0]), ops[1..]))
  }

  function After(s: seq<Entry>, ops: seq<Op>): seq<Entry>
    requires Runs(s, ops)
    decreases |ops|
  {
    if ops == [] then s else After(Apply(s, ops[0]), ops[1..])
  }

  predicate AllHarmless(s: seq<Entry>, ops: seq<Op>)
    requires Runs(s, ops)
    decreases |ops|
  {
    ops == [] || (Harmless(s, ops[0]) && AllHarmless(Apply(s, ops[0]), ops[1..]))
  }

  /** Every run of harmless calls from an ordered ACL leaves it ordered, and in
      canonical order once all its entries are settled. */
  lemma {:induction false} RunOrdered(s: seq<Entry>, ops: seq<Op>)
    requires Ordered(s) && Runs(s, ops) && AllHarmless(s, ops)
    ensures Ordered(After(s, ops))
    ensures AllSettled(After(s, ops)) ==> Sorted(After(s, ops))
    decreases |ops|
  {
    if ops != [] {
      StepOrdered(s, ops[0]);
      RunOrdered(Apply(s, ops[0]), ops[1..]);
    }
  }

  function Bare(tag: int, id: Id): Entry {
    Entry(tag, id, 0)
  }

  const RETAGGING := [Create, CopyInto(0, Bare(USER_OBJ, UNDEFINED_ID)), Create, CopyInto(1, Bare(USER, 5)),
                      SetTag(0, USER), Create, CopyInto(2, Bare(USER, 7)), SetId(1, 6)]

  const RETAGGED := [[], [BLANK], [Bare(USER_OBJ, UNDEFINED_ID)], [Bare(USER_OBJ, UNDEFINED_ID), BLANK],
                     [Bare(USER_OBJ, UNDEFINED_ID), Bare(USER, 5)], [Bare(USER, UNDEFINED_ID), Bare(USER, 5)],
                     [Bare(USER, UNDEFINED_ID), Bare(USER, 5), BLANK],
                     [Bare(USER, 7), Bare(USER, UNDEFINED_ID), Bare(USER, 5)],
                     [Bare(USER, 6), Bare(USER, 7), Bare(USER, 5)]]

  lemma RetagStep(i: nat)
    requires i < 8
    ensures InRange(RETAGGED[i], RETAGGING[i]) && Apply(RETAGGED[i], RETAGGING[i]) == RETAGGED[i + 1]
  {
    hide Reorder;
    var s := RETAGGED[i];
    if i == 1 {
      Place(s, 0, Bare(USER_OBJ, UNDEFINED_ID), 0);
    } else if i == 3 {
      Place(s, 1, Bare(USER, 5), 1);
    } else if i == 4 {
      Stay(s, 0, Bare(USER, UNDEFINED_ID));
    } else if i == 6 {
      Place(s, 2, Bare(USER, 7), 0);
    } else if i == 7 {
      Place(s, 1, Bare(USER, 6), 0);
    }
  }

  /** Not every run is harmless: retagging an entry in mid-ring can leave the
      finished ACL out of order. */
  lemma RetagBreaksOrder()
    ensures Runs([], RETAGGING)
    ensures var s := After([], RETAGGING); AllSettled(s) && !Sorted(s)
  {
    hide Apply, InRange, Runs, After;
    forall i | 0 <= i < 8
      ensures InRange(RETAGGED[i], RETAGGING[i]) && Apply(RETAGGED[i], RETAGGING[i]) == RETAGGED[i + 1]
    {
      RetagStep(i);
    }
    Trace(RETAGGING, RETAGGED, 0);
    assert RETAGGING[0..] == RETAGGING;
    assert Less(RETAGGED[8][2], RETAGGED[8][1]);
  }

  lemma Stay(s: seq<Entry>, k: nat, e: Entry)
    requires k < |s| && !Settled(e)
    ensures Reorder(s[k := e], k) == s[k := e]
  {
    MoveNowhere(s[k := e], k);
  }

  lemma Place(s: seq<Entry>, k: nat, e: Entry, p: nat)
    requires k < |s| && Settled(e) && p < |s|
    requires var rest := s[..k] + s[k + 1..];
             (forall i :: 0 <= i < p ==> !Less(e, rest[i])) && (p < |rest| ==> Less(e, rest[p]))
    ensures var rest := s[..k] + s[k + 1..]; Reorder(s[k := e], k) == rest[..p] + [e] + rest[p..]
  {
    assert RemoveAt(s[k := e], k) == s[..k] + s[k + 1..];
    FirstGreaterUnique(s[..k] + s[k + 1..], e, p);
  }

  lemma {:induction false} Trace(ops: seq<Op>, states: seq<seq<Entry>>, i: nat)
    requires |states| == |ops| + 1 && i <= |ops|
    requires forall j :: i <= j < |ops| ==> InRange(states[j], ops[j]) && Apply(states[j], ops[j]) == states[j + 1]
    ensures Runs(states[i], ops[i..]) && After(states[i], ops[i..]) == states[|ops|]
    decreases |ops| - i
  {
    if i < |ops| {
      Trace(ops, states, i + 1);
      assert ops[i..][1..] == ops[i + 1..];
    }
  }

  /** One call on the ring. */
  method Perform(acl: AclObj, op: Op) returns (r: AclObj)
    requires acl.Valid() && InRange(acl.Entries, op)
    modifies acl.Repr
    ensures r.Valid() && r.Entries == Apply(old(acl.Entries), op)
    ensures fresh(r.Repr - old(acl.Repr))
  {
    hide Linked, Distinct, Holds, Reorder, InsertAt, RemoveAt;
    r := acl;
    match op
    case Create =>
      var n := acl.CreateEntry();
    case Mask =>
      var ok := UpdateMask(acl);
    case Duplicate =>
      r := Dup(acl);
    case Delete(k) =>
      var n := NodeAt(acl, k);
      acl.DeleteEntry(n, k);
    case SetPerm(k, perm) =>
      var n := NodeAt(acl, k);
      var e := acl.Read(n, k);
      acl.Fill(n, e.(perm := perm), k);
    case CopyInto(k, e) =>
      var n := NodeAt(acl, k);
      acl.PutEntry(n, e, k);
    case SetTag(k, tag) =>
      var n := NodeAt(acl, k);
      var ok := acl.SetTagType(n, tag, k);
    case SetId(k, id) =>
      var n := NodeAt(acl, k);
      var ok := acl.SetQualifier(n, id, k);
  }

  method NodeAt(acl: AclObj, k: nat) returns (n: EntryObj)
    requires acl.Valid() && k < |acl.Entries|
    ensures n == acl.Nodes[k]
  {
    hide Linked, Distinct, Holds;
    n := acl.First();
    for i := 0 to k
      invariant n == acl.Nodes[i]
    {
      n := acl.Next(n, i);
    }
  }

  /** Any run on the ring, from the empty ACL: the ring stays well formed and
      holds what the values say. */
  method Execute(ops: seq<Op>) returns (acl: AclObj)
    requires Runs([], ops)
    ensures acl.Valid() && acl.Entries == After([], ops)
    ensures AllHarmless([], ops) && AllSettled(acl.Entries) ==> Sorted(acl.Entries)
  {
    hide Linked, Distinct, Holds, Apply;
    acl := new AclObj(0);
    for i := 0 to |ops|
      invariant acl.Valid() && fresh(acl.Repr)
      invariant Runs(acl.Entries, ops[i..]) && After(acl.Entries, ops[i..]) == After([], ops)
    {
      assert ops[i..][1..] == ops[i + 1..];
      acl := Perform(acl, ops[i]);
    }
    if AllHarmless([], ops) {
      RunOrdered([], ops);
    }
  }
}
