/** Entries of a POSIX 1003.1e draft 17 access control list, as values: the
    tag, the qualifier and the permission set of one `acl_entry_obj`, and the
    order in which libacl keeps them. */
module AclEntry {

  /** `id_t`: an unsigned 32-bit user or group id. */
  type Id = n: int | 0 <= n < 0x1_0000_0000

  const UNDEFINED_ID: Id := 0xFFFF_FFFF

  /** `permset_t`: an unsigned 32-bit set of permission bits. */
  type Perm = bv32

  const READ: Perm := 4
  const WRITE: Perm := 2
  const EXECUTE: Perm := 1
  const RWX: Perm := 7

  /** `acl_tag_t` values. */
  const UNDEFINED_TAG := 0x00
  const USER_OBJ := 0x01
  const USER := 0x02
  const GROUP_OBJ := 0x04
  const GROUP := 0x08
  const MASK := 0x10
  const OTHER := 0x20

  datatype Entry = Entry(tag: int, id: Id, perm: Perm)

  /** What `init_acl_entry_obj` leaves in a new entry. */
  const BLANK := Entry(UNDEFINED_TAG, UNDEFINED_ID, 0)

  /** The tags whose qualifier matters. */
  predicate Named(tag: int) {
    tag == USER || tag == GROUP
  }

  /** The tags `acl_set_tag_type` accepts. */
  predicate KnownTag(tag: int) {
    tag == USER_OBJ || tag == USER || tag == GROUP_OBJ || tag == GROUP || tag == MASK || tag == OTHER
  }

  /** Canonical order: by tag, then by qualifier. */
  predicate Less(a: Entry, b: Entry) {
    a.tag < b.tag || (a.tag == b.tag && a.id < b.id)
  }

  /** `__acl_entry_p_compare`. */
  function Compare(a: Entry, b: Entry): (c: int)
    ensures c < 0 <==> Less(a, b)
    ensures c > 0 <==> Less(b, a)
    ensures c == 0 <==> a.tag == b.tag && a.id == b.id
  {
    if a.tag < b.tag then -1
    else if a.tag > b.tag then 1
    else if a.id < b.id then -1
    else if a.id > b.id then 1
    else 0
  }

  /** An entry that re-insertion will move: its tag is set, and so is its
      qualifier when the tag needs one. */
  predicate Settled(e: Entry) {
    e.tag != UNDEFINED_TAG && (Named(e.tag) ==> e.id != UNDEFINED_ID)
  }

  /** Canonical order of a whole list. */
  predicate Sorted(s: seq<Entry>) {
    forall i, j :: 0 <= i < j < |s| ==> !Less(s[j], s[i])
  }

  predicate AllSettled(s: seq<Entry>) {
    forall i :: 0 <= i < |s| ==> Settled(s[i])
  }

  function RemoveAt<T>(s: seq<T>, k: nat): (r: seq<T>)
    requires k < |s|
    ensures |r| == |s| - 1
  {
    s[..k] + s[k + 1..]
  }

  function InsertAt<T>(s: seq<T>, p: nat, x: T): (r: seq<T>)
    requires p <= |s|
    ensures |r| == |s| + 1
  {
    s[..p] + [x] + s[p..]
  }

  /** Index of the first entry greater than `e`, or the length. */
  function FirstGreater(s: seq<Entry>, e: Entry): (p: nat)
    ensures p <= |s|
    ensures forall i :: 0 <= i < p ==> !Less(e, s[i])
    ensures p < |s| ==> Less(e, s[p])
  {
    if s == [] || Less(e, s[0]) then 0 else 1 + FirstGreater(s[1..], e)
  }

  /** Where entry `k` ends up after re-insertion. */
  function Slot(s: seq<Entry>, k: nat): (p: nat)
    requires k < |s|
    ensures p < |s|
  {
    if Settled(s[k]) then FirstGreater(RemoveAt(s, k), s[k]) else k
  }

  /** Value form of `__acl_reorder_entry_obj_p`. */
  function Reorder(s: seq<Entry>, k: nat): (r: seq<Entry>)
    requires k < |s|
  {
    InsertAt(RemoveAt(s, k), Slot(s, k), s[k])
  }

  lemma MoveNowhere<T>(s: seq<T>, k: nat)
    requires k < |s|
    ensures InsertAt(RemoveAt(s, k), k, s[k]) == s
  {
    assert RemoveAt(s, k)[..k] == s[..k] && RemoveAt(s, k)[k..] == s[k + 1..];
  }

  lemma FirstGreaterUnique(s: seq<Entry>, e: Entry, p: nat)
    requires p <= |s|
    requires forall i :: 0 <= i < p ==> !Less(e, s[i])
    requires p < |s| ==> Less(e, s[p])
    ensures FirstGreater(s, e) == p
  {
  }

  /** Insertion in canonical order. */
  function Insert(s: seq<Entry>, e: Entry): (r: seq<Entry>) {
    InsertAt(s, FirstGreater(s, e), e)
  }

  /** A settled entry created at the end lands in its canonical place. */
  lemma AppendReorder(s: seq<Entry>, e: Entry)
    requires Settled(e)
    ensures Slot(s + [e], |s|) == FirstGreater(s, e)
    ensures Reorder(s + [e], |s|) == Insert(s, e)
  {
    assert RemoveAt(s + [e], |s|) == s;
  }

  /** The place of an entry does not depend on its permissions. */
  lemma {:induction false} FirstGreaterPerm(s: seq<Entry>, e: Entry, perm: Perm)
    ensures FirstGreater(s, e.(perm := perm)) == FirstGreater(s, e)
  {
    FirstGreaterUnique(s, e.(perm := perm), FirstGreater(s, e));
  }

  lemma InsertedAt<T>(s: seq<T>, p: nat, x: T, y: T)
    requires p <= |s|
    ensures InsertAt(s, p, x)[p] == x
    ensures InsertAt(s, p, x)[p := y] == InsertAt(s, p, y)
  {
  }

  lemma RemoveLast<T>(s: seq<T>, x: T)
    ensures RemoveAt(s + [x], |s|) == s
  {
  }

  lemma Twice<T>(s: seq<T>, i: nat, j: nat)
    requires i < j < |s| && s[i] == s[j]
    ensures multiset(s)[s[i]] >= 2
  {
    assert s == s[..j] + s[j..];
    assert s[i] in s[..j] && s[j] in s[j..];
  }

  lemma Once<T>(s: seq<T>, i: nat)
    requires i < |s| && forall j :: 0 <= j < |s| && j != i ==> s[j] != s[i]
    ensures multiset(s)[s[i]] == 1
  {
    assert s == s[..i] + [s[i]] + s[i + 1..];
    assert s[i] !in s[..i] && s[i] !in s[i + 1..];
  }

  lemma InsertMultiset<T>(s: seq<T>, p: nat, x: T)
    requires p <= |s|
    ensures multiset(InsertAt(s, p, x)) == multiset(s) + multiset{x}
  {
    assert s == s[..p] + s[p..];
  }

  lemma DropLast<T>(s: seq<T>)
    requires s != []
    ensures multiset(s[..|s| - 1]) == multiset(s) - multiset{s[|s| - 1]}
  {
    assert s == s[..|s| - 1] + [s[|s| - 1]];
  }

  /** Strictly increasing keys. */
  predicate Increasing(s: seq<Entry>) {
    forall i, j :: 0 <= i < j < |s| ==> Less(s[i], s[j])
  }

  /** A list with strictly increasing keys is its only sorted arrangement. */
  lemma {:induction false} SortedUnique(s: seq<Entry>, t: seq<Entry>)
    requires Sorted(s) && Increasing(t) && multiset(s) == multiset(t)
    ensures s == t
    decreases |t|
  {
    hide Less;
    assert |multiset(s)| == |s| && |multiset(t)| == |t|;
    if t != [] {
      var k := |t| - 1;
      LastAgrees(s, t);
      assert multiset(s[..k]) == multiset(t[..k]) by {
        DropLast(s);
        DropLast(t);
      }
      SortedUnique(s[..k], t[..k]);
      assert s == s[..k] + [s[k]] && t == t[..k] + [t[k]];
    }
  }

  lemma LastAgrees(s: seq<Entry>, t: seq<Entry>)
    requires |s| == |t| > 0 && Sorted(s) && Increasing(t) && multiset(s) == multiset(t)
    ensures s[|s| - 1] == t[|t| - 1]
  {
    var k := |t| - 1;
    assert t[k] in multiset(s) && s[k] in multiset(t);
    var i :| 0 <= i < |s| && s[i] == t[k];
    var j :| 0 <= j < |t| && t[j] == s[k];
    assert i < k ==> !Less(s[k], s[i]);
    assert j < k ==> Less(t[j], t[k]);
  }

  /** An unsettled entry stays at the end. */
  lemma Stays(s: seq<Entry>, e: Entry)
    requires !Settled(e)
    ensures Slot(s + [e], |s|) == |s| && Reorder(s + [e], |s|) == s + [e]
  {
    MoveNowhere(s + [e], |s|);
  }

  lemma Landed(s: seq<Entry>, e: Entry)
    ensures Reorder(s + [e], |s|)[Slot(s + [e], |s|)] == e
  {
    Lands(s, e, Slot(s + [e], |s|));
  }

  lemma Lands<T>(s: seq<T>, e: T, p: nat)
    requires p <= |s|
    ensures InsertAt(RemoveAt(s + [e], |s|), p, e)[p] == e
  {
    RemoveLast(s, e);
  }
}
