/** `acl_check`: a one-pass automaton that decides whether an ACL is valid, and
    its agreement with the definition of a valid ACL. */
module AclCheck {
  import opened AclEntry
  import opened AclRing

  const MULTI_ERROR := 0x1000
  const DUPLICATE_ERROR := 0x2000
  const MISS_ERROR := 0x3000
  const ENTRY_ERROR := 0x4000

  // ----- What a valid ACL is

  /** Validity is a property of the collection of entries, not of their order. */
  ghost predicate ValidAcl(m: multiset<Entry>) {
    && AllKnown(m)
    && ExactlyOne(m, USER_OBJ) && ExactlyOne(m, GROUP_OBJ) && ExactlyOne(m, OTHER)
    && AtMostOne(m, MASK)
    && (Present(m, USER) || Present(m, GROUP) ==> Present(m, MASK))
    && IdsOnce(m)
  }

  /** Only the six tags, and a qualifier on every named entry. */
  ghost predicate AllKnown(m: multiset<Entry>) {
    forall e :: e in m ==> KnownTag(e.tag) && (Named(e.tag) ==> e.id != UNDEFINED_ID)
  }

  /** No qualifier twice under one tag. */
  ghost predicate IdsOnce(m: multiset<Entry>) {
    forall e, f :: e in m && f in m && Named(e.tag) && e.tag == f.tag && e.id == f.id ==> e == f && m[e] == 1
  }

  ghost predicate Present(m: multiset<Entry>, tag: int) {
    exists e :: e in m && e.tag == tag
  }

  ghost predicate AtMostOne(m: multiset<Entry>, tag: int) {
    forall e, f :: e in m && f in m && e.tag == tag && f.tag == tag ==> e == f && m[e] == 1
  }

  ghost predicate ExactlyOne(m: multiset<Entry>, tag: int) {
    Present(m, tag) && AtMostOne(m, tag)
  }

  // ----- The automaton

  datatype State = State(want: int, qual: Id, needsMask: bool)

  datatype Outcome = Running(state: State) | Failed(code: int)

  const START := State(USER_OBJ, 0, false)

  /** One round of the loop. */
  function Step(st: State, e: Entry): (o: Outcome)
    ensures o.Failed? ==> o.code != 0
  {
    if e.tag == USER_OBJ then
      if st.want == USER_OBJ then Running(st.(qual := 0, want := USER)) else Failed(MULTI_ERROR)
    else if e.tag == USER then
      if st.want != USER then Failed(MISS_ERROR)
      else if e.id < st.qual || e.id == UNDEFINED_ID then Failed(DUPLICATE_ERROR)
      else Running(st.(qual := e.id + 1, needsMask := true))
    else if e.tag == GROUP_OBJ then
      if st.want == USER then Running(st.(qual := 0, want := GROUP))
      else if st.want >= GROUP then Failed(MULTI_ERROR) else Failed(MISS_ERROR)
    else if e.tag == GROUP then
      if st.want != GROUP then Failed(MISS_ERROR)
      else if e.id < st.qual || e.id == UNDEFINED_ID then Failed(DUPLICATE_ERROR)
      else Running(st.(qual := e.id + 1, needsMask := true))
    else if e.tag == MASK then
      if st.want == GROUP then Running(st.(want := OTHER))
      else if st.want >= OTHER then Failed(MULTI_ERROR) else Failed(MISS_ERROR)
    else if e.tag == OTHER then
      if st.want == OTHER || (st.want == GROUP && !st.needsMask) then Running(st.(want := 0))
      else Failed(MISS_ERROR)
    else Failed(ENTRY_ERROR)
  }

  function Feed(s: seq<Entry>): (o: Outcome)
    ensures o.Failed? ==> o.code != 0
  {
    if s == [] then Running(START)
    else
      var before := Feed(s[..|s| - 1]);
      if before.Running? then Step(before.state, s[|s| - 1]) else before
  }

  function Code(s: seq<Entry>): int {
    var o := Feed(s);
    if o.Failed? then o.code else if o.state.want != 0 then MISS_ERROR else 0
  }

  // ----- Prefixes the automaton survives

  predicate HasTag(s: seq<Entry>, tag: int) {
    exists i :: 0 <= i < |s| && s[i].tag == tag
  }

  predicate HasNamed(s: seq<Entry>) {
    HasTag(s, USER) || HasTag(s, GROUP)
  }

  /** Strictly increasing, qualifiers counting for named entries only. */
  predicate Strict(s: seq<Entry>) {
    forall i, j :: 0 <= i < j < |s| ==>
      s[i].tag < s[j].tag || (s[i].tag == s[j].tag && Named(s[i].tag) && s[i].id < s[j].id)
  }

  predicate Known(s: seq<Entry>) {
    forall i :: 0 <= i < |s| ==> KnownTag(s[i].tag) && (Named(s[i].tag) ==> s[i].id != UNDEFINED_ID)
  }

  /** Ordered, and every entry that had to come before one of these is there. */
  predicate Prefix(s: seq<Entry>) {
    && Known(s) && Strict(s)
    && (s != [] ==> HasTag(s, USER_OBJ))
    && (HasTag(s, GROUP) || HasTag(s, MASK) || HasTag(s, OTHER) ==> HasTag(s, GROUP_OBJ))
    && (HasTag(s, OTHER) && HasNamed(s) ==> HasTag(s, MASK))
  }

  /** The state in which the automaton leaves such a prefix. */
  predicate StateOf(s: seq<Entry>, st: State) {
    && st.needsMask == HasNamed(s)
    && (if s == [] then st == START else
        var e := s[|s| - 1];
        && st.want == (if e.tag == USER_OBJ || e.tag == USER then USER
                         else if e.tag == GROUP_OBJ || e.tag == GROUP then GROUP
                         else if e.tag == MASK then OTHER else 0)
        && (Named(e.tag) ==> st.qual == e.id + 1)
        && (e.tag == USER_OBJ || e.tag == GROUP_OBJ ==> st.qual == 0))
  }

  lemma Extend(s: seq<Entry>, e: Entry)
    ensures forall t :: HasTag(s + [e], t) <==> HasTag(s, t) || e.tag == t
    ensures Known(s + [e]) <==> Known(s) && KnownTag(e.tag) && (Named(e.tag) ==> e.id != UNDEFINED_ID)
    ensures Strict(s + [e]) <==> Strict(s) && forall i :: 0 <= i < |s| ==>
      s[i].tag < e.tag || (s[i].tag == e.tag && Named(e.tag) && s[i].id < e.id)
  {
    var r := s + [e];
    assert r[|s|] == e && forall i :: 0 <= i < |s| ==> r[i] == s[i];
  }

  lemma StepPrefix(s: seq<Entry>, st: State, e: Entry)
    requires Prefix(s) && StateOf(s, st)
    ensures Step(st, e).Running? <==> Prefix(s + [e])
    ensures Step(st, e).Running? ==> StateOf(s + [e], Step(st, e).state)
  {
    Extend(s, e);
    if s != [] {
      var z := s[|s| - 1];
      assert forall i :: 0 <= i < |s| - 1 ==> s[i].tag < z.tag || (s[i].tag == z.tag && s[i].id < z.id);
    }
  }

  lemma {:induction false} FeedPrefix(s: seq<Entry>)
    ensures Feed(s).Running? <==> Prefix(s)
    ensures Feed(s).Running? ==> StateOf(s, Feed(s).state)
  {
    if s != [] {
      var p, e := s[..|s| - 1], s[|s| - 1];
      assert s == p + [e];
      FeedPrefix(p);
      if Prefix(p) {
        StepPrefix(p, Feed(p).state, e);
      } else {
        PrefixClosed(p, e);
      }
    }
  }

  lemma PrefixClosed(p: seq<Entry>, e: Entry)
    ensures Prefix(p + [e]) ==> Prefix(p)
  {
    Extend(p, e);
    if p != [] {
      assert (p + [e])[0] == p[0];
    }
  }

  // ----- From indices to the multiset

  predicate Single(s: seq<Entry>, tag: int) {
    forall i, j :: 0 <= i < j < |s| ==> !(s[i].tag == tag && s[j].tag == tag)
  }

  predicate DistinctIds(s: seq<Entry>) {
    forall i, j :: 0 <= i < j < |s| && Named(s[i].tag) && s[i].tag == s[j].tag ==> s[i].id != s[j].id
  }

  /** `ValidAcl`, read off the positions of a list. */
  predicate ValidList(s: seq<Entry>) {
    && Known(s)
    && HasTag(s, USER_OBJ) && HasTag(s, GROUP_OBJ) && HasTag(s, OTHER)
    && Single(s, USER_OBJ) && Single(s, GROUP_OBJ) && Single(s, OTHER) && Single(s, MASK)
    && (HasNamed(s) ==> HasTag(s, MASK))
    && DistinctIds(s)
  }

  lemma PresentHasTag(s: seq<Entry>, tag: int)
    ensures Present(multiset(s), tag) <==> HasTag(s, tag)
  {
    if HasTag(s, tag) {
      var i :| 0 <= i < |s| && s[i].tag == tag;
      assert s[i] in multiset(s);
    }
  }

  lemma AtMostOneSingle(s: seq<Entry>, tag: int)
    ensures AtMostOne(multiset(s), tag) <==> Single(s, tag)
  {
    var m := multiset(s);
    if AtMostOne(m, tag) {
      forall i, j | 0 <= i < j < |s| && s[i].tag == tag && s[j].tag == tag ensures false {
        assert s[i] in m && s[j] in m;
        Twice(s, i, j);
      }
    }
    if Single(s, tag) {
      forall e, f | e in m && f in m && e.tag == tag && f.tag == tag ensures e == f && m[e] == 1 {
        var i :| 0 <= i < |s| && s[i] == e;
        var j :| 0 <= j < |s| && s[j] == f;
        Once(s, i);
      }
    }
  }

  lemma IdsOnceDistinct(s: seq<Entry>)
    ensures IdsOnce(multiset(s)) <==> DistinctIds(s)
  {
    var m := multiset(s);
    if IdsOnce(m) {
      forall i, j | 0 <= i < j < |s| && Named(s[i].tag) && s[i].tag == s[j].tag && s[i].id == s[j].id ensures false {
        assert s[i] in m && s[j] in m;
        Twice(s, i, j);
      }
    }
    if DistinctIds(s) {
      forall e, f | e in m && f in m && Named(e.tag) && e.tag == f.tag && e.id == f.id ensures e == f && m[e] == 1 {
        var i :| 0 <= i < |s| && s[i] == e;
        var j :| 0 <= j < |s| && s[j] == f;
        Once(s, i);
      }
    }
  }

  lemma ValidListIff(s: seq<Entry>)
    ensures ValidAcl(multiset(s)) <==> ValidList(s)
  {
    hide Present, HasTag, AtMostOne, Single, IdsOnce, DistinctIds;
    PresentHasTag(s, USER_OBJ); PresentHasTag(s, GROUP_OBJ); PresentHasTag(s, OTHER); PresentHasTag(s, MASK);
    PresentHasTag(s, USER); PresentHasTag(s, GROUP);
    AtMostOneSingle(s, USER_OBJ); AtMostOneSingle(s, GROUP_OBJ); AtMostOneSingle(s, OTHER); AtMostOneSingle(s, MASK);
    IdsOnceDistinct(s);
    assert AllKnown(multiset(s)) <==> Known(s) by {
      if AllKnown(multiset(s)) {
        forall i | 0 <= i < |s| ensures KnownTag(s[i].tag) && (Named(s[i].tag) ==> s[i].id != UNDEFINED_ID) {
          assert s[i] in multiset(s);
        }
      }
    }
  }

  // ----- Main results

  lemma AcceptedStrict(s: seq<Entry>)
    ensures Code(s) == 0 <==> Prefix(s) && HasTag(s, OTHER)
  {
    FeedPrefix(s);
    if Code(s) == 0 {
      assert KnownTag(s[|s| - 1].tag);
      assert s[|s| - 1].tag == OTHER;
    }
    if Prefix(s) && HasTag(s, OTHER) {
      var i :| 0 <= i < |s| && s[i].tag == OTHER;
      assert KnownTag(s[|s| - 1].tag);
    }
  }

  /** On any ring: accepted exactly when the entries are in strict canonical
      order and form a valid ACL. */
  lemma AcceptsExactly(s: seq<Entry>)
    ensures Code(s) == 0 <==> Strict(s) && ValidAcl(multiset(s))
  {
    AcceptedStrict(s);
    ValidListIff(s);
    if Strict(s) && ValidList(s) {
      assert Prefix(s);
    }
  }

  /** On a canonically ordered ring, order drops out. */
  lemma AcceptsSorted(s: seq<Entry>)
    requires Sorted(s)
    ensures Code(s) == 0 <==> ValidAcl(multiset(s))
  {
    AcceptsExactly(s);
    ValidListIff(s);
    if ValidList(s) {
      forall i, j | 0 <= i < j < |s|
        ensures s[i].tag < s[j].tag || (s[i].tag == s[j].tag && Named(s[i].tag) && s[i].id < s[j].id)
      {
        assert !Less(s[j], s[i]);
        assert KnownTag(s[i].tag);
      }
    }
  }

  // ----- What the error codes mean

  /** An entry whose tag may occur only once, and has. */
  predicate Repeated(p: seq<Entry>, e: Entry) {
    e.tag != OTHER && !Named(e.tag) && HasTag(p, e.tag)
  }

  /** An entry before one it needs. */
  predicate Premature(p: seq<Entry>, e: Entry) {
    || (e.tag != USER_OBJ && !HasTag(p, USER_OBJ))
    || ((e.tag == GROUP || e.tag == MASK || e.tag == OTHER) && !HasTag(p, GROUP_OBJ))
    || (e.tag == OTHER && HasNamed(p) && !HasTag(p, MASK))
  }

  /** A named entry without a qualifier, or with one already used. */
  predicate Duplicated(p: seq<Entry>, e: Entry) {
    Named(e.tag) && (e.id == UNDEFINED_ID || exists i :: 0 <= i < |p| && p[i].tag == e.tag && p[i].id == e.id)
  }

  /** The prefix ends in its greatest tag, and the refused entry is no smaller. */
  lemma Behind(p: seq<Entry>, e: Entry)
    requires Prefix(p) && Sorted(p + [e])
    ensures forall i :: 0 <= i < |p| ==> p[i].tag <= e.tag && (p[i].tag == e.tag ==> p[i].id <= e.id)
    ensures forall i :: 0 <= i < |p| ==> p[i].tag <= p[|p| - 1].tag
  {
    var s := p + [e];
    assert s[|p|] == e && forall i :: 0 <= i < |p| ==> s[i] == p[i] && !Less(s[|p|], s[i]);
  }

  lemma RefusedCode(p: seq<Entry>, e: Entry, st: State)
    requires Prefix(p) && StateOf(p, st) && !Prefix(p + [e])
    requires forall i :: 0 <= i < |p| ==> p[i].tag <= e.tag && p[i].tag <= p[|p| - 1].tag
    ensures Step(st, e) == Failed(
      if !KnownTag(e.tag) then ENTRY_ERROR
      else if Repeated(p, e) then MULTI_ERROR
      else if Premature(p, e) || e.tag == OTHER then MISS_ERROR
      else DUPLICATE_ERROR)
  {
    hide Strict;
    StepPrefix(p, st, e);
    if p != [] {
      assert HasTag(p, p[|p| - 1].tag) && KnownTag(p[|p| - 1].tag);
    }
  }

  lemma RefusedWhy(p: seq<Entry>, e: Entry)
    requires Prefix(p) && !Prefix(p + [e]) && KnownTag(e.tag) && !Repeated(p, e) && !Premature(p, e)
    requires forall i :: 0 <= i < |p| ==> p[i].tag <= e.tag && (p[i].tag == e.tag ==> p[i].id <= e.id)
    ensures if e.tag == OTHER then HasTag(p, OTHER) else Duplicated(p, e)
  {
    Extend(p, e);
  }

  /** On a ring in canonical order the code tells what is wrong with the first
      entry refused, except that a second `OTHER` is reported as something
      missing and not as something repeated. */
  lemma Diagnosis(p: seq<Entry>, e: Entry)
    requires Prefix(p) && Sorted(p + [e]) && !Prefix(p + [e])
    ensures Feed(p + [e]) == Failed(
      if !KnownTag(e.tag) then ENTRY_ERROR
      else if Repeated(p, e) then MULTI_ERROR
      else if Premature(p, e) || e.tag == OTHER then MISS_ERROR
      else DUPLICATE_ERROR)
    ensures KnownTag(e.tag) && !Repeated(p, e) && !Premature(p, e) && e.tag != OTHER ==> Duplicated(p, e)
    ensures KnownTag(e.tag) && e.tag == OTHER && !Premature(p, e) ==> HasTag(p, OTHER)
  {
    hide Prefix, StateOf, Step, Repeated, Premature, Duplicated;
    var s := p + [e];
    FeedPrefix(p);
    assert s[..|p|] == p && s[|p|] == e;
    Behind(p, e);
    RefusedCode(p, e, Feed(p).state);
    OtherOnce(p, e);
    if KnownTag(e.tag) && !Repeated(p, e) && !Premature(p, e) {
      RefusedWhy(p, e);
    }
  }

  lemma OtherOnce(p: seq<Entry>, e: Entry)
    ensures e.tag == OTHER ==> !Repeated(p, e)
  {
  }

  /** Some ACL that the checker accepts starts with `p`. */
  ghost predicate Extendable(p: seq<Entry>) {
    exists t :: Code(p + t) == 0
  }

  lemma {:induction false} FeedClosed(p: seq<Entry>, t: seq<Entry>)
    requires Prefix(p + t)
    ensures Prefix(p)
    decreases |t|
  {
    if t == [] {
      assert p + t == p;
    } else {
      var q, e := p + t[..|t| - 1], t[|t| - 1];
      assert p + t == q + [e];
      PrefixClosed(q, e);
      FeedClosed(p, t[..|t| - 1]);
    }
  }

  function StepsLeft(want: int): nat {
    if want == USER_OBJ then 4 else if want == USER then 3 else if want == GROUP then 2
    else if want == OTHER then 1 else 0
  }

  lemma {:induction false} CanComplete(p: seq<Entry>)
    requires Feed(p).Running?
    ensures Extendable(p)
    decreases StepsLeft(Feed(p).state.want)
  {
    var want := Feed(p).state.want;
    FeedPrefix(p);
    if want == 0 {
      assert p + [] == p;
    } else {
      var tag := if want == USER then GROUP_OBJ else if want == GROUP then MASK else want;
      var q := p + [Entry(tag, UNDEFINED_ID, 0)];
      assert q[..|q| - 1] == p;
      CanComplete(q);
      var t :| Code(q + t) == 0;
      assert q + t == p + ([Entry(tag, UNDEFINED_ID, 0)] + t);
    }
  }

  /** A list can still become a valid ACL exactly when the automaton has not
      failed on it. */
  lemma ExtendablePrefix(p: seq<Entry>)
    ensures Extendable(p) <==> Prefix(p)
  {
    if Prefix(p) {
      FeedPrefix(p);
      CanComplete(p);
    }
    if Extendable(p) {
      var t :| Code(p + t) == 0;
      AcceptedStrict(p + t);
      FeedClosed(p, t);
    }
  }

  lemma {:induction false} FailureSticks(s: seq<Entry>, j: nat)
    requires j <= |s| && Feed(s[..j]).Failed?
    ensures Feed(s) == Feed(s[..j])
    decreases |s|
  {
    if j < |s| {
      assert s[..|s| - 1][..j] == s[..j];
      FailureSticks(s[..|s| - 1], j);
    } else {
      assert s[..j] == s;
    }
  }

  /** Where the loop stops is the longest prefix that can still become valid. */
  lemma Longest(s: seq<Entry>, last: nat)
    requires last <= |s| && Feed(s[..last]).Running?
    requires last < |s| ==> Feed(s[..last + 1]).Failed?
    ensures Extendable(s[..last])
    ensures forall j :: last < j <= |s| ==> !Extendable(s[..j])
  {
    FeedPrefix(s[..last]);
    ExtendablePrefix(s[..last]);
    forall j | last < j <= |s| ensures !Extendable(s[..j]) {
      assert s[..j][..last + 1] == s[..last + 1];
      FailureSticks(s[..j], last + 1);
      FeedPrefix(s[..j]);
      ExtendablePrefix(s[..j]);
    }
  }

  /** `acl_check`.  `last` counts the entries accepted before the verdict. */
  method Check(acl: AclObj) returns (code: int, last: nat)
    requires acl.Valid()
    ensures code == Code(acl.Entries)
    ensures code == 0 <==> Strict(acl.Entries) && ValidAcl(multiset(acl.Entries))
    ensures last <= |acl.Entries| && Extendable(acl.Entries[..last])
    ensures forall j :: last < j <= |acl.Entries| ==> !Extendable(acl.Entries[..j])
  {
    hide Step, Strict, ValidAcl, Extendable, Distinct;
    ghost var s := acl.Entries;
    AcceptsExactly(s);
    var state := START;
    last := 0;
    var p := acl.head.next;
    while p != acl.head
      invariant last <= |s| && p == (if last < |s| then acl.Nodes[last] else acl.head)
      invariant Feed(s[..last]) == Running(state)
      decreases |s| - last
    {
      assert p.Value() == s[last] && s[..last + 1][..last] == s[..last];
      var o := Step(state, p.Value());
      assert Feed(s[..last + 1]) == o;
      if o.Failed? {
        FailureSticks(s, last + 1);
        Longest(s, last);
        return o.code, last;
      }
      state := o.state;
      last := last + 1;
      p := p.next;
    }
    assert s[..last] == s;
    Longest(s, last);
    code := if state.want != 0 then MISS_ERROR else 0;
  }
}
