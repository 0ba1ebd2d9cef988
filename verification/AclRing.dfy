/** The in-memory ACL of libacl: a circular doubly linked ring of entries with
    the ACL object itself as sentinel, a cursor and a use count. */
module AclRing {
  import opened AclEntry

  /** `acl_entry_obj`.  The sentinel is an `EntryObj` too; its data fields are
      never looked at. */
  class EntryObj {
    var prev: EntryObj
    var next: EntryObj
    var tag: int
    var id: Id
    var perm: Perm

    constructor ()
      ensures prev == this && next == this
      ensures Value() == BLANK
    {
      prev := this;
      next := this;
      tag := UNDEFINED_TAG;
      id := UNDEFINED_ID;
      perm := 0;
    }

    function Value(): Entry
      reads this`tag, this`id, this`perm
    {
      Entry(tag, id, perm)
    }
  }

  ghost predicate Distinct(ns: seq<EntryObj>) {
    forall i, j :: 0 <= i < j < |ns| ==> ns[i] != ns[j]
  }

  ghost predicate Forth(head: EntryObj, ns: seq<EntryObj>)
    reads head`next, ns`next
  {
    && head.next == (if |ns| == 0 then head else ns[0])
    && (forall i {:trigger ns[i].next} :: 0 <= i < |ns| ==>
          ns[i].next == if i + 1 < |ns| then ns[i + 1] else head)
  }

  ghost predicate Back(head: EntryObj, ns: seq<EntryObj>)
    reads head`prev, ns`prev
  {
    && head.prev == (if |ns| == 0 then head else ns[|ns| - 1])
    && (forall i {:trigger ns[i].prev} :: 0 <= i < |ns| ==>
          ns[i].prev == if i == 0 then head else ns[i - 1])
  }

  /** `head` and `ns`, in this order, form a doubly linked ring. */
  ghost predicate Linked(head: EntryObj, ns: seq<EntryObj>)
    reads head`prev, head`next, ns`prev, ns`next
  {
    head !in ns && Distinct(ns) && Forth(head, ns) && Back(head, ns)
  }

  /** Take node `n` out of the ring; its own links are left dangling. */
  method Unlink(head: EntryObj, n: EntryObj, ghost ns: seq<EntryObj>, ghost k: nat)
    requires Linked(head, ns)
    requires k < |ns| && ns[k] == n
    modifies head`prev, head`next, ns`prev, ns`next
    ensures Linked(head, RemoveAt(ns, k))
  {
    n.prev.next := n.next;
    n.next.prev := n.prev;
    ghost var r := RemoveAt(ns, k);
    forall i | 0 <= i < |r|
      ensures r[i].next == if i + 1 < |r| then r[i + 1] else head
      ensures r[i].prev == if i == 0 then head else r[i - 1]
    {
      ghost var j := if i < k then i else i + 1;
      assert r[i] == ns[j] && old(ns[j].next == if j + 1 < |ns| then ns[j + 1] else head);
      assert old(ns[j].prev == if j == 0 then head else ns[j - 1]);
    }
  }

  /** Link `n` in front of `here`, a node of the ring or the sentinel. */
  method LinkBefore(head: EntryObj, here: EntryObj, n: EntryObj, ghost ns: seq<EntryObj>, ghost p: nat)
    requires Linked(head, ns)
    requires p <= |ns| && here == (if p < |ns| then ns[p] else head)
    requires n != head && n !in ns
    modifies head`prev, head`next, ns`prev, ns`next, n`prev, n`next
    ensures Linked(head, InsertAt(ns, p, n))
  {
    n.prev := here.prev;
    n.next := here;
    n.prev.next := n;
    n.next.prev := n;
    ghost var r := InsertAt(ns, p, n);
    forall i | 0 <= i < |r|
      ensures r[i].next == if i + 1 < |r| then r[i + 1] else head
      ensures r[i].prev == if i == 0 then head else r[i - 1]
    {
      if i != p {
        ghost var j := if i < p then i else i - 1;
        assert r[i] == ns[j] && old(ns[j].next == if j + 1 < |ns| then ns[j + 1] else head);
        assert old(ns[j].prev == if j == 0 then head else ns[j - 1]);
      }
    }
  }

  /** The nodes carry these entries, one for one. */
  ghost predicate Holds(ns: seq<EntryObj>, s: seq<Entry>)
    reads ns`tag, ns`id, ns`perm
  {
    |ns| == |s| && forall i :: 0 <= i < |ns| ==> ns[i].Value() == s[i]
  }

  method SetFields(n: EntryObj, e: Entry, ghost ns: seq<EntryObj>, ghost s: seq<Entry>, ghost k: nat)
    requires Distinct(ns) && Holds(ns, s) && k < |ns| && ns[k] == n
    modifies n`tag, n`id, n`perm
    ensures Holds(ns, s[k := e])
  {
    assert forall i :: 0 <= i < |ns| && i != k ==> ns[i] != n;
    hide Distinct;
    n.tag, n.id, n.perm := e.tag, e.id, e.perm;
  }

  lemma HoldsRemove(ns: seq<EntryObj>, s: seq<Entry>, k: nat)
    requires Holds(ns, s) && k < |ns|
    ensures Holds(RemoveAt(ns, k), RemoveAt(s, k))
  {
  }

  lemma HoldsInsert(ns: seq<EntryObj>, s: seq<Entry>, p: nat, n: EntryObj, e: Entry)
    requires Holds(ns, s) && p <= |ns| && n.Value() == e
    ensures Holds(InsertAt(ns, p, n), InsertAt(s, p, e))
  {
  }

  lemma HoldsMove(ns: seq<EntryObj>, s: seq<Entry>, k: nat, p: nat)
    requires Holds(ns, s) && k < |ns| && p < |ns|
    ensures Holds(InsertAt(RemoveAt(ns, k), p, ns[k]), InsertAt(RemoveAt(s, k), p, s[k]))
  {
    HoldsRemove(ns, s, k);
    HoldsInsert(RemoveAt(ns, k), RemoveAt(s, k), p, ns[k], s[k]);
  }

  lemma MoveMembers(ns: seq<EntryObj>, k: nat, p: nat)
    requires k < |ns| && p < |ns|
    ensures forall x :: x in ns <==> x in InsertAt(RemoveAt(ns, k), p, ns[k])
    ensures forall i :: 0 <= i < |ns| ==> InsertAt(RemoveAt(ns, k), p, ns[k])[i] in ns
  {
    var r := RemoveAt(ns, k);
    assert ns == ns[..k] + [ns[k]] + ns[k + 1..];
    assert r == r[..p] + r[p..];
    forall x ensures x in ns <==> x in InsertAt(r, p, ns[k]) {
      assert x in ns <==> x in r || x == ns[k];
      assert x in r <==> x in r[..p] || x in r[p..];
    }
  }

  lemma InsertMembers(ns: seq<EntryObj>, p: nat, n: EntryObj)
    requires p <= |ns|
    ensures forall x :: x in InsertAt(ns, p, n) <==> x in ns || x == n
    ensures forall i :: 0 <= i <= |ns| ==> InsertAt(ns, p, n)[i] in ns || InsertAt(ns, p, n)[i] == n
  {
    assert ns == ns[..p] + ns[p..];
  }

  lemma RemovedMembers(ns: seq<EntryObj>, k: nat)
    requires k < |ns| && Distinct(ns)
    ensures forall x :: x in RemoveAt(ns, k) <==> x in ns && x != ns[k]
  {
    assert ns == ns[..k] + [ns[k]] + ns[k + 1..];
  }

  lemma Neighbour(head: EntryObj, ns: seq<EntryObj>, k: nat)
    requires Linked(head, ns) && k < |ns|
    ensures ns[k] != head && ns[k].prev == if k == 0 then head else ns[k - 1]
    ensures forall x :: x in RemoveAt(ns, k) <==> x in ns && x != ns[k]
    ensures forall i :: 0 <= i < |RemoveAt(ns, k)| ==> RemoveAt(ns, k)[i] in ns
    ensures k > 0 ==> ns[k - 1] in RemoveAt(ns, k) && RemoveAt(ns, k)[k - 1] == ns[k - 1]
  {
    RemovedMembers(ns, k);
  }

  lemma LinkedIntro(head: EntryObj, ns: seq<EntryObj>)
    requires head !in ns && Distinct(ns) && Back(head, ns) && Forth(head, ns)
    ensures Linked(head, ns)
  {
  }

  lemma LinkedDistinct(head: EntryObj, ns: seq<EntryObj>)
    requires Linked(head, ns)
    ensures Distinct(ns) && head !in ns
  {
  }

  class AclObj {
    const head: EntryObj   // `(acl_entry_obj *)acl_obj_p`
    var curr: EntryObj     // `acurr`
    var used: nat          // `aused`
    var spare: nat         // `aprealloc_end - aprealloc`
    ghost var Nodes: seq<EntryObj>
    ghost var Entries: seq<Entry>
    ghost var Repr: set<object>

    ghost predicate Valid()
      reads this, Repr
      ensures Valid() ==> this in Repr
    {
      && this in Repr && head in Repr && (forall i :: 0 <= i < |Nodes| ==> Nodes[i] in Repr)
      && Linked(head, Nodes)
      && Holds(Nodes, Entries)
      && used == |Nodes| == |Entries|
      && (curr == head || curr in Nodes)
    }

    constructor (count: nat)
      ensures Valid() && fresh(Repr) && Nodes == []
      ensures Entries == [] && spare == count && curr == head
    {
      var h := new EntryObj();
      head := h;
      curr := h;
      used := 0;
      spare := count;
      Nodes := [];
      Entries := [];
      Repr := {this, h};
    }

    /** `__acl_create_entry_obj`. */
    method CreateEntry() returns (n: EntryObj)
      requires Valid()
      modifies this, head, Nodes
      ensures Valid() && fresh(n) && Nodes == old(Nodes) + [n] && Repr == old(Repr) + {n}
      ensures Entries == old(Entries) + [BLANK]
      ensures curr == old(curr)
      ensures spare == if old(spare) > 0 then old(spare) - 1 else 0
    {
      hide Linked, Distinct, Holds;
      n := new EntryObj();
      if spare > 0 {
        spare := spare - 1;
      }
      used := used + 1;
      LinkBefore(head, head, n, Nodes, |Nodes|);
      HoldsInsert(Nodes, Entries, |Nodes|, n, BLANK);
      assert InsertAt(Nodes, |Nodes|, n) == Nodes + [n];
      assert InsertAt(Entries, |Nodes|, BLANK) == Entries + [BLANK];
      Nodes, Entries := Nodes + [n], Entries + [BLANK];
      Repr := Repr + {n};
    }

    /** `acl_delete_entry`: a cursor on the deleted entry steps back. */
    method DeleteEntry(n: EntryObj, ghost k: nat)
      requires Valid() && k < |Nodes| && Nodes[k] == n
      modifies this, head, Nodes
      ensures Valid()
      ensures Nodes == RemoveAt(old(Nodes), k) && Entries == RemoveAt(old(Entries), k)
      ensures curr == if old(curr) != n then old(curr) else if k == 0 then head else old(Nodes)[k - 1]
      ensures spare == old(spare) && Repr == old(Repr)
    {
      hide Linked, Distinct, RemoveAt, Holds;
      Neighbour(head, Nodes, k);
      if curr == n {
        curr := curr.prev;
      }
      Unlink(head, n, Nodes, k);
      HoldsRemove(Nodes, Entries, k);
      used := used - 1;
      Nodes, Entries := RemoveAt(Nodes, k), RemoveAt(Entries, k);
    }

    /** The node at a position, the sentinel one past the end. */
    ghost function At(i: nat): EntryObj
      requires i <= |Nodes|
      reads this
    {
      if i < |Nodes| then Nodes[i] else head
    }

    /** The steps of FOREACH_ACL_ENTRY, which does not use the cursor. */
    method First() returns (n: EntryObj)
      requires Valid()
      ensures n == At(0)
      ensures n == head <==> Nodes == []
    {
      n := head.next;
    }

    method Next(p: EntryObj, ghost i: nat) returns (n: EntryObj)
      requires Valid() && i < |Nodes| && p == Nodes[i]
      ensures n == At(i + 1)
      ensures n == head <==> i + 1 == |Nodes|
    {
      n := p.next;
    }

    method Read(p: EntryObj, ghost i: nat) returns (e: Entry)
      requires Valid() && i < |Nodes| && p == Nodes[i]
      ensures e == Entries[i]
    {
      e := p.Value();
    }

    /** `acl_get_entry` with ACL_FIRST_ENTRY. */
    method GetFirst() returns (n: EntryObj?)
      requires Valid()
      modifies this`curr
      ensures Valid()
      ensures n == if |Nodes| == 0 then null else Nodes[0]
      ensures curr == if |Nodes| == 0 then head else Nodes[0]
    {
      curr := head.next;
      n := if curr == head then null else curr;
    }

    /** `acl_get_entry` with ACL_NEXT_ENTRY, the cursor on entry `i` or, for
        -1, on the sentinel. */
    method GetNext(ghost i: int) returns (n: EntryObj?)
      requires Valid() && -1 <= i < |Nodes| && curr == (if i == -1 then head else Nodes[i])
      modifies this`curr
      ensures Valid()
      ensures n == if i + 1 < |Nodes| then Nodes[i + 1] else null
      ensures curr == if i + 1 < |Nodes| then Nodes[i + 1] else head
    {
      curr := curr.next;
      n := if curr == head then null else curr;
    }

    /** Overwrite the data of one entry, leaving the ring alone. */
    method Fill(n: EntryObj, e: Entry, ghost k: nat)
      requires Valid() && k < |Nodes| && Nodes[k] == n
      modifies this`Entries, n`tag, n`id, n`perm
      ensures Valid() && Entries == old(Entries)[k := e]
    {
      hide Linked, Distinct, Holds;
      LinkedDistinct(head, Nodes);
      SetFields(n, e, Nodes, Entries, k);
      Entries := Entries[k := e];
    }

    /** Create an entry at the end and set its fields, without re-insertion. */
    method Append(e: Entry) returns (n: EntryObj)
      requires Valid()
      modifies this, head, Nodes
      ensures Valid() && fresh(n) && Nodes == old(Nodes) + [n] && Repr == old(Repr) + {n}
      ensures Entries == old(Entries) + [e]
      ensures curr == old(curr)
    {
      hide Linked, Distinct, Holds;
      ghost var k := |Nodes|;
      n := CreateEntry();
      Fill(n, e, k);
    }

    /** `__acl_reorder_entry_obj_p`: take `n` from its place in the ring and
        insert it before the next greater entry. */
    method ReorderEntry(n: EntryObj, ghost k: nat)
      requires Valid() && k < |Nodes| && Nodes[k] == n
      modifies this`Nodes, this`Entries, head`prev, head`next, Nodes`prev, Nodes`next
      ensures Valid()
      ensures Entries == Reorder(old(Entries), k)
      ensures Nodes == InsertAt(RemoveAt(old(Nodes), k), Slot(old(Entries), k), n)
    {
      hide Linked, Distinct, RemoveAt, InsertAt;
      if used <= 1 || !Settled(n.Value()) {
        MoveNowhere(Nodes, k);
        MoveNowhere(Entries, k);
        return;
      }
      ghost var p := Relink(head, n, Nodes, Entries, k);
      MoveMembers(Nodes, k, p);
      HoldsMove(Nodes, Entries, k, p);
      Nodes, Entries := InsertAt(RemoveAt(Nodes, k), p, n), InsertAt(RemoveAt(Entries, k), p, Entries[k]);
    }

    /** `acl_copy_entry` and, through it, every write of tag or qualifier:
        overwrite, then re-insert. */
    method PutEntry(n: EntryObj, e: Entry, ghost k: nat)
      requires Valid() && k < |Nodes| && Nodes[k] == n
      modifies this`Nodes, this`Entries, head, Nodes
      ensures Valid()
      ensures Entries == Reorder(old(Entries)[k := e], k)
      ensures Nodes == InsertAt(RemoveAt(old(Nodes), k), Slot(old(Entries)[k := e], k), n)
    {
      Fill(n, e, k);
      ReorderEntry(n, k);
    }

    method Vector() returns (v: seq<EntryObj>)
      requires Valid()
      ensures v == Nodes
    {
      hide Linked, Distinct, Holds;
      v := [];
      var p := First();
      ghost var i: nat := 0;
      while p != head
        invariant i <= |Nodes| && p == At(i) && (p == head <==> i == |Nodes|) && v == Nodes[..i]
        decreases |Nodes| - i
      {
        v := v + [p];
        p := Next(p, i);
        i := i + 1;
      }
    }

    /** `__acl_reorder_obj_p`: sort all entries at once. */
    method ReorderAll()
      requires Valid()
      modifies this`Nodes, this`Entries, head`prev, head`next, Nodes`prev, Nodes`next
      ensures Valid()
      ensures Sorted(Entries) && multiset(Entries) == multiset(old(Entries))
    {
      hide Linked, Distinct, Holds;
      if used <= 1 {
        return;
      }
      hide Sorted;
      var v := Vector();
      ghost var ns, s := SortRing(head, v, Entries);
      Nodes, Entries := ns, s;
    }

    /** `acl_create_entry` followed by `acl_copy_entry`. */
    method InsertEntry(e: Entry) returns (n: EntryObj)
      requires Valid() && Settled(e)
      modifies this, head, Nodes
      ensures Valid() && fresh(n) && Repr == old(Repr) + {n}
      ensures Entries == Insert(old(Entries), e)
      ensures Nodes == InsertAt(old(Nodes), FirstGreater(old(Entries), e), n)
      ensures Nodes[FirstGreater(old(Entries), e)] == n
      ensures curr == old(curr)
    {
      hide Linked, Distinct, Holds, InsertAt, RemoveAt;
      ghost var k, ns, s := |Nodes|, Nodes, Entries;
      n := CreateEntry();
      PutEntry(n, e, k);
      assert (s + [BLANK])[k := e] == s + [e];
      AppendReorder(s, e);
      RemoveLast(ns, n);
      InsertedAt(ns, FirstGreater(s, e), n, n);
      InsertMembers(ns, FirstGreater(s, e), n);
    }

    /** `acl_set_tag_type`. */
    method SetTagType(n: EntryObj, tag: int, ghost k: nat) returns (ok: bool)
      requires Valid() && k < |Nodes| && Nodes[k] == n
      modifies this`Nodes, this`Entries, head, Nodes
      ensures Valid() && ok == KnownTag(tag)
      ensures !ok ==> Nodes == old(Nodes) && Entries == old(Entries)
      ensures ok ==> Entries == Reorder(old(Entries)[k := old(Entries)[k].(tag := tag)], k)
      ensures ok ==>
        Nodes == InsertAt(RemoveAt(old(Nodes), k), Slot(old(Entries)[k := old(Entries)[k].(tag := tag)], k), n)
    {
      ok := KnownTag(tag);
      if ok {
        PutEntry(n, n.Value().(tag := tag), k);
      }
    }

    /** `acl_set_qualifier`. */
    method SetQualifier(n: EntryObj, id: Id, ghost k: nat) returns (ok: bool)
      requires Valid() && k < |Nodes| && Nodes[k] == n
      modifies this`Nodes, this`Entries, head, Nodes
      ensures Valid() && ok == Named(old(Entries)[k].tag)
      ensures !ok ==> Nodes == old(Nodes) && Entries == old(Entries)
      ensures ok ==> Entries == Reorder(old(Entries)[k := old(Entries)[k].(id := id)], k)
      ensures ok ==>
        Nodes == InsertAt(RemoveAt(old(Nodes), k), Slot(old(Entries)[k := old(Entries)[k].(id := id)], k), n)
    {
      ok := Named(n.tag);
      if ok {
        PutEntry(n, n.Value().(id := id), k);
      }
    }
  }

  method Relink(head: EntryObj, n: EntryObj, ghost ns: seq<EntryObj>, ghost s: seq<Entry>, ghost k: nat)
    returns (ghost p: nat)
    requires Linked(head, ns) && Holds(ns, s)
    requires k < |ns| && ns[k] == n
    modifies head`prev, head`next, ns`prev, ns`next
    ensures p == FirstGreater(RemoveAt(s, k), s[k])
    ensures Linked(head, InsertAt(RemoveAt(ns, k), p, n))
  {
    hide Linked, Distinct, RemoveAt, InsertAt, Less;
    Neighbour(head, ns, k);
    Unlink(head, n, ns, k);
    HoldsRemove(ns, s, k);
    var here;
    here, p := FindPlace(head, n, RemoveAt(ns, k), RemoveAt(s, k));
    LinkBefore(head, here, n, RemoveAt(ns, k), p);
  }

  /** Stands for the C library's qsort over the pointer vector; only this
      contract is used, so equal entries may come out in either order. */
  method Qsort(v: seq<EntryObj>, ghost s: seq<Entry>) returns (w: seq<EntryObj>, ghost t: seq<Entry>)
    requires Holds(v, s)
    ensures multiset(w) == multiset(v)
    ensures Holds(w, t) && Sorted(t) && multiset(t) == multiset(s)
  {
    w, t := [], [];
    for i := 0 to |v|
      invariant multiset(w) == multiset(v[..i]) && multiset(t) == multiset(s[..i])
      invariant Holds(w, t) && Sorted(t)
    {
      hide InsertAt, Holds, Sorted, Less;
      HoldsAt(v, s, i);
      assert v[..i + 1] == v[..i] + [v[i]] && s[..i + 1] == s[..i] + [s[i]];
      w, t := InsertNode(w, t, v[i], s[i]);
    }
    assert v[..|v|] == v && s[..|s|] == s;
  }

  lemma HoldsAt(v: seq<EntryObj>, s: seq<Entry>, i: nat)
    requires Holds(v, s) && i < |v|
    ensures |v| == |s| && v[i].Value() == s[i]
  {
  }

  method InsertNode(v: seq<EntryObj>, ghost s: seq<Entry>, n: EntryObj, ghost e: Entry)
    returns (w: seq<EntryObj>, ghost t: seq<Entry>)
    requires Holds(v, s) && Sorted(s) && n.Value() == e
    ensures Holds(w, t) && Sorted(t)
    ensures multiset(w) == multiset(v) + multiset{n} && multiset(t) == multiset(s) + multiset{e}
  {
    hide InsertAt, Sorted;
    var p := |v|;
    while p > 0 && Compare(v[p - 1].Value(), n.Value()) > 0
      invariant 0 <= p <= |v|
      invariant p < |v| ==> Less(e, s[p])
    {
      p := p - 1;
    }
    InsertMultiset(v, p, n);
    InsertMultiset(s, p, e);
    HoldsInsert(v, s, p, n, e);
    InsertSorted(s, p, e);
    w, t := InsertAt(v, p, n), InsertAt(s, p, e);
  }

  lemma InsertSorted(s: seq<Entry>, p: nat, e: Entry)
    requires Sorted(s) && p <= |s|
    requires p > 0 ==> !Less(e, s[p - 1])
    requires p < |s| ==> !Less(s[p], e)
    ensures Sorted(InsertAt(s, p, e))
  {
    var r := InsertAt(s, p, e);
    forall i, j | 0 <= i < j < |r| ensures !Less(r[j], r[i]) {
      assert i < p ==> r[i] == s[i];
      assert i > p ==> r[i] == s[i - 1];
      assert j < p ==> r[j] == s[j];
      assert j > p ==> r[j] == s[j - 1];
    }
  }

  lemma PermutedDistinct(v: seq<EntryObj>, w: seq<EntryObj>)
    requires Distinct(v) && multiset(v) == multiset(w)
    ensures Distinct(w) && |w| == |v| && forall x :: x in w <==> x in v
    ensures forall i :: 0 <= i < |w| ==> w[i] in v
  {
    assert |multiset(v)| == |v| && |multiset(w)| == |w|;
    forall i | 0 <= i < |w| ensures w[i] in v {
      assert w[i] in multiset(w);
    }
    forall x | x in v ensures x in w {
      assert x in multiset(v);
    }
    forall i, j | 0 <= i < j < |w| && w[i] == w[j] ensures false {
      Twice(w, i, j);
      var k :| 0 <= k < |v| && v[k] == w[i];
      Once(v, k);
    }
  }

  /** The two relinking loops of `__acl_reorder_obj_p`. */
  method LinkBack(head: EntryObj, v: seq<EntryObj>)
    requires |v| > 0 && head !in v && Distinct(v)
    modifies head`prev, v`prev
    ensures Back(head, v)
  {
    var x := head;
    for i := 0 to |v|
      invariant x == if i == 0 then head else v[i - 1]
      invariant forall j :: 0 <= j < i ==> v[j].prev == if j == 0 then head else v[j - 1]
    {
      v[i].prev := x;
      x := v[i];
    }
    head.prev := v[|v| - 1];
  }

  method LinkForth(head: EntryObj, v: seq<EntryObj>)
    requires |v| > 0 && head !in v && Distinct(v)
    modifies head`next, v`next
    ensures Forth(head, v)
  {
    assert forall j :: 0 <= j < |v| ==> v[j] != head;
    var x := head;
    for i := |v| downto 0
      invariant x == if i == |v| then head else v[i]
      invariant forall j :: i <= j < |v| ==> v[j].next == if j + 1 < |v| then v[j + 1] else head
    {
      v[i].next := x;
      x := v[i];
    }
    head.next := v[0];
  }

  method SortRing(head: EntryObj, v: seq<EntryObj>, ghost s: seq<Entry>)
    returns (ghost w: seq<EntryObj>, ghost t: seq<Entry>)
    requires |v| > 0 && Linked(head, v) && Holds(v, s)
    modifies head`prev, head`next, v`prev, v`next
    ensures Linked(head, w) && Holds(w, t) && |w| == |v| && |t| == |s|
    ensures Sorted(t) && multiset(t) == multiset(s)
    ensures forall x :: x in w <==> x in v
    ensures forall i :: 0 <= i < |w| ==> w[i] in v
  {
    hide Linked, Distinct, Sorted, Holds, Back, Forth;
    LinkedDistinct(head, v);
    var u;
    u, t := Qsort(v, s);
    w := u;
    PermutedDistinct(v, u);
    assert |multiset(t)| == |t| && |multiset(s)| == |s|;
    LinkBack(head, u);
    LinkForth(head, u);
    LinkedIntro(head, u);
  }

  /** The search of `__acl_reorder_entry_obj_p` for the next greater entry. */
  method FindPlace(head: EntryObj, n: EntryObj, ghost ns: seq<EntryObj>, ghost s: seq<Entry>)
    returns (here: EntryObj, ghost p: nat)
    requires Linked(head, ns) && Holds(ns, s)
    ensures p == FirstGreater(s, n.Value())
    ensures here == if p < |ns| then ns[p] else head
  {
    here, p := head.next, 0;
    while here != head && Compare(here.Value(), n.Value()) <= 0
      invariant p <= |ns| && here == (if p < |ns| then ns[p] else head)
      invariant forall i :: 0 <= i < p ==> !Less(n.Value(), s[i])
      decreases |ns| - p
    {
      here := here.next;
      p := p + 1;
    }
    FirstGreaterUnique(s, n.Value(), p);
  }
}
