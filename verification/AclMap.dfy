/** An ACL without duplicates is a finite map from (tag, qualifier) to
    permissions, and the commands of `setfacl` are updates of that map. */
module AclMap {
  import opened AclEntry
  import opened AclTools

  type Key = (int, Id)

  type PermMap = map<Key, Perm>

  /** A known tag, with a qualifier exactly when the tag needs one. */
  predicate ProperKey(tag: int, id: Id) {
    KnownTag(tag) && (Named(tag) <==> id != UNDEFINED_ID)
  }

  /** Canonical order, no duplicates, proper keys. */
  predicate Proper(s: seq<Entry>) {
    Increasing(s) && forall i :: 0 <= i < |s| ==> ProperKey(s[i].tag, s[i].id)
  }

  function ToMap(s: seq<Entry>): PermMap {
    if s == [] then map[]
    else var e := s[|s| - 1]; ToMap(s[..|s| - 1])[(e.tag, e.id) := e.perm]
  }

  predicate HasKey(s: seq<Entry>, key: Key) {
    exists i :: 0 <= i < |s| && (s[i].tag, s[i].id) == key
  }

  lemma {:induction false} MapKeys(s: seq<Entry>, key: Key)
    ensures key in ToMap(s) <==> HasKey(s, key)
  {
    if s != [] {
      var t, e := s[..|s| - 1], s[|s| - 1];
      MapKeys(t, key);
      if HasKey(t, key) {
        var i :| 0 <= i < |t| && (t[i].tag, t[i].id) == key;
        assert s[i] == t[i];
      }
      if HasKey(s, key) && key != (e.tag, e.id) {
        var i :| 0 <= i < |s| && (s[i].tag, s[i].id) == key;
        assert t[i] == s[i];
      }
    }
  }

  lemma {:induction false} MapAt(s: seq<Entry>, i: nat)
    requires Increasing(s) && i < |s|
    ensures (s[i].tag, s[i].id) in ToMap(s) && ToMap(s)[(s[i].tag, s[i].id)] == s[i].perm
  {
    if i < |s| - 1 {
      assert s[..|s| - 1][i] == s[i];
      MapAt(s[..|s| - 1], i);
      assert Less(s[i], s[|s| - 1]);
    }
  }

  /** The map determines the list. */
  lemma {:induction false} MapInjective(s: seq<Entry>, t: seq<Entry>)
    requires Increasing(s) && Increasing(t) && ToMap(s) == ToMap(t)
    ensures s == t
    decreases |s|
  {
    if s == [] {
      if t != [] {
        MapAt(t, 0);
      }
    } else {
      var e := s[|s| - 1];
      MapAt(s, |s| - 1);
      MapKeys(t, (e.tag, e.id));
      LastSame(s, t);
      MapDropLast(s);
      MapDropLast(t);
      MapInjective(s[..|s| - 1], t[..|t| - 1]);
      assert s == s[..|s| - 1] + [e] && t == t[..|t| - 1] + [t[|t| - 1]];
    }
  }

  lemma MapDropLast(s: seq<Entry>)
    requires Increasing(s) && s != []
    ensures var t, e := s[..|s| - 1], s[|s| - 1]; ToMap(t) == ToMap(s) - {(e.tag, e.id)}
  {
    var t, e := s[..|s| - 1], s[|s| - 1];
    MapKeys(t, (e.tag, e.id));
    assert forall i :: 0 <= i < |t| ==> Less(s[i], e);
  }

  lemma LastGreatest(s: seq<Entry>, j: nat)
    requires Increasing(s) && j < |s|
    ensures !Less(s[|s| - 1], s[j])
  {
  }

  lemma LastSame(s: seq<Entry>, t: seq<Entry>)
    requires Increasing(s) && Increasing(t) && ToMap(s) == ToMap(t) && s != []
    ensures t != [] && s[|s| - 1] == t[|t| - 1]
  {
    var a := s[|s| - 1];
    MapAt(s, |s| - 1);
    MapKeys(t, (a.tag, a.id));
    var i :| 0 <= i < |t| && (t[i].tag, t[i].id) == (a.tag, a.id);
    var b := t[|t| - 1];
    MapAt(t, |t| - 1);
    MapKeys(s, (b.tag, b.id));
    var j :| 0 <= j < |s| && (s[j].tag, s[j].id) == (b.tag, b.id);
    LastGreatest(s, j);
    LastGreatest(t, i);
  }

  // ----- Single updates

  /** Two lists with the same keys and, key by key, the same permissions. */
  lemma MapsTo(s: seq<Entry>, m: PermMap)
    requires Increasing(s)
    requires forall i :: 0 <= i < |s| ==> (s[i].tag, s[i].id) in m && m[(s[i].tag, s[i].id)] == s[i].perm
    requires forall key :: key in m ==> HasKey(s, key)
    ensures ToMap(s) == m
  {
    forall key ensures key in ToMap(s) <==> key in m {
      MapKeys(s, key);
    }
    forall key | key in m ensures ToMap(s)[key] == m[key] {
      var i :| 0 <= i < |s| && (s[i].tag, s[i].id) == key;
      MapAt(s, i);
    }
  }

  lemma SetPermMap(s: seq<Entry>, k: nat, perm: Perm)
    requires Proper(s) && k < |s|
    ensures Proper(s[k := s[k].(perm := perm)])
    ensures ToMap(s[k := s[k].(perm := perm)]) == ToMap(s)[(s[k].tag, s[k].id) := perm]
  {
    var r, m := s[k := s[k].(perm := perm)], ToMap(s)[(s[k].tag, s[k].id) := perm];
    forall i | 0 <= i < |r| ensures (r[i].tag, r[i].id) in m && m[(r[i].tag, r[i].id)] == r[i].perm {
      MapAt(s, i);
      assert i < k ==> Less(s[i], s[k]);
      assert i > k ==> Less(s[k], s[i]);
    }
    forall key | key in m ensures HasKey(r, key) {
      MapKeys(s, key);
      MapAt(s, k);
      var i :| 0 <= i < |s| && (s[i].tag, s[i].id) == key;
      assert (r[i].tag, r[i].id) == key;
    }
    MapsTo(r, m);
  }

  lemma InsertIncreasing(s: seq<Entry>, e: Entry)
    requires Proper(s) && ProperKey(e.tag, e.id) && !HasKey(s, (e.tag, e.id))
    ensures Proper(Insert(s, e))
  {
    var r, p := Insert(s, e), FirstGreater(s, e);
    assert forall i :: 0 <= i < |s| ==> (s[i].tag, s[i].id) != (e.tag, e.id);
    forall i, j | 0 <= i < j < |r| ensures Less(r[i], r[j]) {
      assert i < p ==> r[i] == s[i];
      assert i > p ==> r[i] == s[i - 1];
      assert j < p ==> r[j] == s[j];
      assert j > p ==> r[j] == s[j - 1];
    }
    forall i | 0 <= i < |r| ensures ProperKey(r[i].tag, r[i].id) {
      assert i < p ==> r[i] == s[i];
      assert i > p ==> r[i] == s[i - 1];
    }
  }

  lemma InsertMap(s: seq<Entry>, e: Entry)
    requires Proper(s) && ProperKey(e.tag, e.id) && !HasKey(s, (e.tag, e.id))
    ensures Proper(Insert(s, e)) && ToMap(Insert(s, e)) == ToMap(s)[(e.tag, e.id) := e.perm]
  {
    InsertIncreasing(s, e);
    var r, p, m := Insert(s, e), FirstGreater(s, e), ToMap(s)[(e.tag, e.id) := e.perm];
    forall i | 0 <= i < |r| ensures (r[i].tag, r[i].id) in m && m[(r[i].tag, r[i].id)] == r[i].perm {
      if i != p {
        var j := if i < p then i else i - 1;
        assert r[i] == s[j] && (s[j].tag, s[j].id) != (e.tag, e.id);
        MapAt(s, j);
      }
    }
    forall key | key in m ensures HasKey(r, key) {
      MapKeys(s, key);
      if key == (e.tag, e.id) {
        assert r[p] == e;
      } else {
        var j :| 0 <= j < |s| && (s[j].tag, s[j].id) == key;
        assert r[if j < p then j else j + 1] == s[j];
      }
    }
    MapsTo(r, m);
  }

  lemma RemoveProper(s: seq<Entry>, k: nat)
    requires Proper(s) && k < |s|
    ensures Proper(RemoveAt(s, k))
  {
    var r := RemoveAt(s, k);
    assert forall i :: 0 <= i < |r| ==> r[i] == s[if i < k then i else i + 1];
  }

  lemma DifferentKeys(s: seq<Entry>, i: nat, j: nat)
    requires Increasing(s) && i < |s| && j < |s| && i != j
    ensures (s[i].tag, s[i].id) != (s[j].tag, s[j].id)
  {
    assert if i < j then Less(s[i], s[j]) else Less(s[j], s[i]);
  }

  lemma {:induction false} RemoveMap(s: seq<Entry>, k: nat)
    requires Increasing(s) && k < |s|
    ensures ToMap(RemoveAt(s, k)) == ToMap(s) - {(s[k].tag, s[k].id)}
  {
    var n := |s| - 1;
    var t, e, r := s[..n], s[n], RemoveAt(s, k);
    if k == n {
      assert r == t;
      MapDropLast(s);
    } else {
      assert t[k] == s[k] && r[..n - 1] == RemoveAt(t, k) && r[n - 1] == e;
      RemoveMap(t, k);
      DifferentKeys(s, k, n);
    }
  }

  lemma {:induction false} KeepProper(s: seq<Entry>)
    requires Proper(s)
    ensures Proper(Keep(s))
    ensures forall i :: 0 <= i < |Keep(s)| ==> Keep(s)[i] in s
  {
    if s != [] {
      hide ProperKey;
      var t, e := s[..|s| - 1], s[|s| - 1];
      KeepProper(t);
      assert forall i :: 0 <= i < |t| ==> Less(t[i], e) && t[i] in s;
    }
  }

  /** The map without named entries and mask. */
  function BaseOnly(m: PermMap): PermMap {
    map key | key in m && Base(key.0) :: m[key]
  }

  lemma BaseOnlyUpdate(m: PermMap, key: Key, perm: Perm)
    ensures BaseOnly(m[key := perm]) == if Base(key.0) then BaseOnly(m)[key := perm] else BaseOnly(m)
  {
  }

  lemma {:induction false} KeepMap(s: seq<Entry>)
    ensures ToMap(Keep(s)) == BaseOnly(ToMap(s))
  {
    if s == [] {
      assert BaseOnly(map[]) == map[];
    } else {
      hide BaseOnly;
      var t, e := s[..|s| - 1], s[|s| - 1];
      KeepMap(t);
      BaseOnlyUpdate(ToMap(t), (e.tag, e.id), e.perm);
      if Base(e.tag) {
        assert Keep(s)[..|Keep(s)| - 1] == Keep(t);
      }
    }
  }
}
