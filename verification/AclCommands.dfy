/** The command language of `setfacl` and its meaning on one ACL. */
module AclCommands {
  import opened AclEntry
  import opened AclTools
  import opened AclMap

  datatype Verb = EntryReplace | EntryRemove | ExtendedRemove | AclRemove | Invalid

  datatype Target = Access | Default

  /** `struct cmd_obj`.  Tag, qualifier and permissions of a command that does
      not use them may be anything. */
  datatype Command = Command(verb: Verb, target: Target, tag: int, id: Id, perm: Perm)

  const COND_EXECUTE: Perm := 8

  predicate Conditional(perm: Perm) {
    perm & COND_EXECUTE != 0
  }

  function Granted(perm: Perm): Perm {
    (perm & 0xFFFF_FFF7) | EXECUTE
  }

  function Ungranted(perm: Perm): Perm {
    perm & 0xFFFF_FFF7
  }

  /** `X` becomes `x` for directories and where someone may execute already. */
  function Resolve(perm: Perm, grant: bool): Perm {
    if !Conditional(perm) then perm else if grant then Granted(perm) else Ungranted(perm)
  }

  /** What a command does to the ACL it works on. */
  function Effect(s: seq<Entry>, c: Command, isDir: bool): seq<Entry> {
    match c.verb
    case EntryReplace => Replace(s, c.tag, c.id, Resolve(c.perm, isDir || AnyExecute(s)))
    case EntryRemove => Remove(s, c.tag, c.id)
    case ExtendedRemove => RemoveExtended(s)
    case AclRemove => []
    case Invalid => s
  }

  function Effects(s: seq<Entry>, cs: seq<Command>, isDir: bool): seq<Entry> {
    if cs == [] then s else Effect(Effects(s, cs[..|cs| - 1], isDir), cs[|cs| - 1], isDir)
  }

  // ----- The same on maps

  predicate SomeExecute(m: PermMap) {
    exists key :: key in m && CanExecute(m[key])
  }

  function NarrowedMap(m: PermMap): PermMap {
    var mask, group := (MASK, UNDEFINED_ID), (GROUP_OBJ, UNDEFINED_ID);
    if mask in m && group in m then m[group := Masked(m[group], m[mask])] else m
  }

  ghost function MapEffect(m: PermMap, c: Command, isDir: bool): PermMap {
    var key := (c.tag, c.id);
    match c.verb
    case EntryReplace =>
      m[key := WithPerm(if key in m then m[key] else 0, Resolve(c.perm, isDir || SomeExecute(m)))]
    case EntryRemove => m - {key}
    case ExtendedRemove => BaseOnly(NarrowedMap(m))
    case AclRemove => map[]
    case Invalid => m
  }

  ghost function MapEffects(m: PermMap, cs: seq<Command>, isDir: bool): PermMap {
    if cs == [] then m else MapEffect(MapEffects(m, cs[..|cs| - 1], isDir), cs[|cs| - 1], isDir)
  }

  /** Replace and remove name a proper key. */
  predicate WellKeyed(c: Command) {
    c.verb.EntryReplace? || c.verb.EntryRemove? ==> ProperKey(c.tag, c.id)
  }

  // ----- Agreement

  lemma FindKey(s: seq<Entry>, tag: int, id: Id)
    requires Proper(s) && ProperKey(tag, id)
    ensures Find(s, tag, id) >= 0 <==> HasKey(s, (tag, id))
    ensures Find(s, tag, id) >= 0 ==> s[Find(s, tag, id)].tag == tag && s[Find(s, tag, id)].id == id
  {
    var k := Find(s, tag, id);
    if k >= 0 {
      assert ProperKey(s[k].tag, s[k].id);
      assert (s[k].tag, s[k].id) == (tag, id);
    }
    if HasKey(s, (tag, id)) {
      var i :| 0 <= i < |s| && (s[i].tag, s[i].id) == (tag, id);
      assert Matches(s[i], tag, id);
    }
  }

  lemma ExecuteAgrees(s: seq<Entry>)
    requires Increasing(s)
    ensures AnyExecute(s) <==> SomeExecute(ToMap(s))
  {
    hide CanExecute;
    if AnyExecute(s) {
      var i :| 0 <= i < |s| && CanExecute(s[i].perm);
      MapAt(s, i);
    }
    if SomeExecute(ToMap(s)) {
      var key :| key in ToMap(s) && CanExecute(ToMap(s)[key]);
      MapKeys(s, key);
      var i :| 0 <= i < |s| && (s[i].tag, s[i].id) == key;
      MapAt(s, i);
    }
  }

  lemma ReplaceAgrees(s: seq<Entry>, tag: int, id: Id, perm: Perm)
    requires Proper(s) && ProperKey(tag, id)
    ensures Proper(Replace(s, tag, id, perm))
    ensures var m, key := ToMap(s), (tag, id);
            ToMap(Replace(s, tag, id, perm)) == m[key := WithPerm(if key in m then m[key] else 0, perm)]
  {
    hide WithPerm, ToMap;
    FindKey(s, tag, id);
    MapKeys(s, (tag, id));
    var k := Find(s, tag, id);
    if k >= 0 {
      MapAt(s, k);
      SetPermMap(s, k, WithPerm(s[k].perm, perm));
    } else {
      var e := NewEntry(tag, id, perm);
      AppendReorder(s, e);
      InsertMap(s, e);
    }
  }

  lemma RemoveAgrees(s: seq<Entry>, tag: int, id: Id)
    requires Proper(s) && ProperKey(tag, id)
    ensures Proper(Remove(s, tag, id)) && ToMap(Remove(s, tag, id)) == ToMap(s) - {(tag, id)}
  {
    hide ToMap;
    FindKey(s, tag, id);
    MapKeys(s, (tag, id));
    var k := Find(s, tag, id);
    if k >= 0 {
      RemoveProper(s, k);
      RemoveMap(s, k);
    }
  }

  lemma RemoveExtendedAgrees(s: seq<Entry>)
    requires Proper(s)
    ensures Proper(RemoveExtended(s)) && ToMap(RemoveExtended(s)) == BaseOnly(NarrowedMap(ToMap(s)))
  {
    hide ToMap, Masked, BaseOnly;
    FindKey(s, MASK, UNDEFINED_ID);
    FindKey(s, GROUP_OBJ, UNDEFINED_ID);
    MapKeys(s, (MASK, UNDEFINED_ID));
    MapKeys(s, (GROUP_OBJ, UNDEFINED_ID));
    var m, g := Find(s, MASK, UNDEFINED_ID), Find(s, GROUP_OBJ, UNDEFINED_ID);
    if m >= 0 && g >= 0 {
      MapAt(s, m);
      MapAt(s, g);
      SetPermMap(s, g, Masked(s[g].perm, s[m].perm));
    }
    KeepProper(Narrowed(s));
    KeepMap(Narrowed(s));
  }

  lemma EffectAgrees(s: seq<Entry>, c: Command, isDir: bool)
    requires Proper(s) && WellKeyed(c)
    ensures Proper(Effect(s, c, isDir)) && ToMap(Effect(s, c, isDir)) == MapEffect(ToMap(s), c, isDir)
  {
    hide Proper, ToMap, Resolve, WithPerm, SomeExecute, AnyExecute;
    hide Remove, Replace, RemoveExtended, NarrowedMap, BaseOnly;
    match c.verb
    case EntryReplace =>
      ExecuteAgreesProper(s);
      ReplaceAgrees(s, c.tag, c.id, Resolve(c.perm, isDir || AnyExecute(s)));
    case EntryRemove =>
      RemoveAgrees(s, c.tag, c.id);
    case ExtendedRemove =>
      RemoveExtendedAgrees(s);
    case AclRemove =>
      EmptyProper();
    case Invalid =>
  }

  lemma ExecuteAgreesProper(s: seq<Entry>)
    requires Proper(s)
    ensures AnyExecute(s) <==> SomeExecute(ToMap(s))
  {
    ExecuteAgrees(s);
  }

  lemma EmptyProper()
    ensures Proper([]) && ToMap([]) == map[]
  {
  }

  /** Any list of commands on a duplicate-free canonical ACL yields the one
      canonical ACL of the map obtained by folding the same commands. */
  lemma {:induction false} EffectsAgree(s: seq<Entry>, cs: seq<Command>, isDir: bool)
    requires Proper(s) && forall i :: 0 <= i < |cs| ==> WellKeyed(cs[i])
    ensures Proper(Effects(s, cs, isDir))
    ensures ToMap(Effects(s, cs, isDir)) == MapEffects(ToMap(s), cs, isDir)
    ensures forall t :: Proper(t) && ToMap(t) == MapEffects(ToMap(s), cs, isDir) ==> t == Effects(s, cs, isDir)
  {
    hide Proper, ToMap, Effect, MapEffect, WellKeyed;
    if cs != [] {
      EffectsAgree(s, cs[..|cs| - 1], isDir);
      EffectAgrees(Effects(s, cs[..|cs| - 1], isDir), cs[|cs| - 1], isDir);
    }
    forall t | Proper(t) && ToMap(t) == MapEffects(ToMap(s), cs, isDir) ensures t == Effects(s, cs, isDir) {
      ProperInjective(t, Effects(s, cs, isDir));
    }
  }

  lemma ProperInjective(s: seq<Entry>, t: seq<Entry>)
    requires Proper(s) && Proper(t) && ToMap(s) == ToMap(t)
    ensures s == t
  {
    MapInjective(s, t);
  }

  // ----- Why the keys must be proper

  /** Replacing under a key agrees with the map exactly when the key is proper. */
  lemma ReplaceAgreesIff(s: seq<Entry>, tag: int, id: Id, perm: Perm)
    requires Proper(s)
    ensures var m, key := ToMap(s), (tag, id); var r := Replace(s, tag, id, perm);
      (Proper(r) && ToMap(r) == m[key := WithPerm(if key in m then m[key] else 0, perm)]) <==> ProperKey(tag, id)
  {
    hide WithPerm, ToMap;
    if ProperKey(tag, id) {
      ReplaceAgrees(s, tag, id, perm);
    } else {
      var r := Replace(s, tag, id, perm);
      MapKeys(r, (tag, id));
    }
  }

  /** Removing under an improper key agrees only when nothing matches it. */
  lemma RemoveAgreesIff(s: seq<Entry>, tag: int, id: Id)
    requires Proper(s)
    ensures ToMap(Remove(s, tag, id)) == ToMap(s) - {(tag, id)} <==>
            ProperKey(tag, id) || forall i :: 0 <= i < |s| ==> !Matches(s[i], tag, id)
  {
    hide ToMap, RemoveAt, Increasing;
    var k := Find(s, tag, id);
    if ProperKey(tag, id) {
      RemoveAgrees(s, tag, id);
    } else if k >= 0 {
      RemoveMap(s, k);
      MapAt(s, k);
      var key := (s[k].tag, s[k].id);
      assert ProperKey(key.0, key.1);
      assert key in ToMap(s) - {(tag, id)} && key !in ToMap(Remove(s, tag, id));
    } else {
      MapKeys(s, (tag, id));
    }
  }
}
