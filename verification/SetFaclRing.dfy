/** `do_set` on real ACL objects: up to four rings, two of them edited in
    place, refine the value-level account of it. */
module SetFaclRing {
  import opened Wrappers
  import opened AclEntry
  import opened AclRing
  import opened AclOps
  import opened AclCheck
  import opened AclMode
  import opened AclTools
  import opened AclMap
  import opened AclCommands
  import opened SetFacl

  /** One command on the ring it addresses. */
  method Apply(acl: AclObj, c: Command, isDir: bool) returns (r: AclObj)
    requires acl.Valid()
    modifies acl.Repr
    ensures r.Valid() && r.Entries == Effect(old(acl.Entries), c, isDir)
    ensures fresh(r.Repr - old(acl.Repr))
  {
    hide Linked, Distinct, Holds, Replace, Remove, RemoveExtended, Conditional, Granted, Ungranted, AnyExecute;
    r := acl;
    var perm := c.perm;
    if Conditional(perm) {
      var some := HasExecutePerms(acl);
      perm := if isDir || some then Granted(perm) else Ungranted(perm);
    }
    match c.verb
    case EntryReplace =>
      ReplaceEntry(acl, c.tag, c.id, perm);
    case EntryRemove =>
      RemoveEntry(acl, c.tag, c.id);
    case ExtendedRemove =>
      ghost var visited := RemoveExtendedEntries(acl);
    case AclRemove =>
      r := new AclObj(5);
    case Invalid =>
  }

  /** A list of commands on one ring, in place: on a canonical ACL it leaves the
      ACL of the map the same commands give. */
  method ApplyAll(acl: AclObj, cs: seq<Command>, isDir: bool) returns (r: AclObj)
    requires acl.Valid()
    modifies acl.Repr
    ensures r.Valid() && r.Entries == Effects(old(acl.Entries), cs, isDir)
    ensures fresh(r.Repr - old(acl.Repr))
    ensures old(Proper(acl.Entries)) && (forall i :: 0 <= i < |cs| ==> WellKeyed(cs[i])) ==>
      Proper(r.Entries) && ToMap(r.Entries) == MapEffects(old(ToMap(acl.Entries)), cs, isDir)
  {
    hide AclObj.Valid, Effect, Proper, ToMap, MapEffect;
    r := acl;
    for i := 0 to |cs|
      invariant r.Valid() && fresh(r.Repr - old(acl.Repr))
      invariant r.Entries == Effects(old(acl.Entries), cs[..i], isDir)
    {
      assert cs[..i + 1][..i] == cs[..i];
      r := Apply(r, cs[i], isDir);
    }
    assert cs[..|cs|] == cs;
    if old(Proper(acl.Entries)) && forall i :: 0 <= i < |cs| ==> WellKeyed(cs[i]) {
      EffectsAgree(old(acl.Entries), cs, isDir);
    }
  }

  /** The ACL object `acl_get_file` returns. */
  method Build(s: seq<Entry>) returns (acl: AclObj)
    ensures acl.Valid() && acl.Entries == s
    ensures fresh(acl.Repr)
  {
    hide Linked, Distinct, Holds;
    acl := new AclObj(|s|);
    for i := 0 to |s|
      invariant acl.Valid() && acl.Entries == s[..i]
      invariant fresh(acl.Repr)
    {
      var n := acl.Append(s[i]);
    }
    assert s[..|s|] == s;
  }

  /** The entries handed to `acl_set_file`. */
  method Snapshot(acl: AclObj) returns (s: seq<Entry>)
    requires acl.Valid()
    ensures s == acl.Entries
  {
    hide Linked, Distinct, Holds;
    s := [];
    var p := acl.First();
    while p != acl.head
      invariant |s| <= |acl.Entries| && s == acl.Entries[..|s|]
      invariant p == acl.At(|s|) && (p == acl.head <==> |s| == |acl.Nodes|)
      decreases |acl.Entries| - |s|
    {
      var e := acl.Read(p, |s|);
      p := acl.Next(p, |s|);
      s := s + [e];
    }
  }

  /** Mask repair before checking. */
  method RepairMask(acl: AclObj, provided: bool, recalculate: int)
    requires acl.Valid()
    modifies acl.Repr
    ensures acl.Valid() && fresh(acl.Repr - old(acl.Repr))
    ensures acl.Entries == WithMask(old(acl.Entries), provided, recalculate)
  {
    hide AclObj.Valid, CalcMask, Clone, Find, Extended, AllKnownTags, ModeBits;
    var equiv, _ := EquivMode(acl);
    if equiv != 0 {
      if !provided {
        var mask, k := FindEntry(acl, MASK, UNDEFINED_ID);
        if mask == null {
          CloneUnnamed(acl.Entries, GROUP_OBJ, acl.Entries, MASK);
          var r := CloneEntry(acl, GROUP_OBJ, acl, MASK);
        }
      }
      if recalculate != -1 && (!provided || recalculate == 1) {
        var ok := UpdateMask(acl);
      }
    }
  }

  ghost function Of(a: AclObj?): Acl
    reads a
  {
    if a == null then None else Some(a.Entries)
  }

  ghost predicate Separate(a: AclObj?, b: AclObj?)
    reads a, b
  {
    a == null || b == null || a.Repr !! b.Repr
  }

  class Session {
    var acl: AclObj?
    var oldAcl: AclObj?
    var def: AclObj?
    var oldDef: AclObj?
    var aclModified: bool
    var defModified: bool
    var aclMask: bool
    var defMask: bool
    ghost var Repr: set<object>

    ghost predicate Owns(a: AclObj?)
      reads this, Repr
    {
      a == null || (a in Repr && a.Repr <= Repr && this !in a.Repr && a.Valid())
    }

    ghost predicate Valid()
      reads this, Repr
    {
      && this in Repr
      && Owns(acl) && Owns(oldAcl) && Owns(def) && Owns(oldDef)
      && Separate(acl, oldAcl) && Separate(acl, def) && Separate(acl, oldDef)
      && Separate(def, oldAcl) && Separate(def, oldDef)
    }

    ghost function View(): Vars
      requires Valid()
      reads this, Repr
    {
      Vars(Of(acl), Of(oldAcl), Of(def), Of(oldDef), aclModified, defModified, aclMask, defMask)
    }

    constructor ()
      ensures Valid() && fresh(Repr) && View() == INITIAL
    {
      acl, oldAcl, def, oldDef := null, null, null, null;
      aclModified, defModified, aclMask, defMask := false, false, false, false;
      Repr := {this};
    }

    /** RETRIEVE_ACL: read the ACL unless it is already there. */
    method LoadAcl(f: File, target: Target) returns (ok: bool)
      requires Valid()
      modifies this
      ensures Valid() && fresh(Repr - old(Repr))
      ensures ok == Load(old(View()), f, target).Some?
      ensures View() == if ok then Load(old(View()), f, target).value else old(View())
    {
      hide AclObj.Valid, FromMode;
      if (if target.Access? then acl else def) != null {
        return true;
      }
      var s := Retrieve(f, target);
      if s.None? {
        return false;
      }
      if target.Access? {
        LoadAccess(s.value);
      } else {
        LoadDefault(s.value);
      }
      ok := true;
    }

    method LoadAccess(s: seq<Entry>)
      requires Valid() && acl == null
      modifies this
      ensures Valid() && fresh(Repr - old(Repr))
      ensures View() == old(View()).(acl := Some(s), oldAcl := Some(s))
    {
      hide AclObj.Valid;
      oldAcl := Build(s);
      acl := Dup(oldAcl);
      Repr := Repr + oldAcl.Repr + acl.Repr;
    }

    method LoadDefault(s: seq<Entry>)
      requires Valid() && def == null
      modifies this
      ensures Valid() && fresh(Repr - old(Repr))
      ensures View() == old(View()).(def := Some(s), oldDef := Some(s))
    {
      hide AclObj.Valid;
      oldDef := Build(s);
      def := Dup(oldDef);
      Repr := Repr + oldDef.Repr + def.Repr;
    }

    method Flag(c: Command)
      requires Valid()
      modifies this`aclModified, this`defModified, this`aclMask, this`defMask
      ensures Valid() && View() == Flagged(old(View()), c)
    {
      hide AclObj.Valid;
      if c.target.Access? {
        aclModified := true;
        if c.tag == MASK {
          aclMask := true;
        }
      } else {
        defModified := true;
        if c.tag == MASK {
          defMask := true;
        }
      }
    }

    /** One round of the command loop. */
    method Execute(c: Command, f: File) returns (ok: bool)
      requires Valid()
      modifies Repr
      ensures Valid() && fresh(Repr - old(Repr))
      ensures ok == Step1(old(View()), c, f).Some?
      ensures ok ==> View() == Step1(old(View()), c, f).value
    {
      hide AclObj.Valid, Effect, Owns, Separate, Flagged, Load;
      Flag(c);
      ok := LoadAcl(f, c.target);
      if !ok || c.verb.Invalid? {
        return false;
      }
      if c.verb.ExtendedRemove? || c.target.Access? {
        EditAccess(c, f.isDir);
      } else {
        EditDefault(c, f.isDir);
      }
    }

    method EditAccess(c: Command, isDir: bool)
      requires Valid()
      modifies Repr
      ensures Valid() && fresh(Repr - old(Repr))
      ensures View() == var v := old(View()); if v.acl.None? then v else v.(acl := Some(Effect(v.acl.value, c, isDir)))
    {
      hide AclObj.Valid, Effect;
      if acl != null {
        acl := Apply(acl, c, isDir);
        Repr := Repr + acl.Repr;
      }
    }

    method EditDefault(c: Command, isDir: bool)
      requires Valid()
      modifies Repr
      ensures Valid() && fresh(Repr - old(Repr))
      ensures View() == var v := old(View()); if v.def.None? then v else v.(def := Some(Effect(v.def.value, c, isDir)))
    {
      hide AclObj.Valid, Effect;
      if def != null {
        def := Apply(def, c, isDir);
        Repr := Repr + def.Repr;
      }
    }
  
    method FillEntry(tag: int, f: File) returns (ok: bool)
      requires Valid() && KnownTag(tag) && !Named(tag)
      modifies Repr
      ensures Valid() && fresh(Repr - old(Repr))
      ensures ok == FillOne(old(View()), tag, f).Some?
      ensures ok ==> View() == FillOne(old(View()), tag, f).value
    {
      hide AclObj.Valid, Clone, Load, Find;
      if def == null {
        return true;
      }
      var ent, k := FindEntry(def, tag, UNDEFINED_ID);
      if ent != null {
        return true;
      }
      ok := LoadAcl(f, Access);
      LoadAccessLoads(old(View()), f);
      if !ok {
        return;
      }
      CloneInto(tag);
    }

    method CloneInto(tag: int)
      requires Valid() && acl != null && def != null && KnownTag(tag) && !Named(tag)
      modifies Repr
      ensures Valid() && fresh(Repr - old(Repr))
      ensures View() == var v := old(View()); v.(def := Some(Clone(v.acl.value, tag, v.def.value, tag)))
    {
      hide AclObj.Valid, Clone, CloneAny, Find;
      CloneUnnamed(acl.Entries, tag, def.Entries, tag);
      var r := CloneEntry(acl, tag, def, tag);
      Repr := Repr + def.Repr;
    }

    /** The attempt to fill in missing entries of the default ACL. */
    method FillDefault(f: File) returns (ok: bool)
      requires Valid()
      modifies Repr
      ensures Valid() && fresh(Repr - old(Repr))
      ensures ok == SetFacl.Fill(old(View()), f).Some?
      ensures ok ==> View() == SetFacl.Fill(old(View()), f).value
    {
      hide AclObj.Valid, FillOne, Owns, Separate;
      var n := Count(def);
      if n == 0 {
        return true;
      }
      ok := FillEntry(USER_OBJ, f);
      if ok {
        ok := FillEntry(GROUP_OBJ, f);
      }
      if ok {
        ok := FillEntry(OTHER, f);
      }
    }

    /** `acl_entries` of an ACL that may be missing. */
    method Count(a: AclObj?) returns (n: nat)
      requires Valid() && (a == acl || a == def)
      ensures n == 0 <==> Of(a).None? || Of(a).value == []
    {
      n := if a == null then 0 else a.used;
    }

    method CheckAccess(o: Options) returns (ok: bool)
      requires Valid()
      modifies Repr
      ensures Valid() && fresh(Repr - old(Repr))
      ensures ok == CheckedAccess(old(View()), o).Some?
      ensures ok ==> View() == CheckedAccess(old(View()), o).value
    {
      hide AclObj.Valid, WithMask, Code, Strict, ValidAcl, Extendable;
      ok := true;
      if acl != null && aclModified {
        RepairMask(acl, aclMask, o.recalculate);
        Repr := Repr + acl.Repr;
        var code, last := Check(acl);
        ok := code == 0;
      }
    }

    method CheckDefault(o: Options) returns (ok: bool)
      requires Valid()
      modifies Repr
      ensures Valid() && fresh(Repr - old(Repr))
      ensures ok == CheckedDefault(old(View()), o).Some?
      ensures ok ==> View() == CheckedDefault(old(View()), o).value
    {
      hide AclObj.Valid, WithMask, Code, Strict, ValidAcl, Extendable;
      ok := true;
      var n := Count(def);
      if n != 0 && defModified {
        RepairMask(def, defMask, o.recalculate);
        Repr := Repr + def.Repr;
        var code, last := Check(def);
        ok := code == 0;
      }
    }

    /** Forget what need not be written. */
    method DropUnchanged(f: File, o: Options)
      requires Valid()
      modifies this
      ensures Valid() && Repr == old(Repr) && View() == Changed(old(View()), f, o)
    {
      hide AclObj.Valid, SameAcl;
      if def != null && !f.isDir && o.recursive {
        def := null;
      }
      if acl != null && oldAcl != null {
        var r := Cmp(oldAcl, acl);
        if r == 0 {
          acl := null;
        }
      }
      if def != null && oldDef != null {
        var r := Cmp(oldDef, def);
        if r == 0 {
          def := null;
        }
      }
    }

    /** The writes of the access ACL. */
    method PutAccess(n: Answers) returns (w: seq<Write>, go: bool)
      requires Valid()
      ensures (w, go) == WriteAccess(View().acl, n)
    {
      hide AclObj.Valid, ModeBits, Extended, AllKnownTags;
      if acl == null {
        return [], true;
      }
      var equiv, mode := EquivMode(acl);
      var s := Snapshot(acl);
      w := [SetAccess(s)];
      match n.setAccess
      case Done => go := true;
      case Refused => go := false;
      case NotSupported =>
        if equiv != 0 {
          go := false;
        } else {
          w, go := [SetAccess(s), Chmod(mode)], n.chmod;
        }
    }

    method PutDefault(f: File, n: Answers) returns (w: seq<Write>, go: bool)
      requires Valid()
      ensures (w, go) == WriteDefault(View().def, f, n)
    {
      hide AclObj.Valid;
      if def == null {
        return [], true;
      }
      var k := Count(def);
      if !f.isDir {
        return [], k == 0;
      }
      if k == 0 {
        return [DeleteDefault], n.deleteDefault != Refused;
      }
      var s := Snapshot(def);
      return [SetDefault(s)], n.setDefault;
    }
  }

  /** The command loop. */
  method RunCommands(se: Session, cs: seq<Command>, f: File) returns (ok: bool)
    requires se.Valid() && se.View() == INITIAL
    modifies se.Repr
    ensures se.Valid() && fresh(se.Repr - old(se.Repr))
    ensures ok == Steps(INITIAL, cs, f).Some?
    ensures ok ==> se.View() == Steps(INITIAL, cs, f).value
  {
    hide Step1, Session.Valid;
    for i := 0 to |cs|
      invariant se.Valid() && fresh(se.Repr - old(se.Repr))
      invariant Steps(INITIAL, cs[..i], f) == Some(se.View())
    {
      assert cs[..i + 1][..i] == cs[..i];
      ok := se.Execute(cs[i], f);
      if !ok {
        FailureStays(cs, i + 1, f);
        return;
      }
    }
    assert cs[..|cs|] == cs;
    ok := true;
  }

  lemma {:induction false} FailureStays(cs: seq<Command>, j: nat, f: File)
    requires j <= |cs| && Steps(INITIAL, cs[..j], f).None?
    ensures Steps(INITIAL, cs, f).None?
    decreases |cs|
  {
    if j == |cs| {
      assert cs[..j] == cs;
    } else {
      assert cs[..|cs| - 1][..j] == cs[..j];
      FailureStays(cs[..|cs| - 1], j, f);
    }
  }

  /** `do_set` on rings does what the values say. */
  method DoSetOnRings(cs: seq<Command>, f: File, o: Options, n: Answers) returns (out: SetFacl.Outcome)
    ensures out == DoSet(cs, f, o, n)
  {
    hide Steps, SetFacl.Fill, CheckedAccess, CheckedDefault, Changed, WriteAccess, WriteDefault, Session.Valid;
    if cs == [] {
      return SetFacl.Outcome(0, []);
    }
    var se := new Session();
    var ok := RunCommands(se, cs, f);
    if ok {
      ok := se.FillDefault(f);
    }
    if ok {
      ok := se.CheckAccess(o);
    }
    if ok {
      ok := se.CheckDefault(o);
    }
    if !ok {
      return SetFacl.Outcome(1, []);
    }
    se.DropUnchanged(f, o);
    if o.test {
      return SetFacl.Outcome(0, []);
    }
    var wa, goOn := se.PutAccess(n);
    if !goOn {
      return SetFacl.Outcome(1, wa);
    }
    var wd, fine := se.PutDefault(f, n);
    out := SetFacl.Outcome(if fine then 0 else 1, wa + wd);
  }

  lemma LoadAccessLoads(st: Vars, f: File)
    ensures Load(st, f, Access).Some? ==> Load(st, f, Access).value.acl.Some? && Load(st, f, Access).value.def == st.def
  {
  }
}
