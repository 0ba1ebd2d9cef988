/** `do_set`: run a command list against one file, repair masks, check, and
    write back what changed. */
module SetFacl {
  import opened Wrappers
  import opened AclEntry
  import opened AclOps
  import opened AclCheck
  import opened AclMode
  import opened AclTools
  import opened AclMap
  import opened AclCommands

  /** Result of `acl_get_file`. */
  datatype Fetched = Got(entries: seq<Entry>) | Unsupported | Broken

  datatype File = File(isDir: bool, mode: Mode, access: Fetched, default: Fetched)

  /** `opt_recalculate` (-1, 0, 1), `opt_test`, and WALK_TREE_RECURSIVE. */
  datatype Options = Options(recalculate: int, test: bool, recursive: bool)

  type Acl = Option<seq<Entry>>

  /** The local variables of `do_set`. */
  datatype Vars = Vars(
    acl: Acl, oldAcl: Acl, def: Acl, oldDef: Acl,
    aclModified: bool, defModified: bool, aclMask: bool, defMask: bool)

  const INITIAL := Vars(None, None, None, None, false, false, false, false)

  // ----- retrieve_acl

  function Retrieve(f: File, target: Target): Acl {
    if target.Access? then
      match f.access
      case Got(s) => Some(s)
      case Unsupported => Some(FromMode(f.mode))
      case Broken => None
    else if f.isDir then
      match f.default
      case Got(s) => Some(s)
      case Unsupported => Some([])
      case Broken => None
    else Some([])
  }

  function Load(st: Vars, f: File, target: Target): Option<Vars> {
    if (if target.Access? then st.acl else st.def).Some? then Some(st)
    else
      var s := Retrieve(f, target);
      if s.None? then None
      else if target.Access? then Some(st.(acl := s, oldAcl := s))
      else Some(st.(def := s, oldDef := s))
  }

  // ----- The command loop

  function Flagged(st: Vars, c: Command): Vars {
    if c.target.Access? then st.(aclModified := true, aclMask := st.aclMask || c.tag == MASK)
    else st.(defModified := true, defMask := st.defMask || c.tag == MASK)
  }

  /** One command.  CMD_REMOVE_EXTENDED_ACL works on the access ACL whatever
      its target says. */
  function Step1(st: Vars, c: Command, f: File): Option<Vars> {
    var loaded := Load(Flagged(st, c), f, c.target);
    if loaded.None? then None
    else
      var s := loaded.value;
      match c.verb
      case Invalid => None
      case ExtendedRemove =>
        Some(if s.acl.Some? then s.(acl := Some(Effect(s.acl.value, c, f.isDir))) else s)
      case _ =>
        if c.target.Access? then
          Some(if s.acl.Some? then s.(acl := Some(Effect(s.acl.value, c, f.isDir))) else s)
        else
          Some(if s.def.Some? then s.(def := Some(Effect(s.def.value, c, f.isDir))) else s)
  }

  /** Addressed to the default ACL the command fails only where that ACL cannot
      be read; it leaves it as it is, and edits the access ACL exactly when an
      earlier command has loaded that. */
  lemma ExtendedRemoveDefault(st: Vars, c: Command, f: File)
    requires c.verb.ExtendedRemove? && c.target.Default?
    ensures var r := Step1(st, c, f);
      && (r.None? <==> st.def.None? && Retrieve(f, Default).None?)
      && (r.Some? ==>
        && r.value.def == (if st.def.Some? then st.def else Retrieve(f, Default))
        && r.value.oldAcl == st.oldAcl && r.value.aclModified == st.aclModified
        && r.value.acl == if st.acl.Some? then Some(RemoveExtended(st.acl.value)) else None)
  {
    hide RemoveExtended, Retrieve;
  }

  function Steps(st: Vars, cs: seq<Command>, f: File): Option<Vars> {
    if cs == [] then Some(st)
    else
      var before := Steps(st, cs[..|cs| - 1], f);
      if before.None? then None else Step1(before.value, cs[|cs| - 1], f)
  }

  /** So a file whose access ACL was not loaded keeps it, and an extended default
      ACL survives the command meant for it. */
  lemma DefaultSurvives(f: File, c: Command)
    requires c.verb.ExtendedRemove? && c.target.Default? && Retrieve(f, Default).Some?
    ensures var def := Retrieve(f, Default);
      Steps(INITIAL, [c], f) == Some(Flagged(INITIAL, c).(def := def, oldDef := def))
  {
    hide RemoveExtended, Retrieve;
    assert [c][..0] == [];
  }

  // ----- Missing entries of the default ACL

  function FillOne(st: Vars, tag: int, f: File): Option<Vars> {
    if st.def.None? || Find(st.def.value, tag, UNDEFINED_ID) >= 0 then Some(st)
    else
      var loaded := Load(st, f, Access);
      if loaded.None? || loaded.value.acl.None? then None
      else Some(loaded.value.(def := Some(Clone(loaded.value.acl.value, tag, st.def.value, tag))))
  }

  function Fill(st: Vars, f: File): Option<Vars> {
    if st.def.None? || st.def.value == [] then Some(st)
    else
      var a := FillOne(st, USER_OBJ, f);
      if a.None? then None
      else
        var b := FillOne(a.value, GROUP_OBJ, f);
        if b.None? then None else FillOne(b.value, OTHER, f)
  }

  // ----- Masks and checks

  function WithMask(s: seq<Entry>, provided: bool, recalculate: int): seq<Entry> {
    if AllKnownTags(s) && !Extended(s) then s
    else
      var t := if !provided && Find(s, MASK, UNDEFINED_ID) < 0 then Clone(s, GROUP_OBJ, s, MASK) else s;
      if recalculate != -1 && (!provided || recalculate == 1) then CalcMask(t) else t
  }

  /** `None` if the access ACL turns out malformed. */
  function CheckedAccess(st: Vars, o: Options): Option<Vars> {
    if st.acl.None? || !st.aclModified then Some(st)
    else
      var s := WithMask(st.acl.value, st.aclMask, o.recalculate);
      if Code(s) != 0 then None else Some(st.(acl := Some(s)))
  }

  /** `None` if a non-empty default ACL turns out malformed. */
  function CheckedDefault(st: Vars, o: Options): Option<Vars> {
    if st.def.None? || st.def.value == [] || !st.defModified then Some(st)
    else
      var s := WithMask(st.def.value, st.defMask, o.recalculate);
      if Code(s) != 0 then None else Some(st.(def := Some(s)))
  }

  function Checked(st: Vars, o: Options): Option<Vars> {
    var a := CheckedAccess(st, o);
    if a.None? then None else CheckedDefault(a.value, o)
  }

  // ----- Writing back

  predicate Unchanged(before: Acl, after: Acl) {
    before.Some? && after.Some? && SameAcl(before.value, after.value)
  }

  function Changed(st: Vars, f: File, o: Options): Vars {
    var a := if st.def.Some? && !f.isDir && o.recursive then st.(def := None) else st;
    var b := if Unchanged(a.oldAcl, a.acl) then a.(acl := None) else a;
    if Unchanged(b.oldDef, b.def) then b.(def := None) else b
  }

  datatype Write = SetAccess(entries: seq<Entry>) | Chmod(mode: Mode) | SetDefault(entries: seq<Entry>) | DeleteDefault

  datatype Answer = Done | NotSupported | Refused

  /** How the system calls answer. */
  datatype Answers = Answers(setAccess: Answer, chmod: bool, setDefault: bool, deleteDefault: Answer)

  datatype Outcome = Outcome(errors: nat, writes: seq<Write>)

  /** Writing the access ACL; the flag says whether to go on. */
  function WriteAccess(acl: Acl, n: Answers): (seq<Write>, bool) {
    if acl.None? then ([], true)
    else
      var s := acl.value;
      match n.setAccess
      case Done => ([SetAccess(s)], true)
      case Refused => ([SetAccess(s)], false)
      case NotSupported =>
        if !AllKnownTags(s) || Extended(s) then ([SetAccess(s)], false)
        else ([SetAccess(s), Chmod(ModeBits(s))], n.chmod)
  }

  function WriteDefault(def: Acl, f: File, n: Answers): (seq<Write>, bool) {
    if def.None? then ([], true)
    else if f.isDir then
      if def.value == [] then ([DeleteDefault], n.deleteDefault != Refused)
      else ([SetDefault(def.value)], n.setDefault)
    else ([], def.value == [])
  }

  function WriteBack(st: Vars, f: File, o: Options, n: Answers): Outcome {
    if o.test then Outcome(0, [])
    else
      var a := WriteAccess(st.acl, n);
      if !a.1 then Outcome(1, a.0)
      else
        var d := WriteDefault(st.def, f, n);
        Outcome(if d.1 then 0 else 1, a.0 + d.0)
  }

  /** `do_set` from the command loop on. */
  function DoSet(cs: seq<Command>, f: File, o: Options, n: Answers): Outcome {
    if cs == [] then Outcome(0, [])
    else
      var ran := Steps(INITIAL, cs, f);
      if ran.None? then Outcome(1, [])
      else
        var filled := Fill(ran.value, f);
        if filled.None? then Outcome(1, [])
        else
          var checked := Checked(filled.value, o);
          if checked.None? then Outcome(1, [])
          else WriteBack(Changed(checked.value, f, o), f, o, n)
  }

  // ----- Only checked ACLs are written

  predicate AnyTarget(cs: seq<Command>, t: Target) {
    exists i :: 0 <= i < |cs| && cs[i].target == t
  }

  /** What holds after the command loop. */
  predicate LoopInv(st: Vars, cs: seq<Command>) {
    && (st.acl.Some? ==> st.aclModified)
    && (st.def.Some? ==> st.defModified)
    && (st.aclModified ==> AnyTarget(cs, Access))
    && (st.defModified ==> AnyTarget(cs, Default))
  }

  lemma StepKeeps(st: Vars, t: seq<Command>, c: Command, f: File)
    requires LoopInv(st, t)
    ensures Step1(st, c, f).Some? ==>
      var r := Step1(st, c, f).value;
      && (r.acl.Some? ==> r.aclModified) && (r.def.Some? ==> r.defModified)
      && (r.aclModified ==> AnyTarget(t, Access) || c.target == Access)
      && (r.defModified ==> AnyTarget(t, Default) || c.target == Default)
  {
    hide Effect, AnyTarget, Retrieve;
  }

  lemma {:induction false} LoopKeeps(cs: seq<Command>, f: File)
    ensures Steps(INITIAL, cs, f).Some? ==> LoopInv(Steps(INITIAL, cs, f).value, cs)
  {
    hide Step1;
    if cs != [] {
      var t, c := cs[..|cs| - 1], cs[|cs| - 1];
      LoopKeeps(t, f);
      if Steps(INITIAL, t, f).Some? {
        forall k | AnyTarget(t, k) || c.target == k ensures AnyTarget(cs, k) {
          if AnyTarget(t, k) {
            var i :| 0 <= i < |t| && t[i].target == k;
            assert cs[i].target == k;
          } else {
            assert cs[|cs| - 1].target == k;
          }
        }
        StepKeeps(Steps(INITIAL, t, f).value, t, c, f);
      }
    }
  }

  /** An access ACL nobody asked to change is as it was read. */
  predicate FillInv(st: Vars) {
    && (st.acl.Some? && !st.aclModified ==> st.oldAcl == st.acl)
    && (st.def.Some? ==> st.defModified)
  }

  lemma FillKeeps(st: Vars, f: File)
    requires FillInv(st)
    ensures Fill(st, f).Some? ==>
      var r := Fill(st, f).value; FillInv(r) && r.aclModified == st.aclModified && r.defModified == st.defModified
  {
  }

  lemma SameSelf(s: seq<Entry>)
    ensures SameAcl(s, s)
  {
  }

  predicate GoodWrite(w: Write, cs: seq<Command>, f: File) {
    match w
    case SetAccess(s) => Code(s) == 0 && AnyTarget(cs, Access)
    case Chmod(_) => AnyTarget(cs, Access)
    case SetDefault(s) => s != [] && Code(s) == 0 && f.isDir && AnyTarget(cs, Default)
    case DeleteDefault => f.isDir && AnyTarget(cs, Default)
  }

  /** What holds after the checks. */
  predicate Passed(st: Vars, cs: seq<Command>) {
    && (st.acl.Some? ==>
          if st.aclModified then Code(st.acl.value) == 0 && AnyTarget(cs, Access) else st.oldAcl == st.acl)
    && (st.def.Some? ==> AnyTarget(cs, Default) && (st.def.value == [] || Code(st.def.value) == 0))
  }

  lemma CheckedPassed(st: Vars, cs: seq<Command>, o: Options)
    requires FillInv(st) && (st.aclModified ==> AnyTarget(cs, Access)) && (st.defModified ==> AnyTarget(cs, Default))
    ensures Checked(st, o).Some? ==> Passed(Checked(st, o).value, cs)
  {
    hide Code, WithMask, AnyTarget;
  }

  /** What is still to be written after the comparison. */
  lemma ChangedPassed(st: Vars, cs: seq<Command>, f: File, o: Options)
    requires Passed(st, cs)
    ensures var r := Changed(st, f, o);
      && (r.acl.Some? ==> Code(r.acl.value) == 0 && AnyTarget(cs, Access))
      && (r.def.Some? ==> AnyTarget(cs, Default) && (r.def.value == [] || Code(r.def.value) == 0))
  {
    hide Code, SameAcl, AnyTarget;
    if st.acl.Some? {
      SameSelf(st.acl.value);
    }
  }

  ghost predicate GoodWrites(ws: seq<Write>, cs: seq<Command>, f: File) {
    forall w :: w in ws ==> GoodWrite(w, cs, f)
  }

  lemma WriteAccessGood(acl: Acl, cs: seq<Command>, f: File, n: Answers)
    requires acl.Some? ==> Code(acl.value) == 0 && AnyTarget(cs, Access)
    ensures GoodWrites(WriteAccess(acl, n).0, cs, f)
  {
    hide Code, ModeBits, AnyTarget, AllKnownTags, Extended;
  }

  lemma WriteDefaultGood(def: Acl, cs: seq<Command>, f: File, n: Answers)
    requires def.Some? ==> AnyTarget(cs, Default) && (def.value == [] || Code(def.value) == 0)
    ensures GoodWrites(WriteDefault(def, f, n).0, cs, f)
  {
    hide Code, AnyTarget;
  }

  lemma WriteBackGood(st: Vars, cs: seq<Command>, f: File, o: Options, n: Answers)
    requires Passed(st, cs)
    ensures GoodWrites(WriteBack(Changed(st, f, o), f, o, n).writes, cs, f)
  {
    hide Passed, Code, Changed, WriteAccess, WriteDefault, GoodWrite, AnyTarget;
    var r := Changed(st, f, o);
    ChangedPassed(st, cs, f, o);
    WriteAccessGood(r.acl, cs, f, n);
    WriteDefaultGood(r.def, cs, f, n);
  }

  /** For every command list, file and system-call outcome: an access ACL or a
      non-empty default ACL is written only if `acl_check` accepted it in this
      run, and an access ACL read only to complete a default ACL is never
      written. */
  lemma WritesChecked(cs: seq<Command>, f: File, o: Options, n: Answers)
    ensures forall w :: w in DoSet(cs, f, o, n).writes ==> GoodWrite(w, cs, f)
  {
    hide Steps, Fill, Checked, Changed, WriteBack, Passed, GoodWrite, AnyTarget;
    if cs != [] && Steps(INITIAL, cs, f).Some? {
      var a := Steps(INITIAL, cs, f).value;
      LoopKeeps(cs, f);
      if Fill(a, f).Some? {
        var b := Fill(a, f).value;
        FillKeeps(a, f);
        CheckedPassed(b, cs, o);
        if Checked(b, o).Some? {
          WriteBackGood(Checked(b, o).value, cs, f, o, n);
        }
      }
    }
  }

  // ----- The command loop as effects on one ACL

  predicate AnyMask(cs: seq<Command>) {
    exists i :: 0 <= i < |cs| && cs[i].tag == MASK
  }

  lemma AnyMaskSnoc(cs: seq<Command>)
    requires cs != []
    ensures AnyMask(cs) <==> AnyMask(cs[..|cs| - 1]) || cs[|cs| - 1].tag == MASK
  {
    var t := cs[..|cs| - 1];
    if AnyMask(t) {
      var i :| 0 <= i < |t| && t[i].tag == MASK;
      assert cs[i].tag == MASK;
    }
    if cs[|cs| - 1].tag == MASK {
      assert AnyMask(cs);
    }
    if AnyMask(cs) && cs[|cs| - 1].tag != MASK {
      var i :| 0 <= i < |cs| && cs[i].tag == MASK;
      assert t[i].tag == MASK;
    }
  }

  lemma {:induction false} AccessRun(st: Vars, cs: seq<Command>, f: File)
    requires st.acl.Some? && st.aclModified
    requires forall i :: 0 <= i < |cs| ==> cs[i].target == Access && cs[i].verb != Invalid
    ensures Steps(st, cs, f) ==
            Some(st.(acl := Some(Effects(st.acl.value, cs, f.isDir)), aclMask := st.aclMask || AnyMask(cs)))
  {
    hide Effect;
    if cs != [] {
      AnyMaskSnoc(cs);
      AccessRun(st, cs[..|cs| - 1], f);
    }
  }

  lemma {:induction false} DefaultRun(st: Vars, cs: seq<Command>, f: File)
    requires st.def.Some? && st.defModified
    requires forall i :: 0 <= i < |cs| ==>
      cs[i].target == Default && cs[i].verb != Invalid && cs[i].verb != ExtendedRemove
    ensures Steps(st, cs, f) ==
            Some(st.(def := Some(Effects(st.def.value, cs, f.isDir)), defMask := st.defMask || AnyMask(cs)))
  {
    hide Effect;
    if cs != [] {
      AnyMaskSnoc(cs);
      DefaultRun(st, cs[..|cs| - 1], f);
    }
  }

  predicate AllAccess(cs: seq<Command>) {
    forall i :: 0 <= i < |cs| ==> cs[i].target == Access
  }

  predicate NoneInvalid(cs: seq<Command>) {
    forall i :: 0 <= i < |cs| ==> cs[i].verb != Invalid
  }

  /** A list of commands for the access ACL, of any kind: the loop fails exactly
      when the ACL cannot be read or a command is invalid, and else holds the
      effects of the list on the ACL read. */
  lemma {:induction false} AccessSteps(cs: seq<Command>, f: File)
    requires cs != [] && AllAccess(cs)
    ensures Steps(INITIAL, cs, f) ==
      if Retrieve(f, Access).None? || !NoneInvalid(cs) then None
      else
        var s := Retrieve(f, Access).value;
        Some(INITIAL.(
          acl := Some(Effects(s, cs, f.isDir)), oldAcl := Some(s), aclModified := true, aclMask := AnyMask(cs)))
  {
    hide Effect, Retrieve;
    var t, c := cs[..|cs| - 1], cs[|cs| - 1];
    AnyMaskSnoc(cs);
    assert NoneInvalid(cs) <==> NoneInvalid(t) && c.verb != Invalid by { ValidSnoc(cs); }
    if t != [] {
      AccessSteps(t, f);
    } else {
      assert !AnyMask(t);
    }
  }

  lemma ValidSnoc(cs: seq<Command>)
    requires cs != []
    ensures NoneInvalid(cs) <==> NoneInvalid(cs[..|cs| - 1]) && cs[|cs| - 1].verb != Invalid
  {
    assert cs == cs[..|cs| - 1] + [cs[|cs| - 1]];
  }

  /** So on a canonical ACL the loop leaves the one canonical ACL of the map the
      commands, folded over the map of the ACL read, give. */
  lemma AccessStepsMap(cs: seq<Command>, f: File)
    requires cs != [] && AllAccess(cs) && NoneInvalid(cs) && forall i :: 0 <= i < |cs| ==> WellKeyed(cs[i])
    requires Retrieve(f, Access).Some? && Proper(Retrieve(f, Access).value)
    ensures Steps(INITIAL, cs, f).Some? && Steps(INITIAL, cs, f).value.acl.Some?
    ensures var m := MapEffects(ToMap(Retrieve(f, Access).value), cs, f.isDir);
      var r := Steps(INITIAL, cs, f).value.acl.value;
      Proper(r) && ToMap(r) == m && forall t :: Proper(t) && ToMap(t) == m ==> t == r
  {
    hide Steps, Effects, MapEffects, Proper, ToMap, WellKeyed;
    AccessSteps(cs, f);
    EffectsAgree(Retrieve(f, Access).value, cs, f.isDir);
  }
}
