/** `getfacl` output read back by `setfacl --restore`. */
module AclRestore {
  import opened Wrappers
  import opened Text
  import opened AclEntry
  import opened AclOps
  import opened AclCheck
  import opened AclMode
  import opened AclTools
  import opened AclCommands
  import opened AclText
  import opened AclTextRoundTrip
  import opened AclCommandText
  import opened SetFacl

  // ----- One line

  const RESTORE := ParseMode(true, false, true, true, false)

  function Prefix(target: Target): string {
    if target.Access? then "" else "default:"
  }

  /** The command a printed entry turns into. */
  function Replacement(e: Entry, target: Target): Command {
    Command(EntryReplace, target, e.tag, Normal(e).id, Low(e.perm))
  }

  lemma SkipBlanksPlain(t: string)
    requires t == [] || !Blank(t[0])
    ensures SkipBlanks(t) == t
  {
  }

  lemma AfterTagColon(u: string)
    ensures AfterTag(":" + u) == Some(u)
  {
    assert (":" + u)[1..] == u;
  }

  lemma TagTaken(tag: int, y: Style, u: string)
    requires KnownTag(tag)
    ensures var t := TagText(tag, y) + u;
            SkipTag(t, TagName(tag)) == Some(u) && Head(t) == TagName(tag)[0] && SkipTag(t, "default") == None
  {
    var name := TagName(tag);
    var t := TagText(tag, y) + u;
    var n := if y.abbreviate then 1 else |name|;
    assert t[n..] == ":" + u;
    AfterTagColon(u);
    if y.abbreviate {
      assert t[1] == ':' && name[1] != ':';
      assert !(name <= t);
    } else {
      assert name <= t by { assert t == name + (":" + u); }
    }
    assert t[0] != 'd';
  }

  lemma DefaultTaken(u: string)
    ensures SkipTag("default:" + u, "default") == Some(u)
  {
    var t := "default:" + u;
    assert "default" <= t;
    assert t[7..] == ":" + u;
    AfterTagColon(u);
  }

  lemma {:induction false} TrimDigits(d: string)
    requires d != [] && forall i :: 0 <= i < |d| ==> Digit(d[i])
    ensures TrimRight(d) == d
  {
    assert Digit(d[|d| - 1]);
  }

  lemma QualifierTaken(e: Entry, u: string, names: map<string, Id>, named: int, owner: int)
    requires if Named(e.tag) then e.tag == named else e.tag == owner
    ensures NamedKey(Qualifier(e) + ":" + u, named, owner, names) == Some((e.tag, Normal(e).id, u))
  {
    hide Decimal, GetId;
    var t := Qualifier(e) + ":" + u;
    if Named(e.tag) {
      var d := Decimal(e.id);
      assert Digit(d[0]) && t[0] == d[0];
      SkipBlanksPlain(t);
      TokenIsPrefix(d, u);
      assert t[..|d|] == d && t[|d|..] == ":" + u && (":" + u)[1..] == u;
      TrimDigits(d);
      DigitsUnquoted(e.id);
      GetIdDecimal(e.id);
    } else {
      assert t == ":" + u && (":" + u)[1..] == u;
      SkipBlanksPlain(t);
    }
  }

  lemma KeyTaken(e: Entry, y: Style, u: string, a: Accounts)
    requires KnownTag(e.tag)
    ensures CommandKey(TagText(e.tag, y) + (Qualifier(e) + ":" + u), a) == Some((e.tag, Normal(e).id, u))
  {
    hide TagText, SkipTag, NamedKey, Decimal;
    var v := Qualifier(e) + ":" + u;
    TagTaken(e.tag, y, v);
    if e.tag == USER || e.tag == USER_OBJ {
      QualifierTaken(e, u, a.users, USER, USER_OBJ);
    } else if e.tag == GROUP || e.tag == GROUP_OBJ {
      QualifierTaken(e, u, a.groups, GROUP, GROUP_OBJ);
    } else {
      assert v == ":" + u && (":" + u)[1..] == u;
      SkipBlanksPlain(v);
    }
  }

  lemma LettersTaken(p: Perm, rest: string)
    ensures Letters(PermText(p) + rest, 0, 0) == Some((Low(p), rest))
  {
    var r, w, x := p & READ != 0, p & WRITE != 0, p & EXECUTE != 0;
    var t2 := [Flag(x, 'x')] + rest;
    var t1 := [Flag(w, 'w')] + t2;
    var t := PermText(p) + rest;
    assert t == [Flag(r, 'r')] + t1 && t[1..] == t1 && t1[1..] == t2 && t2[1..] == rest;
    var p1: Perm := if r then READ else 0;
    var p2: Perm := if w then p1 | WRITE else p1;
    var p3: Perm := if x then p2 | EXECUTE else p2;
    BitsCollected(p);
    assert Letters(t, 0, 0) == Letters(t1, 1, p1);
    assert Letters(t1, 1, p1) == Letters(t2, 2, p2);
    assert Letters(t2, 2, p2) == Letters(rest, 3, p3);
  }

  /** A printed line, without its comment, becomes a replace command. */
  lemma CoreCommand(e: Entry, y: Style, target: Target, rest: string, a: Accounts)
    requires KnownTag(e.tag)
    ensures ParseCommand(EntryCore(e, Prefix(target), y) + rest, EntryReplace, RESTORE, a) ==
            GoodCommand(Replacement(e, target), rest)
  {
    hide TagText, SkipTag, CommandKey, Letters, Decimal, PermText, Low;
    var more := PermText(e.perm) + rest;
    var v := Qualifier(e) + ":" + more;
    var body := TagText(e.tag, y) + v;
    TagTaken(e.tag, y, v);
    KeyTaken(e, y, more, a);
    DefaultTaken(body);
    PermStarts(e.perm, rest);
    SkipBlanksPlain(more);
    LettersTaken(e.perm, rest);
    assert EntryCore(e, Prefix(target), y) + rest == Prefix(target) + body;
    assert "" + body == body;
  }

  lemma PermStarts(p: Perm, rest: string)
    ensures var t := PermText(p) + rest; t != [] && (t[0] == 'r' || t[0] == '-')
  {
  }

  lemma CommentBlank(e: Entry, mask: Option<Perm>, n: nat, y: Style)
    ensures var t := SkipBlanks(Comment(e, mask, n, y)); t == "" || t[0] == '#'
  {
    if Commented(e, mask, y) {
      var k, c := CommentShape(e, mask, n, y);
      TabsSkipped(k, c);
    }
  }

  lemma CoreStarts(e: Entry, target: Target, y: Style, rest: string)
    requires KnownTag(e.tag)
    ensures var t := EntryCore(e, Prefix(target), y) + rest; t != [] && !Blank(t[0]) && t[0] != '#'
  {
    hide Decimal, PermText;
    TagTaken(e.tag, y, "");
    assert TagText(e.tag, y) + "" == TagText(e.tag, y);
  }

  lemma {:induction false} LinesRead(
      s: seq<Entry>, mask: Option<Perm>, y: Style, target: Target, more: seq<string>, a: Accounts)
    requires AllKnownLines(s)
    ensures ReadCommands(EntryLines(s, mask, Prefix(target), y) + more, EntryReplace, RESTORE, a) ==
            var r := ReadCommands(more, EntryReplace, RESTORE, a);
            if r.None? then None else Some(Replacements(s, target) + r.value)
    decreases |s|
  {
    hide ReadCommands, Replacement, EntryText;
    var ls := EntryLines(s, mask, Prefix(target), y) + more;
    var r := ReadCommands(more, EntryReplace, RESTORE, a);
    if s == [] {
      assert ls == more;
      assert r.Some? ==> Replacements(s, target) + r.value == r.value;
    } else {
      assert ls[0] == EntryText(s[0], mask, Prefix(target), y);
      assert ls[1..] == EntryLines(s[1..], mask, Prefix(target), y) + more;
      LinesRead(s[1..], mask, y, target, more, a);
      OneRead(s[0], mask, y, target, ls, a);
      assert Replacements(s, target) == [Replacement(s[0], target)] + Replacements(s[1..], target);
      if r.Some? {
        assert [Replacement(s[0], target)] + (Replacements(s[1..], target) + r.value) ==
               Replacements(s, target) + r.value;
      }
    }
  }

  lemma OneRead(e: Entry, mask: Option<Perm>, y: Style, target: Target, ls: seq<string>, a: Accounts)
    requires KnownTag(e.tag) && ls != [] && ls[0] == EntryText(e, mask, Prefix(target), y)
    ensures ReadCommands(ls, EntryReplace, RESTORE, a) ==
            var r := ReadCommands(ls[1..], EntryReplace, RESTORE, a);
            if r.None? then None else Some([Replacement(e, target)] + r.value)
  {
    hide ParseCommand, EntryCore, Comment, Replacement;
    var core := EntryCore(e, Prefix(target), y);
    var comment := Comment(e, mask, |core|, y);
    CoreStarts(e, target, y, comment);
    SkipBlanksPlain(core + comment);
    CoreCommand(e, y, target, comment, a);
    CommentBlank(e, mask, |core|, y);
  }

  function Replacements(s: seq<Entry>, target: Target): (cs: seq<Command>)
    ensures |cs| == |s| && forall i :: 0 <= i < |s| ==> cs[i] == Replacement(s[i], target)
  {
    seq(|s|, i requires 0 <= i < |s| => Replacement(s[i], target))
  }

  // ----- The commands rebuild the ACL

  lemma ReplacementEffect(e: Entry, t: seq<Entry>, target: Target, isDir: bool)
    requires Known([e]) && Known(t) && Strict(t + [Printed(e)])
    ensures Effect(t, Replacement(e, target), isDir) == t + [Printed(e)]
  {
    hide Low, WithPerm, Conditional;
    var p := Printed(e);
    var s := t + [p];
    assert [e][0] == e;
    forall i | 0 <= i < |t| ensures !Matches(t[i], p.tag, p.id) && !Less(p, t[i]) {
      assert s[i] == t[i] && s[|t|] == p;
    }
    FindUnique(t, p.tag, p.id, -1);
    PlainPerm(e.perm);
    assert NewEntry(p.tag, p.id, Low(e.perm)) == p;
    FirstGreaterUnique(t, p, |t|);
    AppendReorder(t, p);
    assert InsertAt(t, |t|, p) == t + [p];
  }

  lemma PlainPerm(p: Perm)
    ensures !Conditional(Low(p)) && WithPerm(0, Low(p)) == Low(p)
  {
  }

  lemma {:induction false} ReplacementsBuild(s: seq<Entry>, target: Target, isDir: bool)
    requires Known(s) && Strict(s)
    ensures Effects([], Replacements(s, target), isDir) == PrintedAll(s)
  {
    if s != [] {
      hide Effect, Effects, Strict, Known, PrintedAll, Replacement, Replacements;
      var k := |s| - 1;
      PrefixShape(s, k);
      PrintedShape(s);
      PrintedShape(s[..k]);
      ReplacementsBuild(s[..k], target, isDir);
      PrintedSnoc(s);
      ReplacementsSnoc(s, target);
      EffectsSnoc([], Replacements(s[..k], target), Replacement(s[k], target), isDir);
      ReplacementEffect(s[k], PrintedAll(s[..k]), target, isDir);
    }
  }

  lemma EffectsSnoc(s: seq<Entry>, cs: seq<Command>, c: Command, isDir: bool)
    ensures Effects(s, cs + [c], isDir) == Effect(Effects(s, cs, isDir), c, isDir)
  {
    hide Effect;
    assert (cs + [c])[..|cs|] == cs;
  }

  lemma ReplacementsSnoc(s: seq<Entry>, target: Target)
    requires s != []
    ensures Replacements(s, target) == Replacements(s[..|s| - 1], target) + [Replacement(s[|s| - 1], target)]
  {
    hide Replacement;
  }

  lemma PrintedSnoc(s: seq<Entry>)
    requires s != []
    ensures PrintedAll(s) == PrintedAll(s[..|s| - 1]) + [Printed(s[|s| - 1])]
  {
    hide Printed;
  }

  lemma PrefixShape(s: seq<Entry>, k: nat)
    requires Known(s) && Strict(s) && k < |s|
    ensures Known(s[..k]) && Strict(s[..k]) && Known([s[k]])
  {
  }

  lemma PrintedShape(s: seq<Entry>)
    requires Known(s) && Strict(s)
    ensures Known(PrintedAll(s)) && Strict(PrintedAll(s))
    ensures forall t :: HasTag(PrintedAll(s), t) <==> HasTag(s, t)
  {
    hide Low;
    var r := PrintedAll(s);
    forall t ensures HasTag(r, t) <==> HasTag(s, t) {
      if HasTag(s, t) {
        var i :| 0 <= i < |s| && s[i].tag == t;
        assert r[i].tag == t;
      }
      if HasTag(r, t) {
        var i :| 0 <= i < |r| && r[i].tag == t;
        assert s[i].tag == t;
      }
    }
  }

  lemma PrintedValid(s: seq<Entry>)
    requires Code(s) == 0
    ensures Code(PrintedAll(s)) == 0 && AllKnownTags(PrintedAll(s))
    ensures Extended(PrintedAll(s)) <==> Extended(s)
    ensures Known(s) && Strict(s) && (Extended(s) ==> HasTag(s, MASK))
  {
    hide Code, PrintedAll;
    AcceptedStrict(s);
    PrintedShape(s);
    AcceptedStrict(PrintedAll(s));
  }

  // ----- The command loop

  lemma {:induction false} StepsConcat(st: Vars, xs: seq<Command>, ys: seq<Command>, f: File)
    ensures Steps(st, xs + ys, f) ==
            if Steps(st, xs, f).None? then None else Steps(Steps(st, xs, f).value, ys, f)
    decreases |ys|
  {
    hide Step1;
    if ys == [] {
      assert xs + ys == xs;
    } else {
      assert (xs + ys)[..|xs + ys| - 1] == xs + ys[..|ys| - 1];
      StepsConcat(st, xs, ys[..|ys| - 1], f);
    }
  }

  /** The two commands `restore` starts with; `seq_append_cmd` leaves their tag,
      qualifier and permissions unset. */
  function Clear(target: Target, junk: Entry): Command {
    Command(AclRemove, target, junk.tag, junk.id, junk.perm)
  }

  function Script(s: seq<Entry>, d: seq<Entry>, j: Entry, k: Entry): seq<Command> {
    [Clear(Access, j), Clear(Default, k)] + Replacements(s, Access) + Replacements(d, Default)
  }

  /** The variables after the command loop. */
  function Loaded(s: seq<Entry>, d: seq<Entry>, j: Entry, k: Entry, f: File): Vars {
    Vars(Some(PrintedAll(s)), Retrieve(f, Access), Some(PrintedAll(d)), Retrieve(f, Default), true, true,
         j.tag == MASK || AnyMask(Replacements(s, Access)), k.tag == MASK || AnyMask(Replacements(d, Default)))
  }

  function Readable(f: File): bool {
    Retrieve(f, Access).Some? && Retrieve(f, Default).Some?
  }

  lemma ClearRun(j: Entry, k: Entry, f: File)
    requires Readable(f)
    ensures Steps(INITIAL, [Clear(Access, j), Clear(Default, k)], f) ==
            Some(Vars(Some([]), Retrieve(f, Access), Some([]), Retrieve(f, Default),
                      true, true, j.tag == MASK, k.tag == MASK))
  {
    hide Retrieve;
    var a, b := Clear(Access, j), Clear(Default, k);
    assert [a, b][..1] == [a] && [a][..0] == [];
    assert Steps(INITIAL, [], f) == Some(INITIAL);
    assert Steps(INITIAL, [a], f) == Step1(INITIAL, a, f);
  }

  lemma ScriptRun(s: seq<Entry>, d: seq<Entry>, j: Entry, k: Entry, f: File)
    requires Readable(f) && Known(s) && Strict(s) && Known(d) && Strict(d)
    ensures Steps(INITIAL, Script(s, d, j, k), f) == Some(Loaded(s, d, j, k, f))
  {
    hide Retrieve, Step1, Steps, Effects, AnyMask, Replacement, PrintedAll;
    var head, xs, ys := [Clear(Access, j), Clear(Default, k)], Replacements(s, Access), Replacements(d, Default);
    ClearRun(j, k, f);
    var st := Steps(INITIAL, head, f).value;
    StepsConcat(INITIAL, head, xs, f);
    ReplacementShape(s, Access);
    ReplacementShape(d, Default);
    AccessRun(st, xs, f);
    StepsConcat(INITIAL, head + xs, ys, f);
    DefaultRun(Steps(INITIAL, head + xs, f).value, ys, f);
    ReplacementsBuild(s, Access, f.isDir);
    ReplacementsBuild(d, Default, f.isDir);
  }

  lemma ReplacementShape(s: seq<Entry>, target: Target)
    ensures var cs := Replacements(s, target);
      forall i :: 0 <= i < |cs| ==> cs[i].target == target && cs[i].verb == EntryReplace
  {
  }

  lemma MaskMentioned(s: seq<Entry>, target: Target)
    requires HasTag(s, MASK)
    ensures AnyMask(Replacements(s, target))
  {
    hide Low;
    var i :| 0 <= i < |s| && s[i].tag == MASK;
    assert Replacements(s, target)[i].tag == MASK;
  }

  /** What a restored ACL looks like: `--mask` recomputes the mask. */
  function Restored(s: seq<Entry>, recalculate: int): seq<Entry> {
    if recalculate == 1 && Extended(s) then CalcMask(PrintedAll(s)) else PrintedAll(s)
  }

  lemma MaskAsGiven(s: seq<Entry>, target: Target, junk: bool, recalculate: int)
    requires Code(s) == 0
    ensures WithMask(PrintedAll(s), junk || AnyMask(Replacements(s, target)), recalculate) == Restored(s, recalculate)
  {
    hide CalcMask, PrintedAll, AnyMask, Replacements, Code, Extended, Clone, Find;
    PrintedValid(s);
    if Extended(s) {
      MaskMentioned(s, target);
    }
  }

  lemma CalcMaskShape(s: seq<Entry>)
    requires AllKnownTags(s) && HasTag(s, MASK)
    ensures var r := CalcMask(s); |r| == |s| && forall i :: 0 <= i < |s| ==> r[i].tag == s[i].tag && r[i].id == s[i].id
  {
    MaskPerm(s);
  }

  lemma SameKeysSameCode(s: seq<Entry>, r: seq<Entry>)
    requires |r| == |s| && forall i :: 0 <= i < |s| ==> r[i].tag == s[i].tag && r[i].id == s[i].id
    requires Code(s) == 0
    ensures Code(r) == 0
  {
    AcceptedStrict(s);
    AcceptedStrict(r);
    forall t | HasTag(s, t) ensures HasTag(r, t) {
      var i :| 0 <= i < |s| && s[i].tag == t;
      assert r[i].tag == t;
    }
    forall t | HasTag(r, t) ensures HasTag(s, t) {
      var i :| 0 <= i < |r| && r[i].tag == t;
      assert s[i].tag == t;
    }
  }

  lemma RestoredValid(s: seq<Entry>, recalculate: int)
    requires Code(s) == 0
    ensures Code(Restored(s, recalculate)) == 0
  {
    hide Code, CalcMask, PrintedAll;
    PrintedValid(s);
    if recalculate == 1 && Extended(s) {
      AcceptedStrict(s);
      PrintedShape(s);
      CalcMaskShape(PrintedAll(s));
      SameKeysSameCode(PrintedAll(s), CalcMask(PrintedAll(s)));
    }
  }

  lemma NothingToFill(st: Vars, f: File)
    requires st.def.Some? && (st.def.value == [] || Code(st.def.value) == 0)
    ensures SetFacl.Fill(st, f) == Some(st)
  {
    if st.def.value != [] {
      var d := st.def.value;
      AcceptedStrict(d);
      HasTagFound(d, USER_OBJ);
      HasTagFound(d, GROUP_OBJ);
      HasTagFound(d, OTHER);
    }
  }

  lemma HasTagFound(s: seq<Entry>, tag: int)
    requires HasTag(s, tag)
    ensures Find(s, tag, UNDEFINED_ID) >= 0
  {
    var i :| 0 <= i < |s| && s[i].tag == tag;
    assert Matches(s[i], tag, UNDEFINED_ID);
  }

  /** A default ACL to restore: none, or a valid one on a directory. */
  predicate GoodDefault(d: seq<Entry>, f: File) {
    d == [] || (Code(d) == 0 && f.isDir)
  }

  function RestoredDefault(d: seq<Entry>, recalculate: int): seq<Entry> {
    if d == [] then [] else Restored(d, recalculate)
  }

  lemma LoadedChecked(s: seq<Entry>, d: seq<Entry>, j: Entry, k: Entry, f: File, o: Options)
    requires Code(s) == 0 && GoodDefault(d, f)
    ensures SetFacl.Fill(Loaded(s, d, j, k, f), f) == Some(Loaded(s, d, j, k, f))
    ensures Checked(Loaded(s, d, j, k, f), o) ==
            Some(Loaded(s, d, j, k, f).(acl := Some(Restored(s, o.recalculate)),
                                        def := Some(RestoredDefault(d, o.recalculate))))
  {
    hide Code, WithMask, AnyMask, Replacements, Restored, Retrieve, FillOne;
    var st := Loaded(s, d, j, k, f);
    MaskAsGiven(s, Access, j.tag == MASK, o.recalculate);
    RestoredValid(s, o.recalculate);
    if d == [] {
      assert PrintedAll(d) == [];
    } else {
      PrintedValid(d);
      MaskAsGiven(d, Default, k.tag == MASK, o.recalculate);
      RestoredValid(d, o.recalculate);
    }
    NothingToFill(st, f);
  }

  /** Access and default ACL of the file after these writes. */
  function AfterWrites(access: seq<Entry>, default: seq<Entry>, ws: seq<Write>): (seq<Entry>, seq<Entry>) {
    if ws == [] then (access, default) else AfterWrite(AfterWrites(access, default, ws[..|ws| - 1]), ws[|ws| - 1])
  }

  function AfterWrite(r: (seq<Entry>, seq<Entry>), w: Write): (seq<Entry>, seq<Entry>) {
    match w
    case SetAccess(x) => (x, r.1)
    case Chmod(_) => r
    case SetDefault(x) => (r.0, x)
    case DeleteDefault => (r.0, [])
  }

  const GRANTED := Answers(Done, true, true, Done)

  lemma WrittenBack(st: Vars, f: File, o: Options)
    requires st.acl.Some? && st.oldAcl.Some? && st.def.Some? && st.oldDef.Some?
    requires !o.test && !o.recursive && (f.isDir || (st.def.value == [] && st.oldDef.value == []))
    ensures var out := WriteBack(Changed(st, f, o), f, o, GRANTED);
      out.errors == 0 &&
      var r := AfterWrites(st.oldAcl.value, st.oldDef.value, out.writes);
      SameAcl(r.0, st.acl.value) && SameAcl(r.1, st.def.value)
  {
    hide SameAcl, Changed, WriteBack, AfterWrites;
    SameSelf(st.acl.value);
    SameSelf(st.def.value);
    var a, d := Unchanged(st.oldAcl, st.acl), Unchanged(st.oldDef, st.def);
    var w1 := if a then [] else [SetAccess(st.acl.value)];
    var w2 := if d then [] else if st.def.value == [] then [DeleteDefault] else [SetDefault(st.def.value)];
    WritesOf(st, f, o);
    OneWrite(st.oldAcl.value, st.oldDef.value, w1);
    AfterConcat(st.oldAcl.value, st.oldDef.value, w1, w2);
    var m := AfterWrites(st.oldAcl.value, st.oldDef.value, w1);
    OneWrite(m.0, m.1, w2);
  }

  lemma WritesOf(st: Vars, f: File, o: Options)
    requires st.acl.Some? && st.oldAcl.Some? && st.def.Some? && st.oldDef.Some?
    requires !o.test && !o.recursive && (f.isDir || (st.def.value == [] && st.oldDef.value == []))
    ensures var a, d := Unchanged(st.oldAcl, st.acl), Unchanged(st.oldDef, st.def);
            WriteBack(Changed(st, f, o), f, o, GRANTED) == SetFacl.Outcome(0,
              (if a then [] else [SetAccess(st.acl.value)]) +
              (if d then [] else if st.def.value == [] then [DeleteDefault] else [SetDefault(st.def.value)]))
  {
    SameSelf(st.def.value);
    hide SameAcl;
  }

  lemma OneWrite(x: seq<Entry>, d: seq<Entry>, ws: seq<Write>)
    requires |ws| <= 1
    ensures AfterWrites(x, d, ws) == if ws == [] then (x, d) else AfterWrite((x, d), ws[0])
  {
    if ws != [] {
      assert ws[..0] == [];
    }
  }

  lemma {:induction false} AfterConcat(x: seq<Entry>, d: seq<Entry>, v: seq<Write>, w: seq<Write>)
    ensures AfterWrites(x, d, v + w) == var m := AfterWrites(x, d, v); AfterWrites(m.0, m.1, w)
    decreases |w|
  {
    if w == [] {
      assert v + w == v;
    } else {
      assert (v + w)[..|v + w| - 1] == v + w[..|w| - 1];
      AfterConcat(x, d, v, w[..|w| - 1]);
    }
  }

  /** Dump and restore are inverse.  Take any valid access ACL and any default
      ACL that is valid or absent, print both in any style, and run what
      `restore` makes of the lines against any readable file: whatever ACLs the
      file had, and whatever the two clearing commands carry in their unset
      fields, it ends up with the printed ones. */
  lemma DumpRestore(s: seq<Entry>, d: seq<Entry>, y: Style, a: Accounts, j: Entry, k: Entry, f: File, o: Options)
    requires Code(s) == 0 && GoodDefault(d, f) && Readable(f) && !o.test && !o.recursive
    ensures var ls := EntryLines(s, MaskFor(s, y), Prefix(Access), y)
                      + EntryLines(d, MaskFor(d, y), Prefix(Default), y);
      var read := ReadCommands(ls, EntryReplace, RESTORE, a);
      read.Some? &&
      var out := DoSet([Clear(Access, j), Clear(Default, k)] + read.value, f, o, GRANTED);
      out.errors == 0 &&
      var r := AfterWrites(Retrieve(f, Access).value, Retrieve(f, Default).value, out.writes);
      SameAcl(r.0, Restored(s, o.recalculate)) && SameAcl(r.1, RestoredDefault(d, o.recalculate))
  {
    assert !f.isDir ==> Retrieve(f, Default) == Some([]);
    hide Code, ReadCommands, DoSet, AfterWrites, Restored, Retrieve, SameAcl, MaskFor, EntryText, Replacement, Script;
    DumpRead(s, d, MaskFor(s, y), MaskFor(d, y), y, a);
    ScriptSplit(s, d, j, k);
    ScriptRestores(s, d, j, k, f, o);
  }

  lemma ScriptSplit(s: seq<Entry>, d: seq<Entry>, j: Entry, k: Entry)
    ensures [Clear(Access, j), Clear(Default, k)] + (Replacements(s, Access) + Replacements(d, Default))
            == Script(s, d, j, k)
  {
    hide Replacement;
  }

  lemma ScriptRestores(s: seq<Entry>, d: seq<Entry>, j: Entry, k: Entry, f: File, o: Options)
    requires Code(s) == 0 && GoodDefault(d, f) && Readable(f) && !o.test && !o.recursive
    requires !f.isDir ==> Retrieve(f, Default) == Some([])
    ensures var out := DoSet(Script(s, d, j, k), f, o, GRANTED);
      out.errors == 0 &&
      var r := AfterWrites(Retrieve(f, Access).value, Retrieve(f, Default).value, out.writes);
      SameAcl(r.0, Restored(s, o.recalculate)) && SameAcl(r.1, RestoredDefault(d, o.recalculate))
  {
    hide Code, Steps, SetFacl.Fill, Checked, Changed, WriteBack, AfterWrites, Restored, Retrieve, SameAcl, Replacements;
    KnownStrict(s);
    if d != [] {
      KnownStrict(d);
    }
    ScriptRun(s, d, j, k, f);
    LoadedChecked(s, d, j, k, f, o);
    WrittenBack(Checked(Loaded(s, d, j, k, f), o).value, f, o);
  }

  lemma KnownStrict(s: seq<Entry>)
    requires Code(s) == 0
    ensures Known(s) && Strict(s) && AllKnownLines(s)
  {
    AcceptedStrict(s);
  }

  lemma DumpRead(s: seq<Entry>, d: seq<Entry>, ms: Option<Perm>, md: Option<Perm>, y: Style, a: Accounts)
    requires Code(s) == 0 && (d == [] || Code(d) == 0)
    ensures ReadCommands(EntryLines(s, ms, Prefix(Access), y) + EntryLines(d, md, Prefix(Default), y),
                         EntryReplace, RESTORE, a)
            == Some(Replacements(s, Access) + Replacements(d, Default))
  {
    hide Code, EntryText, Replacement;
    KnownStrict(s);
    if d != [] {
      KnownStrict(d);
    }
    var ds := EntryLines(d, md, Prefix(Default), y);
    LinesRead(d, md, y, Default, [], a);
    assert ds + [] == ds && Replacements(d, Default) + [] == Replacements(d, Default);
    LinesRead(s, ms, y, Access, ds, a);
  }

  // ----- When the restored ACL is the dumped one

  lemma {:induction false} GroupPermsOf(s: seq<Entry>, p: seq<Entry>)
    requires |p| == |s| && forall i :: 0 <= i < |s| ==> p[i].tag == s[i].tag && p[i].perm == Low(s[i].perm)
    requires forall i :: 0 <= i < |s| && GroupClass(s[i].tag) ==> Low(s[i].perm) == s[i].perm
    ensures GroupPerms(p) == GroupPerms(s) && Low(GroupPerms(s)) == GroupPerms(s)
  {
    if s == [] {
      assert Low(0) == 0;
    } else {
      hide Low, Union;
      var k := |s| - 1;
      GroupPermsOf(s[..k], p[..k]);
      if GroupClass(s[k].tag) {
        LowUnion(GroupPerms(s[..k]), s[k].perm);
      }
    }
  }

  lemma LowUnion(p: Perm, q: Perm)
    requires Low(p) == p && Low(q) == q
    ensures Low(Union(p, q)) == Union(p, q)
  {
  }

  /** The restored ACL is the dumped one exactly when it has rwx bits only and,
      should the mask be recomputed, its mask was the computed one already. */
  lemma RestoredSame(s: seq<Entry>, recalculate: int)
    requires Code(s) == 0
    ensures SameAcl(Restored(s, recalculate), s) <==>
            RwxOnly(s) && (recalculate == 1 && Extended(s) ==> GroupPerms(s) == PermOf(s, MASK))
  {
    PrintedSame(s);
    if recalculate == 1 && Extended(s) {
      hide Code, Low, PrintedAll;
      PrintedValid(s);
      RecomputedSame(s);
    }
  }

  lemma RecomputedSame(s: seq<Entry>)
    requires HasTag(s, MASK) && AllKnownTags(PrintedAll(s))
    ensures SameAcl(CalcMask(PrintedAll(s)), s) <==> RwxOnly(s) && GroupPerms(s) == PermOf(s, MASK)
  {
    hide Low, CalcMask, SameAcl, PermOf, Printed;
    var p, k := PrintedAll(s), LastMask(s);
    MaskPerm(s);
    CalcMaskPrinted(s);
    SameRefilled(s, k, GroupPerms(p));
    if RwxExcept(s, k) {
      PrintedPerms(s);
      GroupPermsOf(s, p);
    }
  }

  predicate RwxExcept(s: seq<Entry>, k: nat) {
    forall i :: 0 <= i < |s| && i != k ==> Low(s[i].perm) == s[i].perm
  }

  lemma PrintedPerms(s: seq<Entry>)
    ensures forall i :: 0 <= i < |s| ==> PrintedAll(s)[i].tag == s[i].tag && PrintedAll(s)[i].perm == Low(s[i].perm)
  {
    hide Low;
  }

  lemma CalcMaskPrinted(s: seq<Entry>)
    requires AllKnownTags(PrintedAll(s)) && LastMask(s) >= 0
    ensures var p, k := PrintedAll(s), LastMask(s); CalcMask(p) == p[k := p[k].(perm := GroupPerms(p))]
  {
    hide Low;
    SameLastMask(s, PrintedAll(s));
  }

  lemma SameRefilled(s: seq<Entry>, k: nat, g: Perm)
    requires k < |s|
    ensures var p := PrintedAll(s); SameAcl(p[k := p[k].(perm := g)], s) <==> RwxExcept(s, k) && g == s[k].perm
  {
    hide Low;
    var p := PrintedAll(s);
    var r := p[k := p[k].(perm := g)];
    if SameAcl(r, s) {
      forall i | 0 <= i < |s| && i != k ensures Low(s[i].perm) == s[i].perm {
        assert Normal(r[i]) == Normal(s[i]);
      }
      assert Normal(r[k]) == Normal(s[k]);
    }
  }

  lemma {:induction false} SameLastMask(s: seq<Entry>, p: seq<Entry>)
    requires |p| == |s| && forall i :: 0 <= i < |s| ==> p[i].tag == s[i].tag
    ensures LastMask(p) == LastMask(s)
  {
    if s != [] && s[|s| - 1].tag != MASK {
      SameLastMask(s[..|s| - 1], p[..|s| - 1]);
    }
  }
}
