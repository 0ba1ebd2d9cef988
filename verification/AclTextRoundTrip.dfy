/** Printing an ACL and reading the text back. */
module AclTextRoundTrip {
  import opened Wrappers
  import opened Text
  import opened AclEntry
  import opened AclOps
  import opened AclCheck
  import opened AclMode
  import opened AclText

  /** What the text says of an entry: no qualifier where none is printed, rwx
      bits only. */
  function Printed(e: Entry): Entry {
    Entry(e.tag, Normal(e).id, Low(e.perm))
  }

  function PrintedAll(s: seq<Entry>): (r: seq<Entry>)
    ensures |r| == |s| && forall i :: 0 <= i < |s| ==> r[i] == Printed(s[i])
  {
    seq(|s|, i requires 0 <= i < |s| => Printed(s[i]))
  }

  // ----- One entry

  predicate Plain(t: string) {
    t != [] && !Blank(t[0]) && t[0] != '#'
  }

  lemma SkipWsPlain(t: string)
    requires t == [] || Plain(t)
    ensures SkipBlanks(t) == t && SkipWs(t) == t
  {
  }

  lemma TagSkipped(tag: int, y: Style, u: string)
    requires KnownTag(tag)
    ensures SkipTagName(TagText(tag, y) + u, TagName(tag)) == Some(u)
    ensures Plain(TagText(tag, y) + u) && Head(TagText(tag, y) + u) == TagName(tag)[0]
  {
    var name := TagName(tag);
    var t := TagText(tag, y) + u;
    SkipWsPlain(t);
    var n := if y.abbreviate then 1 else |name|;
    assert t[n..] == ":" + u;
    SkipWsPlain(":" + u);
    if y.abbreviate {
      assert t[1] == ':' && name[1] != ':';
      assert !(name <= t);
    } else {
      assert name <= t by { assert t == name + (":" + u); }
    }
    assert (":" + u)[1..] == u;
  }

  lemma TokenIsPrefix(d: string, u: string)
    requires forall i :: 0 <= i < |d| ==> !EndsToken(d[i])
    ensures TokenLength(d + ":" + u) == |d|
  {
    var t := d + ":" + u;
    assert t[|d|] == ':' && forall i :: 0 <= i < |d| ==> t[i] == d[i];
  }

  lemma DecimalToken(n: Id, u: string)
    ensures GetToken(Decimal(n) + ":" + u) == (Some(Decimal(n)), u)
  {
    hide Decimal;
    var d := Decimal(n);
    var t := d + ":" + u;
    assert Digit(d[0]) && t[0] == d[0];
    SkipWsPlain(t);
    TokenIsPrefix(d, u);
    assert t[..|d|] == d && t[|d|..] == ":" + u && (":" + u)[1..] == u;
  }

  lemma EmptyToken(u: string)
    ensures GetToken(":" + u) == (None, u)
    ensures StripColon(SkipWs(":" + u)) == u
  {
    SkipWsPlain(":" + u);
    assert TokenLength(":" + u) == 0;
    assert (":" + u)[1..] == u;
  }

  /** Three flags read back as the rwx bits. */
  lemma PermParsed(p: Perm, rest: string)
    ensures ParsePerm(PermText(p) + rest, 0, 0) == Some((Low(p), rest))
  {
    var r, w, x := p & READ != 0, p & WRITE != 0, p & EXECUTE != 0;
    var t := PermText(p) + rest;
    assert t == [Flag(r, 'r')] + ([Flag(w, 'w')] + ([Flag(x, 'x')] + rest));
    var t1 := [Flag(w, 'w')] + ([Flag(x, 'x')] + rest);
    var t2 := [Flag(x, 'x')] + rest;
    assert t[1..] == t1 && t1[1..] == t2 && t2[1..] == rest;
    var p1: Perm := if r then READ else 0;
    var p2: Perm := if w then p1 | WRITE else p1;
    var p3: Perm := if x then p2 | EXECUTE else p2;
    BitsCollected(p);
    assert ParsePerm(t, 0, 0) == ParsePerm(t1, 1, p1);
    assert ParsePerm(t1, 1, p1) == ParsePerm(t2, 2, p2);
    assert ParsePerm(t2, 2, p2) == ParsePerm(rest, 3, p3);
  }

  lemma BitsCollected(p: Perm)
    ensures var p1: Perm := if p & READ != 0 then READ else 0;
            var p2: Perm := if p & WRITE != 0 then p1 | WRITE else p1;
            var p3: Perm := if p & EXECUTE != 0 then p2 | EXECUTE else p2;
            p3 == Low(p) && p1 & WRITE == 0 && p2 & EXECUTE == 0
  {
  }

  function Qualifier(e: Entry): string {
    if Named(e.tag) then Decimal(e.id) else ""
  }

  lemma KeyParsed(e: Entry, y: Style, rest: string, a: Accounts)
    requires KnownTag(e.tag)
    ensures ParseKey(TagText(e.tag, y) + (Qualifier(e) + ":" + rest), a) == Some((e.tag, Normal(e).id, rest))
  {
    hide TagText, SkipTagName, GetToken, Decimal, GetId;
    var u := Qualifier(e) + ":" + rest;
    var t := TagText(e.tag, y) + u;
    TagSkipped(e.tag, y, u);
    SkipWsPlain(t);
    if Named(e.tag) {
      DecimalToken(e.id, rest);
      DigitsUnquoted(e.id);
      GetIdDecimal(e.id);
    } else {
      assert u == ":" + rest;
      EmptyToken(rest);
    }
  }

  lemma DigitsUnquoted(n: Id)
    ensures Unquoted(Decimal(n)) == Decimal(n)
  {
    hide Decimal, Unquote;
    var d := Decimal(n);
    assert forall i :: 0 <= i < |d| ==> Digit(d[i]);
    UnquotePlain(d);
    CutNothing(d);
  }

  /** A printed entry is read back, up to and not including what follows. */
  lemma EntryParsed(e: Entry, y: Style, rest: string, a: Accounts)
    requires KnownTag(e.tag)
    ensures ParseEntry(EntryCore(e, "", y) + rest, a) == Good(Printed(e), rest)
  {
    hide TagText, ParseKey, ParsePerm, Decimal, PermText;
    var more := PermText(e.perm) + rest;
    KeyParsed(e, y, more, a);
    PermParsed(e.perm, rest);
    assert EntryCore(e, "", y) + rest == TagText(e.tag, y) + (Qualifier(e) + ":" + more);
  }

  lemma CorePlain(e: Entry, y: Style, rest: string)
    requires KnownTag(e.tag)
    ensures Plain(EntryCore(e, "", y) + rest) && Head(EntryCore(e, "", y) + rest) != ','
  {
    hide Decimal, PermText;
    TagSkipped(e.tag, y, "");
    assert (EntryCore(e, "", y) + rest)[0] == TagText(e.tag, y)[0];
  }

  // ----- Whole texts

  lemma {:induction false} TabsSkipped(n: nat, t: string)
    requires Head(t) == '#'
    ensures SkipBlanks(seq(n, _ => '\t') + t) == t
  {
    if n > 0 {
      assert (seq(n, _ => '\t') + t)[1..] == seq(n - 1, _ => '\t') + t;
      TabsSkipped(n - 1, t);
    } else {
      assert seq(n, _ => '\t') + t == t;
    }
  }

  lemma {:induction false} LineSkipped(c: string, t: string)
    requires '\n' !in c && (t == [] || t[0] == '\n')
    ensures SkipLine(c + t) == t
  {
    if c == [] {
      assert c + t == t;
    } else {
      assert (c + t)[1..] == c[1..] + t;
      LineSkipped(c[1..], t);
    }
  }

  lemma RemarkSkipped(k: nat, c: string, t: string)
    requires Head(c) == '#' && '\n' !in c && (t == [] || t[0] == '\n')
    ensures NextEntry(seq(k, _ => '\t') + (c + t)) == t
  {
    hide SkipBlanks, SkipLine;
    TabsSkipped(k, c + t);
    LineSkipped(c, t);
  }

  /** A comment disappears; the line break after it stays. */
  lemma CommentSkipped(e: Entry, mask: Option<Perm>, n: nat, y: Style, t: string)
    requires Commented(e, mask, y) && (t == [] || t[0] == '\n')
    ensures NextEntry(Comment(e, mask, n, y) + t) == t
  {
    var k, c := CommentShape(e, mask, n, y);
    hide NextEntry, Comment, Commented;
    assert Comment(e, mask, n, y) + t == seq(k, _ => '\t') + (c + t);
    RemarkSkipped(k, c, t);
  }

  lemma CommentShape(e: Entry, mask: Option<Perm>, n: nat, y: Style) returns (k: nat, c: string)
    requires Commented(e, mask, y)
    ensures Comment(e, mask, n, y) == seq(k, _ => '\t') + c && Head(c) == '#' && '\n' !in c
  {
    hide PermText, Effective;
    k, c := |Tabs(n, y)|, EFFECTIVE + PermText(Effective(e.perm, mask.value));
    assert Tabs(n, y) == seq(k, _ => '\t');
    NoBreaks(Effective(e.perm, mask.value));
  }

  lemma NoBreaks(p: Perm)
    ensures '\n' !in EFFECTIVE + PermText(p)
  {
    assert '\n' !in PermText(p);
  }

  /** Lines joined by line breaks. */
  function Join(ls: seq<string>): string {
    if ls == [] then "" else if |ls| == 1 then ls[0] else ls[0] + "\n" + Join(ls[1..])
  }

  predicate AllKnownLines(es: seq<Entry>) {
    forall i :: 0 <= i < |es| ==> KnownTag(es[i].tag)
  }

  lemma NewlineIgnored(t: string, a: Accounts)
    requires Plain(t)
    ensures ParseAll("\n" + t, a) == ParseAll(t, a)
  {
    hide ParsePerm, Qualified, Unqualified, SkipTagName, NextEntry;
    assert ("\n" + t)[1..] == t;
    SkipWsPlain(t);
    assert SkipWs("\n" + t) == SkipWs(t);
    assert ParseKey("\n" + t, a) == ParseKey(t, a);
    assert ParseEntry("\n" + t, a) == ParseEntry(t, a);
  }

  /** Reading the lines of any list of entries gives these entries, in order,
      also with a line break at the end unless the last line has a comment. */
  lemma {:induction false} LinesParsed(es: seq<Entry>, mask: Option<Perm>, y: Style, end: string, a: Accounts)
    requires AllKnownLines(es) && es != [] && (end == "" || end == "\n")
    ensures ParseAll(Join(EntryLines(es, mask, "", y)) + end, a) ==
            if end == "\n" && Commented(es[|es| - 1], mask, y) then None else Some(PrintedAll(es))
    decreases |es|
  {
    hide EntryCore, ParseAll, NextEntry, Commented, Printed, Comment, Join;
    var e := es[0];
    var core := EntryCore(e, "", y);
    var comment := Comment(e, mask, |core|, y);
    JoinStep(es, mask, y, end);
    if |es| > 1 {
      var more := Join(EntryLines(es[1..], mask, "", y)) + end;
      LinesParsed(es[1..], mask, y, end, a);
      OneParsed(e, y, comment + ("\n" + more), a);
      StartsPlain(es[1..], mask, y, end);
      Stepped(e, mask, |core|, y, more, a);
      assert PrintedAll(es) == [Printed(e)] + PrintedAll(es[1..]);
    } else {
      OneParsed(e, y, comment + end, a);
      LastStep(e, mask, |core|, y, end, a);
      assert [Printed(e)] + [] == PrintedAll(es);
    }
  }

  lemma OneParsed(e: Entry, y: Style, after: string, a: Accounts)
    requires KnownTag(e.tag)
    ensures ParseAll(EntryCore(e, "", y) + after, a) ==
            var r := ParseAll(NextEntry(after), a);
            if r.None? then None else Some([Printed(e)] + r.value)
  {
    hide EntryCore, ParseEntry, NextEntry, Printed;
    EntryParsed(e, y, after, a);
    CorePlain(e, y, after);
  }

  lemma JoinStep(es: seq<Entry>, mask: Option<Perm>, y: Style, end: string)
    requires AllKnownLines(es) && es != []
    ensures var core := EntryCore(es[0], "", y);
            var comment := Comment(es[0], mask, |core|, y);
            Join(EntryLines(es, mask, "", y)) + end ==
            if |es| == 1 then core + (comment + end)
            else core + (comment + ("\n" + (Join(EntryLines(es[1..], mask, "", y)) + end)))
  {
    hide EntryCore, Comment;
    var ls := EntryLines(es, mask, "", y);
    var core := EntryCore(es[0], "", y);
    var comment := Comment(es[0], mask, |core|, y);
    assert ls[0] == core + comment;
    if |es| > 1 {
      assert ls[1..] == EntryLines(es[1..], mask, "", y);
      Regrouped(core, comment, Join(ls[1..]), end);
    } else {
      assert core + comment + end == core + (comment + end);
    }
  }

  lemma Regrouped(core: string, comment: string, more: string, end: string)
    ensures core + comment + "\n" + more + end == core + (comment + ("\n" + (more + end)))
  {
  }

  lemma StartsPlain(es: seq<Entry>, mask: Option<Perm>, y: Style, end: string)
    requires AllKnownLines(es) && es != []
    ensures var t := Join(EntryLines(es, mask, "", y)) + end; Plain(t) && Head(t) != ','
  {
    hide EntryCore, Comment;
    var ls := EntryLines(es, mask, "", y);
    var core := EntryCore(es[0], "", y);
    CorePlain(es[0], y, "");
    assert (core + "")[0] == core[0];
    assert (Join(ls) + end)[0] == ls[0][0];
  }

  lemma Stepped(e: Entry, mask: Option<Perm>, n: nat, y: Style, more: string, a: Accounts)
    requires Plain(more) && Head(more) != ','
    ensures ParseAll(NextEntry(Comment(e, mask, n, y) + ("\n" + more)), a) == ParseAll(more, a)
  {
    NewlineIgnored(more, a);
    if Commented(e, mask, y) {
      CommentSkipped(e, mask, n, y, "\n" + more);
    } else {
      assert "" + ("\n" + more) == "\n" + more;
      assert ("\n" + more)[1..] == more;
      SkipWsPlain(more);
      assert SkipWs("\n" + more) == more;
    }
  }

  lemma LastStep(e: Entry, mask: Option<Perm>, n: nat, y: Style, end: string, a: Accounts)
    requires end == "" || end == "\n"
    ensures ParseAll(NextEntry(Comment(e, mask, n, y) + end), a) ==
            if end == "\n" && Commented(e, mask, y) then None else Some([])
  {
    if Commented(e, mask, y) {
      CommentSkipped(e, mask, n, y, end);
      if end == "\n" {
        assert SkipWs("\n") == "";
      }
    } else {
      assert Comment(e, mask, n, y) + end == end;
      assert SkipWs(end) == "";
    }
  }

  lemma {:induction false} LinesCons(ls: seq<string>, sep: char)
    requires ls != []
    ensures Lines(ls, sep) == ls[0] + [sep] + Lines(ls[1..], sep)
    decreases |ls|
  {
    if |ls| > 1 {
      var k := |ls| - 1;
      LinesCons(ls[..k], sep);
      assert ls[..k][1..] == ls[1..][..k - 1];
      var a, b, z := ls[0] + [sep], Lines(ls[1..][..k - 1], sep), ls[k] + [sep];
      assert a + b + ls[k] + [sep] == a + (b + ls[k] + [sep]);
    } else {
      assert ls[..0] == [] && ls[1..] == [];
    }
  }

  lemma {:induction false} LinesJoin(ls: seq<string>)
    requires ls != []
    ensures Lines(ls, '\n') == Join(ls) + "\n"
    decreases |ls|
  {
    LinesCons(ls, '\n');
    if |ls| > 1 {
      LinesJoin(ls[1..]);
    } else {
      assert ls[1..] == [];
    }
  }

  // ----- Any order of the lines

  lemma {:induction false} InsertAllSorted(es: seq<Entry>)
    requires AllSettled(es)
    ensures Sorted(InsertAll([], es)) && multiset(InsertAll([], es)) == multiset(es)
  {
    if es != [] {
      hide Sorted, Insert, Reorder, Settled;
      var k := |es| - 1;
      var t, e := InsertAll([], es[..k]), es[k];
      InsertAllSorted(es[..k]);
      AppendReorder(t, e);
      InsertKeeps(t, e);
      DropLast(es);
      assert e in multiset(es);
    }
  }

  lemma InsertKeeps(s: seq<Entry>, e: Entry)
    requires Sorted(s)
    ensures Sorted(Insert(s, e)) && multiset(Insert(s, e)) == multiset(s) + multiset{e}
  {
    hide Sorted;
    AclRing.InsertSorted(s, FirstGreater(s, e), e);
    InsertMultiset(s, FirstGreater(s, e), e);
  }

  lemma {:induction false} PrintedPermuted(es: seq<Entry>, s: seq<Entry>)
    requires multiset(es) == multiset(s)
    ensures multiset(PrintedAll(es)) == multiset(PrintedAll(s))
    decreases |es|
  {
    hide Printed, RemoveAt;
    assert |multiset(es)| == |es| && |multiset(s)| == |s|;
    if es != [] {
      var k := |es| - 1;
      assert es[k] in multiset(s);
      var j :| 0 <= j < |s| && s[j] == es[k];
      assert multiset(es[..k]) == multiset(RemoveAt(s, j)) by {
        DropLast(es);
        DropAt(s, j);
      }
      PrintedPermuted(es[..k], RemoveAt(s, j));
      assert PrintedAll(es) == PrintedAll(es[..k]) + [Printed(es[k])];
      PrintedRemove(s, j);
      DropAt(PrintedAll(s), j);
    }
  }

  lemma PrintedRemove(s: seq<Entry>, j: nat)
    requires j < |s|
    ensures PrintedAll(RemoveAt(s, j)) == RemoveAt(PrintedAll(s), j)
  {
    hide Printed;
  }

  lemma DropAt(s: seq<Entry>, j: nat)
    requires j < |s|
    ensures multiset(RemoveAt(s, j)) == multiset(s) - multiset{s[j]}
    ensures multiset(s) == multiset(RemoveAt(s, j)) + multiset{s[j]}
  {
    assert s == s[..j] + [s[j]] + s[j + 1..];
  }

  lemma PrintedIncreasing(s: seq<Entry>)
    requires Strict(s)
    ensures Increasing(PrintedAll(s))
  {
    hide Low;
  }

  /** Reading the lines of a valid ACL, in whatever order they stand, gives the
      ACL as printed.  Only a line break after a commented last line spoils it. */
  lemma AnyOrderParsed(s: seq<Entry>, es: seq<Entry>, y: Style, end: string, a: Accounts)
    requires Code(s) == 0 && multiset(es) == multiset(s) && (end == "" || end == "\n")
    ensures es != []
    ensures FromText(Join(EntryLines(es, MaskFor(s, y), "", y)) + end, a) ==
            if end == "\n" && Commented(es[|es| - 1], MaskFor(s, y), y) then None else Some(PrintedAll(s))
  {
    hide Code, ValidAcl, ParseAll, Join, Commented, Printed, MaskFor, EntryText;
    AcceptsExactly(s);
    ValidListIff(s);
    SameMembers(es, s);
    LinesParsed(es, MaskFor(s, y), y, end, a);
    PrintedPermuted(es, s);
    PrintedSettled(es);
    InsertAllSorted(PrintedAll(es));
    PrintedIncreasing(s);
    SortedUnique(InsertAll([], PrintedAll(es)), PrintedAll(s));
  }

  lemma SameMembers(es: seq<Entry>, s: seq<Entry>)
    requires multiset(es) == multiset(s) && ValidList(s)
    ensures es != [] && AllKnownLines(es) && Known(es)
  {
    assert |multiset(es)| == |es| && |multiset(s)| == |s|;
    forall i | 0 <= i < |es| ensures KnownTag(es[i].tag) && (Named(es[i].tag) ==> es[i].id != UNDEFINED_ID) {
      assert es[i] in multiset(s);
    }
  }

  lemma PrintedSettled(es: seq<Entry>)
    requires Known(es)
    ensures AllSettled(PrintedAll(es))
  {
    hide Low;
  }

  predicate RwxOnly(s: seq<Entry>) {
    forall i :: 0 <= i < |s| ==> Low(s[i].perm) == s[i].perm
  }

  lemma PrintedSame(s: seq<Entry>)
    ensures SameAcl(PrintedAll(s), s) <==> RwxOnly(s)
  {
    hide Low;
    var r := PrintedAll(s);
    forall i | 0 <= i < |s| ensures Normal(r[i]) == Normal(s[i]) <==> Low(s[i].perm) == s[i].perm {
    }
  }

  /** Printing a valid ACL with line breaks and reading it back: the result is
      the same ACL exactly when no bits above rwx are set. */
  lemma TextRoundTrip(s: seq<Entry>, y: Style, suffix: string, a: Accounts)
    requires Code(s) == 0 && (suffix == "" || suffix == "\n")
    ensures FromText(ToText(s, "", '\n', suffix, y), a) == Some(PrintedAll(s))
    ensures SameAcl(PrintedAll(s), s) <==> RwxOnly(s)
  {
    hide FromText, PrintedAll, RwxOnly, SameAcl, Join, Lines, MaskFor, EntryText, Code, ValidAcl;
    AnyOrderParsed(s, s, y, suffix, a);
    var ls := EntryLines(s, MaskFor(s, y), "", y);
    LinesJoin(ls);
    LastUncommented(s, MaskFor(s, y), y);
    JoinLong(s, y);
    PrintedSame(s);
  }

  lemma LastUncommented(s: seq<Entry>, mask: Option<Perm>, y: Style)
    requires Code(s) == 0 && s != []
    ensures !Commented(s[|s| - 1], mask, y)
  {
    AcceptedStrict(s);
    var i :| 0 <= i < |s| && s[i].tag == OTHER;
    assert KnownTag(s[|s| - 1].tag);
  }

  lemma JoinLong(s: seq<Entry>, y: Style)
    requires Code(s) == 0 && s != []
    ensures Join(EntryLines(s, MaskFor(s, y), "", y)) != ""
  {
    AcceptedStrict(s);
    StartsPlain(s, MaskFor(s, y), y, "");
    var t := Join(EntryLines(s, MaskFor(s, y), "", y));
    assert t + "" == t;
  }
}
