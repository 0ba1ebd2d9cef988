/** The text parsers as they work: a position moving through the text.  Each
    method leaves the position where the scanner functions say. */
module AclTextScanner {
  import opened Wrappers
  import opened Text
  import opened AclEntry
  import opened AclRing
  import opened AclOps
  import opened AclText
  import opened AclCommands
  import opened AclCommandText

  lemma RestAt(t: string, i: nat)
    requires i <= |t|
    ensures Head(t[i..]) == At(t, i)
    ensures i < |t| ==> t[i..] == [t[i]] + t[i + 1..] && t[i..][1..] == t[i + 1..]
  {
  }

  /** SKIP_WS of the command parser. */
  method Blanks(t: string, i: nat) returns (j: nat)
    requires i <= |t|
    ensures i <= j <= |t| && t[j..] == SkipBlanks(t[i..])
  {
    j := i;
    while j < |t| && Blank(t[j])
      invariant i <= j <= |t| && SkipBlanks(t[j..]) == SkipBlanks(t[i..])
    {
      RestAt(t, j);
      j := j + 1;
    }
    RestAt(t, j);
  }

  /** SKIP_WS of the ACL parser, which also skips a comment. */
  method Ws(t: string, i: nat) returns (j: nat)
    requires i <= |t|
    ensures i <= j <= |t| && t[j..] == SkipWs(t[i..])
  {
    j := Blanks(t, i);
    RestAt(t, j);
    if At(t, j) == '#' && j < |t| {
      ghost var u := t[j..];
      while j < |t| && t[j] != '\n'
        invariant i <= j <= |t| && SkipLine(t[j..]) == SkipLine(u)
      {
        RestAt(t, j);
        j := j + 1;
      }
      RestAt(t, j);
    }
  }

  method Colon(t: string, i: nat) returns (j: nat)
    requires i <= |t|
    ensures i <= j <= |t| && t[j..] == StripColon(t[i..])
  {
    RestAt(t, i);
    j := if i < |t| && t[i] == ':' then i + 1 else i;
  }

  lemma PrefixAt(name: string, u: string, k: nat)
    requires k < |name|
    ensures name <= u ==> k < |u| && u[k] == name[k]
  {
  }

  method StartsWith(t: string, i: nat, name: string) returns (b: bool)
    requires i <= |t|
    ensures b == (name <= t[i..])
  {
    var k := 0;
    while k < |name|
      invariant 0 <= k <= |name| && i + k <= |t| && name[..k] == t[i..i + k]
    {
      if i + k == |t| || t[i + k] != name[k] {
        PrefixAt(name, t[i..], k);
        return false;
      }
      assert name[..k + 1] == name[..k] + [name[k]] && t[i..i + k + 1] == t[i..i + k] + [t[i + k]];
      k := k + 1;
    }
    assert name[..k] == name && t[i..][..k] == t[i..i + k];
    b := true;
  }

  /** `skip_tag_name` of the ACL parser. */
  method TagName(t: string, i: nat, name: string) returns (ok: bool, j: nat)
    requires i <= |t| && name != []
    ensures ok == SkipTagName(t[i..], name).Some? && i <= j <= |t|
    ensures ok ==> t[j..] == SkipTagName(t[i..], name).value
  {
    j := Ws(t, i);
    var whole := StartsWith(t, j, name);
    RestAt(t, j);
    if whole {
      assert t[j..][|name|..] == t[j + |name|..];
      j := j + |name|;
    } else if j < |t| && t[j] == name[0] {
      j := j + 1;
    } else {
      return false, j;
    }
    j := Ws(t, j);
    j := Colon(t, j);
    ok := true;
  }

  method TokenEnd(t: string, i: nat) returns (j: nat)
    requires i <= |t|
    ensures i <= j <= |t| && j - i == TokenLength(t[i..])
  {
    j := i;
    while j < |t| && !EndsToken(t[j])
      invariant i <= j <= |t| && j - i + TokenLength(t[j..]) == TokenLength(t[i..])
    {
      RestAt(t, j);
      j := j + 1;
    }
    RestAt(t, j);
  }

  /** `get_token` of the ACL parser. */
  method Token(t: string, i: nat) returns (token: Option<string>, j: nat)
    requires i <= |t|
    ensures i <= j <= |t| && (token, t[j..]) == GetToken(t[i..])
  {
    j := Ws(t, i);
    assert |t[i..]| - |t[j..]| == j - i;
    j := TokenEnd(t, j);
    token := if j == i then None else Some(t[i..j]);
    assert t[i..][..j - i] == t[i..j] && t[i..][j - i..] == t[j..];
    j := Colon(t, j);
  }

  method UserOrGroup(t: string, i: nat, name: string, named: int, owner: int, names: map<string, Id>)
    returns (key: Option<(int, Id)>, j: nat)
    requires i <= |t| && name != []
    ensures i <= j <= |t|
    ensures var k := Qualified(SkipTagName(t[i..], name), named, owner, names);
            key.Some? == k.Some? && (k.Some? ==> k.value == (key.value.0, key.value.1, t[j..]))
  {
    hide SkipTagName, GetToken, LookUp, Unquoted;
    var ok;
    ok, j := TagName(t, i, name);
    if !ok {
      return None, j;
    }
    var token;
    token, j := Token(t, j);
    if token.None? {
      return Some((owner, UNDEFINED_ID)), j;
    }
    var id := LookUp(Unquoted(token.value), names);
    key := if id.None? then None else Some((named, id.value));
  }

  method MaskOrOther(t: string, i: nat, name: string, tag: int) returns (key: Option<(int, Id)>, j: nat)
    requires i <= |t| && name != []
    ensures i <= j <= |t|
    ensures var k := Unqualified(SkipTagName(t[i..], name), tag);
            key.Some? == k.Some? && (k.Some? ==> k.value == (key.value.0, key.value.1, t[j..]))
  {
    hide SkipTagName;
    var ok;
    ok, j := TagName(t, i, name);
    if !ok {
      return None, j;
    }
    j := Ws(t, j);
    j := Colon(t, j);
    key := Some((tag, UNDEFINED_ID));
  }

  method Perms(t: string, i: nat) returns (perm: Option<Perm>, j: nat)
    requires i <= |t|
    ensures i <= j <= |t|
    ensures var p := ParsePerm(t[i..], 0, 0); perm.Some? == p.Some? && (p.Some? ==> p.value == (perm.value, t[j..]))
  {
    hide FlagBit, Given, Union;
    var p: Perm, n := 0, 0;
    j := i;
    while n < 3
      invariant 0 <= n <= 3 && i <= j <= |t| && ParsePerm(t[j..], n, p) == ParsePerm(t[i..], 0, 0)
    {
      hide ParsePerm;
      RestAt(t, j);
      PermStep(t[j..], n, p);
      var bit := FlagBit(At(t, j));
      if j < |t| && bit != 0 {
        if Given(p, bit) {
          return None, j;
        }
        p := Union(p, bit);
      } else if At(t, j) != '-' {
        return if n == 0 then None else Some(p), j;
      }
      n, j := n + 1, j + 1;
    }
    perm := Some(p);
  }

  lemma PermStep(t: string, n: nat, p: Perm)
    requires n < 3
    ensures ParsePerm(t, n, p) ==
            var bit := FlagBit(Head(t));
            if t != [] && bit != 0 then if Given(p, bit) then None else ParsePerm(t[1..], n + 1, Union(p, bit))
            else if Head(t) == '-' then ParsePerm(t[1..], n + 1, p)
            else if n == 0 then None else Some((p, t))
  {
    hide FlagBit, Given, Union;
  }

  /** `parse_acl_entry`, up to the creation of the entry. */
  method Entry1(t: string, i: nat, a: Accounts) returns (e: Option<Entry>, j: nat)
    requires i <= |t|
    ensures i <= j <= |t|
    ensures var p := ParseEntry(t[i..], a); e.Some? == p.Good? && (p.Good? ==> p == Good(e.value, t[j..]))
  {
    hide Qualified, Unqualified, ParsePerm, SkipTagName, SkipWs;
    j := Ws(t, i);
    RestAt(t, j);
    var key;
    if At(t, j) == 'u' {
      key, j := UserOrGroup(t, j, "user", USER, USER_OBJ, a.users);
    } else if At(t, j) == 'g' {
      key, j := UserOrGroup(t, j, "group", GROUP, GROUP_OBJ, a.groups);
    } else if At(t, j) == 'm' {
      key, j := MaskOrOther(t, j, "mask", MASK);
    } else if At(t, j) == 'o' {
      key, j := MaskOrOther(t, j, "other", OTHER);
    } else {
      key := None;
    }
    if key.None? {
      return None, j;
    }
    var perm;
    perm, j := Perms(t, j);
    e := if perm.None? then None else Some(Entry(key.value.0, key.value.1, perm.value));
  }

  method Separator(t: string, i: nat) returns (j: nat)
    requires i <= |t|
    ensures i <= j <= |t| && t[j..] == NextEntry(t[i..])
  {
    hide SkipWs;
    j := Ws(t, i);
    RestAt(t, j);
    if j < |t| && t[j] == ',' {
      j := Ws(t, j + 1);
    }
  }

  lemma InsertAllStep(s: seq<Entry>, es: seq<Entry>, e: Entry)
    ensures InsertAll(s, es + [e]) == Reorder(InsertAll(s, es) + [e], |InsertAll(s, es)|)
  {
    assert (es + [e])[..|es|] == es;
  }

  /** `acl_from_text`. */
  method AclFromText(t: string, a: Accounts) returns (acl: AclObj?)
    ensures acl == null <==> FromText(t, a).None?
    ensures acl != null ==> acl.Valid() && fresh(acl.Repr) && FromText(t, a) == Some(acl.Entries)
  {
    assert InsertAll([], []) == [] && t[0..] == t;
    hide ParseEntry, NextEntry, AclObj.Valid, Reorder, InsertAll, ParseAll, Head;
    var r := new AclObj(0);
    ghost var es: seq<Entry> := [];
    assert ParseAll(t, a).Some? ==> es + ParseAll(t, a).value == ParseAll(t, a).value;
    var i := 0;
    while i < |t|
      invariant i <= |t| && r.Valid() && fresh(r.Repr) && r.Entries == InsertAll([], es)
      invariant ParseAll(t, a) == Prepend(es, ParseAll(t[i..], a))
    {
      var ok;
      ok, i, es := OneEntry(r, t, i, a, es);
      if !ok {
        return null;
      }
    }
    ParseAllDone(t, i, a);
    assert es + [] == es;
    acl := r;
  }

  /** One round of `acl_from_text`. */
  method OneEntry(r: AclObj, t: string, i: nat, a: Accounts, ghost es: seq<Entry>)
    returns (ok: bool, j: nat, ghost more: seq<Entry>)
    requires i < |t| && r.Valid() && r.Entries == InsertAll([], es)
    modifies r.Repr
    ensures r.Valid() && fresh(r.Repr - old(r.Repr)) && i <= j <= |t|
    ensures !ok ==> ParseAll(t[i..], a).None?
    ensures ok ==> i < j && r.Entries == InsertAll([], more)
    ensures ok ==> Prepend(es, ParseAll(t[i..], a)) == Prepend(more, ParseAll(t[j..], a))
  {
    hide ParseEntry, NextEntry, AclObj.Valid, Reorder, InsertAll, ParseAll, Head;
    var e;
    e, j := Entry1(t, i, a);
    more := es;
    if e.None? {
      ParseAllStep(t, i, a);
      return false, j, more;
    }
    ShorterRest(t, i, j, a);
    ParsedOne(t, i, es, a);
    j := Separator(t, j);
    InsertAllStep([], es, e.value);
    AddParsed(r, e.value);
    more := es + [e.value];
    ok := true;
  }

  function Prepend(es: seq<Entry>, r: Option<seq<Entry>>): Option<seq<Entry>> {
    if r.None? then None else Some(es + r.value)
  }

  lemma PrependTwice(es: seq<Entry>, e: Entry, r: Option<seq<Entry>>)
    ensures Prepend(es, Prepend([e], r)) == Prepend(es + [e], r)
  {
    assert r.Some? ==> es + ([e] + r.value) == es + [e] + r.value;
  }

  lemma ParseAllStep(t: string, i: nat, a: Accounts)
    requires i < |t|
    ensures ParseAll(t[i..], a) ==
            var p := ParseEntry(t[i..], a); if p.Bad? then None else Prepend([p.entry], ParseAll(NextEntry(p.rest), a))
  {
    hide ParseEntry, NextEntry;
  }

  lemma ParsedOne(t: string, i: nat, es: seq<Entry>, a: Accounts)
    requires i < |t| && ParseEntry(t[i..], a).Good?
    ensures var p := ParseEntry(t[i..], a);
            Prepend(es, ParseAll(t[i..], a)) == Prepend(es + [p.entry], ParseAll(NextEntry(p.rest), a))
  {
    hide ParseEntry, NextEntry, ParseAll;
    ParseAllStep(t, i, a);
    var p := ParseEntry(t[i..], a);
    PrependTwice(es, p.entry, ParseAll(NextEntry(p.rest), a));
  }

  lemma ParseAllDone(t: string, i: nat, a: Accounts)
    requires i == |t|
    ensures ParseAll(t[i..], a) == Some([])
  {
  }

  lemma ShorterRest(t: string, i: nat, j: nat, a: Accounts)
    requires i <= j <= |t| && ParseEntry(t[i..], a).Good? && ParseEntry(t[i..], a).rest == t[j..]
    ensures i < j
  {
  }

  /** `acl_create_entry` and `acl_copy_entry`. */
  method AddParsed(acl: AclObj, e: Entry)
    requires acl.Valid()
    modifies acl.Repr
    ensures acl.Valid() && fresh(acl.Repr - old(acl.Repr))
    ensures acl.Entries == Reorder(old(acl.Entries) + [e], |old(acl.Entries)|)
  {
    hide Linked, Distinct, Holds, Reorder, InsertAt, RemoveAt;
    ghost var s := acl.Entries;
    var n := acl.CreateEntry();
    acl.PutEntry(n, e, |s|);
    assert (s + [BLANK])[|s| := e] == s + [e];
  }

  // ----- Commands

  method AfterName(t: string, i: nat) returns (ok: bool, j: nat)
    requires i <= |t|
    ensures ok == AfterTag(t[i..]).Some? && i <= j <= |t| && (ok ==> t[j..] == AfterTag(t[i..]).value)
  {
    j := Blanks(t, i);
    RestAt(t, j);
    if j < |t| && t[j] == ':' {
      return true, j + 1;
    }
    ok := At(t, j) == ',' || At(t, j) == NUL;
  }

  /** `skip_tag_name` of the command parser; on failure the position stays. */
  method Tag(t: string, i: nat, name: string) returns (ok: bool, j: nat)
    requires i <= |t| && name != []
    ensures ok == SkipTag(t[i..], name).Some? && i <= j <= |t|
    ensures t[j..] == if ok then SkipTag(t[i..], name).value else t[i..]
  {
    hide AfterTag;
    var k := Blanks(t, i);
    var whole := StartsWith(t, k, name);
    RestAt(t, k);
    if whole {
      assert t[k..][|name|..] == t[k + |name|..];
      ok, j := AfterName(t, k + |name|);
    } else if k < |t| && t[k] == name[0] {
      ok, j := AfterName(t, k + 1);
    } else {
      ok := false;
    }
    if !ok {
      j := i;
    }
  }

  method Trimmed(u: string) returns (r: string)
    ensures r == TrimRight(u)
  {
    var n := |u|;
    assert u[..n] == u;
    while n > 0 && Blank(u[n - 1])
      invariant 0 <= n <= |u| && TrimRight(u[..n]) == TrimRight(u)
    {
      assert u[..n][..n - 1] == u[..n - 1];
      n := n - 1;
    }
    r := u[..n];
  }

  /** `get_token` of the command parser. */
  method TrimmedToken(t: string, i: nat) returns (token: Option<string>, j: nat)
    requires i <= |t|
    ensures i <= j <= |t| && (token, t[j..]) == TakeToken(t[i..])
  {
    var k := Blanks(t, i);
    j := TokenEnd(t, k);
    assert t[k..][..j - k] == t[k..j] && t[k..][j - k..] == t[j..];
    if j == k {
      token := None;
    } else {
      var trimmed := Trimmed(t[k..j]);
      token := Some(trimmed);
    }
    j := Colon(t, j);
  }

  method NamedCommand(t: string, i: nat, named: int, owner: int, names: map<string, Id>)
    returns (key: Option<(int, Id)>, j: nat)
    requires i <= |t|
    ensures i <= j <= |t|
    ensures var k := NamedKey(t[i..], named, owner, names);
            key.Some? == k.Some? && (k.Some? ==> k.value == (key.value.0, key.value.1, t[j..]))
  {
    hide TakeToken, LookUp, Unquoted;
    var token;
    token, j := TrimmedToken(t, i);
    if token.None? {
      return Some((owner, UNDEFINED_ID)), j;
    }
    var id := LookUp(Unquoted(token.value), names);
    key := if id.None? then None else Some((named, id.value));
  }

  method BareCommand(t: string, i: nat, tag: int) returns (key: Option<(int, Id)>, j: nat)
    requires i <= |t|
    ensures i <= j <= |t|
    ensures key.Some? && BareKey(t[i..], tag) == Some((key.value.0, key.value.1, t[j..]))
  {
    j := Blanks(t, i);
    j := Colon(t, j);
    key := Some((tag, UNDEFINED_ID));
  }

  method Key(t: string, i: nat, a: Accounts) returns (key: Option<(int, Id)>, j: nat)
    requires i <= |t|
    ensures i <= j <= |t|
    ensures var k := CommandKey(t[i..], a);
            key.Some? == k.Some? && (k.Some? ==> k.value == (key.value.0, key.value.1, t[j..]))
  {
    hide SkipTag, NamedKey, BareKey;
    RestAt(t, i);
    var c, ok := At(t, i), false;
    j := i;
    if c == 'u' {
      ok, j := Tag(t, i, "user");
    } else if c == 'g' {
      ok, j := Tag(t, i, "group");
      if ok {
        key, j := NamedCommand(t, j, GROUP, GROUP_OBJ, a.groups);
        return;
      }
    } else if c == 'o' {
      ok, j := Tag(t, i, "other");
      if ok {
        key, j := BareCommand(t, j, OTHER);
        return;
      }
    } else if c == 'm' {
      ok, j := Tag(t, i, "mask");
      if ok {
        key, j := BareCommand(t, j, MASK);
        return;
      }
    }
    key, j := NamedCommand(t, j, USER, USER_OBJ, a.users);
  }

  method PermLetters(t: string, i: nat) returns (perm: Option<Perm>, j: nat)
    requires i <= |t|
    ensures i <= j <= |t|
    ensures var p := Letters(t[i..], 0, 0); perm.Some? == p.Some? && (p.Some? ==> p.value == (perm.value, t[j..]))
  {
    hide LetterBit, Given, Union;
    var p: Perm, n := 0, 0;
    j := i;
    while n < 3
      invariant 0 <= n <= 3 && i <= j <= |t| && Letters(t[j..], n, p) == Letters(t[i..], 0, 0)
    {
      hide Letters;
      RestAt(t, j);
      LetterStep(t[j..], n, p);
      var bit := LetterBit(At(t, j));
      if j < |t| && bit != 0 {
        if Given(p, bit) {
          return None, j;
        }
        p := Union(p, bit);
      } else if At(t, j) != '-' {
        return if n == 0 then None else Some(p), j;
      }
      n, j := n + 1, j + 1;
    }
    perm := Some(p);
  }

  lemma LetterStep(t: string, n: nat, p: Perm)
    requires n < 3
    ensures Letters(t, n, p) ==
            var bit := LetterBit(Head(t));
            if t != [] && bit != 0 then if Given(p, bit) then None else Letters(t[1..], n + 1, Union(p, bit))
            else if Head(t) == '-' then Letters(t[1..], n + 1, p)
            else if n == 0 then None else Some((p, t))
  {
    hide LetterBit, Given, Union;
  }

  method PermField(t: string, i: nat) returns (perm: Option<Perm>, j: nat)
    requires i <= |t|
    ensures i <= j <= |t|
    ensures var p := CommandPerm(t[i..]); perm.Some? == p.Some? && (p.Some? ==> p.value == (perm.value, t[j..]))
  {
    RestAt(t, i);
    if !Octal(At(t, i)) {
      perm, j := PermLetters(t, i);
      return;
    }
    j := i;
    while At(t, j) == '0'
      invariant i <= j <= |t| && SkipZeros(t[j..]) == SkipZeros(t[i..])
      decreases |t| - j
    {
      RestAt(t, j);
      j := j + 1;
    }
    RestAt(t, j);
    if j < |t| && '1' <= t[j] <= '7' {
      return Some(OctalPerm(t[j])), j + 1;
    }
    perm := Some(0);
  }

  /** `parse_acl_cmd`. */
  method CommandAt(t: string, i: nat, verb: Verb, m: ParseMode, a: Accounts) returns (c: Option<Command>, j: nat)
    requires i <= |t|
    ensures i <= j <= |t|
    ensures var p := ParseCommand(t[i..], verb, m, a);
            c.Some? == p.GoodCommand? && (c.Some? ==> p == GoodCommand(c.value, t[j..]))
  {
    hide SkipTag, CommandKey, CommandPerm;
    var target := if m.promote then Default else Access;
    j := i;
    if m.default {
      var ok;
      ok, j := Tag(t, i, "default");
      if ok {
        if m.promote {
          return None, j;
        }
        target := Default;
      }
    }
    var key;
    key, j := Key(t, j, a);
    if key.None? {
      return None, j;
    }
    j := Blanks(t, j);
    RestAt(t, j);
    var bare := Command(verb, target, key.value.0, key.value.1, 0);
    if At(t, j) == ',' || At(t, j) == NUL {
      return if m.noPerm then Some(bare) else None, j;
    }
    if !m.withPerm {
      return Some(bare), j;
    }
    var perm;
    perm, j := PermField(t, j);
    c := if perm.None? then None else Some(bare.(perm := perm.value));
  }

  lemma ReadStep(ls: seq<string>, i: nat, verb: Verb, m: ParseMode, a: Accounts, t: string)
    requires i < |ls| && t == SkipBlanks(ls[i]) && t != "" && t[0] != '#'
    ensures ReadCommands(ls[i..], verb, m, a) ==
            var c := ParseCommand(t, verb, m, a);
            if c.BadCommand? then None
            else
              var after := SkipBlanks(c.rest);
              if after != "" && after[0] != '#' then None
              else Before([c.cmd], ReadCommands(ls[i + 1..], verb, m, a))
  {
    hide ParseCommand;
    assert ls[i..][1..] == ls[i + 1..];
  }

  lemma ReadOther(ls: seq<string>, i: nat, verb: Verb, m: ParseMode, a: Accounts)
    requires i < |ls|
    ensures var t := SkipBlanks(ls[i]);
      && (t == "" ==> ReadCommands(ls[i..], verb, m, a) ==
                      if m.multi then Some([]) else ReadCommands(ls[i + 1..], verb, m, a))
      && (t != "" && t[0] == '#' ==> ReadCommands(ls[i..], verb, m, a) == ReadCommands(ls[i + 1..], verb, m, a))
  {
    hide ParseCommand;
    assert ls[i..][1..] == ls[i + 1..];
  }

  lemma ReadDone(ls: seq<string>, verb: Verb, m: ParseMode, a: Accounts)
    ensures ReadCommands(ls[|ls|..], verb, m, a) == Some([])
  {
  }

  function Before(cs: seq<Command>, r: Option<seq<Command>>): Option<seq<Command>> {
    if r.None? then None else Some(cs + r.value)
  }

  lemma NothingBefore(r: Option<seq<Command>>)
    ensures Before([], r) == r
  {
    assert r.Some? ==> [] + r.value == r.value;
  }

  lemma BeforeTwice(cs: seq<Command>, c: Command, r: Option<seq<Command>>)
    ensures Before(cs, Before([c], r)) == Before(cs + [c], r)
  {
    assert r.Some? ==> cs + ([c] + r.value) == cs + [c] + r.value;
  }

  /** `read_acl_seq`: every line appends its command to the list. */
  method ReadAclSeq(ls: seq<string>, verb: Verb, m: ParseMode, a: Accounts) returns (cs: Option<seq<Command>>)
    ensures cs == ReadCommands(ls, verb, m, a)
  {
    var all: seq<Command> := [];
    assert ls[0..] == ls;
    hide ParseCommand, ReadCommands;
    NothingBefore(ReadCommands(ls, verb, m, a));
    for i := 0 to |ls|
      invariant ReadCommands(ls, verb, m, a) == Before(all, ReadCommands(ls[i..], verb, m, a))
    {
      var t := ls[i];
      assert t[0..] == t;
      var j := Blanks(t, 0);
      ReadOther(ls, i, verb, m, a);
      if j == |t| {
        if m.multi {
          assert all + [] == all;
          return Some(all);
        }
      } else if t[j] != '#' {
        ReadStep(ls, i, verb, m, a, t[j..]);
        var c, k := CommandAt(t, j, verb, m, a);
        if c.None? {
          return None;
        }
        k := Blanks(t, k);
        if k != |t| && t[k] != '#' {
          return None;
        }
        BeforeTwice(all, c.value, ReadCommands(ls[i + 1..], verb, m, a));
        all := all + [c.value];
      }
    }
    ReadDone(ls, verb, m, a);
    assert all + [] == all;
    cs := Some(all);
  }
}
