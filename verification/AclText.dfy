/** The text form of ACLs: what `acl_to_any_text` prints with numeric ids and
    what `acl_from_text` makes of a text. */
module AclText {
  import opened Wrappers
  import opened Text
  import opened AclEntry
  import opened AclOps

  // ----- Printing

  /** TEXT_ABBREVIATE, TEXT_SOME_EFFECTIVE, TEXT_ALL_EFFECTIVE and
      TEXT_SMART_INDENT; TEXT_NUMERIC_IDS is always on. */
  datatype Style = Style(abbreviate: bool, some: bool, all: bool, indent: bool)

  function TagName(tag: int): string
    requires KnownTag(tag)
  {
    if tag == USER_OBJ || tag == USER then "user"
    else if tag == GROUP_OBJ || tag == GROUP then "group"
    else if tag == MASK then "mask"
    else "other"
  }

  function TagText(tag: int, y: Style): (t: string)
    requires KnownTag(tag)
  {
    (if y.abbreviate then TagName(tag)[..1] else TagName(tag)) + ":"
  }

  function Flag(on: bool, c: char): char {
    if on then c else '-'
  }

  function PermText(p: Perm): (t: string)
    ensures |t| == 3
  {
    [Flag(p & READ != 0, 'r'), Flag(p & WRITE != 0, 'w'), Flag(p & EXECUTE != 0, 'x')]
  }

  /** An entry without comment. */
  function EntryCore(e: Entry, prefix: string, y: Style): (t: string)
    requires KnownTag(e.tag)
  {
    prefix + TagText(e.tag, y) + (if Named(e.tag) then Decimal(e.id) else "") + ":" + PermText(e.perm)
  }

  const EFFECTIVE := "#effective:"

  /** The tabs in front of a comment after `n` characters. */
  function Tabs(n: nat, y: Style): (t: string) {
    var x := if y.indent && n / 8 <= 3 then n / 8 else 3;
    seq(4 - x, _ => '\t')
  }

  function Effective(p: Perm, mask: Perm): Perm {
    p & mask
  }

  predicate Commented(e: Entry, mask: Option<Perm>, y: Style) {
    GroupClass(e.tag) && mask.Some? && (y.some || y.all) && (Effective(e.perm, mask.value) != e.perm || y.all)
  }

  function Comment(e: Entry, mask: Option<Perm>, n: nat, y: Style): (t: string) {
    if Commented(e, mask, y) then Tabs(n, y) + EFFECTIVE + PermText(Effective(e.perm, mask.value)) else ""
  }

  /** `acl_entry_to_any_str`, given room; nothing for an entry without a tag. */
  function EntryText(e: Entry, mask: Option<Perm>, prefix: string, y: Style): (t: string) {
    if !KnownTag(e.tag) then ""
    else var t := EntryCore(e, prefix, y); t + Comment(e, mask, |t|, y)
  }

  /** The mask the effective-rights comments refer to. */
  function MaskFor(s: seq<Entry>, y: Style): Option<Perm> {
    if !(y.some || y.all) then None
    else var k := FirstMask(s); if k < 0 then None else Some(s[k].perm)
  }

  function FirstMask(s: seq<Entry>): (k: int)
    ensures -1 <= k < |s|
    ensures k >= 0 ==> s[k].tag == MASK
  {
    if s == [] then -1 else if s[0].tag == MASK then 0
    else var k := FirstMask(s[1..]); if k < 0 then -1 else k + 1
  }

  /** Every line followed by the separator. */
  function Lines(ls: seq<string>, sep: char): (t: string) {
    if ls == [] then "" else Lines(ls[..|ls| - 1], sep) + ls[|ls| - 1] + [sep]
  }

  function EntryLines(s: seq<Entry>, mask: Option<Perm>, prefix: string, y: Style): (ls: seq<string>)
    ensures |ls| == |s| && forall i :: 0 <= i < |s| ==> ls[i] == EntryText(s[i], mask, prefix, y)
  {
    seq(|s|, i requires 0 <= i < |s| => EntryText(s[i], mask, prefix, y))
  }

  /** The separator goes between entries, the suffix after the last. */
  function Finish(t: string, suffix: string): string {
    if |t| <= 1 then "" else t[..|t| - 1] + suffix
  }

  /** `__acl_to_any_text`. */
  function ToText(s: seq<Entry>, prefix: string, sep: char, suffix: string, y: Style): string {
    Finish(Lines(EntryLines(s, MaskFor(s, y), prefix, y), sep), suffix)
  }

  // ----- Parsing

  /** White space and a comment up to the end of its line. */
  function SkipWs(t: string): (r: string)
    ensures |r| <= |t|
  {
    var u := SkipBlanks(t);
    if Head(u) == '#' then SkipLine(u) else u
  }

  function StripColon(t: string): (r: string)
    ensures |r| <= |t|
  {
    if Head(t) == ':' then t[1..] else t
  }

  /** `skip_tag_name`: the name in full or its first letter, then a colon that
      may be missing. */
  function SkipTagName(t: string, name: string): (r: Option<string>)
    requires name != []
    ensures r.Some? ==> |r.value| <= |t|
  {
    var u := SkipWs(t);
    if name <= u then Some(StripColon(SkipWs(u[|name|..])))
    else if u != [] && u[0] == name[0] then Some(StripColon(SkipWs(u[1..])))
    else None
  }

  predicate EndsToken(c: char) {
    c == NUL || c == '\r' || c == '\n' || c == ':' || c == ','
  }

  function TokenLength(t: string): (n: nat)
    ensures n <= |t|
    ensures forall i :: 0 <= i < n ==> !EndsToken(t[i])
    ensures n < |t| ==> EndsToken(t[n])
  {
    if t == [] || EndsToken(t[0]) then 0 else 1 + TokenLength(t[1..])
  }

  /** `get_token`: the token includes the white space in front of it. */
  function GetToken(t: string): (r: (Option<string>, string))
    ensures |r.1| <= |t|
  {
    var u := SkipWs(t);
    var n := |t| - |u| + TokenLength(u);
    (if n == 0 then None else Some(t[..n]), StripColon(t[n..]))
  }

  // ----- Numeric ids

  function HexValue(c: char): (d: int)
    ensures -1 <= d < 16
  {
    if Digit(c) then DigitValue(c)
    else if 'a' <= c <= 'f' then c as int - 'a' as int + 10
    else if 'A' <= c <= 'F' then c as int - 'A' as int + 10
    else -1
  }

  /** The value of a string made of digits of the base only; -1 otherwise. */
  function Magnitude(t: string, base: int): (n: int)
    requires 2 <= base <= 16
    ensures -1 <= n
  {
    if t == [] then 0
    else
      var rest, d := Magnitude(t[..|t| - 1], base), HexValue(t[|t| - 1]);
      if rest < 0 || d < 0 || d >= base then -1 else rest * base + d
  }

  const LONG_MAX := 0x7FFF_FFFF_FFFF_FFFF

  function Saturate(n: int): int {
    if n > LONG_MAX then LONG_MAX else if n < -LONG_MAX - 1 then -LONG_MAX - 1 else n
  }

  /** `strtol(token, &ep, 0)` where nothing may be left over; a 64-bit long.  Of
      an empty token nothing is left over. */
  function StrToL(token: string): Option<int> {
    if token == [] then Some(0) else StrToLong(token)
  }

  function StrToLong(token: string): Option<int> {
    var t := SkipSpace(token);
    var minus := Head(t) == '-';
    var u := if minus || Head(t) == '+' then t[1..] else t;
    var n :=
      if |u| > 2 && u[0] == '0' && (u[1] == 'x' || u[1] == 'X') then Magnitude(u[2..], 16)
      else if u == [] then -1
      else if u[0] == '0' then Magnitude(u, 8)
      else Magnitude(u, 10);
    if n < 0 then None else Some(Saturate(if minus then -n else n))
  }

  /** `get_id`: negative values keep sixteen bits, all keep thirty-two. */
  function GetId(token: string): (r: Option<Id>) {
    var l := StrToL(token);
    if l.None? then None
    else Some((if l.value < 0 then l.value % 0x1_0000 else l.value) % 0x1_0000_0000)
  }

  lemma {:induction false} MagnitudeDecimal(t: string)
    requires forall i :: 0 <= i < |t| ==> Digit(t[i])
    ensures Magnitude(t, 10) == Number(t, 10)
  {
    if t != [] {
      MagnitudeDecimal(t[..|t| - 1]);
    }
  }

  lemma StrToLDecimal(t: string)
    requires t != [] && Digit(t[0]) && t[0] != '0' && Magnitude(t, 10) >= 0
    ensures StrToL(t) == Some(Saturate(Magnitude(t, 10)))
  {
    hide Magnitude;
  }

  lemma StrToLZero()
    ensures StrToL("0") == Some(0)
  {
    var t := "0";
    assert t[..0] == [];
    assert Magnitude(t[..0], 8) == 0 && HexValue(t[0]) == 0;
    assert SkipSpace(t) == t;
  }

  /** What was printed as a number is read as that number. */
  lemma GetIdDecimal(n: Id)
    ensures GetId(Decimal(n)) == Some(n)
  {
    hide Magnitude, StrToL, Decimal, Number;
    var t := Decimal(n);
    if n == 0 {
      StrToLZero();
    } else {
      DecimalNumber(n);
      MagnitudeDecimal(t);
      StrToLDecimal(t);
    }
  }

  // ----- Entries

  /** `getpwnam` and `getgrnam`. */
  datatype Accounts = Accounts(users: map<string, Id>, groups: map<string, Id>)

  function LookUp(token: string, names: map<string, Id>): Option<Id> {
    var id := GetId(token);
    if id.Some? then id else if token in names then Some(names[token]) else None
  }

  datatype Parsed = Bad | Good(entry: Entry, rest: string)

  function FlagBit(c: char): Perm {
    if c == 'r' then READ else if c == 'w' then WRITE else if c == 'x' then EXECUTE else 0
  }

  predicate Given(p: Perm, bit: Perm) {
    p & bit != 0
  }

  /** The permission characters after `n` of them have been read; none may
      stand twice. */
  function ParsePerm(t: string, n: nat, p: Perm): (r: Option<(Perm, string)>)
    requires n <= 3
    decreases 3 - n
  {
    var bit := FlagBit(Head(t));
    if n == 3 then Some((p, t))
    else if t != [] && bit != 0 then if Given(p, bit) then None else ParsePerm(t[1..], n + 1, Union(p, bit))
    else if Head(t) == '-' then ParsePerm(t[1..], n + 1, p)
    else if n == 0 then None else Some((p, t))
  }

  lemma {:induction false} PermShorter(t: string, n: nat, p: Perm)
    requires n <= 3
    ensures var r := ParsePerm(t, n, p);
      r.Some? ==> |r.value.1| <= |t| && (n == 0 ==> |r.value.1| < |t|)
    decreases 3 - n
  {
    hide FlagBit, Given, Union;
    if n < 3 && t != [] {
      PermShorter(t[1..], n + 1, p);
      PermShorter(t[1..], n + 1, Union(p, FlagBit(Head(t))));
    }
  }

  /** Tag and qualifier, up to the permissions. */
  function ParseKey(t: string, a: Accounts): (r: Option<(int, Id, string)>)
    ensures r.Some? ==> KnownTag(r.value.0) && |r.value.2| <= |t|
  {
    var u := SkipWs(t);
    if Head(u) == 'u' then Qualified(SkipTagName(u, "user"), USER, USER_OBJ, a.users)
    else if Head(u) == 'g' then Qualified(SkipTagName(u, "group"), GROUP, GROUP_OBJ, a.groups)
    else if Head(u) == 'm' then Unqualified(SkipTagName(u, "mask"), MASK)
    else if Head(u) == 'o' then Unqualified(SkipTagName(u, "other"), OTHER)
    else None
  }

  function Qualified(r: Option<string>, named: int, owner: int, names: map<string, Id>): (k: Option<(int, Id, string)>)
    ensures k.Some? ==> r.Some? && (k.value.0 == named || k.value.0 == owner)
    ensures k.Some? ==> |k.value.2| <= |r.value|
  {
    if r.None? then None
    else
      var token := GetToken(r.value);
      if token.0.None? then Some((owner, UNDEFINED_ID, token.1))
      else
        var id := LookUp(Unquoted(token.0.value), names);
        if id.None? then None else Some((named, id.value, token.1))
  }

  function Unqualified(r: Option<string>, tag: int): (k: Option<(int, Id, string)>)
    ensures k.Some? ==> r.Some? && k.value.0 == tag
    ensures k.Some? ==> |k.value.2| <= |r.value|
  {
    if r.None? then None else Some((tag, UNDEFINED_ID, StripColon(SkipWs(r.value))))
  }

  /** `parse_acl_entry`. */
  function ParseEntry(t: string, a: Accounts): (r: Parsed)
    ensures r.Good? ==> |r.rest| < |t| && KnownTag(r.entry.tag)
  {
    var key := ParseKey(t, a);
    if key.None? then Bad
    else
      var perm := ParsePerm(key.value.2, 0, 0);
      PermShorter(key.value.2, 0, 0);
      if perm.None? then Bad else Good(Entry(key.value.0, key.value.1, perm.value.0), perm.value.1)
  }

  /** After an entry: white space, and one comma with white space. */
  function NextEntry(t: string): (r: string)
    ensures |r| <= |t|
  {
    var u := SkipWs(t);
    if Head(u) == ',' then SkipWs(u[1..]) else u
  }

  /** `acl_from_text`, the entries in text order. */
  function ParseAll(t: string, a: Accounts): (r: Option<seq<Entry>>)
    decreases |t|
  {
    if t == [] then Some([])
    else
      var p := ParseEntry(t, a);
      if p.Bad? then None
      else
        var rest := ParseAll(NextEntry(p.rest), a);
        if rest.None? then None else Some([p.entry] + rest.value)
  }

  /** Each entry is created at the end and re-inserted. */
  function InsertAll(s: seq<Entry>, es: seq<Entry>): seq<Entry> {
    if es == [] then s else var t := InsertAll(s, es[..|es| - 1]); Reorder(t + [es[|es| - 1]], |t|)
  }

  function FromText(t: string, a: Accounts): Option<seq<Entry>> {
    var es := ParseAll(t, a);
    if es.None? then None else Some(InsertAll([], es.value))
  }
}
