/** `parse_acl_cmd` and `read_acl_seq`: the text form of `setfacl` commands. */
module AclCommandText {
  import opened Wrappers
  import opened Text
  import opened AclEntry
  import opened AclOps
  import opened AclText
  import opened AclCommands

  /** SEQ_PARSE_WITH_PERM, SEQ_PARSE_NO_PERM, SEQ_PARSE_MULTI,
      SEQ_PARSE_DEFAULT and SEQ_PROMOTE_ACL. */
  datatype ParseMode = ParseMode(withPerm: bool, noPerm: bool, multi: bool, default: bool, promote: bool)

  /** `skip_tag_name`; here a colon, a comma or the end must follow. */
  function SkipTag(t: string, name: string): (r: Option<string>)
    requires name != []
  {
    var u := SkipBlanks(t);
    if name <= u then AfterTag(u[|name|..])
    else if u != [] && u[0] == name[0] then AfterTag(u[1..])
    else None
  }

  function AfterTag(t: string): (r: Option<string>) {
    var u := SkipBlanks(t);
    if Head(u) == ':' then Some(u[1..]) else if Head(u) == ',' || Head(u) == NUL then Some(u) else None
  }

  function TrimRight(t: string): string {
    if t != [] && Blank(t[|t| - 1]) then TrimRight(t[..|t| - 1]) else t
  }

  function TakeToken(t: string): (r: (Option<string>, string)) {
    var u := SkipBlanks(t);
    var n := TokenLength(u);
    (if n == 0 then None else Some(TrimRight(u[..n])), StripColon(u[n..]))
  }

  /** Tag, qualifier and the text after them. */
  type CmdKey = (int, Id, string)

  function UserKey(t: string, a: Accounts): Option<CmdKey> {
    NamedKey(t, USER, USER_OBJ, a.users)
  }

  function NamedKey(t: string, named: int, owner: int, names: map<string, Id>): Option<CmdKey> {
    var token := TakeToken(t);
    if token.0.None? then Some((owner, UNDEFINED_ID, token.1))
    else
      var id := LookUp(Unquoted(token.0.value), names);
      if id.None? then None else Some((named, id.value, token.1))
  }

  function BareKey(t: string, tag: int): Option<CmdKey> {
    Some((tag, UNDEFINED_ID, StripColon(SkipBlanks(t))))
  }

  /** Whatever is not another tag is taken for a user. */
  function CommandKey(t: string, a: Accounts): Option<CmdKey> {
    if Head(t) == 'u' then var r := SkipTag(t, "user"); UserKey(if r.Some? then r.value else t, a)
    else if Head(t) == 'g' then
      var r := SkipTag(t, "group");
      if r.None? then UserKey(t, a) else NamedKey(r.value, GROUP, GROUP_OBJ, a.groups)
    else if Head(t) == 'o' then
      var r := SkipTag(t, "other");
      if r.None? then UserKey(t, a) else BareKey(r.value, OTHER)
    else if Head(t) == 'm' then
      var r := SkipTag(t, "mask");
      if r.None? then UserKey(t, a) else BareKey(r.value, MASK)
    else UserKey(t, a)
  }

  function SkipZeros(t: string): string {
    if Head(t) == '0' then SkipZeros(t[1..]) else t
  }

  function OctalPerm(c: char): Perm
    requires Octal(c)
  {
    if c == '0' then 0 else if c == '1' then 1 else if c == '2' then 2 else if c == '3' then 3
    else if c == '4' then 4 else if c == '5' then 5 else if c == '6' then 6 else 7
  }

  function LetterBit(c: char): Perm {
    if c == 'X' then COND_EXECUTE else FlagBit(c)
  }

  /** Permission letters after `n` of them; `X` may stand among them, none may
      stand twice. */
  function Letters(t: string, n: nat, p: Perm): (r: Option<(Perm, string)>)
    requires n <= 3
    decreases 3 - n
  {
    var bit := LetterBit(Head(t));
    if n == 3 then Some((p, t))
    else if t != [] && bit != 0 then if Given(p, bit) then None else Letters(t[1..], n + 1, Union(p, bit))
    else if Head(t) == '-' then Letters(t[1..], n + 1, p)
    else if n == 0 then None else Some((p, t))
  }

  function CommandPerm(t: string): (r: Option<(Perm, string)>) {
    if Octal(Head(t)) then
      var u := SkipZeros(t);
      Some(if u != [] && '1' <= u[0] <= '7' then (OctalPerm(u[0]), u[1..]) else (0, u))
    else Letters(t, 0, 0)
  }

  datatype ParsedCommand = BadCommand | GoodCommand(cmd: Command, rest: string)

  /** `parse_acl_cmd`. */
  function ParseCommand(t: string, verb: Verb, m: ParseMode, a: Accounts): ParsedCommand {
    var d := if m.default then SkipTag(t, "default") else None;
    if d.Some? && m.promote then BadCommand
    else
      var target := if m.promote || d.Some? then Default else Access;
      var key := CommandKey(if d.Some? then d.value else t, a);
      if key.None? then BadCommand
      else
        var u := SkipBlanks(key.value.2);
        var bare := Command(verb, target, key.value.0, key.value.1, 0);
        if Head(u) == ',' || Head(u) == NUL then if m.noPerm then GoodCommand(bare, u) else BadCommand
        else if !m.withPerm then GoodCommand(bare, u)
        else
          var perm := CommandPerm(u);
          if perm.None? then BadCommand else GoodCommand(bare.(perm := perm.value.0), perm.value.1)
  }

  /** `read_acl_seq` over the lines of a file. */
  function ReadCommands(ls: seq<string>, verb: Verb, m: ParseMode, a: Accounts): Option<seq<Command>> {
    if ls == [] then Some([])
    else
      var t := SkipBlanks(ls[0]);
      if t == "" then if m.multi then Some([]) else ReadCommands(ls[1..], verb, m, a)
      else if t[0] == '#' then ReadCommands(ls[1..], verb, m, a)
      else
        var c := ParseCommand(t, verb, m, a);
        if c.BadCommand? then None
        else
          var after := SkipBlanks(c.rest);
          if after != "" && after[0] != '#' then None
          else
            var rest := ReadCommands(ls[1..], verb, m, a);
            if rest.None? then None else Some([c.cmd] + rest.value)
  }
}
