/** `setfattr --restore` replays the attributes a dump shows. */
module AttrRestore {
  import opened Text
  import opened Wrappers
  import opened AttrCodec
  import opened AttrBuffer
  import opened AttrDump

  /** One `setxattr` call. */
  datatype Setting = Setting(path: string, name: string, value: string)
  datatype Outcome = Outcome(settings: seq<Setting>, status: int)

  /** The first `=` of a line, or its length. */
  function Equals(l: string): (n: nat)
    ensures n <= |l|
    ensures n < |l| ==> l[n] == '='
    ensures '=' !in l[..n]
  {
    if l == [] || l[0] == '=' then 0 else 1 + Equals(l[1..])
  }

  /** What `do_set` makes of a line: `None` when the value cannot be decoded.
      `ready` tells whether an earlier value has given the decoder a buffer. */
  function LineSetting(path: string, l: string, ready: bool): Option<Setting> {
    var n := Equals(l);
    var value := if n < |l| then DecodeFrom(ready, l[n + 1..]) else Some([]);
    if value.None? then None else Some(Setting(path, Unquoted(l[..n]), value.value))
  }

  predicate Allocates(l: string) {
    var n := Equals(l);
    n < |l| && Request(l[n + 1..]) > 0
  }

  function Cons(s: Option<Setting>, o: Outcome): Outcome {
    if s.None? then o else Outcome([s.value] + o.settings, o.status)
  }

  predicate IsHeader(l: string) {
    |l| >= |HEADER| && l[..|HEADER|] == HEADER
  }

  /** Between files: empty lines are passed over, anything but a header ends
      the run. */
  function Blocks(lines: seq<string>, status: int, ready: bool): Outcome
    decreases |lines|
  {
    if lines == [] then Outcome([], status)
    else if lines[0] == [] then Blocks(lines[1..], status, ready)
    else if !IsHeader(lines[0]) then Outcome([], 1)
    else Entries(Unquoted(lines[0][|HEADER|..]), lines[1..], status, ready)
  }

  /** The attributes of a file, up to an empty line.  The status is that of the
      last one. */
  function Entries(path: string, lines: seq<string>, status: int, ready: bool): Outcome
    decreases |lines|
  {
    if lines == [] then Outcome([], status)
    else if lines[0] == [] then Blocks(lines[1..], status, ready)
    else
      var s := LineSetting(path, lines[0], ready);
      Cons(s, Entries(path, lines[1..], if s.None? then 1 else 0, ready || Allocates(lines[0])))
  }

  /** An empty value after `=` is refused as the first value of a run, and set as
      a later one. */
  lemma EmptyValueFirst(path: string, name: string)
    requires Free(name, NAME_QUOTED)
    ensures LineSetting(path, name + "=", false) == None
    ensures LineSetting(path, name + "=", true) == Some(Setting(path, Unquoted(name), []))
  {
    hide Unquoted, Equals;
    var l := name + "=";
    EqualsAt(name, "");
    assert name + "=" + "" == l && l[|name| + 1..] == [] && l[..|name|] == name;
  }

  // ----- The round trip

  function SettingOf(option: Choice, path: string, a: Attr): Setting {
    Setting(path, a.name, Restored(option, a.value))
  }

  function FileSettings(option: Choice, path: string, attrs: seq<Attr>): seq<Setting> {
    if attrs == [] then [] else [SettingOf(option, path, attrs[0])] + FileSettings(option, path, attrs[1..])
  }

  function Settings(option: Choice, files: seq<File>): seq<Setting> {
    if files == [] then []
    else FileSettings(option, files[0].path, files[0].attrs) + Settings(option, files[1..])
  }

  lemma {:induction false} EqualsAt(l: string, rest: string)
    requires Free(l, NAME_QUOTED)
    ensures Equals(l) == |l| && Equals(l + "=" + rest) == |l|
  {
    if l != [] {
      EqualsAt(l[1..], rest);
      assert (l + "=" + rest)[1..] == l[1..] + "=" + rest;
    }
  }

  lemma AttrLineRead(option: Choice, path: string, a: Attr, ready: bool)
    requires GoodAttr(a)
    ensures LineSetting(path, AttrLine(option, a), ready) == Some(SettingOf(option, path, a))
  {
    hide Encode, Decode, Quote, Unquoted, Restored, Equals, Request;
    var l := AttrLine(option, a);
    var q := Quote(a.name, NAME_QUOTED);
    var e := Encode(option, a.value);
    QuoteFree(a.name, NAME_QUOTED);
    EqualsAt(q, e);
    NameRestored(a.name, NAME_QUOTED);
    EncodedDecoded(option, a.value);
    if a.value != [] {
      EncodedRequests(option, a.value);
      assert l[..|q|] == q && l[|q| + 1..] == e;
    } else {
      assert l[..|q|] == q;
      RestoredEmpty(option);
    }
  }

  lemma RestoredEmpty(option: Choice)
    ensures Restored(option, []) == []
  {
  }

  lemma EntriesCons(path: string, l: string, lines: seq<string>, ready: bool)
    ensures l == [] ==> Entries(path, [l] + lines, 0, ready) == Blocks(lines, 0, ready)
    ensures l != [] && LineSetting(path, l, ready).Some? ==>
      var o := Entries(path, lines, 0, ready || Allocates(l));
      Entries(path, [l] + lines, 0, ready) == Outcome([LineSetting(path, l, ready).value] + o.settings, o.status)
  {
    hide LineSetting, Allocates, Blocks;
    assert ([l] + lines)[1..] == lines;
  }

  /** Whatever the lines of a file need, and whatever comes after them. */
  lemma {:induction false} EntriesRead(option: Choice, path: string, attrs: seq<Attr>, rest: seq<string>,
                                       ready: bool, after: Outcome)
    requires forall i :: 0 <= i < |attrs| ==> GoodAttr(attrs[i])
    requires Blocks(rest, 0, true) == Blocks(rest, 0, false) == after
    ensures Entries(path, AttrLines(option, attrs) + [""] + rest, 0, ready)
        == Outcome(FileSettings(option, path, attrs) + after.settings, after.status)
    decreases |attrs|
  {
    hide AttrLine, LineSetting, Blocks, Allocates, Entries;
    var lines := AttrLines(option, attrs) + [""] + rest;
    if attrs == [] {
      assert lines == [""] + rest;
      EntriesCons(path, "", rest, ready);
    } else {
      var l, more := AttrLine(option, attrs[0]), AttrLines(option, attrs[1..]) + [""] + rest;
      AttrLineFree(option, attrs[0]);
      AttrLineRead(option, path, attrs[0], ready);
      assert lines == [l] + more;
      EntriesCons(path, l, more, ready);
      EntriesRead(option, path, attrs[1..], rest, ready || Allocates(l), after);
      assert [SettingOf(option, path, attrs[0])] + (FileSettings(option, path, attrs[1..]) + after.settings)
        == FileSettings(option, path, attrs) + after.settings;
    }
  }

  lemma {:induction false} BlocksRead(option: Choice, files: seq<File>)
    requires GoodFiles(files)
    ensures Blocks(DumpLines(option, files), 0, true) == Blocks(DumpLines(option, files), 0, false)
      == Outcome(Settings(option, files), 0)
  {
    if files != [] {
      var f, rest := files[0], DumpLines(option, files[1..]);
      BlocksRead(option, files[1..]);
      if f.attrs == [] {
        assert DumpLines(option, files) == rest;
        assert Settings(option, files) == Settings(option, files[1..]);
      } else {
        FileRead(option, f, rest, true, Outcome(Settings(option, files[1..]), 0));
        FileRead(option, f, rest, false, Outcome(Settings(option, files[1..]), 0));
      }
    }
  }

  lemma FileRead(option: Choice, f: File, rest: seq<string>, ready: bool, after: Outcome)
    requires GoodFile(f) && f.attrs != [] && Blocks(rest, 0, true) == Blocks(rest, 0, false) == after
    ensures Blocks(FileLines(option, f) + rest, 0, ready)
      == Outcome(FileSettings(option, f.path, f.attrs) + after.settings, after.status)
  {
    hide Quote, Unquoted, AttrLines, Entries;
    var head := HEADER + Quote(f.path, EOL);
    var lines := FileLines(option, f) + rest;
    assert lines[0] == head && lines[1..] == AttrLines(option, f.attrs) + [""] + rest;
    assert head[..|HEADER|] == HEADER && head[|HEADER|..] == Quote(f.path, EOL);
    NameRestored(f.path, EOL);
    EntriesRead(option, f.path, f.attrs, rest, ready, after);
  }

  /** Restoring a dump makes exactly the settings dumped, in their order, each
      value as it was but for the NUL that quoted text drops. */
  lemma DumpRestored(option: Choice, files: seq<File>)
    requires GoodFiles(files)
    ensures var lines := Lines(Joined(DumpLines(option, files)));
      Blocks(lines, 0, true) == Blocks(lines, 0, false) == Outcome(Settings(option, files), 0)
  {
    hide DumpLines, Blocks, Lines, Joined, Settings;
    DumpLinesFree(option, files);
    LinesJoined(DumpLines(option, files));
    BlocksRead(option, files);
  }

  // ----- The loops

  /** The calls made so far, then those of the rest. */
  function After(done: seq<Setting>, o: Outcome): Outcome {
    Outcome(done + o.settings, o.status)
  }

  lemma BlocksTurn(lines: seq<string>, i: nat, status: int, ready: bool)
    requires i <= |lines|
    ensures i == |lines| ==> Blocks(lines[i..], status, ready) == Outcome([], status)
    ensures i < |lines| && lines[i] == [] ==>
      Blocks(lines[i..], status, ready) == Blocks(lines[i + 1..], status, ready)
    ensures i < |lines| && lines[i] != [] && !IsHeader(lines[i]) ==> Blocks(lines[i..], status, ready) == Outcome([], 1)
    ensures i < |lines| && lines[i] != [] && IsHeader(lines[i]) ==>
      Blocks(lines[i..], status, ready)
        == Entries(Unquoted(lines[i][|HEADER|..]), lines[i + 1..], status, ready)
  {
    hide Unquoted, Entries;
    if i < |lines| {
      assert lines[i..][1..] == lines[i + 1..];
    }
  }

  lemma EntriesTurn(path: string, lines: seq<string>, i: nat, status: int, ready: bool, done: seq<Setting>)
    requires i <= |lines|
    ensures i == |lines| ==> Entries(path, lines[i..], status, ready) == Outcome([], status)
    ensures i < |lines| && lines[i] == [] ==>
      Entries(path, lines[i..], status, ready) == Blocks(lines[i + 1..], status, ready)
    ensures i < |lines| && lines[i] != [] ==>
      var s := LineSetting(path, lines[i], ready);
      var rest := Entries(path, lines[i + 1..], if s.None? then 1 else 0, ready || Allocates(lines[i]));
      After(done, Entries(path, lines[i..], status, ready)) == After(if s.None? then done else done + [s.value], rest)
  {
    hide LineSetting, Blocks, Allocates;
    if i < |lines| {
      assert lines[i..][1..] == lines[i + 1..];
      var s := LineSetting(path, lines[i], ready);
      var rest := Entries(path, lines[i + 1..], if s.None? then 1 else 0, ready || Allocates(lines[i]));
      assert s.Some? ==> done + ([s.value] + rest.settings) == done + [s.value] + rest.settings;
    }
  }

  /** `do_set` for one line, with the buffer of `decode`. */
  method SetLine(b: HighWater, path: string, l: string) returns (s: Option<Setting>)
    requires b.Valid()
    modifies b, b.buf
    ensures b.Valid() && (b.buf == old(b.buf) || fresh(b.buf))
    ensures s == LineSetting(path, l, old(b.buf) != null)
    ensures b.buf != null <==> old(b.buf) != null || Allocates(l)
  {
    hide Unquoted, Decode, Request;
    var n := Equals(l);
    if n == |l| {
      return Some(Setting(path, Unquoted(l[..n]), []));
    }
    var r := DecodeValue(b, l[n + 1..]);
    if r.None? {
      return None;
    }
    s := Some(Setting(path, Unquoted(l[..n]), b.buf[..r.value]));
  }

  /** The attribute lines of one file. */
  method RestoreFile(b: HighWater, lines: seq<string>, from: nat, path: string, settings: seq<Setting>, status: int)
    returns (i: nat, settings': seq<Setting>, status': int)
    requires b.Valid() && from <= |lines|
    modifies b, b.buf
    ensures b.Valid() && (b.buf == old(b.buf) || fresh(b.buf))
    ensures from <= i <= |lines| && (i < |lines| ==> lines[i] == [])
    ensures After(settings', Entries(path, lines[i..], status', b.buf != null))
      == After(settings, Entries(path, lines[from..], status, old(b.buf) != null))
  {
    hide LineSetting, Entries, After, Allocates;
    i, settings', status' := from, settings, status;
    while i < |lines| && lines[i] != []
      invariant b.Valid() && (b.buf == old(b.buf) || fresh(b.buf)) && from <= i <= |lines|
      invariant After(settings', Entries(path, lines[i..], status', b.buf != null))
        == After(settings, Entries(path, lines[from..], status, old(b.buf) != null))
    {
      EntriesTurn(path, lines, i, status', b.buf != null, settings');
      var s := SetLine(b, path, lines[i]);
      if s.Some? {
        settings' := settings' + [s.value];
      }
      status' := if s.None? then 1 else 0;
      i := i + 1;
    }
  }

  /** `restore`, before which nothing has been decoded. */
  method Restore(lines: seq<string>) returns (settings: seq<Setting>, status: int)
    ensures Outcome(settings, status) == Blocks(lines, 0, false)
  {
    hide Unquoted, IsHeader, Blocks, Entries;
    settings, status := [], 0;
    var b := new HighWater();
    var i := 0;
    assert lines[0..] == lines;
    while true
      invariant b.Valid() && fresh(b) && (b.buf != null ==> fresh(b.buf)) && 0 <= i <= |lines|
      invariant After(settings, Blocks(lines[i..], status, b.buf != null)) == Blocks(lines, 0, false)
      decreases |lines| - i
    {
      while i < |lines| && lines[i] == []
        invariant b.Valid() && fresh(b) && (b.buf != null ==> fresh(b.buf)) && 0 <= i <= |lines|
        invariant After(settings, Blocks(lines[i..], status, b.buf != null)) == Blocks(lines, 0, false)
      {
        BlocksTurn(lines, i, status, b.buf != null);
        i := i + 1;
      }
      BlocksTurn(lines, i, status, b.buf != null);
      if i == |lines| {
        break;
      }
      if !IsHeader(lines[i]) {
        status := 1;
        break;
      }
      HeaderLength(lines[i]);
      var path := Unquoted(lines[i][|HEADER|..]);
      i, settings, status := RestoreFile(b, lines, i + 1, path, settings, status);
      EntriesTurn(path, lines, i, status, b.buf != null, settings);
      if i == |lines| {
        break;
      }
      i := i + 1;
    }
  }

  lemma HeaderLength(l: string)
    requires IsHeader(l)
    ensures |l| >= |HEADER|
  {
  }
}
