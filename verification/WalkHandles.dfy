/** The walk as it is carried out: a list of the directories being read, the
    outermost of which lose their streams when the budget runs out. */
module WalkHandles {
  import opened Wrappers
  import opened WalkTree
  import opened WalkBudget

  /** An entry of the handle list.  `stream` is the offset of the open stream;
      `pos` keeps the offset while it is closed. */
  datatype Handle = Handle(id: Inode, stream: Option<nat>, pos: nat)

  function Offset(h: Handle): nat {
    if h.stream.Some? then h.stream.value else h.pos
  }

  /** The same directories, read just as far. */
  ghost predicate Same(a: seq<Handle>, b: seq<Handle>) {
    && |a| == |b|
    && forall i :: 0 <= i < |a| ==> a[i].id == b[i].id && Offset(a[i]) == Offset(b[i])
  }

  ghost function Ids(stack: seq<Handle>): set<Inode> {
    set i | 0 <= i < |stack| :: stack[i].id
  }

  ghost predicate Distinct(stack: seq<Handle>) {
    forall i, j :: 0 <= i < j < |stack| ==> stack[i].id != stack[j].id
  }

  lemma SameIds(a: seq<Handle>, b: seq<Handle>)
    requires Same(a, b)
    ensures Ids(a) == Ids(b)
  {
    assert forall i :: 0 <= i < |a| ==> a[i].id == b[i].id;
  }

  lemma PushedIds(stack: seq<Handle>, h: Handle)
    ensures Ids(stack + [h]) == Ids(stack) + {h.id}
  {
    var s := stack + [h];
    assert s[|stack|] == h;
    assert forall i :: 0 <= i < |stack| ==> s[i] == stack[i];
  }

  /** The outermost `closed` handles are closed and the others open; none is
      listed twice; what is left of the budget and the streams open together
      are at least one and at most the limit. */
  ghost predicate Sound(stack: seq<Handle>, closed: int, budget: int, limit: int) {
    && 0 <= closed <= |stack|
    && Distinct(stack)
    && (forall i :: 0 <= i < closed ==> stack[i].stream.None?)
    && (forall i :: closed <= i < |stack| ==> stack[i].stream.Some?)
    && 0 <= budget
    && 1 <= budget + (|stack| - closed) <= limit
  }

  /** The sum of what the caller's function returned. */
  function Total(func: Event -> int, trace: seq<Event>): int {
    if trace == [] then 0 else Total(func, trace[..|trace| - 1]) + func(trace[|trace| - 1])
  }

  class Walker {
    const fs: Graph
    const w: Flags
    const func: Event -> int
    const limit: nat
    var path: string
    var stack: seq<Handle>
    var closed: nat
    var budget: nat
    /** The calls of `opendir` made to enter directories, of which the `k`th
        fails for want of descriptors if `exhausted(k)`. */
    var attempts: nat
    const exhausted: nat -> bool
    /** The calls of the caller's function. */
    var trace: seq<Event>

    ghost predicate Valid()
      reads this
    {
      Closed(fs) && Sound(stack, closed, budget, limit)
    }

    ghost function Strength(): int
      reads this
    {
      budget + |stack| - closed
    }

    ghost function View(): Streams
      reads this
    {
      Streams(closed, budget, attempts)
    }

    constructor (fs: Graph, w: Flags, func: Event -> int, exhausted: nat -> bool, limit: nat, path: string)
      requires Closed(fs) && limit >= 1
      ensures Valid() && this.fs == fs && this.w == w && this.func == func && this.limit == limit
      ensures this.exhausted == exhausted && this.path == path && stack == [] && trace == []
      ensures View() == Streams(0, limit, 0)
    {
      this.fs, this.w, this.func, this.exhausted, this.limit, this.path := fs, w, func, exhausted, limit, path;
      stack, closed, budget, attempts, trace := [], 0, limit, 0, [];
    }

    method Call(e: Event) returns (r: int)
      modifies this`trace
      ensures trace == old(trace) + [e]
      ensures r == Total(func, trace) - old(Total(func, trace))
    {
      trace := trace + [e];
      r := func(e);
      assert trace[..|trace| - 1] == old(trace);
    }

    /** Closes the outermost stream still open. */
    method CloseAnother()
      requires Valid() && closed < |stack|
      modifies this`stack, this`closed, this`budget
      ensures Valid() && Same(stack, old(stack)) && Strength() == old(Strength()) && View() == CloseOne(old(View()))
    {
      var h := stack[closed];
      stack := stack[closed := Handle(h.id, None, h.stream.value)];
      closed := closed + 1;
      budget := budget + 1;
    }

    /** Tries `opendir`, closing streams as long as descriptors are wanting. */
    method OpenDir(dest: Option<Inode>) returns (r: Opening)
      requires Valid() && (dest.Some? ==> dest.value in fs)
      modifies this`stack, this`closed, this`budget, this`attempts
      ensures Valid() && Same(stack, old(stack)) && Strength() <= old(Strength())
      ensures var (t, ok) := Open(exhausted, old(View()), |stack|);
        View() == t && (r == if ok then Attempt(fs, dest) else Denied) && (ok ==> budget > 0)
    {
      hide Closed;
      if budget == 0 && closed < |stack| {
        CloseAnother();
      }
      ghost var goal := Retry(exhausted, View(), |stack|);
      while exhausted(attempts) && closed < |stack|
        invariant Valid() && Same(stack, old(stack)) && Strength() <= old(Strength())
        invariant budget > 0 && Retry(exhausted, View(), |stack|) == goal
        decreases |stack| - closed
      {
        attempts := attempts + 1;
        budget := 0;
        CloseAnother();
      }
      var ok := !exhausted(attempts);
      attempts := attempts + 1;
      r := if ok then Attempt(fs, dest) else Denied;
    }

    /** Lists a directory just opened, as the innermost. */
    method Push(id: Inode)
      requires Valid() && budget > 0 && id !in Ids(stack)
      modifies this`stack, this`budget
      ensures Valid() && stack == old(stack) + [Handle(id, Some(0), 0)] && Strength() == old(Strength())
      ensures View() == old(View()).(budget := old(budget) - 1)
    {
      assert forall i :: 0 <= i < |stack| ==> stack[i].id in Ids(stack);
      stack := stack + [Handle(id, Some(0), 0)];
      budget := budget - 1;
    }

    method Pop()
      requires Valid() && closed < |stack|
      modifies this`stack, this`budget
      ensures Valid() && stack == old(stack[..|stack| - 1]) && Strength() == old(Strength())
      ensures View() == old(View()).(budget := old(budget) + 1)
    {
      stack := stack[..|stack| - 1];
      budget := budget + 1;
    }

    /** `readdir`: takes the stream one entry on. */
    method Advance()
      requires Valid() && closed < |stack|
      modifies this`stack
      ensures Valid() && Strength() == old(Strength()) && |stack| == old(|stack|)
      ensures stack[..|stack| - 1] == old(stack[..|stack| - 1])
      ensures stack[|stack| - 1].id == old(stack[|stack| - 1].id)
      ensures Offset(stack[|stack| - 1]) == old(Offset(stack[|stack| - 1])) + 1
    {
      var last := |stack| - 1;
      var h := stack[last];
      stack := stack[last := h.(stream := Some(h.stream.value + 1))];
    }

    /** Opens the innermost directory again where it was left off; it was closed
        only if every other one was. */
    method Reopen()
      requires Valid() && 0 < |stack| == closed
      modifies this`stack, this`closed, this`budget
      ensures Valid() && Same(stack, old(stack)) && closed < |stack| && Strength() == old(Strength())
      ensures View() == Reopened(old(View()), |stack|)
    {
      var last := |stack| - 1;
      var h := stack[last];
      stack := stack[last := h.(stream := Some(h.pos))];
      closed := closed - 1;
      budget := budget - 1;
    }

    method Visited(id: Inode) returns (found: bool)
      ensures found <==> id in Ids(stack)
    {
      var i := 0;
      while i < |stack|
        invariant 0 <= i <= |stack| && forall j :: 0 <= j < i ==> stack[j].id != id
      {
        if stack[i].id == id {
          return true;
        }
        i := i + 1;
      }
      return false;
    }

    /** What every part of the walk leaves as it was, or no weaker. */
    twostate predicate Kept()
      reads this
    {
      && Valid()
      && path == old(path) && Same(stack, old(stack)) && Strength() <= old(Strength())
    }

    /** The calls made and the streams left are those of a walk on values. */
    twostate predicate Did(r: Walked)
      reads this
    {
      trace == old(trace) + r.events && View() == r.streams
    }

    /** The part of the walk that concerns the object `path` leads to. */
    method WalkRec(node: Inode, depth: nat) returns (err: int)
      requires Valid() && node in fs
      modifies this
      ensures Kept() && err == Total(func, trace) - old(Total(func, trace))
      ensures Did(VisitWithin(fs, w, exhausted, path, node, depth, old(Ids(stack)), |stack|, old(View())))
      decreases Room(fs, Ids(stack)), 2
    {
      hide Closed, Sound, DescendWithin, Total, Ids;
      DescendNot(fs, w, exhausted, path, node, depth, Ids(stack), |stack|, View());
      var top, link := depth == 0, fs[node].Link?;
      var known, shown := fs[node].Dir?, node;
      if fs[node].Gone? {
        err := Call(Event(path, None, false, top, true));
        return;
      }
      if Dereferenced(fs, w, node, top) {
        if fs[node].target.None? {
          err := Call(Event(path, None, true, top, true));
          return;
        }
        known, shown := true, fs[node].target.value;
      }
      err := Call(Event(path, Some(shown), link, top, false));
      if Descends(fs, w, node, top) {
        var more := Enter(node, depth, known);
        err := err + more;
      }
    }

    method Enter(node: Inode, depth: nat, known: bool) returns (err: int)
      requires Valid() && node in fs && Descends(fs, w, node, depth == 0)
      requires known <==> (fs[node].Dir? || Dereferenced(fs, w, node, depth == 0))
      requires known ==> Destination(fs, node).Some?
      modifies this
      ensures Kept() && err == Total(func, trace) - old(Total(func, trace))
      ensures Did(DescendWithin(fs, w, exhausted, path, node, depth, old(Ids(stack)), |stack|, old(View())))
      decreases Room(fs, Ids(stack)), 1
    {
      hide Sound, Total, EntriesWithin, Closed, Ids, Open;
      var link, dest := fs[node].Link?, Destination(fs, node);
      DestinationIn(fs, node);
      err := 0;
      if known {
        var seen := Visited(dest.value);
        if seen {
          return;
        }
      }
      var r := OpenDir(dest);
      SameIds(stack, old(stack));
      match r {
        case Absent =>
        case Denied =>
          err := Call(Event(path, None, link, depth == 0, true));
        case Opened =>
          var seen := Visited(dest.value);
          if known || !seen {
            err := WalkDir(dest.value, depth, link);
          }
      }
    }

    /** One directory, from its insertion into the list to its removal. */
    method WalkDir(dir: Inode, depth: nat, link: bool) returns (err: int)
      requires Valid() && dir in fs && fs[dir].Dir? && dir !in Ids(stack) && budget > 0
      modifies this
      ensures Kept() && err == Total(func, trace) - old(Total(func, trace))
      ensures var r := EntriesWithin(fs, w, exhausted, path, dir, 0, depth, old(Ids(stack)) + {dir}, link,
                                     |stack| + 1, old(View()).(budget := old(budget) - 1));
        Did(r.(streams := r.streams.(budget := r.streams.budget + 1)))
      decreases Room(fs, Ids(stack)), 0
    {
      hide Sound, Total, EntriesWithin, Offset, Ids;
      ghost var above := Ids(stack) + {dir};
      var entries, d := fs[dir].entries, |stack|;
      err := 0;
      RoomShrinks(fs, Ids(stack), dir);
      PushedIds(stack, Handle(dir, Some(0), 0));
      SoundEnds(stack, closed, budget, limit);
      Push(dir);
      assert Offset(stack[d]) == 0 by { NewOffset(dir); }
      assert stack[..d] == old(stack);
      ghost var goal := EntriesWithin(fs, w, exhausted, path, dir, 0, depth, above, link, d + 1, View());
      while Offset(stack[d]) < |entries|
        invariant Valid() && path == old(path) && Strength() <= old(Strength())
        invariant |stack| == d + 1 && closed <= d && Same(stack[..d], old(stack)) && stack[d].id == dir
        invariant Offset(stack[d]) <= |entries| && Ids(stack) == above
        invariant err == Total(func, trace) - old(Total(func, trace))
        invariant var at := Offset(stack[d]);
          var r := EntriesWithin(fs, w, exhausted, path, dir, at, depth, above, link, d + 1, View());
          trace + r.events == old(trace) + goal.events && r.streams == goal.streams
        decreases |entries| - Offset(stack[d])
      {
        var r := NextEntry(dir, depth, link);
        err := err + r;
      }
      EntriesOver(fs, w, exhausted, path, dir, depth, above, link, d + 1, View());
      Pop();
    }

    /** The next entry of the innermost directory, whose stream is open again
        afterwards and one entry further on. */
    method NextEntry(dir: Inode, depth: nat, link: bool) returns (err: int)
      requires Valid() && dir in fs && fs[dir].Dir? && closed < |stack| && stack[|stack| - 1].id == dir
      requires Offset(stack[|stack| - 1]) < |fs[dir].entries|
      modifies this
      ensures Valid() && path == old(path) && Strength() <= old(Strength())
      ensures |stack| == old(|stack|) && closed < |stack| && Ids(stack) == old(Ids(stack))
      ensures Same(stack[..|stack| - 1], old(stack[..|stack| - 1])) && stack[|stack| - 1].id == dir
      ensures Offset(stack[|stack| - 1]) == old(Offset(stack[|stack| - 1])) + 1
      ensures err == Total(func, trace) - old(Total(func, trace))
      ensures var k := old(Offset(stack[|stack| - 1]));
        var r := EntriesWithin(fs, w, exhausted, path, dir, k, depth, Ids(stack), link, |stack|, old(View()));
        var t := EntriesWithin(fs, w, exhausted, path, dir, k + 1, depth, Ids(stack), link, |stack|, View());
        trace + t.events == old(trace) + r.events && t.streams == r.streams
      decreases Room(fs, Ids(stack)), 4
    {
      hide Sound, Total, EntriesWithin, Offset, VisitWithin, Closed;
      ghost var above := Ids(stack);
      var d := |stack| - 1;
      var k := Offset(stack[d]);
      var (name, child) := fs[dir].entries[k];
      EntriesStep(fs, w, exhausted, path, dir, k, depth, above, link, |stack|, View());
      err := 0;
      Advance();
      AdvancedIds(stack, old(stack));
      ghost var ahead := stack;
      if name == "." || name == ".." {
        return;
      }
      if |path| + |name| + 1 >= FILENAME_MAX {
        err := Call(Event(path, None, link, depth == 0, true));
        return;
      }
      err := VisitEntry(name, child, depth);
      SameIds(stack, ahead);
    }

    /** Walks below the innermost directory and, if that cost it its stream,
        opens it again. */
    method VisitEntry(name: string, child: Inode, depth: nat) returns (err: int)
      requires Valid() && child in fs && closed < |stack|
      modifies this
      ensures Kept() && closed < |stack|
      ensures err == Total(func, trace) - old(Total(func, trace))
      ensures var above := old(Ids(stack));
        var v := VisitWithin(fs, w, exhausted, path + "/" + name, child, depth + 1, above, |stack|, old(View()));
        Did(v.(streams := Reopened(v.streams, |stack|)))
      decreases Room(fs, Ids(stack)), 3
    {
      hide Sound, Total, VisitWithin, Ids, Closed;
      var n := |path|;
      path := path + "/" + name;
      err := WalkRec(child, depth + 1);
      path := path[..n];
      SoundEnds(stack, closed, budget, limit);
      if stack[|stack| - 1].stream.None? {
        Reopen();
      }
    }
  }

  /** `walk_tree`: without a number of streams to keep open, half the limit on
      file descriptors.  `node` is what the path leads to. */
  function Limit(num: nat, rlimit: Option<nat>): (limit: nat)
    ensures limit >= 1
  {
    if num >= 1 then num
    else if rlimit.Some? && rlimit.value >= 2 then rlimit.value / 2
    else 1
  }

  /** While no directory is refused for want of descriptors, and so at any rate
      where they never run out, the calls made are the same for every number of
      streams. */
  method WalkTreeFrom(fs: Graph, w: Flags, func: Event -> int, exhausted: nat -> bool, num: nat, rlimit: Option<nat>,
                      path: string, node: Inode)
    returns (err: int, trace: seq<Event>)
    requires Closed(fs) && node in fs
    ensures err == Total(func, trace)
    ensures |path| >= FILENAME_MAX ==> trace == [Event(path, None, false, false, true)]
    ensures |path| < FILENAME_MAX ==>
      var r := VisitWithin(fs, w, exhausted, path, node, 0, {}, 0, Streams(0, Limit(num, rlimit), 0));
      trace == r.events && (r.refused == 0 ==> trace == Visit(fs, w, path, node, 0, {}))
    ensures |path| < FILENAME_MAX && Ample(exhausted) ==> trace == Visit(fs, w, path, node, 0, {})
  {
    if |path| >= FILENAME_MAX {
      var e := Event(path, None, false, false, true);
      assert Total(func, [e]) == func(e) by { assert [e][..0] == []; }
      return func(e), [e];
    }
    hide Visit, VisitWithin, Total;
    var limit := Limit(num, rlimit);
    var walker := new Walker(fs, w, func, exhausted, limit, path);
    assert Ids([]) == {};
    TotalNone(func);
    err := walker.WalkRec(node, 0);
    trace := walker.trace;
    BudgetUnseen(fs, w, exhausted, path, node, 0, {}, 0, Streams(0, limit, 0));
    if Ample(exhausted) {
      NoneRefused(fs, w, exhausted, path, node, 0, {}, 0, Streams(0, limit, 0));
    }
  }

  lemma TotalNone(func: Event -> int)
    ensures Total(func, []) == 0
  {
  }

  lemma DestinationIn(fs: Graph, node: Inode)
    requires Closed(fs) && node in fs
    ensures var dest := Destination(fs, node); dest.Some? ==> dest.value in fs
  {
  }

  lemma DescendNot(fs: Graph, w: Flags, exhausted: nat -> bool, path: string, node: Inode, depth: nat,
                   above: set<Inode>, d: nat, s: Streams)
    requires Closed(fs) && node in fs
    ensures !Descends(fs, w, node, depth == 0) ==>
      DescendWithin(fs, w, exhausted, path, node, depth, above, d, s) == Walked([], s, 0)
  {
  }

  lemma EntriesOver(fs: Graph, w: Flags, exhausted: nat -> bool, path: string, dir: Inode, depth: nat,
                    above: set<Inode>, link: bool, d: nat, s: Streams)
    requires Closed(fs) && dir in fs && fs[dir].Dir?
    ensures EntriesWithin(fs, w, exhausted, path, dir, |fs[dir].entries|, depth, above, link, d, s) == Walked([], s, 0)
  {
  }

  lemma EntriesStep(fs: Graph, w: Flags, exhausted: nat -> bool, path: string, dir: Inode, k: nat, depth: nat,
                    above: set<Inode>, link: bool, d: nat, s: Streams)
    requires Closed(fs) && dir in fs && fs[dir].Dir? && k < |fs[dir].entries|
    ensures var (name, child) := fs[dir].entries[k];
      child in fs &&
      var r := EntriesWithin(fs, w, exhausted, path, dir, k, depth, above, link, d, s);
      var v := if name == "." || name == ".." then Walked([], s, 0)
               else if |path| + |name| + 1 >= FILENAME_MAX then
                 Walked([Event(path, None, link, depth == 0, true)], s, 0)
               else
                 var u := VisitWithin(fs, w, exhausted, path + "/" + name, child, depth + 1, above, d, s);
                 u.(streams := Reopened(u.streams, d));
      var t := EntriesWithin(fs, w, exhausted, path, dir, k + 1, depth, above, link, d, v.streams);
      r.events == v.events + t.events && r.streams == t.streams
  {
    hide VisitWithin;
  }

  lemma NewOffset(id: Inode)
    ensures Offset(Handle(id, Some(0), 0)) == 0
  {
  }

  lemma SoundEnds(stack: seq<Handle>, closed: int, budget: int, limit: int)
    requires Sound(stack, closed, budget, limit)
    ensures 0 <= closed <= |stack|
    ensures |stack| > 0 ==> (stack[|stack| - 1].stream.None? <==> closed == |stack|)
  {
  }

  lemma AdvancedIds(a: seq<Handle>, b: seq<Handle>)
    requires |a| == |b| > 0 && a[..|a| - 1] == b[..|b| - 1] && a[|a| - 1].id == b[|b| - 1].id
    ensures Ids(a) == Ids(b)
  {
    assert forall i :: 0 <= i < |a| - 1 ==> a[i] == a[..|a| - 1][i] && b[i] == b[..|b| - 1][i];
    assert forall i :: 0 <= i < |a| ==> a[i].id == b[i].id;
  }
}
