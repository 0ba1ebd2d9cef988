/** The walk within a budget of streams, on values: how many of the directories
    above are closed and what is left of the budget decide nothing but how often
    `opendir` has to be tried. */
module WalkBudget {
  import opened Wrappers
  import opened WalkTree

  /** How many of the streams above are closed, how many more may be opened, and
      how often `opendir` has been called to enter a directory. */
  datatype Streams = Streams(closed: int, budget: int, attempts: nat)

  function CloseOne(s: Streams): Streams {
    Streams(s.closed + 1, s.budget + 1, s.attempts)
  }

  /** Calls of `opendir` below `d` directories.  The `k`th call in all fails for
      want of descriptors if `exhausted(k)`; then the budget is given up, another
      stream closed and the call repeated while there is a stream to close. */
  function Retry(exhausted: nat -> bool, s: Streams, d: int): (Streams, bool)
    decreases d - s.closed
  {
    var t := s.(attempts := s.attempts + 1);
    if !exhausted(s.attempts) then (t, true)
    else if s.closed < d then Retry(exhausted, CloseOne(t.(budget := 0)), d)
    else (t, false)
  }

  function Open(exhausted: nat -> bool, s: Streams, d: int): (Streams, bool) {
    Retry(exhausted, if s.budget == 0 && s.closed < d then CloseOne(s) else s, d)
  }

  /** A directory is refused exactly when one call more fails than there are
      streams to close. */
  lemma {:induction false} RefusedMeans(exhausted: nat -> bool, s: Streams, d: int)
    requires s.closed <= d
    ensures !Retry(exhausted, s, d).1 <==>
      forall k :: s.attempts <= k <= s.attempts + d - s.closed ==> exhausted(k)
    decreases d - s.closed
  {
    if exhausted(s.attempts) && s.closed < d {
      RefusedMeans(exhausted, CloseOne(s.(budget := 0, attempts := s.attempts + 1)), d);
    }
  }

  /** The calls made, the streams afterwards, and the number of directories
      refused. */
  datatype Walked = Walked(events: seq<Event>, streams: Streams, refused: nat)

  /** `Visit` with the streams it uses. */
  function VisitWithin(fs: Graph, w: Flags, exhausted: nat -> bool, path: string, node: Inode, depth: nat,
                       above: set<Inode>, d: nat, s: Streams): Walked
    requires Closed(fs) && node in fs
    decreases Room(fs, above), 1, 0
  {
    var top, link := depth == 0, fs[node].Link?;
    if fs[node].Gone? then Walked([Event(path, None, false, top, true)], s, 0)
    else if Dereferenced(fs, w, node, top) && fs[node].target.None? then
      Walked([Event(path, None, true, top, true)], s, 0)
    else
      var shown := if Dereferenced(fs, w, node, top) then fs[node].target.value else node;
      var more := DescendWithin(fs, w, exhausted, path, node, depth, above, d, s);
      more.(events := [Event(path, Some(shown), link, top, false)] + more.events)
  }

  function DescendWithin(fs: Graph, w: Flags, exhausted: nat -> bool, path: string, node: Inode, depth: nat,
                         above: set<Inode>, d: nat, s: Streams): Walked
    requires Closed(fs) && node in fs
    decreases Room(fs, above), 0, 0
  {
    var top, link, dest := depth == 0, fs[node].Link?, Destination(fs, node);
    if !Descends(fs, w, node, top) then Walked([], s, 0)
    else if dest.Some? && dest.value in above && (Dereferenced(fs, w, node, top) || !link) then Walked([], s, 0)
    else
      var (t, ok) := Open(exhausted, s, d);
      if !ok then Walked([Event(path, None, link, top, true)], t, 1)
      else match Attempt(fs, dest)
        case Absent => Walked([], t, 0)
        case Denied => Walked([Event(path, None, link, top, true)], t, 0)
        case Opened =>
          if dest.value in above then Walked([], t, 0)
          else
            RoomShrinks(fs, above, dest.value);
            var r := EntriesWithin(fs, w, exhausted, path, dest.value, 0, depth, above + {dest.value}, link,
                                   d + 1, t.(budget := t.budget - 1));
            r.(streams := r.streams.(budget := r.streams.budget + 1))
  }

  /** The innermost directory has lost its stream when all have; it is opened
      again. */
  function Reopened(s: Streams, d: nat): Streams {
    if s.closed == d then s.(closed := s.closed - 1, budget := s.budget - 1) else s
  }

  function EntriesWithin(fs: Graph, w: Flags, exhausted: nat -> bool, path: string, dir: Inode, k: nat, depth: nat,
                         above: set<Inode>, link: bool, d: nat, s: Streams): Walked
    requires Closed(fs) && dir in fs && fs[dir].Dir? && k <= |fs[dir].entries|
    decreases Room(fs, above), 2, |fs[dir].entries| - k
  {
    if k == |fs[dir].entries| then Walked([], s, 0)
    else
      var (name, child) := fs[dir].entries[k];
      if name == "." || name == ".." then
        EntriesWithin(fs, w, exhausted, path, dir, k + 1, depth, above, link, d, s)
      else if |path| + |name| + 1 >= FILENAME_MAX then
        var r := EntriesWithin(fs, w, exhausted, path, dir, k + 1, depth, above, link, d, s);
        r.(events := [Event(path, None, link, depth == 0, true)] + r.events)
      else
        var v := VisitWithin(fs, w, exhausted, path + "/" + name, child, depth + 1, above, d, s);
        var r := EntriesWithin(fs, w, exhausted, path, dir, k + 1, depth, above, link, d, Reopened(v.streams, d));
        Walked(v.events + r.events, r.streams, v.refused + r.refused)
  }

  // ----- The budget does not show

  /** Unless a directory was refused, the calls are those of the walk without
      handles: whatever the budget, and however often streams were closed. */
  lemma {:induction false} BudgetUnseen(
      fs: Graph, w: Flags, exhausted: nat -> bool, path: string, node: Inode, depth: nat,
      above: set<Inode>, d: nat, s: Streams)
    requires Closed(fs) && node in fs
    ensures var r := VisitWithin(fs, w, exhausted, path, node, depth, above, d, s);
      r.refused == 0 ==> r.events == Visit(fs, w, path, node, depth, above)
    decreases Room(fs, above), 1, 0
  {
    hide Open, EntriesWithin, Entries;
    var dest := Destination(fs, node);
    if dest.Some? && dest.value in fs && dest.value !in above && fs[dest.value].Dir? {
      RoomShrinks(fs, above, dest.value);
      var t := Open(exhausted, s, d).0;
      EntriesUnseen(fs, w, exhausted, path, dest.value, 0, depth, above + {dest.value}, fs[node].Link?,
                    d + 1, t.(budget := t.budget - 1));
    }
  }

  lemma {:induction false} EntriesUnseen(fs: Graph, w: Flags, exhausted: nat -> bool, path: string, dir: Inode, k: nat,
                                         depth: nat, above: set<Inode>, link: bool, d: nat, s: Streams)
    requires Closed(fs) && dir in fs && fs[dir].Dir? && k <= |fs[dir].entries|
    ensures var r := EntriesWithin(fs, w, exhausted, path, dir, k, depth, above, link, d, s);
      r.refused == 0 ==> r.events == Entries(fs, w, path, dir, k, depth, above, link)
    decreases Room(fs, above), 2, |fs[dir].entries| - k
  {
    hide VisitWithin, Visit, Reopened;
    if k < |fs[dir].entries| {
      var (name, child) := fs[dir].entries[k];
      var v := VisitWithin(fs, w, exhausted, path + "/" + name, child, depth + 1, above, d, s);
      BudgetUnseen(fs, w, exhausted, path + "/" + name, child, depth + 1, above, d, s);
      EntriesUnseen(fs, w, exhausted, path, dir, k + 1, depth, above, link, d, s);
      EntriesUnseen(fs, w, exhausted, path, dir, k + 1, depth, above, link, d, Reopened(v.streams, d));
    }
  }

  ghost predicate Ample(exhausted: nat -> bool) {
    forall k :: !exhausted(k)
  }

  /** Where descriptors never run out no directory is refused. */
  lemma {:induction false} NoneRefused(
      fs: Graph, w: Flags, exhausted: nat -> bool, path: string, node: Inode, depth: nat,
      above: set<Inode>, d: nat, s: Streams)
    requires Closed(fs) && node in fs && Ample(exhausted)
    ensures VisitWithin(fs, w, exhausted, path, node, depth, above, d, s).refused == 0
    decreases Room(fs, above), 1, 0
  {
    hide EntriesWithin;
    var dest := Destination(fs, node);
    if dest.Some? && dest.value in fs && dest.value !in above && fs[dest.value].Dir? {
      RoomShrinks(fs, above, dest.value);
      var t := Open(exhausted, s, d).0;
      NoEntryRefused(fs, w, exhausted, path, dest.value, 0, depth, above + {dest.value}, fs[node].Link?,
                     d + 1, t.(budget := t.budget - 1));
    }
  }

  lemma {:induction false} NoEntryRefused(fs: Graph, w: Flags, exhausted: nat -> bool, path: string, dir: Inode, k: nat,
                                          depth: nat, above: set<Inode>, link: bool, d: nat, s: Streams)
    requires Closed(fs) && dir in fs && fs[dir].Dir? && k <= |fs[dir].entries| && Ample(exhausted)
    ensures EntriesWithin(fs, w, exhausted, path, dir, k, depth, above, link, d, s).refused == 0
    decreases Room(fs, above), 2, |fs[dir].entries| - k
  {
    hide VisitWithin, Reopened;
    if k < |fs[dir].entries| {
      var (name, child) := fs[dir].entries[k];
      var v := VisitWithin(fs, w, exhausted, path + "/" + name, child, depth + 1, above, d, s);
      NoneRefused(fs, w, exhausted, path + "/" + name, child, depth + 1, above, d, s);
      NoEntryRefused(fs, w, exhausted, path, dir, k + 1, depth, above, link, d, s);
      NoEntryRefused(fs, w, exhausted, path, dir, k + 1, depth, above, link, d, Reopened(v.streams, d));
    }
  }
}
