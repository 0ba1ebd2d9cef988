/** Walking a directory tree within a budget of open directory streams. */
module WalkTree {
  import opened Wrappers

  // ----- The file system walked over

  datatype Inode = Inode(dev: int, ino: int)

  /** What a path leads to: `Gone` when `lstat` fails, a link with the object
      `stat` finds through it. */
  datatype Node =
    | Dir(entries: seq<(string, Inode)>, readable: bool)
    | Link(target: Option<Inode>)
    | Other
    | Gone

  type Graph = map<Inode, Node>

  /** Every name leads somewhere, and `stat` follows links to their end. */
  ghost predicate Closed(fs: Graph) {
    && (forall n :: n in fs && fs[n].Dir? ==>
          forall i :: 0 <= i < |fs[n].entries| ==> fs[n].entries[i].1 in fs)
    && (forall n :: n in fs && fs[n].Link? && fs[n].target.Some? ==>
          fs[n].target.value in fs && !fs[fs[n].target.value].Link? && !fs[fs[n].target.value].Gone?)
  }

  datatype Flags = Flags(recursive: bool, physical: bool, logical: bool, dereference: bool, dereferenceToplevel: bool)

  /** A call of the caller's function: the object its `stat` argument describes,
      none when it is NULL, and the flags added on the way. */
  datatype Event = Event(path: string, stat: Option<Inode>, symlink: bool, toplevel: bool, failed: bool)

  const FILENAME_MAX := 4096

  // ----- The walk without handles

  predicate Dereferenced(fs: Graph, w: Flags, node: Inode, top: bool)
    requires node in fs
  {
    fs[node].Link? && (w.dereference || (top && w.dereferenceToplevel))
  }

  /** As the code groups its condition: a link to be followed is descended into
      whether or not the walk is recursive. */
  predicate Descends(fs: Graph, w: Flags, node: Inode, top: bool)
    requires node in fs
  {
    || (w.recursive && fs[node].Dir?)
    || (fs[node].Link? && (w.logical || (w.dereference && !w.physical && top)))
  }

  function Destination(fs: Graph, node: Inode): Option<Inode>
    requires node in fs
  {
    if fs[node].Link? then fs[node].target else Some(node)
  }

  datatype Opening = Opened | Absent | Denied

  /** What `opendir` finds, descriptors permitting. */
  function Attempt(fs: Graph, dest: Option<Inode>): Opening
    requires dest.Some? ==> dest.value in fs
  {
    if dest.None? || !fs[dest.value].Dir? then Absent
    else if fs[dest.value].readable then Opened
    else Denied
  }

  function Room(fs: Graph, above: set<Inode>): nat {
    |fs.Keys - above|
  }

  lemma RoomShrinks(fs: Graph, above: set<Inode>, n: Inode)
    requires n in fs && n !in above
    ensures Room(fs, above + {n}) < Room(fs, above)
  {
    assert fs.Keys - (above + {n}) < fs.Keys - above;
    SubsetSmaller(fs.Keys - (above + {n}), fs.Keys - above);
  }

  lemma SubsetSmaller(a: set<Inode>, b: set<Inode>)
    requires a < b
    ensures |a| < |b|
  {
    assert b == a + (b - a) && b - a != {};
  }

  /** The calls made for one path, below the directories of `above`. */
  function Visit(fs: Graph, w: Flags, path: string, node: Inode, depth: nat, above: set<Inode>): seq<Event>
    requires Closed(fs) && node in fs
    decreases Room(fs, above), 1, 0
  {
    var top, link := depth == 0, fs[node].Link?;
    if fs[node].Gone? then [Event(path, None, false, top, true)]
    else if !Dereferenced(fs, w, node, top) then
      [Event(path, Some(node), link, top, false)] + Descend(fs, w, path, node, depth, above)
    else if fs[node].target.None? then [Event(path, None, true, top, true)]
    else [Event(path, Some(fs[node].target.value), true, top, false)] + Descend(fs, w, path, node, depth, above)
  }

  function Descend(fs: Graph, w: Flags, path: string, node: Inode, depth: nat, above: set<Inode>): seq<Event>
    requires Closed(fs) && node in fs
    decreases Room(fs, above), 0, 0
  {
    var top, link, dest := depth == 0, fs[node].Link?, Destination(fs, node);
    if !Descends(fs, w, node, top) then []
    else if dest.Some? && dest.value in above && (Dereferenced(fs, w, node, top) || !link) then []
    else match Attempt(fs, dest)
      case Absent => []
      case Denied => [Event(path, None, link, top, true)]
      case Opened =>
        if dest.value in above then []
        else
          RoomShrinks(fs, above, dest.value);
          Entries(fs, w, path, dest.value, 0, depth, above + {dest.value}, link)
  }

  /** The calls made for the entries of an open directory from the `k`th on. */
  function Entries(
      fs: Graph, w: Flags, path: string, dir: Inode, k: nat, depth: nat, above: set<Inode>, link: bool): seq<Event>
    requires Closed(fs) && dir in fs && fs[dir].Dir? && k <= |fs[dir].entries|
    decreases Room(fs, above), 2, |fs[dir].entries| - k
  {
    if k == |fs[dir].entries| then []
    else
      var (name, child) := fs[dir].entries[k];
      var rest := Entries(fs, w, path, dir, k + 1, depth, above, link);
      if name == "." || name == ".." then rest
      else if |path| + |name| + 1 >= FILENAME_MAX then [Event(path, None, link, depth == 0, true)] + rest
      else Visit(fs, w, path + "/" + name, child, depth + 1, above) + rest
  }

  predicate Listed(name: string) {
    name != "." && name != ".."
  }

  // ----- A walk that is not recursive

  ghost predicate HasListed(dir: Node, k: nat)
    requires dir.Dir? && k <= |dir.entries|
  {
    exists i :: k <= i < |dir.entries| && Listed(dir.entries[i].0)
  }

  lemma {:induction false} EntriesSome(
      fs: Graph, w: Flags, path: string, dir: Inode, k: nat, depth: nat, above: set<Inode>, link: bool)
    requires Closed(fs) && dir in fs && fs[dir].Dir? && k <= |fs[dir].entries|
    ensures Entries(fs, w, path, dir, k, depth, above, link) != [] <==> HasListed(fs[dir], k)
    decreases |fs[dir].entries| - k
  {
    hide Descend;
    if k < |fs[dir].entries| {
      EntriesSome(fs, w, path, dir, k + 1, depth, above, link);
      assert HasListed(fs[dir], k) <==> Listed(fs[dir].entries[k].0) || HasListed(fs[dir], k + 1);
    }
  }

  /** The link whose directory is walked although the walk is not recursive. */
  ghost predicate WalkedInto(fs: Graph, w: Flags, node: Inode)
    requires Closed(fs) && node in fs
  {
    && fs[node].Link? && (w.logical || (w.dereference && !w.physical)) && fs[node].target.Some?
    && var dir := fs[fs[node].target.value]; dir.Dir? && (dir.readable ==> HasListed(dir, 0))
  }

  /** Not recursive, the walk makes one call for its path, unless that is such a
      link. */
  lemma OneCall(fs: Graph, w: Flags, path: string, node: Inode)
    requires Closed(fs) && node in fs && !w.recursive
    ensures |Visit(fs, w, path, node, 0, {})| == 1 <==> !WalkedInto(fs, w, node)
  {
    hide Entries;
    var dest := Destination(fs, node);
    if fs[node].Link? && Attempt(fs, dest) == Opened {
      EntriesSome(fs, w, path, dest.value, 0, 0, {} + {dest.value}, true);
    }
  }

  /** The options -L without -R, and a link to a directory of one file. */
  const LOGICAL_WALK := Flags(false, false, true, true, true)
  const LINKED: Graph := map[
    Inode(0, 1) := Link(Some(Inode(0, 2))),
    Inode(0, 2) := Dir([("a", Inode(0, 3))], true),
    Inode(0, 3) := Other]

  lemma WalkedUnasked(path: string)
    ensures Closed(LINKED) && |Visit(LINKED, LOGICAL_WALK, path, Inode(0, 1), 0, {})| > 1
  {
    hide Descend;
    assert Closed(LINKED);
    assert Listed(LINKED[Inode(0, 2)].entries[0].0);
    OneCall(LINKED, LOGICAL_WALK, path, Inode(0, 1));
  }

  // ----- Where there are no loops, nothing is cut off

  /** A file system without loops: every entry but `.` and `..`, and every
      object a link leads to, ranks below. */
  ghost predicate Loopless(fs: Graph, rank: Inode -> nat) {
    && (forall n :: n in fs && fs[n].Dir? ==> forall i :: 0 <= i < |fs[n].entries| && Listed(fs[n].entries[i].0) ==>
          rank(fs[n].entries[i].1) < rank(n))
    && (forall n :: n in fs && fs[n].Link? && fs[n].target.Some? ==> rank(fs[n].target.value) < rank(n))
  }

  ghost predicate Higher(above: set<Inode>, rank: Inode -> nat, r: nat) {
    forall a :: a in above ==> rank(a) > r
  }

  /** The directories above make no difference: their being remembered only
      ever breaks loops. */
  lemma {:induction false} VisitUncut(fs: Graph, w: Flags, path: string, node: Inode, depth: nat,
                                      above: set<Inode>, other: set<Inode>, rank: Inode -> nat)
    requires Closed(fs) && node in fs && Loopless(fs, rank)
    requires Higher(above, rank, rank(node)) && Higher(other, rank, rank(node))
    ensures Visit(fs, w, path, node, depth, above) == Visit(fs, w, path, node, depth, other)
    decreases rank(node), 2, 0
  {
    hide Entries;
    var dest := Destination(fs, node);
    if dest.Some? && Attempt(fs, dest) == Opened {
      assert dest.value !in above && dest.value !in other;
      EntriesUncut(fs, w, path, dest.value, 0, depth, above + {dest.value}, other + {dest.value}, fs[node].Link?, rank);
    }
  }

  lemma {:induction false} EntriesUncut(fs: Graph, w: Flags, path: string, dir: Inode, k: nat, depth: nat,
                                        above: set<Inode>, other: set<Inode>, link: bool, rank: Inode -> nat)
    requires Closed(fs) && dir in fs && fs[dir].Dir? && k <= |fs[dir].entries| && Loopless(fs, rank)
    requires forall a :: a in above + other ==> rank(a) >= rank(dir)
    ensures Entries(fs, w, path, dir, k, depth, above, link) == Entries(fs, w, path, dir, k, depth, other, link)
    decreases rank(dir), 1, |fs[dir].entries| - k
  {
    hide Visit;
    if k < |fs[dir].entries| {
      var (name, child) := fs[dir].entries[k];
      EntriesUncut(fs, w, path, dir, k + 1, depth, above, other, link, rank);
      if Listed(name) {
        VisitUncut(fs, w, path + "/" + name, child, depth + 1, above, other, rank);
      }
    }
  }
}
