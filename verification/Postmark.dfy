/** A run of postmark on values: slots of the file table are taken and given
    back at random, size zero marking the free ones. */
module Postmark {

  // ----- Slots in use

  function Used(sizes: seq<int>): nat {
    if sizes == [] then 0 else Used(sizes[..|sizes| - 1]) + if sizes[|sizes| - 1] == 0 then 0 else 1
  }

  lemma {:induction false} UsedBounds(sizes: seq<int>)
    ensures Used(sizes) <= |sizes|
    ensures Used(sizes) == 0 <==> forall i :: 0 <= i < |sizes| ==> sizes[i] == 0
    ensures Used(sizes) == |sizes| <==> forall i :: 0 <= i < |sizes| ==> sizes[i] != 0
  {
    if sizes != [] {
      var front := sizes[..|sizes| - 1];
      UsedBounds(front);
      assert forall i :: 0 <= i < |front| ==> front[i] == sizes[i];
    }
  }

  lemma {:induction false} UsedUpdated(sizes: seq<int>, k: nat, v: int)
    requires k < |sizes|
    ensures Used(sizes[k := v]) == Used(sizes) - (if sizes[k] == 0 then 0 else 1) + (if v == 0 then 0 else 1)
  {
    var last := |sizes| - 1;
    var next := sizes[k := v];
    if k == last {
      assert next[..last] == sizes[..last];
    } else {
      assert next[..last] == sizes[..last][k := v];
      UsedUpdated(sizes[..last], k, v);
    }
  }

  // ----- What a run is given

  /** Parameters as the `set` commands let them be. */
  datatype Config = Config(
    low: int, high: int, simultaneous: int, transactions: int, biasRead: int, biasCreate: int,
    fileSystems: int, weight: int, subdirectories: int)

  predicate GoodConfig(c: Config) {
    0 < c.low <= c.high && c.simultaneous > 0 && c.transactions > 0
  }

  /** The numbers `genrand` gives, and whether the `k`th file opened can be
      opened and the `k`th removed can be removed. */
  datatype World = World(draw: nat -> nat, opens: nat -> bool, removes: nat -> bool)

  ghost predicate Later(w: World, slots: int, n: nat, i: int)
    requires slots > 0
  {
    exists m: nat :: n <= m && w.draw(m) % slots == i
  }

  /** Every slot is drawn again and again. */
  ghost predicate Fair(w: World, slots: int)
    requires slots > 0
  {
    forall n: nat, i :: 0 <= i < slots ==> Later(w, slots, n, i)
  }

  // ----- The table

  /** The size of each file and the number in its name, the slot to try next, and
      the counters; then how many numbers were drawn, files opened and removals
      tried. */
  datatype State = State(
    sizes: seq<int>, names: seq<int>, next: int, created: int, deleted: int, read: int, appended: int,
    drawn: nat, openings: nat, removals: nat)

  /** No two files in use share a name, and the next name is new. */
  predicate Distinct(sizes: seq<int>, names: seq<int>, created: int)
    requires |sizes| == |names|
  {
    && (forall i :: 0 <= i < |sizes| && sizes[i] != 0 ==> names[i] <= created)
    && (forall i, j :: 0 <= i < j < |sizes| && sizes[i] != 0 && sizes[j] != 0 ==> names[i] != names[j])
  }

  predicate InBounds(sizes: seq<int>, high: int) {
    forall i :: 0 <= i < |sizes| ==> 0 <= sizes[i] <= high
  }

  predicate Balanced(c: Config, s: State) {
    && GoodConfig(c)
    && |s.sizes| == |s.names| == 2 * c.simultaneous
    && 0 <= s.next <= |s.sizes|
    && s.created - s.deleted == Used(s.sizes)
    && InBounds(s.sizes, c.high)
    && Distinct(s.sizes, s.names, s.created)
  }

  lemma StillDistinct(sizes: seq<int>, names: seq<int>, created: int, k: nat, v: int)
    requires |sizes| == |names| && Distinct(sizes, names, created) && k < |sizes| && (sizes[k] != 0 || v == 0)
    ensures Distinct(sizes[k := v], names, created)
  {
  }

  lemma NewDistinct(sizes: seq<int>, names: seq<int>, created: int, k: nat, v: int)
    requires |sizes| == |names| && Distinct(sizes, names, created) && k < |sizes|
    ensures Distinct(sizes[k := v], names[k := created + 1], created + 1)
  {
  }

  // ----- Random numbers

  /** `RND`: nothing is drawn when there is nothing to choose from. */
  function Rnd(w: World, n: nat, x: int): (r: int)
    ensures if x > 0 then 0 <= r < x else r == 0
  {
    if x > 0 then w.draw(n) % x else 0
  }

  function Draws(x: int): nat {
    if x > 0 then 1 else 0
  }

  /** Numbers drawn for the directories in a name. */
  function NameDraws(c: Config): nat {
    (if c.fileSystems > 1 then Draws(c.weight) else 0) + (if c.subdirectories > 1 then 1 else 0)
  }

  predicate Hits(w: World, sizes: seq<int>, m: nat) {
    sizes != [] && sizes[w.draw(m) % |sizes|] != 0
  }

  function FirstHit(w: World, sizes: seq<int>, n: nat, bound: nat): (m: nat)
    requires n <= bound && Hits(w, sizes, bound)
    ensures n <= m <= bound && Hits(w, sizes, m) && forall j :: n <= j < m ==> !Hits(w, sizes, j)
    decreases bound - n
  {
    if Hits(w, sizes, n) then n else FirstHit(w, sizes, n + 1, bound)
  }

  /** A search begun at the `n`th number comes upon a file in use. */
  ghost predicate Ends(w: World, sizes: seq<int>, n: nat) {
    exists m: nat :: n <= m && Hits(w, sizes, m)
  }

  /** Where every slot is drawn again and again it does exactly when there is one. */
  lemma FairEnds(w: World, sizes: seq<int>, n: nat)
    requires sizes != [] && Fair(w, |sizes|)
    ensures Ends(w, sizes, n) <==> Used(sizes) > 0
  {
    UsedBounds(sizes);
    if Used(sizes) > 0 {
      var i :| 0 <= i < |sizes| && sizes[i] != 0;
      assert Later(w, |sizes|, n, i);
      var m: nat :| n <= m && w.draw(m) % |sizes| == i;
      assert Hits(w, sizes, m);
    }
  }

  /** The number that ends a search for a file in use. */
  ghost function Search(w: World, sizes: seq<int>, n: nat): (m: nat)
    requires Ends(w, sizes, n)
    ensures n <= m && Hits(w, sizes, m) && forall j :: n <= j < m ==> !Hits(w, sizes, j)
  {
    var bound: nat :| n <= bound && Hits(w, sizes, bound);
    FirstHit(w, sizes, n, bound)
  }

  // ----- Taking a slot

  /** The first free slot, -1 if there is none. */
  function FirstFree(sizes: seq<int>, from: nat := 0): (k: int)
    requires from <= |sizes|
    ensures k == -1 ==> forall i :: from <= i < |sizes| ==> sizes[i] != 0
    ensures k != -1 ==> from <= k < |sizes| && sizes[k] == 0 && forall i :: from <= i < k ==> sizes[i] != 0
    decreases |sizes| - from
  {
    if from == |sizes| then -1 else if sizes[from] == 0 then from else FirstFree(sizes, from + 1)
  }

  /** `find_free_file`. */
  function FreeSlot(s: State): (k: int)
    requires 0 <= s.next
    ensures k == -1 <==> Used(s.sizes) == |s.sizes|
    ensures k != -1 ==> 0 <= k < |s.sizes| && s.sizes[k] == 0
  {
    UsedBounds(s.sizes);
    if s.next < |s.sizes| && s.sizes[s.next] == 0 then s.next else FirstFree(s.sizes)
  }

  function Taken(s: State, k: int, size: int): State
    requires 0 <= k < |s.sizes| == |s.names|
  {
    s.(sizes := s.sizes[k := size], names := s.names[k := s.created + 1], next := k + 1, created := s.created + 1)
  }

  /** `create_file`.  Whether the file can be opened or not its slot is taken. */
  function Created(c: Config, w: World, s: State): (t: State)
    requires Balanced(c, s)
    ensures Balanced(c, t)
    ensures Used(t.sizes) == if Used(s.sizes) < |s.sizes| then Used(s.sizes) + 1 else Used(s.sizes)
    ensures t.deleted == s.deleted
  {
    var k := FreeSlot(s);
    UsedBounds(s.sizes);
    if k == -1 then s
    else
      var n := s.drawn + NameDraws(c);
      var size := c.low + Rnd(w, n, c.high - c.low);
      UsedUpdated(s.sizes, k, size);
      NewDistinct(s.sizes, s.names, s.created, k, size);
      Taken(s, k, size).(drawn := n + Draws(c.high - c.low), openings := s.openings + 1)
  }

  /** The slot taken holds a size from the range configured. */
  lemma CreatedSize(c: Config, w: World, s: State, i: nat)
    requires Balanced(c, s) && i < |s.sizes|
    ensures var t := Created(c, w, s).sizes[i];
      t == s.sizes[i] || (s.sizes[i] == 0 && c.low <= t && (t < c.high || c.low == c.high))
  {
    hide Distinct, InBounds;
  }

  lemma BalancedShape(c: Config, s: State)
    requires Balanced(c, s)
    ensures GoodConfig(c) && |s.sizes| == |s.names| == 2 * c.simultaneous > 0 && 0 <= s.next
  {
  }

  // ----- Giving it back, reading, appending

  /** `delete_file`.  A file that cannot be removed keeps its slot. */
  function Deleted(c: Config, w: World, s: State, k: int): (t: State)
    requires Balanced(c, s) && 0 <= k < |s.sizes|
    ensures Balanced(c, t)
    ensures s.sizes[k] == 0 ==> t == s
    ensures s.sizes[k] != 0 ==>
      && t.removals == s.removals + 1
      && Used(t.sizes) == Used(s.sizes) - (if w.removes(s.removals) then 1 else 0)
  {
    if s.sizes[k] == 0 then s
    else if !w.removes(s.removals) then s.(removals := s.removals + 1)
    else
      UsedUpdated(s.sizes, k, 0);
      StillDistinct(s.sizes, s.names, s.created, k, 0);
      s.(sizes := s.sizes[k := 0], deleted := s.deleted + 1, removals := s.removals + 1)
  }

  /** `read_file`. */
  function Read(w: World, s: State): State {
    s.(read := s.read + if w.opens(s.openings) then 1 else 0, openings := s.openings + 1)
  }

  /** `append_file`: a file that can be opened grows by at least a byte, up to
      the largest size. */
  function Appended(c: Config, w: World, s: State, k: int): (t: State)
    requires Balanced(c, s) && 0 <= k < |s.sizes| && s.sizes[k] != 0
    ensures Balanced(c, t) && Used(t.sizes) == Used(s.sizes)
    ensures if s.sizes[k] < c.high && w.opens(s.openings)
      then s.sizes[k] < t.sizes[k] <= c.high && t.appended == s.appended + 1 && t.sizes == s.sizes[k := t.sizes[k]]
      else t.sizes == s.sizes && t.appended == s.appended
  {
    if s.sizes[k] >= c.high then s
    else if !w.opens(s.openings) then s.(openings := s.openings + 1)
    else
      var room := c.high - s.sizes[k];
      var size := s.sizes[k] + Rnd(w, s.drawn, room) + 1;
      UsedUpdated(s.sizes, k, size);
      StillDistinct(s.sizes, s.names, s.created, k, size);
      s.(sizes := s.sizes[k := size], appended := s.appended + 1, drawn := s.drawn + 1, openings := s.openings + 1)
  }

  // ----- Transactions

  /** `find_used_file`: the slot found, and the numbers drawn on the way. */
  ghost function Found(c: Config, w: World, s: State): (r: (int, State))
    requires Balanced(c, s) && Ends(w, s.sizes, s.drawn)
    ensures 0 <= r.0 < |s.sizes| && s.sizes[r.0] != 0 && Balanced(c, r.1) && r.1.sizes == s.sizes
  {
    var m := Search(w, s.sizes, s.drawn);
    (w.draw(m) % |s.sizes|, s.(drawn := m + 1))
  }

  /** The search for a file to read or append to ends, if there is one. */
  ghost predicate ReadEnds(c: Config, w: World, s: State) {
    c.biasRead != -1 ==> Ends(w, s.sizes, s.drawn + 1)
  }

  ghost function ReadOrAppend(c: Config, w: World, s: State): (t: State)
    requires Balanced(c, s) && ReadEnds(c, w, s)
    ensures Balanced(c, t) && Used(t.sizes) == Used(s.sizes)
  {
    if c.biasRead == -1 then s
    else
      var (k, t) := Found(c, w, s.(drawn := s.drawn + 1));
      if Rnd(w, s.drawn, 10) < c.biasRead then Read(w, t) else Appended(c, w, t, k)
  }

  /** The search for a file to delete ends, if there is one. */
  ghost predicate DeleteEnds(c: Config, w: World, s: State) {
    c.biasCreate != -1 && Rnd(w, s.drawn, 10) >= c.biasCreate ==> Ends(w, s.sizes, s.drawn + 1)
  }

  ghost function CreateOrDelete(c: Config, w: World, s: State): (t: State)
    requires Balanced(c, s) && DeleteEnds(c, w, s)
    ensures Balanced(c, t)
  {
    if c.biasCreate == -1 then s
    else
      var d := s.(drawn := s.drawn + 1);
      if Rnd(w, s.drawn, 10) < c.biasCreate then Created(c, w, d)
      else
        var (k, t) := Found(c, w, d);
        Deleted(c, w, t, k)
  }

  ghost predicate RoundEnds(c: Config, w: World, s: State)
    requires Balanced(c, s)
  {
    ReadEnds(c, w, s) && DeleteEnds(c, w, ReadOrAppend(c, w, s))
  }

  /** One round of `run_transactions`. */
  ghost function Transaction(c: Config, w: World, s: State): (t: State)
    requires Balanced(c, s) && RoundEnds(c, w, s)
    ensures Balanced(c, t)
  {
    CreateOrDelete(c, w, ReadOrAppend(c, w, s))
  }

  /** Every search made by the transactions from the `i`th on ends. */
  ghost predicate SearchesEnd(c: Config, w: World, s: State, i: nat)
    requires Balanced(c, s) && i <= c.transactions
    decreases c.transactions - i
  {
    || i == c.transactions
    || s.created == s.deleted
    || (&& RoundEnds(c, w, s)
        && (c.transactions / 10 == 0 || SearchesEnd(c, w, Transaction(c, w, s), i + 1)))
  }

  /** A round needs a file in use, and there is one since files created and
      deleted do not balance. */
  lemma FairRound(c: Config, w: World, s: State)
    requires Balanced(c, s) && Fair(w, |s.sizes|) && s.created != s.deleted
    ensures RoundEnds(c, w, s)
  {
    hide Fair, InBounds, Distinct, Ends, Used, Found, Read, Appended;
    FairEnds(w, s.sizes, s.drawn + 1);
    var t := ReadOrAppend(c, w, s);
    FairEnds(w, t.sizes, t.drawn + 1);
  }

  lemma {:induction false} FairSearches(c: Config, w: World, s: State, i: nat)
    requires Balanced(c, s) && Fair(w, |s.sizes|) && i <= c.transactions
    ensures SearchesEnd(c, w, s, i)
    decreases c.transactions - i
  {
    hide Fair, InBounds, Distinct, Used, RoundEnds, Transaction;
    if i < c.transactions && s.created != s.deleted {
      FairRound(c, w, s);
      FairSearches(c, w, Transaction(c, w, s), i + 1);
    }
  }

  /** The state afterwards, the number of transactions left undone, and whether
      the progress mark divided by zero. */
  datatype Ran = Ran(state: State, left: int, trapped: bool)

  /** `run_transactions` from the `i`th on. */
  ghost function Transactions(c: Config, w: World, s: State, i: nat): (r: Ran)
    requires Balanced(c, s) && i <= c.transactions && SearchesEnd(c, w, s, i)
    ensures Balanced(c, r.state)
    ensures r.trapped <==> i < c.transactions < 10 && s.created != s.deleted
    ensures !r.trapped ==> 0 <= r.left <= c.transactions - i && (r.left > 0 ==> Used(r.state.sizes) == 0)
    decreases c.transactions - i
  {
    if i == c.transactions || s.created == s.deleted then Ran(s, c.transactions - i, false)
    else
      var t := Transaction(c, w, s);
      if c.transactions / 10 == 0 then Ran(t, 0, true) else Transactions(c, w, t, i + 1)
  }

  // ----- A whole run

  function Empty(c: Config): (s: State)
    requires GoodConfig(c)
    ensures Balanced(c, s) && Used(s.sizes) == 0 && s.created == s.deleted == 0
  {
    var zeros := seq(2 * c.simultaneous, _ => 0);
    UsedBounds(zeros);
    State(zeros, zeros, 0, 0, 0, 0, 0, 0, 0, 0)
  }

  function CreatedAll(c: Config, w: World, s: State, n: nat): (t: State)
    requires Balanced(c, s)
    ensures Balanced(c, t)
    ensures Used(s.sizes) + n <= |s.sizes| ==> Used(t.sizes) == Used(s.sizes) + n
    ensures t.deleted == s.deleted
  {
    if n == 0 then s else Created(c, w, CreatedAll(c, w, s, n - 1))
  }

  /** How many of the removals from `first` on, before `end`, fail. */
  function Failures(w: World, first: nat, end: nat): nat {
    if end <= first then 0 else Failures(w, first, end - 1) + if w.removes(end - 1) then 0 else 1
  }

  /** The slots before `k` deleted. */
  function DeletedUpTo(c: Config, w: World, s: State, k: nat): (t: State)
    requires Balanced(c, s) && k <= |s.sizes|
    ensures Balanced(c, t) && |t.sizes| == |s.sizes| && t.created == s.created
  {
    if k == 0 then s else Deleted(c, w, DeletedUpTo(c, w, s, k - 1), k - 1)
  }

  lemma {:induction false} DeletedMeans(c: Config, w: World, s: State, k: nat)
    requires Balanced(c, s) && k <= |s.sizes|
    ensures var t := DeletedUpTo(c, w, s, k);
      && t.sizes[k..] == s.sizes[k..]
      && t.removals == s.removals + Used(s.sizes[..k])
      && Used(t.sizes[..k]) == Failures(w, s.removals, t.removals)
  {
    hide Balanced, Used;
    var t := DeletedUpTo(c, w, s, k);
    if k == 0 {
      assert t.sizes[..0] == s.sizes[..0] == [];
      NoneUsed();
    } else {
      var u := DeletedUpTo(c, w, s, k - 1);
      DeletedMeans(c, w, s, k - 1);
      assert u.sizes[k - 1] == u.sizes[k - 1..][0] == s.sizes[k - 1..][0] == s.sizes[k - 1];
      UsedSnoc(s.sizes, k);
      UsedSnoc(t.sizes, k);
      assert t.sizes[..k - 1] == u.sizes[..k - 1];
      assert t.sizes[k..] == u.sizes[k - 1..][1..] && s.sizes[k..] == s.sizes[k - 1..][1..];
    }
  }

  lemma NoneUsed()
    ensures Used([]) == 0
  {
  }

  lemma UsedSnoc(sizes: seq<int>, k: nat)
    requires 0 < k <= |sizes|
    ensures Used(sizes[..k]) == Used(sizes[..k - 1]) + if sizes[k - 1] == 0 then 0 else 1
  {
    assert sizes[..k][..k - 1] == sizes[..k - 1];
  }

  /** The state in which the transactions begin. */
  function Filled(c: Config, w: World): (s: State)
    requires GoodConfig(c)
    ensures Balanced(c, s) && s.created == c.simultaneous == Used(s.sizes)
  {
    CreatedAll(c, w, Empty(c), c.simultaneous)
  }

  /** `cli_run`. */
  ghost function WholeRun(c: Config, w: World): (r: Ran)
    requires GoodConfig(c) && SearchesEnd(c, w, Filled(c, w), 0)
    ensures Balanced(c, r.state) && (r.trapped <==> c.transactions < 10)
  {
    var s := Filled(c, w);
    var r := Transactions(c, w, s, 0);
    if r.trapped then r else r.(state := DeletedUpTo(c, w, r.state, |r.state.sizes|))
  }

  lemma {:induction false} NoFailure(w: World, first: nat, end: nat)
    ensures Failures(w, first, end) == 0 <==> forall k :: first <= k < end ==> w.removes(k)
  {
    if first < end {
      NoFailure(w, first, end - 1);
    }
  }

  /** The files asked for are all created before the transactions.  At the end
      every file still in use is removed once, so what stays in use is exactly
      what could not be removed then: the books close if and only if every one
      of these removals succeeds. */
  lemma RunEnds(c: Config, w: World)
    requires GoodConfig(c) && SearchesEnd(c, w, Filled(c, w), 0)
    ensures var s := Filled(c, w);
      && Balanced(c, s) && s.created == c.simultaneous == Used(s.sizes)
      && WholeRun(c, w).left == Transactions(c, w, s, 0).left
      && (!WholeRun(c, w).trapped ==>
        var m, n := Transactions(c, w, s, 0).state, WholeRun(c, w).state;
        && n.removals == m.removals + Used(m.sizes)
        && n.created - n.deleted == Used(n.sizes) == Failures(w, m.removals, n.removals)
        && (n.created == n.deleted <==> forall k :: m.removals <= k < n.removals ==> w.removes(k)))
  {
    hide Used, Distinct, InBounds, SearchesEnd, Filled;
    var s := Filled(c, w);
    var r := Transactions(c, w, s, 0);
    if !r.trapped {
      var m := r.state;
      var n := DeletedUpTo(c, w, m, |m.sizes|);
      DeletedMeans(c, w, m, |m.sizes|);
      assert m.sizes[..|m.sizes|] == m.sizes && n.sizes[..|m.sizes|] == n.sizes;
      NoFailure(w, m.removals, n.removals);
    }
  }
}
