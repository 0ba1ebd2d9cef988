/** postmark's file table as it is: arrays updated in place, global counters. */
module PostmarkTable {
  import opened Postmark

  class Table {
    const config: Config
    const world: World
    const sizes: array<int>
    const names: array<int>
    var next: int
    var created: int
    var deleted: int
    var read: int
    var appended: int
    var drawn: nat
    var openings: nat
    var removals: nat

    ghost function View(): State
      reads this, sizes, names
    {
      State(sizes[..], names[..], next, created, deleted, read, appended, drawn, openings, removals)
    }

    ghost predicate Valid()
      reads this, sizes, names
    {
      sizes != names && Balanced(config, View())
    }

    constructor (config: Config, world: World)
      requires GoodConfig(config)
      ensures Valid() && fresh(sizes) && fresh(names)
      ensures this.config == config && this.world == world && View() == Empty(config)
    {
      this.config, this.world := config, world;
      sizes := new int[2 * config.simultaneous](_ => 0);
      names := new int[2 * config.simultaneous](_ => 0);
      next, created, deleted, read, appended := 0, 0, 0, 0, 0;
      drawn, openings, removals := 0, 0, 0;
      new;
      assert sizes[..] == names[..] == seq(2 * config.simultaneous, _ => 0);
      assert View() == Empty(config);
    }

    method Draw(x: int) returns (r: int)
      modifies this`drawn
      ensures r == Rnd(world, old(drawn), x) && drawn == old(drawn) + Draws(x)
    {
      if x <= 0 {
        return 0;
      }
      r := world.draw(drawn) % x;
      drawn := drawn + 1;
    }

    /** A free slot, or -1 when every slot is in use. */
    method FindFreeFile() returns (slot: int)
      requires Valid()
      modifies this`next
      ensures slot == FreeSlot(old(View()))
      ensures next == if slot == -1 then old(next) else slot + 1
    {
      hide Balanced, Used;
      BalancedShape(config, View());
      if next < sizes.Length && sizes[next] == 0 {
        slot := next;
        next := next + 1;
        return;
      }
      var i := 0;
      while i < sizes.Length
        invariant 0 <= i <= sizes.Length && next == old(next)
        invariant FirstFree(sizes[..], i) == FirstFree(sizes[..])
      {
        if sizes[i] == 0 {
          next := i + 1;
          return i;
        }
        i := i + 1;
      }
      return -1;
    }

    method CreateFile()
      requires Valid()
      modifies this, sizes, names
      ensures Valid() && View() == Created(config, world, old(View()))
    {
      hide Balanced, Used, Rnd;
      BalancedShape(config, View());
      var slot := FindFreeFile();
      if slot != -1 {
        NameFile();
        var extra := Draw(config.high - config.low);
        created := created + 1;
        names[slot] := created;
        sizes[slot] := config.low + extra;
        openings := openings + 1;
        assert sizes[..] == old(sizes[..])[slot := config.low + extra];
        assert names[..] == old(names[..])[slot := created];
      }
      assert View() == Created(config, world, old(View()));
    }

    /** The random choices of `create_file_name`. */
    method NameFile()
      modifies this`drawn
      ensures drawn == old(drawn) + NameDraws(config)
    {
      if config.fileSystems > 1 {
        var location := Draw(config.weight);
      }
      if config.subdirectories > 1 {
        var directory := Draw(config.subdirectories);
      }
    }

    method DeleteFile(slot: int)
      requires Valid() && 0 <= slot < sizes.Length
      modifies this, sizes
      ensures Valid() && View() == Deleted(config, world, old(View()), slot)
    {
      hide Balanced, Used;
      if sizes[slot] != 0 {
        var gone := world.removes(removals);
        removals := removals + 1;
        if gone {
          sizes[slot] := 0;
          deleted := deleted + 1;
          assert sizes[..] == old(sizes[..])[slot := 0];
        }
      }
      assert View() == Deleted(config, world, old(View()), slot);
    }

    method ReadFile()
      requires Valid()
      modifies this
      ensures Valid() && View() == Read(world, old(View()))
    {
      var readable := world.opens(openings);
      openings := openings + 1;
      if readable {
        read := read + 1;
      }
    }

    method AppendFile(slot: int)
      requires Valid() && 0 <= slot < sizes.Length && sizes[slot] != 0
      modifies this, sizes
      ensures Valid() && View() == Appended(config, world, old(View()), slot)
    {
      hide Balanced, Used, Rnd;
      if sizes[slot] < config.high {
        var writable := world.opens(openings);
        openings := openings + 1;
        if writable {
          var extra := Draw(config.high - sizes[slot]);
          sizes[slot] := sizes[slot] + (extra + 1);
          appended := appended + 1;
          assert sizes[..] == old(sizes[..])[slot := old(sizes[slot]) + extra + 1];
        }
      }
      assert View() == Appended(config, world, old(View()), slot);
    }

    /** Draws until a slot in use comes up. */
    method FindUsedFile() returns (slot: int)
      requires Valid() && Ends(world, sizes[..], drawn)
      modifies this`drawn
      ensures Valid() && (slot, View()) == Found(config, world, old(View()))
    {
      hide Balanced, Used;
      ghost var goal := Search(world, sizes[..], drawn);
      slot := world.draw(drawn) % sizes.Length;
      drawn := drawn + 1;
      while sizes[slot] == 0
        invariant 0 < drawn <= goal + 1 && slot == world.draw(drawn - 1) % sizes.Length
        invariant forall j :: old(drawn) <= j < drawn - 1 ==> !Hits(world, sizes[..], j)
        invariant old(drawn) < drawn
        decreases goal + 1 - drawn
      {
        assert !Hits(world, sizes[..], drawn - 1);
        slot := world.draw(drawn) % sizes.Length;
        drawn := drawn + 1;
      }
      assert Hits(world, sizes[..], drawn - 1);
      Redrawn(config, old(View()), drawn);
    }

    method Exchange()
      requires Valid() && RoundEnds(config, world, View())
      modifies this, sizes, names
      ensures Valid() && View() == Transaction(config, world, old(View()))
    {
      hide Balanced, Used, Ends, Created, Deleted, Read, Appended, Found;
      if config.biasRead != -1 {
        Redrawn(config, View(), drawn + 1);
        var dice := Draw(10);
        var slot := FindUsedFile();
        if dice < config.biasRead {
          ReadFile();
        } else {
          AppendFile(slot);
        }
      }
      assert View() == ReadOrAppend(config, world, old(View()));
      if config.biasCreate != -1 {
        Redrawn(config, View(), drawn + 1);
        var dice := Draw(10);
        if dice < config.biasCreate {
          CreateFile();
        } else {
          var slot := FindUsedFile();
          DeleteFile(slot);
        }
      }
    }

    /** The number of transactions not carried out, the files having run out.
        With fewer than ten the progress mark divides by zero. */
    method RunTransactions() returns (left: int, trapped: bool)
      requires Valid() && SearchesEnd(config, world, View(), 0)
      modifies this, sizes, names
      ensures Valid() && Ran(View(), left, trapped) == Transactions(config, world, old(View()), 0)
    {
      hide Balanced, RoundEnds, Transaction;
      var percent := config.transactions / 10;
      var i := 0;
      GoodNumbers(config, View());
      while i < config.transactions && created != deleted
        invariant Valid() && 0 <= i <= config.transactions && SearchesEnd(config, world, View(), i)
        invariant Transactions(config, world, View(), i) == Transactions(config, world, old(View()), 0)
      {
        Exchange();
        if percent == 0 {
          return 0, true;
        }
        i := i + 1;
      }
      return config.transactions - i, false;
    }

    /** `cli_run` from the creation of the files on. */
    method Run() returns (left: int, trapped: bool)
      requires Valid() && View() == Empty(config) && SearchesEnd(config, world, Filled(config, world), 0)
      modifies this, sizes, names
      ensures Valid() && Ran(View(), left, trapped) == WholeRun(config, world)
    {
      hide Balanced, Used, Created, Deleted, SearchesEnd, Transactions;
      GoodNumbers(config, View());
      var i := 0;
      while i < config.simultaneous
        invariant 0 <= i <= config.simultaneous && Valid()
        invariant View() == CreatedAll(config, world, old(View()), i)
      {
        CreateFile();
        i := i + 1;
      }
      left, trapped := RunTransactions();
      if trapped {
        return;
      }
      ghost var s := View();
      i := 0;
      while i < sizes.Length
        invariant 0 <= i <= sizes.Length && Valid()
        invariant View() == DeletedUpTo(config, world, s, i)
      {
        DeleteFile(i);
        i := i + 1;
      }
    }
  }

  lemma Redrawn(c: Config, s: State, n: nat)
    requires Balanced(c, s)
    ensures Balanced(c, s.(drawn := n))
  {
  }

  lemma GoodNumbers(c: Config, s: State)
    requires Balanced(c, s)
    ensures GoodConfig(c) && |s.sizes| == 2 * c.simultaneous
  {
  }
}
