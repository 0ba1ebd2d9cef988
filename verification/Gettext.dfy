/** Looking a message up in a gettext catalogue: by double hashing in the hash
    table, or by binary search among the sorted originals. */
module Gettext {
  import opened Wrappers
  import opened Probing

  type Byte = bv8
  type Bytes = seq<Byte>

  // ----- C strings

  /** The part of stored bytes that `strcmp` sees; the originals of plural
      forms go on after a NUL. */
  function CString(raw: Bytes): (s: Bytes)
    ensures |s| <= |raw|
  {
    if raw == [] || raw[0] == 0 then [] else [raw[0]] + CString(raw[1..])
  }

  function Strcmp(s: Bytes, t: Bytes): int {
    if s == [] && t == [] then 0
    else if s == [] then -1
    else if t == [] then 1
    else if s[0] != t[0] then (if s[0] < t[0] then -1 else 1)
    else Strcmp(s[1..], t[1..])
  }

  lemma {:induction false} StrcmpEqual(s: Bytes, t: Bytes)
    ensures Strcmp(s, t) == 0 <==> s == t
  {
    if s != [] && t != [] {
      StrcmpEqual(s[1..], t[1..]);
      assert s == [s[0]] + s[1..] && t == [t[0]] + t[1..];
    }
  }

  lemma {:induction false} StrcmpReversed(s: Bytes, t: Bytes)
    ensures Strcmp(s, t) < 0 <==> Strcmp(t, s) > 0
  {
    if s != [] && t != [] {
      StrcmpReversed(s[1..], t[1..]);
    }
  }

  lemma {:induction false} StrcmpTransitive(s: Bytes, t: Bytes, u: Bytes)
    requires Strcmp(s, t) < 0 && Strcmp(t, u) < 0
    ensures Strcmp(s, u) < 0
  {
    if s != [] && t != [] && u != [] && s[0] == t[0] == u[0] {
      StrcmpTransitive(s[1..], t[1..], u[1..]);
    }
  }

  // ----- The hash function

  function Low(h: bv64): bv32 { (h & 0xffff_ffff) as bv32 }

  function Shift64(h: bv64, c: Byte): bv64 { (h << 4) + c as bv64 }
  function Shift32(h: bv32, c: Byte): bv32 { (h << 4) + c as bv32 }

  function Top64(h: bv64): bv64 { h & 0xf000_0000 }
  function Top32(h: bv32): bv32 { h & 0xf000_0000 }
  function Down64(h: bv64): bv64 { h >> 24 }
  function Down32(h: bv32): bv32 { h >> 24 }
  function Xor64(h: bv64, g: bv64): bv64 { h ^ g }
  function Xor32(h: bv32, g: bv32): bv32 { h ^ g }

  /** The top four of 32 bits are folded into the bottom ones. */
  function Fold64(h: bv64): bv64 {
    var g := Top64(h);
    if g != 0 then Xor64(Xor64(h, Down64(g)), g) else h
  }

  function Fold32(h: bv32): bv32 {
    var g := Top32(h);
    if g != 0 then Xor32(Xor32(h, Down32(g)), g) else h
  }

  /** One character of `hash_string`, where `unsigned long` has 64 bits and
      where it has 32. */
  function Step64(h: bv64, c: Byte): bv64 { Fold64(Shift64(h, c)) }
  function Step32(h: bv32, c: Byte): bv32 { Fold32(Shift32(h, c)) }

  function Hash(s: Bytes): bv32 {
    if s == [] then 0 else Step32(Hash(s[..|s| - 1]), s[|s| - 1])
  }

  lemma ShiftLow(h: bv64, c: Byte)
    ensures Low(Shift64(h, c)) == Shift32(Low(h), c)
  {
  }

  lemma TopLow(h: bv64)
    ensures Low(Top64(h)) == Top32(Low(h))
  {
  }

  lemma TopNone(h: bv64)
    ensures Top64(h) == 0 <==> Top32(Low(h)) == 0
  {
  }

  lemma XorLow(x: bv64, y: bv64)
    ensures Low(Xor64(x, y)) == Xor32(Low(x), Low(y))
  {
  }

  lemma DownLow(h: bv64)
    ensures Low(Down64(Top64(h))) == Down32(Low(Top64(h)))
  {
  }

  lemma FoldLow(h: bv64)
    ensures Low(Fold64(h)) == Fold32(Low(h))
  {
    hide Low, Top64, Top32, Xor64, Xor32, Down64, Down32;
    var g := Top64(h);
    TopLow(h);
    TopNone(h);
    XorLow(Xor64(h, Down64(g)), g);
    XorLow(h, Down64(g));
    DownLow(h);
  }

  lemma StepLow(h: bv64, c: Byte)
    ensures Low(Step64(h, c)) == Step32(Low(h), c)
  {
    hide Low, Shift64, Shift32, Fold64, Fold32;
    ShiftLow(h, c);
    FoldLow(Shift64(h, c));
  }

  lemma FoldSmall(h: bv32)
    ensures Fold32(h) < 0x1000_0000
  {
  }

  /** The hash occupies 28 bits. */
  lemma HashSmall(s: Bytes)
    ensures Hash(s) < 0x1000_0000
  {
    hide Shift32, Fold32;
    if s != [] {
      FoldSmall(Shift32(Hash(s[..|s| - 1]), s[|s| - 1]));
    }
  }

  function HashValue(s: Bytes): nat {
    Hash(s) as nat
  }

  /** The value of `hash_string` cut down to `nls_uint32` does not depend on
      the width of `unsigned long`. */
  method HashString(str: Bytes) returns (hash: nat)
    ensures hash == HashValue(str)
  {
    hide Low, Step64, Step32;
    var hval: bv64 := 0;
    assert Low(0) == 0 by { LowZero(); }
    var i := 0;
    while i < |str|
      invariant 0 <= i <= |str|
      invariant Low(hval) == Hash(str[..i])
    {
      StepLow(hval, str[i]);
      assert str[..i + 1][..i] == str[..i];
      hval := Step64(hval, str[i]);
      i := i + 1;
    }
    assert str[..i] == str;
    hash := Low(hval) as nat;
  }

  lemma LowZero()
    ensures Low(0) == 0
  {
  }

  // ----- Catalogues

  /** The originals of the catalogue file and, after them in the numbering, the
      system-dependent ones put together when it is loaded. */
  datatype Catalogue = Catalogue(orig: seq<Bytes>, sysdep: seq<Bytes>)

  function Count(c: Catalogue): nat {
    |c.orig| + |c.sysdep|
  }

  function Original(c: Catalogue, n: nat): Bytes
    requires n < Count(c)
  {
    CString(if n < |c.orig| then c.orig[n] else c.sysdep[n - |c.orig|])
  }

  /** The test made at an occupied slot.  Lengths are compared with `>=` because
      of plural forms, and those of system-dependent strings count the NUL. */
  predicate Hit(c: Catalogue, n: nat, msgid: Bytes)
    requires n < Count(c)
  {
    if n < |c.orig| then
      |c.orig[n]| >= |msgid| && Strcmp(msgid, CString(c.orig[n])) == 0
    else
      |c.sysdep[n - |c.orig|]| + 1 > |msgid| && Strcmp(msgid, CString(c.sysdep[n - |c.orig|])) == 0
  }

  /** The length test never rejects a string that compares equal. */
  lemma HitMeans(c: Catalogue, n: nat, msgid: Bytes)
    requires n < Count(c)
    ensures Hit(c, n, msgid) <==> Original(c, n) == msgid
  {
    StrcmpEqual(msgid, Original(c, n));
  }

  ghost predicate Sorted(orig: seq<Bytes>) {
    forall i, j :: 0 <= i < j < |orig| ==> Strcmp(CString(orig[i]), CString(orig[j])) < 0
  }

  /** What a lookup is for: the first original equal to the message. */
  function Search(orig: seq<Bytes>, msgid: Bytes, from: nat := 0): (r: Option<nat>)
    requires from <= |orig|
    ensures r.Some? ==> from <= r.value < |orig| && CString(orig[r.value]) == msgid
    ensures r.None? ==> forall i :: from <= i < |orig| ==> CString(orig[i]) != msgid
    decreases |orig| - from
  {
    if from == |orig| then None
    else if CString(orig[from]) == msgid then Some(from)
    else Search(orig, msgid, from + 1)
  }

  lemma SearchUnique(orig: seq<Bytes>, msgid: Bytes, n: nat)
    requires Sorted(orig) && n < |orig| && CString(orig[n]) == msgid
    ensures Search(orig, msgid) == Some(n)
  {
    StrcmpEqual(msgid, msgid);
  }

  // ----- The hash table

  function Start(h: nat, size: nat): (idx: nat)
    requires size > 2
    ensures idx < size
  {
    h % size
  }

  function Incr(h: nat, size: nat): (incr: nat)
    requires size > 2
    ensures 0 < incr < size
  {
    1 + h % (size - 2)
  }

  function ProbeAt(h: nat, size: nat, k: nat): (s: nat)
    requires size > 2
    ensures s < size
  {
    Slot(Start(h, size), Incr(h, size), size, k)
  }

  ghost predicate Full(tab: seq<nat>, h: nat, k: nat)
    requires |tab| > 2
  {
    forall j :: 0 <= j < k ==> tab[ProbeAt(h, |tab|, j)] != 0
  }

  ghost predicate Reached(tab: seq<nat>, h: nat, n: nat)
    requires |tab| > 2
  {
    exists k: nat :: Full(tab, h, k) && tab[ProbeAt(h, |tab|, k)] == n + 1
  }

  ghost predicate Placed(tab: seq<nat>, c: Catalogue, count: nat)
    requires |tab| > 2 && count <= Count(c)
  {
    && (forall i :: 0 <= i < |tab| ==> tab[i] <= count)
    && (forall n :: 0 <= n < count ==> Reached(tab, HashValue(Original(c, n)), n))
  }

  /** The first `count` strings are in the table, each where probing for it will
      come upon it before any empty slot; the size is prime and a slot empty. */
  ghost predicate WellFormed(tab: seq<nat>, c: Catalogue, count: nat)
    requires count <= Count(c)
  {
    |tab| > 2 && Prime(|tab|) && 0 in tab && Placed(tab, c, count)
  }

  /** The probe for a message comes to an end: an empty slot or an equal string
      lies on its way. */
  ghost predicate Stops(tab: seq<nat>, c: Catalogue, msgid: Bytes, k: nat)
    requires |tab| > 2 && Placed(tab, c, Count(c))
  {
    var e := tab[ProbeAt(HashValue(msgid), |tab|, k)]; e == 0 || Original(c, e - 1) == msgid
  }

  ghost predicate Ends(tab: seq<nat>, c: Catalogue, msgid: Bytes)
    requires |tab| > 2 && Placed(tab, c, Count(c))
  {
    exists k: nat :: Stops(tab, c, msgid, k)
  }

  // ----- When a probe ends

  /** A slot of the first round is empty. */
  predicate Gap(tab: seq<nat>, h: nat)
    requires |tab| > 2
  {
    exists k :: 0 <= k < |tab| && tab[ProbeAt(h, |tab|, k)] == 0
  }

  predicate Known(c: Catalogue, msgid: Bytes) {
    exists n :: 0 <= n < Count(c) && Original(c, n) == msgid
  }

  /** An empty slot is met in the first round or never. */
  lemma GapIff(tab: seq<nat>, h: nat)
    requires |tab| > 2
    ensures Gap(tab, h) <==> exists k: nat :: tab[ProbeAt(h, |tab|, k)] == 0
  {
    hide Slot, Start, Incr;
    if k: nat :| tab[ProbeAt(h, |tab|, k)] == 0 {
      SlotPeriodic(Start(h, |tab|), Incr(h, |tab|), |tab|, k);
      assert tab[ProbeAt(h, |tab|, k % |tab|)] == 0;
    }
  }

  /** In a table of prime size any empty slot will do. */
  lemma PrimeGap(tab: seq<nat>, h: nat)
    requires |tab| > 2 && Prime(|tab|)
    ensures Gap(tab, h) <==> 0 in tab
  {
    hide Slot, Start, Incr, Prime;
    if 0 in tab {
      var e :| 0 <= e < |tab| && tab[e] == 0;
      var k := SlotsCover(Start(h, |tab|), Incr(h, |tab|), |tab|, e);
      assert ProbeAt(h, |tab|, k) == e;
    }
  }

  /** The probe ends exactly for the strings of the catalogue and for those with
      an empty slot in their first round; for all others it runs for ever. */
  lemma EndsIff(tab: seq<nat>, c: Catalogue, msgid: Bytes)
    requires |tab| > 2 && Placed(tab, c, Count(c))
    ensures Ends(tab, c, msgid) <==> Known(c, msgid) || Gap(tab, HashValue(msgid))
  {
    hide HashValue, ProbeAt, Original, Gap;
    var h := HashValue(msgid);
    GapIff(tab, h);
    if Ends(tab, c, msgid) {
      var k: nat :| Stops(tab, c, msgid, k);
      var e := tab[ProbeAt(h, |tab|, k)];
      assert e == 0 || Original(c, e - 1) == msgid;
    }
    if Gap(tab, h) {
      var k: nat :| tab[ProbeAt(h, |tab|, k)] == 0;
      assert Stops(tab, c, msgid, k);
    }
    if Known(c, msgid) {
      var n :| 0 <= n < Count(c) && Original(c, n) == msgid;
      assert Reached(tab, h, n);
      var k: nat :| Full(tab, h, k) && tab[ProbeAt(h, |tab|, k)] == n + 1;
      assert Stops(tab, c, msgid, k);
    }
  }

  lemma PrimeEndsIff(tab: seq<nat>, c: Catalogue, msgid: Bytes)
    requires |tab| > 2 && Prime(|tab|) && Placed(tab, c, Count(c))
    ensures Ends(tab, c, msgid) <==> Known(c, msgid) || 0 in tab
  {
    hide HashValue, Known, Gap, Placed, Ends, Prime;
    EndsIff(tab, c, msgid);
    PrimeGap(tab, HashValue(msgid));
  }

  const FOUR_SLOTS: seq<nat> := [0, 1, 0, 2]
  const TWO_STRINGS := Catalogue([[1], [3]], [])

  /** An empty slot is not enough: in this table of four slots, two of them
      empty, the probe for the string 5 runs between the other two for ever. */
  lemma CompositeLoops()
    ensures Placed(FOUR_SLOTS, TWO_STRINGS, 2) && 0 in FOUR_SLOTS && !Ends(FOUR_SLOTS, TWO_STRINGS, [5])
  {
    hide Placed, HashValue, ProbeAt, Original, Ends;
    CompositePlaced();
    assert FOUR_SLOTS[0] == 0;
    TwoOriginals();
    NoGap();
    EndsIff(FOUR_SLOTS, TWO_STRINGS, [5]);
  }

  lemma NoGap()
    ensures HashValue([5]) == 5 && !Gap(FOUR_SLOTS, 5)
  {
    hide HashValue, ProbeAt;
    SmallHash(5);
    forall k | 0 <= k < 4
      ensures FOUR_SLOTS[ProbeAt(5, 4, k)] != 0
    {
      OddSlots(k);
    }
  }

  const THREE_SLOTS: seq<nat> := [3, 1, 2]
  const THREE_STRINGS := Catalogue([[1], [5], [3]], [])

  /** Nor is a prime size: this table of three slots is full, and the probe for
      the string 7 goes round it for ever. */
  lemma FullLoops()
    ensures Prime(3) && Placed(THREE_SLOTS, THREE_STRINGS, 3) && !Ends(THREE_SLOTS, THREE_STRINGS, [7])
  {
    hide Placed, HashValue, Original, Ends;
    FullPlaced();
    ThreeOriginals();
    PrimeEndsIff(THREE_SLOTS, THREE_STRINGS, [7]);
  }

  lemma ThreeOriginals()
    ensures Original(THREE_STRINGS, 0) == [1] && Original(THREE_STRINGS, 1) == [5]
    ensures Original(THREE_STRINGS, 2) == [3]
  {
  }

  lemma FullPlaced()
    ensures Placed(THREE_SLOTS, THREE_STRINGS, 3)
  {
    hide HashValue, Original, Reached;
    SmallHash(1);
    SmallHash(3);
    SmallHash(5);
    ThreeOriginals();
    ReachedAtOnce(THREE_SLOTS, 1, 0);
    ReachedAtOnce(THREE_SLOTS, 5, 1);
    ReachedAtOnce(THREE_SLOTS, 3, 2);
  }

  lemma TwoOriginals()
    ensures Original(TWO_STRINGS, 0) == [1] && Original(TWO_STRINGS, 1) == [3]
  {
  }

  lemma CompositePlaced()
    ensures Placed(FOUR_SLOTS, TWO_STRINGS, 2)
  {
    hide HashValue, Original, Reached;
    SmallHash(1);
    SmallHash(3);
    TwoOriginals();
    ReachedAtOnce(FOUR_SLOTS, 1, 0);
    ReachedAtOnce(FOUR_SLOTS, 3, 1);
  }

  lemma ReachedAtOnce(tab: seq<nat>, h: nat, n: nat)
    requires |tab| > 2 && tab[Start(h, |tab|)] == n + 1
    ensures Reached(tab, h, n)
  {
    hide ProbeAt, Start;
    FirstSlot(h, |tab|);
    assert Full(tab, h, 0);
  }

  lemma SmallHash(b: Byte)
    requires b == 1 || b == 3 || b == 5
    ensures HashValue([b]) == if b == 1 then 1 else if b == 3 then 3 else 5
  {
    var s := [b];
    assert s[..0] == [];
    assert Hash(s) == Step32(Hash([]), b) == Step32(0, b);
  }

  lemma OddSlots(k: nat)
    requires k < 4
    ensures ProbeAt(5, 4, k) == 1 || ProbeAt(5, 4, k) == 3
  {
  }

  /** A probe that meets an empty slot after `k` misses has missed nothing. */
  lemma MissedNothing(tab: seq<nat>, c: Catalogue, msgid: Bytes, k: nat, n: nat)
    requires |tab| > 2 && Placed(tab, c, Count(c)) && n < Count(c)
    requires tab[ProbeAt(HashValue(msgid), |tab|, k)] == 0
    requires forall j :: 0 <= j < k ==> !Stops(tab, c, msgid, j)
    ensures Original(c, n) != msgid
  {
    hide HashValue, ProbeAt, Original;
    var h := HashValue(Original(c, n));
    assert Reached(tab, h, n);
    var r: nat :| Full(tab, h, r) && tab[ProbeAt(h, |tab|, r)] == n + 1;
    if h == HashValue(msgid) && r < k {
      assert !Stops(tab, c, msgid, r);
    }
  }

  /** The probe, wherever it ends. */
  method Probe(tab: seq<nat>, c: Catalogue, msgid: Bytes) returns (act: Option<nat>)
    requires |tab| > 2 && Placed(tab, c, Count(c)) && (Known(c, msgid) || Gap(tab, HashValue(msgid)))
    ensures act.Some? ==> act.value < Count(c) && Original(c, act.value) == msgid
    ensures act.None? ==> forall n :: 0 <= n < Count(c) ==> Original(c, n) != msgid
  {
    hide Hit, Original, HashValue, Start, Incr, Slot, Reached, Known, Gap;
    EndsIff(tab, c, msgid);
    var h := HashString(msgid);
    var size := |tab|;
    var idx, incr := Start(h, size), Incr(h, size);
    ghost var k: nat := 0;
    ghost var bound: nat :| Stops(tab, c, msgid, bound);
    FirstSlot(h, size);
    while true
      invariant idx == ProbeAt(h, size, k) && k <= bound
      invariant forall j :: 0 <= j < k ==> !Stops(tab, c, msgid, j)
      decreases bound - k
    {
      var nstr := tab[idx];
      if nstr == 0 {
        forall n | 0 <= n < Count(c)
          ensures Original(c, n) != msgid
        {
          MissedNothing(tab, c, msgid, k, n);
        }
        return None;
      }
      nstr := nstr - 1;
      HitMeans(c, nstr, msgid);
      if Hit(c, nstr, msgid) {
        return Some(nstr);
      }
      assert !Stops(tab, c, msgid, k);
      NextSlot(Start(h, size), incr, size, k);
      if idx >= size - incr {
        idx := idx - (size - incr);
      } else {
        idx := idx + incr;
      }
      k := k + 1;
    }
  }

  lemma FirstSlot(h: nat, size: nat)
    requires size > 2
    ensures ProbeAt(h, size, 0) == Start(h, size)
  {
    hide Start, Incr;
  }

  // ----- Binary search, and the two ways together

  method BinarySearch(orig: seq<Bytes>, msgid: Bytes) returns (act: Option<nat>)
    requires Sorted(orig)
    ensures act == Search(orig, msgid)
  {
    hide CString, Strcmp;
    var bottom, top := 0, |orig|;
    while bottom < top
      invariant 0 <= bottom <= top <= |orig|
      invariant forall i :: 0 <= i < bottom ==> Strcmp(CString(orig[i]), msgid) < 0
      invariant forall i :: top <= i < |orig| ==> Strcmp(msgid, CString(orig[i])) < 0
    {
      var mid := (bottom + top) / 2;
      var cmp := Strcmp(msgid, CString(orig[mid]));
      Halved(orig, msgid, mid);
      if cmp < 0 {
        top := mid;
      } else if cmp > 0 {
        bottom := mid + 1;
      } else {
        SearchUnique(orig, msgid, mid);
        return Some(mid);
      }
    }
    StrcmpEqual(msgid, msgid);
    return None;
  }

  lemma Halved(orig: seq<Bytes>, msgid: Bytes, mid: nat)
    requires Sorted(orig) && mid < |orig|
    ensures Strcmp(msgid, CString(orig[mid])) == 0 ==> msgid == CString(orig[mid])
    ensures Strcmp(msgid, CString(orig[mid])) < 0 ==>
      forall i :: mid <= i < |orig| ==> Strcmp(msgid, CString(orig[i])) < 0
    ensures Strcmp(msgid, CString(orig[mid])) > 0 ==>
      forall i :: 0 <= i <= mid ==> Strcmp(CString(orig[i]), msgid) < 0
  {
    hide CString, Strcmp;
    var m := CString(orig[mid]);
    StrcmpEqual(msgid, m);
    StrcmpReversed(m, msgid);
    if Strcmp(msgid, m) < 0 {
      forall i | mid < i < |orig| ensures Strcmp(msgid, CString(orig[i])) < 0 {
        StrcmpTransitive(msgid, m, CString(orig[i]));
      }
    } else if Strcmp(msgid, m) > 0 {
      forall i | 0 <= i < mid ensures Strcmp(CString(orig[i]), msgid) < 0 {
        StrcmpTransitive(CString(orig[i]), m, msgid);
      }
    }
  }

  /** The lookup: with a hash table or without one the answer is the same, and
      it is that of the plain search.  A well-formed table serves every message. */
  method FindMsg(orig: seq<Bytes>, hashTab: Option<seq<nat>>, msgid: Bytes) returns (act: Option<nat>)
    requires Sorted(orig)
    requires hashTab.Some? ==>
      var tab, c := hashTab.value, Catalogue(orig, []);
      |tab| > 2 && Placed(tab, c, |orig|) && (Known(c, msgid) || Gap(tab, HashValue(msgid)))
    ensures act == Search(orig, msgid)
  {
    hide Sorted, Placed, Known, Gap;
    if hashTab.Some? {
      ghost var c := Catalogue(orig, []);
      act := Probe(hashTab.value, Catalogue(orig, []), msgid);
      if act.Some? {
        assert Original(c, act.value) == CString(orig[act.value]);
        SearchUnique(orig, msgid, act.value);
      } else {
        assert forall n :: 0 <= n < |orig| ==> Original(c, n) == CString(orig[n]);
      }
    } else {
      act := BinarySearch(orig, msgid);
    }
  }

  // ----- Adding the system-dependent strings to the table

  function Empties(tab: seq<nat>): nat {
    if tab == [] then 0 else (if tab[0] == 0 then 1 else 0) + Empties(tab[1..])
  }

  lemma {:induction false} EmptiesSome(tab: seq<nat>)
    ensures Empties(tab) > 0 <==> 0 in tab
  {
    if tab != [] {
      EmptiesSome(tab[1..]);
      assert tab == [tab[0]] + tab[1..];
    }
  }

  lemma {:induction false} EmptiesFilled(tab: seq<nat>, i: nat, v: nat)
    requires i < |tab| && tab[i] == 0 && v > 0
    ensures Empties(tab[i := v]) == Empties(tab) - 1
  {
    var filled := tab[i := v];
    if i == 0 {
      assert filled[1..] == tab[1..];
    } else {
      EmptiesFilled(tab[1..], i - 1, v);
      assert filled[1..] == tab[1..][i - 1 := v];
    }
  }

  /** Filling the first empty slot of its probe adds string `count`, and
      disturbs none of the strings already there. */
  lemma FilledPlaced(tab: seq<nat>, c: Catalogue, count: nat, k: nat)
    requires |tab| > 2 && count < Count(c) && Placed(tab, c, count)
    requires var h := HashValue(Original(c, count)); Full(tab, h, k) && tab[ProbeAt(h, |tab|, k)] == 0
    ensures Placed(tab[ProbeAt(HashValue(Original(c, count)), |tab|, k) := count + 1], c, count + 1)
  {
    hide HashValue, ProbeAt, Original;
    var h := HashValue(Original(c, count));
    var filled := tab[ProbeAt(h, |tab|, k) := count + 1];
    assert Full(filled, h, k) && filled[ProbeAt(h, |filled|, k)] == count + 1;
    assert Reached(filled, h, count);
    forall n | 0 <= n < count
      ensures Reached(filled, HashValue(Original(c, n)), n)
    {
      var g := HashValue(Original(c, n));
      assert Reached(tab, g, n);
      var r: nat :| Full(tab, g, r) && tab[ProbeAt(g, |tab|, r)] == n + 1;
      assert Full(filled, g, r) && filled[ProbeAt(g, |filled|, r)] == n + 1;
    }
  }

  // ----- The insertions as a function of the table

  /** The first empty slot of the first round, counted in steps; `|tab|` if
      there is none. */
  function FirstGap(tab: seq<nat>, h: nat, k: nat := 0): (r: nat)
    requires |tab| > 2 && k <= |tab|
    ensures k <= r <= |tab| && (r < |tab| ==> tab[ProbeAt(h, |tab|, r)] == 0)
    ensures forall j :: k <= j < r ==> tab[ProbeAt(h, |tab|, j)] != 0
    decreases |tab| - k
  {
    if k == |tab| || tab[ProbeAt(h, |tab|, k)] == 0 then k else FirstGap(tab, h, k + 1)
  }

  /** String `count` put where its probe first meets an empty slot. */
  function Insert(tab: seq<nat>, c: Catalogue, count: nat): (t: seq<nat>)
    requires |tab| > 2 && count < Count(c) && Gap(tab, HashValue(Original(c, count)))
    ensures |t| == |tab|
  {
    var h := HashValue(Original(c, count));
    tab[ProbeAt(h, |tab|, FirstGap(tab, h)) := count + 1]
  }

  /** Each string from `count` on meets an empty slot when its turn comes. */
  predicate Insertable(tab: seq<nat>, c: Catalogue, count: nat)
    requires |tab| > 2 && count <= Count(c)
    decreases Count(c) - count
  {
    || count == Count(c)
    || (Gap(tab, HashValue(Original(c, count))) && Insertable(Insert(tab, c, count), c, count + 1))
  }

  function InsertAll(tab: seq<nat>, c: Catalogue, count: nat): seq<nat>
    requires |tab| > 2 && count <= Count(c) && Insertable(tab, c, count)
    decreases Count(c) - count
  {
    if count == Count(c) then tab else InsertAll(Insert(tab, c, count), c, count + 1)
  }

  lemma InsertFills(tab: seq<nat>, c: Catalogue, count: nat)
    requires |tab| > 2 && count < Count(c) && Gap(tab, HashValue(Original(c, count)))
    ensures Empties(Insert(tab, c, count)) == Empties(tab) - 1
  {
    hide HashValue, Original, ProbeAt, Empties;
    var h := HashValue(Original(c, count));
    EmptiesFilled(tab, ProbeAt(h, |tab|, FirstGap(tab, h)), count + 1);
  }

  lemma InsertPlaced(tab: seq<nat>, c: Catalogue, count: nat)
    requires |tab| > 2 && count < Count(c) && Gap(tab, HashValue(Original(c, count))) && Placed(tab, c, count)
    ensures Placed(Insert(tab, c, count), c, count + 1)
  {
    hide HashValue, Original, ProbeAt, Placed;
    FilledPlaced(tab, c, count, FirstGap(tab, HashValue(Original(c, count))));
  }

  /** Every insertion fills one slot and, in the end, every string is placed. */
  lemma {:induction false} InsertedAll(tab: seq<nat>, c: Catalogue, count: nat)
    requires |tab| > 2 && count <= Count(c) && Insertable(tab, c, count) && Placed(tab, c, count)
    ensures var t := InsertAll(tab, c, count);
      |t| == |tab| && Placed(t, c, Count(c)) && Empties(t) == Empties(tab) - (Count(c) - count)
    decreases Count(c) - count
  {
    hide HashValue, Original, Gap, Insert, Placed, Empties;
    if count < Count(c) {
      InsertFills(tab, c, count);
      InsertPlaced(tab, c, count);
      InsertedAll(Insert(tab, c, count), c, count + 1);
    }
  }

  /** In a table of prime size the insertions all end exactly when there are as
      many empty slots as strings to come. */
  lemma {:induction false} PrimeInsertable(tab: seq<nat>, c: Catalogue, count: nat)
    requires |tab| > 2 && Prime(|tab|) && count <= Count(c)
    ensures Insertable(tab, c, count) <==> Empties(tab) >= Count(c) - count
    decreases Count(c) - count
  {
    hide HashValue, Original, Gap, Insert, Empties, Prime;
    if count < Count(c) {
      PrimeGap(tab, HashValue(Original(c, count)));
      EmptiesSome(tab);
      if 0 in tab {
        InsertFills(tab, c, count);
        PrimeInsertable(Insert(tab, c, count), c, count + 1);
      }
    }
  }

  /** Otherwise empty slots are not enough: two of them, and the insertion of
      the string 5 never ends. */
  lemma CompositeInsertion()
    ensures var c := TWO_STRINGS.(sysdep := [[5]]);
      Placed(FOUR_SLOTS, c, 2) && Empties(FOUR_SLOTS) == 2 && !Insertable(FOUR_SLOTS, c, 2)
  {
    hide HashValue, ProbeAt, Gap, Reached;
    var c := TWO_STRINGS.(sysdep := [[5]]);
    CompositePlaced();
    TwoOriginals();
    assert Original(c, 0) == Original(TWO_STRINGS, 0) && Original(c, 1) == Original(TWO_STRINGS, 1);
    assert FOUR_SLOTS[1..] == [1, 0, 2] && [1, 0, 2][1..] == [0, 2] && [0, 2][1..] == [2] && [2][1..] == [];
    assert CString([5]) == [5];
    NoGap();
  }

  // ----- The insertions in place

  method InsertOne(tab: array<nat>, c: Catalogue, count: nat)
    requires tab.Length > 2 && |c.orig| <= count < Count(c) && Gap(tab[..], HashValue(Original(c, count)))
    modifies tab
    ensures tab[..] == Insert(old(tab[..]), c, count)
  {
    hide HashValue, Start, Incr, Slot, CString;
    ghost var was := tab[..];
    var size := tab.Length;
    var h := HashString(CString(c.sysdep[count - |c.orig|]));
    var idx, incr := Start(h, size), Incr(h, size);
    ghost var k := 0;
    ghost var bound := FirstGap(was, h);
    FirstSlot(h, size);
    while tab[idx] != 0
      invariant tab[..] == was
      invariant idx == ProbeAt(h, size, k) && k <= bound
      decreases bound - k
    {
      NextSlot(Start(h, size), incr, size, k);
      if idx >= size - incr {
        idx := idx - (size - incr);
      } else {
        idx := idx + incr;
      }
      k := k + 1;
    }
    assert k == bound;
    var nstr: nat := count + 1;
    tab[idx] := nstr;
    assert tab[..] == was[idx := nstr];
  }

  /** Afterwards the whole catalogue is placed; with a prime size, the augmented
      table serves every message if and only if there was a slot to spare. */
  method Augment(tab: array<nat>, c: Catalogue)
    requires tab.Length > 2 && Placed(tab[..], c, |c.orig|) && Insertable(tab[..], c, |c.orig|)
    modifies tab
    ensures tab[..] == InsertAll(old(tab[..]), c, |c.orig|)
    ensures Placed(tab[..], c, Count(c)) && Empties(tab[..]) == old(Empties(tab[..])) - |c.sysdep|
    ensures Prime(tab.Length) ==> (WellFormed(tab[..], c, Count(c)) <==> old(Empties(tab[..])) > |c.sysdep|)
  {
    hide HashValue, Original, Placed, Prime, Gap, Insert, Empties;
    InsertedAll(tab[..], c, |c.orig|);
    var i := 0;
    while i < |c.sysdep|
      invariant 0 <= i <= |c.sysdep|
      invariant Insertable(tab[..], c, |c.orig| + i)
      invariant InsertAll(tab[..], c, |c.orig| + i) == InsertAll(old(tab[..]), c, |c.orig|)
    {
      InsertOne(tab, c, |c.orig| + i);
      i := i + 1;
    }
    EmptiesSome(tab[..]);
  }
}
