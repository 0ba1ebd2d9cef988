/** popt's lookup3 hash of a byte string to a pair of 32-bit values. */
module Lookup3 {
  import opened Wrappers

  type Byte = bv8
  type Word = bv32

  datatype Triple = T(a: Word, b: Word, c: Word)

  // ----- Reversible mixing

  function Rotl(x: Word, s: bv6): Word
    requires 0 < s < 32
  {
    (x << s) | (x >> (32 - s))
  }

  function Add(x: Word, y: Word): Word { x + y }
  function Sub(x: Word, y: Word): Word { x - y }
  function Xor(x: Word, y: Word): Word { x ^ y }

  lemma AddRaw(x: Word, y: Word)
    ensures Add(x - y, y) == x
  {
  }

  lemma SubRaw(x: Word, y: Word)
    ensures Sub(x + y, y) == x
  {
  }

  lemma AddSub(x: Word, y: Word)
    ensures Add(Sub(x, y), y) == x
  {
    hide Add;
    AddRaw(x, y);
  }

  lemma SubAdd(x: Word, y: Word)
    ensures Add(Sub(x, y), y) == x && Sub(Add(x, y), y) == x
  {
    hide Sub;
    AddSub(x, y);
    assert Sub(Add(x, y), y) == x by {
      SubRaw(x, y);
    }
  }

  lemma XorXor(x: Word, y: Word)
    ensures Xor(Xor(x, y), y) == x
  {
  }

  /** One line of `_JLU3_MIX`: `x -= y; x ^= ROTL32(y, s); y += z`. */
  function MixLine(x: Word, y: Word, z: Word, s: bv6): (Word, Word)
    requires 0 < s < 32
  {
    (Xor(Sub(x, y), Rotl(y, s)), Add(y, z))
  }

  function UnmixLine(x: Word, y: Word, z: Word, s: bv6): (Word, Word)
    requires 0 < s < 32
  {
    var y' := Sub(y, z);
    (Add(Xor(x, Rotl(y', s)), y'), y')
  }

  /** One line of `_JLU3_FINAL`: `x ^= y; x -= ROTL32(y, s)`. */
  function FinalLine(x: Word, y: Word, s: bv6): Word
    requires 0 < s < 32
  {
    Sub(Xor(x, y), Rotl(y, s))
  }

  function UnfinalLine(x: Word, y: Word, s: bv6): Word
    requires 0 < s < 32
  {
    Xor(Add(x, Rotl(y, s)), y)
  }

  lemma LinesUndone(x: Word, y: Word, z: Word, s: bv6)
    requires 0 < s < 32
    ensures var (x', y') := MixLine(x, y, z, s); UnmixLine(x', y', z, s) == (x, y)
    ensures var (x', y') := UnmixLine(x, y, z, s); MixLine(x', y', z, s) == (x, y)
    ensures UnfinalLine(FinalLine(x, y, s), y, s) == x
    ensures FinalLine(UnfinalLine(x, y, s), y, s) == x
  {
    hide Add, Sub, Xor, Rotl;
    SubAdd(y, z);
    SubAdd(x, y);
    XorXor(Sub(x, y), Rotl(y, s));
    var y' := Sub(y, z);
    SubAdd(Xor(x, Rotl(y', s)), y');
    XorXor(x, Rotl(y', s));
    SubAdd(Xor(x, y), Rotl(y, s));
    XorXor(x, y);
    SubAdd(x, Rotl(y, s));
    XorXor(Add(x, Rotl(y, s)), y);
  }

  function Mix(t: Triple): Triple {
    var (a1, c1) := MixLine(t.a, t.c, t.b, 4);
    var (b1, a2) := MixLine(t.b, a1, c1, 6);
    var (c2, b2) := MixLine(c1, b1, a2, 8);
    var (a3, c3) := MixLine(a2, c2, b2, 16);
    var (b3, a4) := MixLine(b2, a3, c3, 19);
    var (c4, b4) := MixLine(c3, b3, a4, 4);
    T(a4, b4, c4)
  }

  function Unmix(t: Triple): Triple {
    var (c3, b3) := UnmixLine(t.c, t.b, t.a, 4);
    var (b2, a3) := UnmixLine(b3, t.a, c3, 19);
    var (a2, c2) := UnmixLine(a3, c3, b2, 16);
    var (c1, b1) := UnmixLine(c2, b2, a2, 8);
    var (b0, a1) := UnmixLine(b1, a2, c1, 6);
    var (a0, c0) := UnmixLine(a1, c1, b0, 4);
    T(a0, b0, c0)
  }

  function Final(t: Triple): Triple {
    var c1 := FinalLine(t.c, t.b, 14);
    var a1 := FinalLine(t.a, c1, 11);
    var b1 := FinalLine(t.b, a1, 25);
    var c2 := FinalLine(c1, b1, 16);
    var a2 := FinalLine(a1, c2, 4);
    var b2 := FinalLine(b1, a2, 14);
    T(a2, b2, FinalLine(c2, b2, 24))
  }

  function Unfinal(t: Triple): Triple {
    var c2 := UnfinalLine(t.c, t.b, 24);
    var b1 := UnfinalLine(t.b, t.a, 14);
    var a1 := UnfinalLine(t.a, c2, 4);
    var c1 := UnfinalLine(c2, b1, 16);
    var b0 := UnfinalLine(b1, a1, 25);
    var a0 := UnfinalLine(a1, c1, 11);
    T(a0, b0, UnfinalLine(c1, b0, 14))
  }

  lemma MixReversible(t: Triple)
    ensures Unmix(Mix(t)) == t && Mix(Unmix(t)) == t
  {
    hide MixLine, UnmixLine;
    assert Unmix(Mix(t)) == t by {
      var (a1, c1) := MixLine(t.a, t.c, t.b, 4);
      var (b1, a2) := MixLine(t.b, a1, c1, 6);
      var (c2, b2) := MixLine(c1, b1, a2, 8);
      var (a3, c3) := MixLine(a2, c2, b2, 16);
      var (b3, a4) := MixLine(b2, a3, c3, 19);
      LinesUndone(t.a, t.c, t.b, 4);
      LinesUndone(t.b, a1, c1, 6);
      LinesUndone(c1, b1, a2, 8);
      LinesUndone(a2, c2, b2, 16);
      LinesUndone(b2, a3, c3, 19);
      LinesUndone(c3, b3, a4, 4);
    }
    assert Mix(Unmix(t)) == t by {
      var (c3, b3) := UnmixLine(t.c, t.b, t.a, 4);
      var (b2, a3) := UnmixLine(b3, t.a, c3, 19);
      var (a2, c2) := UnmixLine(a3, c3, b2, 16);
      var (c1, b1) := UnmixLine(c2, b2, a2, 8);
      var (b0, a1) := UnmixLine(b1, a2, c1, 6);
      LinesUndone(t.c, t.b, t.a, 4);
      LinesUndone(b3, t.a, c3, 19);
      LinesUndone(a3, c3, b2, 16);
      LinesUndone(c2, b2, a2, 8);
      LinesUndone(b1, a2, c1, 6);
      LinesUndone(a1, c1, b0, 4);
    }
  }

  lemma FinalReversible(t: Triple)
    ensures Unfinal(Final(t)) == t && Final(Unfinal(t)) == t
  {
    hide FinalLine, UnfinalLine;
    assert Unfinal(Final(t)) == t by {
      var c1 := FinalLine(t.c, t.b, 14);
      var a1 := FinalLine(t.a, c1, 11);
      var b1 := FinalLine(t.b, a1, 25);
      var c2 := FinalLine(c1, b1, 16);
      var a2 := FinalLine(a1, c2, 4);
      var b2 := FinalLine(b1, a2, 14);
      LinesUndone(t.c, t.b, 0, 14);
      LinesUndone(t.a, c1, 0, 11);
      LinesUndone(t.b, a1, 0, 25);
      LinesUndone(c1, b1, 0, 16);
      LinesUndone(a1, c2, 0, 4);
      LinesUndone(b1, a2, 0, 14);
      LinesUndone(c2, b2, 0, 24);
    }
    assert Final(Unfinal(t)) == t by {
      var c2 := UnfinalLine(t.c, t.b, 24);
      var b1 := UnfinalLine(t.b, t.a, 14);
      var a1 := UnfinalLine(t.a, c2, 4);
      var c1 := UnfinalLine(c2, b1, 16);
      var b0 := UnfinalLine(b1, a1, 25);
      var a0 := UnfinalLine(a1, c1, 11);
      LinesUndone(t.c, t.b, 0, 24);
      LinesUndone(t.b, t.a, 0, 14);
      LinesUndone(t.a, c2, 0, 4);
      LinesUndone(c2, b1, 0, 16);
      LinesUndone(b1, a1, 0, 25);
      LinesUndone(a1, c1, 0, 11);
      LinesUndone(c1, b0, 0, 14);
    }
  }

  // ----- The hash, defined on the bytes of the key

  function Up0(b: Byte): Word { b as Word }
  function Up1(b: Byte): Word { (b as Word) << 8 }
  function Up2(b: Byte): Word { (b as Word) << 16 }
  function Up3(b: Byte): Word { (b as Word) << 24 }

  /** Four bytes read as one little-endian word, and two as one half word. */
  function Load(b0: Byte, b1: Byte, b2: Byte, b3: Byte): Word {
    Up0(b0) | Up1(b1) | Up2(b2) | Up3(b3)
  }

  function Load16(b0: Byte, b1: Byte): Word {
    Up0(b0) | Up1(b1)
  }

  function Get(s: seq<Byte>, i: nat): Byte {
    if i < |s| then s[i] else 0
  }

  /** The word at byte `i` of a string taken to be followed by zeros. */
  function WordAt(s: seq<Byte>, i: nat): Word {
    Load(Get(s, i), Get(s, i + 1), Get(s, i + 2), Get(s, i + 3))
  }

  function Absorb(t: Triple, s: seq<Byte>): Triple {
    T(Add(t.a, WordAt(s, 0)), Add(t.b, WordAt(s, 4)), Add(t.c, WordAt(s, 8)))
  }

  function Rounds(t: Triple, s: seq<Byte>): Triple
    decreases |s|
  {
    if |s| > 12 then Rounds(Mix(Absorb(t, s[..12])), s[12..])
    else if |s| == 0 then t
    else Final(Absorb(t, s))
  }

  function Init(h: Word, size: nat): Word {
    0xdead_beef + (size % 0x1_0000_0000) as Word + h
  }

  /** The pair `(*pc, *pb)` left for a key. */
  function Pair(key: seq<Byte>, pc: Word, pb: Word): (Word, Word) {
    var i := Init(pc, |key|);
    var t := Rounds(T(i, i, Add(i, pb)), key);
    (t.c, t.b)
  }

  /** With the key and the first seed fixed nothing is lost: the state the hash
      starts from can be computed back from the one it ends in. */
  function Unrounds(t: Triple, s: seq<Byte>): Triple
    decreases |s|
  {
    if |s| > 12 then Expel(Unmix(Unrounds(t, s[12..])), s[..12])
    else if |s| == 0 then t
    else Expel(Unfinal(t), s)
  }

  function Expel(t: Triple, s: seq<Byte>): Triple {
    T(Sub(t.a, WordAt(s, 0)), Sub(t.b, WordAt(s, 4)), Sub(t.c, WordAt(s, 8)))
  }

  lemma AbsorbUndone(t: Triple, s: seq<Byte>)
    ensures Expel(Absorb(t, s), s) == t && Absorb(Expel(t, s), s) == t
  {
    hide Add, Sub, WordAt;
    SubAdd(t.a, WordAt(s, 0));
    SubAdd(t.b, WordAt(s, 4));
    SubAdd(t.c, WordAt(s, 8));
  }

  lemma {:induction false} RoundsReversible(t: Triple, s: seq<Byte>)
    ensures Unrounds(Rounds(t, s), s) == t && Rounds(Unrounds(t, s), s) == t
    decreases |s|
  {
    hide Mix, Unmix, Final, Unfinal, Absorb, Expel;
    if |s| > 12 {
      var head, tail := s[..12], s[12..];
      var u := Unrounds(t, tail);
      AbsorbUndone(t, head);
      MixReversible(Absorb(t, head));
      RoundsReversible(Mix(Absorb(t, head)), tail);
      RoundsReversible(t, tail);
      MixReversible(u);
      AbsorbUndone(Unmix(u), head);
    } else if |s| > 0 {
      AbsorbUndone(t, s);
      FinalReversible(Absorb(t, s));
      FinalReversible(t);
      AbsorbUndone(Unfinal(t), s);
    }
  }

  // ----- Ways of reading a word

  function Masked(w: Word, m: Word): Word { w & m }
  function High(w: Word): Word { w << 16 }

  lemma MaskThree(b0: Byte, b1: Byte, b2: Byte, b3: Byte)
    ensures Masked(Load(b0, b1, b2, b3), 0xff_ffff) == Load(b0, b1, b2, 0)
  {
  }

  lemma MaskTwo(b0: Byte, b1: Byte, b2: Byte, b3: Byte)
    ensures Masked(Load(b0, b1, b2, b3), 0xffff) == Load(b0, b1, 0, 0)
  {
  }

  lemma MaskOne(b0: Byte, b1: Byte, b2: Byte, b3: Byte)
    ensures Masked(Load(b0, b1, b2, b3), 0xff) == Load(b0, 0, 0, 0)
  {
  }

  lemma Halves(b0: Byte, b1: Byte, b2: Byte, b3: Byte)
    ensures Add(Load16(b0, b1), High(Load16(b2, b3))) == Load(b0, b1, b2, b3)
  {
  }

  lemma Shorts(b0: Byte, b1: Byte)
    ensures Load16(b0, b1) == Load(b0, b1, 0, 0)
    ensures Up0(b0) == Load(b0, 0, 0, 0)
  {
  }

  lemma AddIs(x: Word, y: Word)
    ensures Add(x, y) == x + y
  {
  }

  lemma AddAssocRaw(x: Word, y: Word, z: Word)
    ensures Add(x + y, z) == Add(x, y + z)
  {
  }

  lemma AddAssoc(x: Word, y: Word, z: Word)
    ensures Add(Add(x, y), z) == Add(x, Add(y, z))
  {
    hide Add;
    AddIs(x, y);
    AddIs(y, z);
    AddAssocRaw(x, y, z);
  }

  lemma AddNothing(x: Word)
    ensures Add(x, Up0(0)) == x && Add(x, Up1(0)) == x && Add(x, Up2(0)) == x && Add(x, Up3(0)) == x
    ensures Add(x, Load(0, 0, 0, 0)) == x
  {
  }

  lemma LoadUp(b0: Byte, b1: Byte, b2: Byte, b3: Byte)
    ensures Load(b0, b1, b2, b3) == Add(Up0(b0), Add(Up1(b1), Add(Up2(b2), Up3(b3))))
  {
  }

  lemma AddComm(x: Word, y: Word)
    ensures Add(x, y) == Add(y, x)
  {
  }

  lemma LoadDown(b0: Byte, b1: Byte, b2: Byte, b3: Byte)
    ensures Load(b0, b1, b2, b3) == Add(Up3(b3), Add(Up2(b2), Add(Up1(b1), Up0(b0))))
  {
    hide Load, Add, Up0, Up1, Up2, Up3;
    LoadUp(b0, b1, b2, b3);
    AddComm(Up0(b0), Add(Up1(b1), Add(Up2(b2), Up3(b3))));
    AddComm(Up1(b1), Add(Up2(b2), Up3(b3)));
    AddComm(Up2(b2), Up3(b3));
    AddAssoc(Add(Up3(b3), Up2(b2)), Up1(b1), Up0(b0));
    AddAssoc(Up3(b3), Up2(b2), Add(Up1(b1), Up0(b0)));
  }

  lemma LoadOdd(b0: Byte, b1: Byte, b2: Byte)
    ensures Load(b0, b1, b2, 0) == Add(Up2(b2), Load16(b0, b1))
  {
  }

  lemma AddFour(x: Word, p: Word, q: Word, r: Word, s: Word)
    ensures Add(Add(Add(Add(x, p), q), r), s) == Add(x, Add(p, Add(q, Add(r, s))))
  {
    hide Add;
    AddAssoc(Add(Add(x, p), q), r, s);
    AddAssoc(Add(x, p), q, Add(r, s));
    AddAssoc(x, p, Add(q, Add(r, s)));
  }

  // ----- The three read paths over memory that holds more than the key

  function Read32(mem: seq<Byte>, p: nat): Word
    requires p + 4 <= |mem|
  {
    Load(mem[p], mem[p + 1], mem[p + 2], mem[p + 3])
  }

  function Read16(mem: seq<Byte>, p: nat): Word
    requires p + 2 <= |mem|
  {
    Load16(mem[p], mem[p + 1])
  }

  lemma WholeWord(mem: seq<Byte>, k: nat, size: nat, i: nat)
    requires i + 4 <= size && k + size <= |mem|
    ensures WordAt(mem[k..k + size], i) == Read32(mem, k + i)
    ensures WordAt(mem[k..k + size], i) == Add(Read16(mem, k + i), High(Read16(mem, k + i + 2)))
  {
    hide Load, Load16, High, Add;
    Halves(mem[k + i], mem[k + i + 1], mem[k + i + 2], mem[k + i + 3]);
  }

  lemma NoWord(mem: seq<Byte>, k: nat, size: nat, i: nat, x: Word)
    requires size <= i && k + size <= |mem|
    ensures Add(x, WordAt(mem[k..k + size], i)) == x
  {
    hide Load, Add;
    AddNothing(x);
  }

  /** What is left of a word past its first `n` bytes is masked off. */
  function Mask(n: nat): Word
    requires 0 < n < 4
  {
    if n == 1 then 0xff else if n == 2 then 0xffff else 0xff_ffff
  }

  lemma PartWord(mem: seq<Byte>, k: nat, size: nat, i: nat)
    requires i < size < i + 4 && k + i + 4 <= |mem|
    ensures WordAt(mem[k..k + size], i) == Masked(Read32(mem, k + i), Mask(size - i))
  {
    hide Load, Masked;
    var m := k + i;
    MaskThree(mem[m], mem[m + 1], mem[m + 2], mem[m + 3]);
    MaskTwo(mem[m], mem[m + 1], mem[m + 2], mem[m + 3]);
    MaskOne(mem[m], mem[m + 1], mem[m + 2], mem[m + 3]);
  }

  /** One word of the last block on a word boundary: the whole word is read,
      up to three bytes of it from beyond the key. */
  method LastWhole(mem: seq<Byte>, k: nat, size: nat, i: nat, x: Word) returns (r: Word)
    requires k + size <= |mem| && (i < size ==> k + i + 4 <= |mem|)
    ensures r == Add(x, WordAt(mem[k..k + size], i))
  {
    hide Add, Masked, WordAt, Read32;
    if size >= i + 4 {
      WholeWord(mem, k, size, i);
      r := Add(x, Read32(mem, k + i));
    } else if size > i {
      PartWord(mem, k, size, i);
      r := Add(x, Masked(Read32(mem, k + i), Mask(size - i)));
    } else {
      NoWord(mem, k, size, i, x);
      r := x;
    }
  }

  method LastWords(mem: seq<Byte>, k: nat, size: nat, t: Triple) returns (r: Triple)
    requires 0 < size <= 12 && k + (size + 3) / 4 * 4 <= |mem|
    ensures r == Absorb(t, mem[k..k + size])
  {
    hide Add, WordAt;
    var c := LastWhole(mem, k, size, 8, t.c);
    var b := LastWhole(mem, k, size, 4, t.b);
    var a := LastWhole(mem, k, size, 0, t.a);
    r := T(a, b, c);
  }

  lemma RoundsFrom(t: Triple, mem: seq<Byte>, k: nat, size: nat)
    requires k <= size <= |mem|
    ensures k + 12 < size ==>
      Rounds(t, mem[k..size]) == Rounds(Mix(Absorb(t, mem[k..k + 12])), mem[k + 12..size])
    ensures k < size <= k + 12 ==> Rounds(t, mem[k..size]) == Final(Absorb(t, mem[k..size]))
    ensures k == size ==> Rounds(t, mem[k..size]) == t
  {
    hide Absorb, Mix, Final;
    if k + 12 < size {
      assert mem[k..size][..12] == mem[k..k + 12] && mem[k..size][12..] == mem[k + 12..size];
    }
  }

  method PathWords(mem: seq<Byte>, size: nat, t: Triple) returns (r: Triple)
    requires (size + 3) / 4 * 4 <= |mem|
    ensures r == Rounds(t, mem[..size])
  {
    hide Rounds, Absorb, Mix, Final;
    r := t;
    var k, left := 0, size;
    while left > 12
      invariant k + left == size && k % 4 == 0
      invariant Rounds(r, mem[k..size]) == Rounds(t, mem[..size])
    {
      RoundsFrom(r, mem, k, size);
      WordsAbsorbed(mem, k, r);
      r := Mix(T(Add(r.a, Read32(mem, k)), Add(r.b, Read32(mem, k + 4)), Add(r.c, Read32(mem, k + 8))));
      left := left - 12;
      k := k + 12;
    }
    RoundsFrom(r, mem, k, size);
    if left == 0 {
      return;
    }
    r := LastWords(mem, k, left, r);
    r := Final(r);
  }

  lemma WordsAbsorbed(mem: seq<Byte>, k: nat, t: Triple)
    requires k + 12 <= |mem|
    ensures T(Add(t.a, Read32(mem, k)), Add(t.b, Read32(mem, k + 4)), Add(t.c, Read32(mem, k + 8)))
      == Absorb(t, mem[k..k + 12])
  {
    hide Add, WordAt, Read32;
    WholeWord(mem, k, 12, 0);
    WholeWord(mem, k, 12, 4);
    WholeWord(mem, k, 12, 8);
  }

  lemma OddWord(mem: seq<Byte>, k: nat, size: nat, i: nat, x: Word)
    requires i < size < i + 4 && k + size <= |mem|
    ensures size == i + 1 ==> Add(x, WordAt(mem[k..k + size], i)) == Add(x, Up0(mem[k + i]))
    ensures size == i + 2 ==> Add(x, WordAt(mem[k..k + size], i)) == Add(x, Read16(mem, k + i))
    ensures size == i + 3 ==>
      Add(x, WordAt(mem[k..k + size], i)) == Add(Add(x, Up2(mem[k + i + 2])), Read16(mem, k + i))
  {
    hide Load, Load16, Add, Up0, Up2;
    var m := k + i;
    if size == i + 1 {
      Shorts(mem[m], 0);
    } else {
      Shorts(mem[m], mem[m + 1]);
      if size == i + 3 {
        LoadOdd(mem[m], mem[m + 1], mem[m + 2]);
        AddAssoc(x, Up2(mem[m + 2]), Read16(mem, m));
      }
    }
  }

  /** One word of the last block on a half-word boundary, an odd byte being
      read singly. */
  method LastHalf(mem: seq<Byte>, k: nat, size: nat, i: nat, x: Word) returns (r: Word)
    requires k + size <= |mem|
    ensures r == Add(x, WordAt(mem[k..k + size], i))
  {
    hide Add, WordAt, Read16, Up0, Up2, High;
    r := x;
    if size >= i + 4 {
      WholeWord(mem, k, size, i);
      r := Add(r, Add(Read16(mem, k + i), High(Read16(mem, k + i + 2))));
    } else if size > i {
      OddWord(mem, k, size, i, x);
      if size == i + 1 {
        r := Add(r, Up0(mem[k + i]));
      } else {
        if size == i + 3 {
          r := Add(r, Up2(mem[k + i + 2]));
        }
        r := Add(r, Read16(mem, k + i));
      }
    } else {
      NoWord(mem, k, size, i, x);
    }
  }

  method LastHalves(mem: seq<Byte>, k: nat, size: nat, t: Triple) returns (r: Triple)
    requires 0 < size <= 12 && k + size <= |mem|
    ensures r == Absorb(t, mem[k..k + size])
  {
    hide Add, WordAt;
    var c := LastHalf(mem, k, size, 8, t.c);
    var b := LastHalf(mem, k, size, 4, t.b);
    var a := LastHalf(mem, k, size, 0, t.a);
    r := T(a, b, c);
  }

  lemma HalvesAbsorbed(mem: seq<Byte>, k: nat, t: Triple)
    requires k + 12 <= |mem|
    ensures T(Add(t.a, Add(Read16(mem, k), High(Read16(mem, k + 2)))),
              Add(t.b, Add(Read16(mem, k + 4), High(Read16(mem, k + 6)))),
              Add(t.c, Add(Read16(mem, k + 8), High(Read16(mem, k + 10))))) == Absorb(t, mem[k..k + 12])
  {
    hide Add, WordAt, Read16, High;
    WholeWord(mem, k, 12, 0);
    WholeWord(mem, k, 12, 4);
    WholeWord(mem, k, 12, 8);
  }

  method PathHalves(mem: seq<Byte>, size: nat, t: Triple) returns (r: Triple)
    requires size <= |mem|
    ensures r == Rounds(t, mem[..size])
  {
    hide Rounds, Absorb, Mix, Final;
    r := t;
    var k, left := 0, size;
    while left > 12
      invariant k + left == size
      invariant Rounds(r, mem[k..size]) == Rounds(t, mem[..size])
    {
      RoundsFrom(r, mem, k, size);
      HalvesAbsorbed(mem, k, r);
      r := Mix(T(Add(r.a, Add(Read16(mem, k), High(Read16(mem, k + 2)))),
                 Add(r.b, Add(Read16(mem, k + 4), High(Read16(mem, k + 6)))),
                 Add(r.c, Add(Read16(mem, k + 8), High(Read16(mem, k + 10))))));
      left := left - 12;
      k := k + 12;
    }
    RoundsFrom(r, mem, k, size);
    if left == 0 {
      return;
    }
    r := LastHalves(mem, k, left, r);
    r := Final(r);
  }

  /** A word gathered a byte at a time, from its low end or from its high end. */
  lemma Gathered(x: Word, s: seq<Byte>, i: nat)
    ensures Add(Add(Add(Add(x, Up0(Get(s, i))), Up1(Get(s, i + 1))), Up2(Get(s, i + 2))), Up3(Get(s, i + 3)))
      == Add(x, WordAt(s, i))
    ensures Add(Add(Add(Add(x, Up3(Get(s, i + 3))), Up2(Get(s, i + 2))), Up1(Get(s, i + 1))), Up0(Get(s, i)))
      == Add(x, WordAt(s, i))
  {
    hide Add, Load, Up0, Up1, Up2, Up3, Get;
    var b0, b1, b2, b3 := Get(s, i), Get(s, i + 1), Get(s, i + 2), Get(s, i + 3);
    AddFour(x, Up0(b0), Up1(b1), Up2(b2), Up3(b3));
    LoadUp(b0, b1, b2, b3);
    AddFour(x, Up3(b3), Up2(b2), Up1(b1), Up0(b0));
    LoadDown(b0, b1, b2, b3);
  }

  /** One word of the last block read a byte at a time by the falling-through
      cases, which start at the last byte present. */
  method LastWord(mem: seq<Byte>, k: nat, size: nat, i: nat, x: Word) returns (r: Word)
    requires k + size <= |mem|
    ensures r == Add(x, WordAt(mem[k..k + size], i))
  {
    hide Add, Up0, Up1, Up2, Up3;
    ghost var s := mem[k..k + size];
    Gathered(x, s, i);
    r := x;
    AddNothing(r);
    if size >= i + 4 { r := Add(r, Up3(mem[k + i + 3])); }
    assert r == Add(x, Up3(Get(s, i + 3)));
    AddNothing(r);
    if size >= i + 3 { r := Add(r, Up2(mem[k + i + 2])); }
    assert r == Add(Add(x, Up3(Get(s, i + 3))), Up2(Get(s, i + 2)));
    AddNothing(r);
    if size >= i + 2 { r := Add(r, Up1(mem[k + i + 1])); }
    AddNothing(r);
    if size >= i + 1 { r := Add(r, Up0(mem[k + i])); }
  }

  method LastBytes(mem: seq<Byte>, k: nat, size: nat, t: Triple) returns (r: Triple)
    requires 0 < size <= 12 && k + size <= |mem|
    ensures r == Absorb(t, mem[k..k + size])
  {
    hide Add, WordAt;
    var c := LastWord(mem, k, size, 8, t.c);
    var b := LastWord(mem, k, size, 4, t.b);
    var a := LastWord(mem, k, size, 0, t.a);
    r := T(a, b, c);
  }

  method WordByBytes(mem: seq<Byte>, k: nat, x: Word) returns (r: Word)
    requires k + 4 <= |mem|
    ensures r == Add(x, Read32(mem, k))
  {
    hide Add, Load, Up0, Up1, Up2, Up3;
    Gathered(x, mem, k);
    r := x;
    r := Add(r, Up0(mem[k]));
    r := Add(r, Up1(mem[k + 1]));
    r := Add(r, Up2(mem[k + 2]));
    r := Add(r, Up3(mem[k + 3]));
  }

  method PathBytes(mem: seq<Byte>, size: nat, t: Triple) returns (r: Triple)
    requires size <= |mem|
    ensures r == Rounds(t, mem[..size])
  {
    hide Rounds, Absorb, Mix, Final, Add, Read32;
    r := t;
    var k, left := 0, size;
    while left > 12
      invariant k + left == size
      invariant Rounds(r, mem[k..size]) == Rounds(t, mem[..size])
    {
      RoundsFrom(r, mem, k, size);
      WordsAbsorbed(mem, k, r);
      var a := WordByBytes(mem, k, r.a);
      var b := WordByBytes(mem, k + 4, r.b);
      var c := WordByBytes(mem, k + 8, r.c);
      r := Mix(T(a, b, c));
      left := left - 12;
      k := k + 12;
    }
    RoundsFrom(r, mem, k, size);
    if left == 0 {
      return;
    }
    r := LastBytes(mem, k, left, r);
    r := Final(r);
  }

  /** `jlu32lpair` on a key at address `addr` whose memory `mem` goes on past
      its `size` bytes, to the end of the word at least when words are read.
      The pair depends on the bytes of the key and the two seeds only: not on
      the alignment, the byte order of the machine or what follows the key. */
  method Jlu32lpair(key: Option<seq<Byte>>, addr: nat, little: bool, size: nat, pc: Word, pb: Word)
    returns (pc': Word, pb': Word)
    requires key.Some? ==> size <= |key.value|
    requires key.Some? && little && addr % 4 == 0 ==> (size + 3) / 4 * 4 <= |key.value|
    ensures key.Some? ==> (pc', pb') == Pair(key.value[..size], pc, pb)
    ensures key.None? ==> pc' == pb' == Init(pc, size)
  {
    hide Rounds, Add, Init;
    var a := Init(pc, size);
    var t := T(a, a, a);
    if key.Some? {
      t := t.(c := Add(t.c, pb));
      if little && addr % 4 == 0 {
        t := PathWords(key.value, size, t);
      } else if little && addr % 2 == 0 {
        t := PathHalves(key.value, size, t);
      } else {
        t := PathBytes(key.value, size, t);
      }
    }
    pc' := t.c;
    pb' := t.b;
  }
}
