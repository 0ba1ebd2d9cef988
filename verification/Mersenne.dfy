/** postmark's random numbers: the Mersenne Twister, its state regenerated in
    place 624 words at a time. */
module Mersenne {

  /** `unsigned long` of an LP64 system. */
  type Word = bv64

  const N := 624
  const M := 397
  const MATRIX_A: Word := 0x9908_b0df
  const UPPER_MASK: Word := 0x8000_0000
  const LOWER_MASK: Word := 0x7fff_ffff
  const MASK_B: Word := 0x9d2c_5680
  const MASK_C: Word := 0xefc6_0000

  // ----- The recurrence

  function Upper(u: Word): Word {
    u & UPPER_MASK
  }

  function Halved(y: Word): Word {
    (y >> 1) ^ (if y & 1 == 0 then 0 else MATRIX_A)
  }

  function Joined(u: Word, l: Word): Word {
    u | (l & LOWER_MASK)
  }

  function Xor(a: Word, b: Word): Word {
    a ^ b
  }

  function Twist(u: Word, l: Word, m: Word): Word {
    Xor(m, Halved(Joined(Upper(u), l)))
  }

  /** The plain recurrence from an initial state: each term from the ones 624,
      623 and 227 places back. */
  function Term(init: seq<Word>, k: nat): Word
    requires |init| == N
  {
    if k < N then init[k] else Twist(Term(init, k - N), Term(init, k - N + 1), Term(init, k - N + M))
  }

  // ----- Tempering

  /** The four shifts of the tempering step, `TEMPERING_SHIFT_U`, `_S`, `_T`
      and `_L`, with the masks applied to two of them. */
  datatype Shift = U | S | T | L

  function ShiftU(y: Word): Word { y >> 11 }
  function ShiftL(y: Word): Word { y >> 18 }
  function ShiftS(y: Word): Word { (y << 7) & MASK_B }
  function ShiftT(y: Word): Word { (y << 15) & MASK_C }

  function Shifted(k: Shift, y: Word): Word {
    match k
    case U => ShiftU(y)
    case S => ShiftS(y)
    case T => ShiftT(y)
    case L => ShiftL(y)
  }

  function Mix(k: Shift, y: Word): Word {
    Xor(y, Shifted(k, y))
  }

  function Temper(y: Word): Word {
    Mix(L, Mix(T, Mix(S, Mix(U, y))))
  }

  /** The inverse of `Mix(k, _)`: the sum of the powers of the shift, of which
      the sixth vanishes. */
  function Unmix(k: Shift, z: Word): Word {
    var a := Shifted(k, z);
    var b := Shifted(k, a);
    var c := Shifted(k, b);
    var d := Shifted(k, c);
    Xor(z, Xor(a, Xor(b, Xor(c, Xor(d, Shifted(k, d))))))
  }

  function Untemper(z: Word): Word {
    Unmix(U, Unmix(S, Unmix(T, Unmix(L, z))))
  }

  lemma XorTwice(a: Word, b: Word)
    ensures Xor(Xor(a, b), b) == a
  {
  }

  lemma XorZero(a: Word)
    ensures Xor(a, 0) == a
  {
  }

  lemma LinearS(a: Word, b: Word)
    ensures ShiftS(Xor(a, b)) == Xor(ShiftS(a), ShiftS(b))
  {
  }

  lemma LinearT(a: Word, b: Word)
    ensures ShiftT(Xor(a, b)) == Xor(ShiftT(a), ShiftT(b))
  {
  }

  lemma LinearU(a: Word, b: Word)
    ensures ShiftU(Xor(a, b)) == Xor(ShiftU(a), ShiftU(b))
  {
  }

  lemma LinearL(a: Word, b: Word)
    ensures ShiftL(Xor(a, b)) == Xor(ShiftL(a), ShiftL(b))
  {
  }

  lemma Linear(k: Shift, a: Word, b: Word)
    ensures Shifted(k, Xor(a, b)) == Xor(Shifted(k, a), Shifted(k, b))
  {
    hide Xor, ShiftU, ShiftS, ShiftT, ShiftL;
    LinearU(a, b);
    LinearS(a, b);
    LinearT(a, b);
    LinearL(a, b);
  }

  lemma VanishesUL(y: Word)
    ensures ShiftU(ShiftU(ShiftU(ShiftU(ShiftU(ShiftU(y)))))) == 0
    ensures ShiftL(ShiftL(ShiftL(ShiftL(ShiftL(ShiftL(y)))))) == 0
  {
  }

  lemma VanishesS(y: Word)
    ensures ShiftS(ShiftS(ShiftS(ShiftS(ShiftS(ShiftS(y)))))) == 0
  {
  }

  lemma VanishesT(y: Word)
    ensures ShiftT(ShiftT(ShiftT(ShiftT(ShiftT(ShiftT(y)))))) == 0
  {
  }

  lemma Vanishes(k: Shift, y: Word)
    ensures Shifted(k, Shifted(k, Shifted(k, Shifted(k, Shifted(k, Shifted(k, y)))))) == 0
  {
    hide ShiftU, ShiftS, ShiftT, ShiftL;
    VanishesUL(y);
    VanishesS(y);
    VanishesT(y);
  }

  lemma MixUndone(k: Shift, y: Word)
    ensures Unmix(k, Mix(k, y)) == y
  {
    hide Xor, Shifted;
    var a := Shifted(k, y);
    var b := Shifted(k, a);
    var c := Shifted(k, b);
    var d := Shifted(k, c);
    var e := Shifted(k, d);
    Vanishes(k, y);
    Linear(k, y, a);
    Linear(k, a, b);
    Linear(k, b, c);
    Linear(k, c, d);
    Linear(k, d, e);
    XorZero(e);
    XorTwice(d, e);
    XorTwice(c, d);
    XorTwice(b, c);
    XorTwice(a, b);
    XorTwice(y, a);
  }

  lemma UnmixUndone(k: Shift, z: Word)
    ensures Mix(k, Unmix(k, z)) == z
  {
    hide Xor, Shifted;
    var a := Shifted(k, z);
    var b := Shifted(k, a);
    var c := Shifted(k, b);
    var d := Shifted(k, c);
    var e := Shifted(k, d);
    var x4 := Xor(d, e);
    var x3 := Xor(c, x4);
    var x2 := Xor(b, x3);
    var x1 := Xor(a, x2);
    Vanishes(k, z);
    XorZero(e);
    Linear(k, d, e);
    Linear(k, c, x4);
    Linear(k, b, x3);
    Linear(k, a, x2);
    Linear(k, z, x1);
    XorTwice(z, x1);
  }

  /** Tempering is a bijection of words. */
  lemma TemperBijective(y: Word)
    ensures Untemper(Temper(y)) == y && Temper(Untemper(y)) == y
  {
    hide Mix, Unmix;
    var u := Mix(U, y);
    var s := Mix(S, u);
    MixUndone(U, y);
    MixUndone(S, u);
    MixUndone(T, s);
    MixUndone(L, Mix(T, s));
    var l := Unmix(L, y);
    var t := Unmix(T, l);
    UnmixUndone(L, y);
    UnmixUndone(T, l);
    UnmixUndone(S, t);
    UnmixUndone(U, Unmix(S, t));
  }

  // ----- Thirty-two bits are enough

  predicate Small(w: Word) {
    w < 0x1_0000_0000
  }

  lemma TwistSmall(u: Word, l: Word, m: Word)
    requires Small(m)
    ensures Small(Twist(u, l, m))
  {
  }

  lemma TemperSmall(y: Word)
    ensures Small(Temper(y)) <==> Small(y)
  {
  }

  lemma TwistUpper(u: Word, v: Word, l: Word, m: Word)
    requires Upper(u) == Upper(v)
    ensures Twist(u, l, m) == Twist(v, l, m)
  {
    hide Upper, Joined, Halved, Xor;
  }

  lemma TermFirst(init: seq<Word>, k: nat)
    requires |init| == N
    ensures Term(init, 0) == init[0] && (k < N ==> Term(init, k) == init[k])
  {
  }

  lemma TermStep(init: seq<Word>, k: nat)
    requires |init| == N
    ensures Term(init, k + N) == Twist(Term(init, k), Term(init, k + 1), Term(init, k + M))
  {
    hide Twist;
  }

  /** The low 31 bits of the first word of the state are never looked at: two
      states that agree elsewhere continue alike. */
  lemma {:induction false} LowBitsDiscarded(init: seq<Word>, other: seq<Word>, k: nat)
    requires |init| == N && |other| == N && init[1..] == other[1..]
    requires Upper(init[0]) == Upper(other[0])
    requires k > 0
    ensures Term(init, k) == Term(other, k)
  {
    hide Upper, Twist, Term;
    TermFirst(init, k);
    TermFirst(other, k);
    if k < N {
      assert init[k] == init[1..][k - 1] && other[k] == other[1..][k - 1];
    } else {
      TermStep(init, k - N);
      TermStep(other, k - N);
      TwistUpper(init[0], other[0], Term(init, 1), Term(init, M));
      if k > N {
        LowBitsDiscarded(init, other, k - N);
      }
      LowBitsDiscarded(init, other, k - N + 1);
      LowBitsDiscarded(init, other, k - N + M);
    }
  }

  /** From a state of 32-bit words only 32-bit words follow. */
  lemma {:induction false} TermSmall(init: seq<Word>, k: nat)
    requires |init| == N && forall i :: 0 <= i < N ==> Small(init[i])
    ensures Small(Term(init, k))
  {
    hide Small, Twist;
    if k >= N {
      TermSmall(init, k - N + M);
      TwistSmall(Term(init, k - N), Term(init, k - N + 1), Term(init, k - N + M));
    }
  }

  function Lcg(seed: Word): Word {
    69069 * seed + 1
  }

  function LcgTimes(seed: Word, n: nat): Word {
    if n == 0 then seed else Lcg(LcgTimes(seed, n - 1))
  }

  function SeedWord(s: Word): Word {
    (s & 0xffff_0000) | ((Lcg(s) & 0xffff_0000) >> 16)
  }

  lemma SeedWordSmall(s: Word)
    ensures Small(SeedWord(s))
  {
  }

  /** The state `sgenrand` fills in: two steps of the congruential generator to
      a word. */
  function Seeded(seed: Word): (init: seq<Word>)
    ensures |init| == N
  {
    seq(N, i requires 0 <= i < N => SeedWord(LcgTimes(seed, 2 * i)))
  }

  lemma SeededSmall(seed: Word, k: nat)
    ensures Small(Term(Seeded(seed), k))
  {
    hide Small, SeedWord;
    forall i | 0 <= i < N
      ensures Small(Seeded(seed)[i])
    {
      SeedWordSmall(LcgTimes(seed, 2 * i));
    }
    TermSmall(Seeded(seed), k);
  }

  const DEFAULT_SEED: Word := 4357
  const UNSEEDED := N + 1

  class Generator {
    const mt: array<Word>
    var mti: nat
    /** The state last seeded, the number of times it has been regenerated and
        the number of words drawn from it. */
    ghost var init: seq<Word>
    ghost var blocks: nat
    ghost var drawn: nat

    ghost predicate Valid()
      reads this, mt
    {
      && mt.Length == N
      && |init| == N
      && mti <= UNSEEDED
      && (mti == UNSEEDED ==> init == Seeded(DEFAULT_SEED) && drawn == 0)
      && (mti != UNSEEDED ==> drawn + N == N * blocks + mti && Holds(N * blocks))
    }

    ghost predicate Holds(base: nat)
      requires |init| == N && mt.Length == N
      reads this, mt
    {
      forall i :: 0 <= i < N ==> mt[i] == Term(init, base + i)
    }

    constructor ()
      ensures Valid() && fresh(mt) && init == Seeded(DEFAULT_SEED) && drawn == 0
    {
      mt := new Word[N];
      mti := UNSEEDED;
      init := Seeded(DEFAULT_SEED);
      blocks := 0;
      drawn := 0;
    }

    method Sgenrand(seed: Word)
      requires Valid()
      modifies this, mt
      ensures Valid() && init == Seeded(seed) && drawn == 0 && mti == N
    {
      hide Lcg;
      var s := seed;
      for i := 0 to N
        invariant s == LcgTimes(seed, 2 * i)
        invariant forall j :: 0 <= j < i ==> mt[j] == SeedWord(LcgTimes(seed, 2 * j))
      {
        mt[i] := s & 0xffff_0000;
        s := Lcg(s);
        mt[i] := mt[i] | ((s & 0xffff_0000) >> 16);
        s := Lcg(s);
      }
      mti := N;
      init := Seeded(seed);
      blocks := 0;
      drawn := 0;
    }

    method Lsgenrand(words: array<Word>)
      requires Valid() && words != mt && words.Length >= N
      modifies this, mt
      ensures Valid() && init == words[..N] && drawn == 0 && mti == N
    {
      for i := 0 to N
        invariant forall j :: 0 <= j < i ==> mt[j] == words[j]
      {
        mt[i] := words[i];
      }
      mti := N;
      init := words[..N];
      blocks := 0;
      drawn := 0;
    }

    /** Replaces the 624 terms held by the next 624, in place: the words still
        to be read are old up to the wrap-around, and new after it. */
    method Regenerate(ghost base: nat)
      requires mt.Length == N && |init| == N && Holds(base)
      modifies mt
      ensures Holds(base + N)
    {
      hide Twist, Term;
      var kk := 0;
      while kk < N - M
        invariant 0 <= kk <= N - M
        invariant forall i :: 0 <= i < kk ==> mt[i] == Term(init, base + N + i)
        invariant forall i :: kk <= i < N ==> mt[i] == Term(init, base + i)
      {
        TermStep(init, base + kk);
        mt[kk] := Twist(mt[kk], mt[kk + 1], mt[kk + M]);
        kk := kk + 1;
      }
      while kk < N - 1
        invariant N - M <= kk <= N - 1
        invariant forall i :: 0 <= i < kk ==> mt[i] == Term(init, base + N + i)
        invariant forall i :: kk <= i < N ==> mt[i] == Term(init, base + i)
      {
        TermStep(init, base + kk);
        assert mt[kk + (M - N)] == Term(init, base + N + (kk + (M - N)));
        mt[kk] := Twist(mt[kk], mt[kk + 1], mt[kk + (M - N)]);
        kk := kk + 1;
      }
      TermStep(init, base + N - 1);
      mt[N - 1] := Twist(mt[N - 1], mt[0], mt[M - 1]);
    }

    /** The next number is the next tempered term of the recurrence. */
    method Genrand() returns (y: Word)
      requires Valid()
      modifies this, mt
      ensures Valid() && init == old(init) && drawn == old(drawn) + 1
      ensures y == Temper(Term(init, N + old(drawn)))
    {
      hide Mix, Term;
      if mti >= N {
        if mti == UNSEEDED {
          Sgenrand(DEFAULT_SEED);
        }
        Regenerate(N * blocks);
        blocks := blocks + 1;
        mti := 0;
      }
      y := mt[mti];
      mti := mti + 1;
      drawn := drawn + 1;
      y := Mix(U, y);
      y := Mix(S, y);
      y := Mix(T, y);
      y := Mix(L, y);
    }
  }
}
