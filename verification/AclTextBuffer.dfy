/** `__acl_to_any_text` as it works: into a buffer of guessed size, entry by
    entry, doubling the buffer and repeating an entry that did not fit. */
module AclTextBuffer {
  import opened Wrappers
  import opened Text
  import opened AclEntry
  import opened AclRing
  import opened AclCheck
  import opened AclText

  // ----- Decimal digits from the left

  function Pow10(k: nat): (p: nat)
    ensures p >= 1
  {
    if k == 0 then 1 else 10 * Pow10(k - 1)
  }

  /** `k` digits of `n`, most significant first. */
  function Padded(n: nat, k: nat): (t: string)
    requires n < Pow10(k)
    ensures |t| == k
  {
    if k == 0 then ""
    else
      var p := Pow10(k - 1);
      LeadingDigit(n, p);
      [DigitChar(n / p)] + Padded(n % p, k - 1)
  }

  lemma LeadingDigit(n: nat, p: nat)
    requires p >= 1 && n < 10 * p
    ensures 0 <= n / p < 10
  {
    MulMono(10, n / p, p);
  }

  lemma MulMono(a: int, b: int, p: nat)
    ensures a <= b ==> a * p <= b * p
  {
  }

  lemma DivTwice(n: nat, p: nat)
    requires p >= 1
    ensures n / 10 / p == n / (10 * p)
    ensures n % (10 * p) / 10 == n / 10 % p && n % (10 * p) % 10 == n % 10
  {
    var q := n / (10 * p);
    var r := n % (10 * p);
    assert n == 10 * p * q + r;
    assert n / 10 == p * q + r / 10 by {
      assert n == 10 * (p * q) + r;
    }
    var m := n / 10;
    assert m == p * q + r / 10 && 0 <= r / 10 < p;
    QuotientUnique(m, p, q, r / 10);
    assert n % 10 == r % 10 by {
      assert n == 10 * (p * q) + r;
    }
  }

  lemma QuotientUnique(m: nat, p: nat, q: nat, r: nat)
    requires p >= 1 && m == p * q + r && r < p
    ensures m / p == q && m % p == r
  {
    var q', r' := m / p, m % p;
    assert m == q' * p + r';
    MulMono(q + 1, q', p);
    MulMono(q' + 1, q, p);
  }

  lemma {:induction false} PaddedRight(n: nat, k: nat)
    requires k >= 1 && n < Pow10(k)
    ensures n / 10 < Pow10(k - 1)
    ensures Padded(n, k) == Padded(n / 10, k - 1) + [DigitChar(n % 10)]
    decreases k
  {
    var p := Pow10(k - 1);
    LeadingDigit(n, p);
    assert n / 10 < p;
    if k > 1 {
      var p' := Pow10(k - 2);
      assert p == 10 * p';
      DivTwice(n, p');
      PaddedRight(n % p, k - 1);
    } else {
      assert Padded(n % p, 0) == "" && n % p == 0;
    }
  }

  lemma {:induction false} DecimalPadded(n: nat)
    ensures n < Pow10(|Decimal(n)|) && Decimal(n) == Padded(n, |Decimal(n)|)
  {
    var k := |Decimal(n)|;
    if n < 10 {
      assert Pow10(1) == 10 && Pow10(0) == 1;
      assert Padded(n % 1, 0) == "";
    } else {
      DecimalPadded(n / 10);
      assert Decimal(n) == Decimal(n / 10) + [DigitChar(n % 10)];
      assert n < Pow10(k) by { assert Pow10(k) == 10 * Pow10(k - 1); }
      PaddedRight(n, k);
    }
  }

  // ----- Truncated output

  /** As much of `t` as fits is in the buffer. */
  ghost predicate Shows(b: seq<char>, base: nat, cap: nat, t: string) {
    forall i :: 0 <= i < |t| && i < cap ==> base + i < |b| && b[base + i] == t[i]
  }

  /** strncpy or a run of guarded stores: at most `size` characters. */
  method Put(buf: array<char>, off: nat, size: nat, piece: string)
    requires size > 0 ==> off + size <= buf.Length
    modifies buf
    ensures Shows(buf[..], off, size, piece)
    ensures forall j :: 0 <= j < buf.Length && !(off <= j < off + size) ==> buf[j] == old(buf[j])
  {
    var i := 0;
    while i < size
      invariant 0 <= i <= size
      invariant forall j :: off <= j < off + i ==> buf[j] == At(piece, j - off)
      invariant forall j :: 0 <= j < buf.Length && !(off <= j < off + size) ==> buf[j] == old(buf[j])
    {
      buf[off + i] := At(piece, i);
      i := i + 1;
    }
  }

  /** `snprint_uint`.  It stays within `size` cells with one exception: a zero
      printed into exactly one cell is followed by a NUL outside. */
  method SnprintUint(buf: array<char>, off: nat, size: nat, n: nat) returns (digits: nat)
    requires size > 0 ==> off + size < buf.Length
    modifies buf
    ensures digits == |Decimal(n)|
    ensures Shows(buf[..], off, size, Decimal(n))
    ensures forall j :: 0 <= j < buf.Length && !(off <= j < off + size) && !(j == off + size && size == 1 && n == 0)
              ==> buf[j] == old(buf[j])
    ensures size == 1 && n == 0 ==> buf[off + size] == NUL
  {
    var factor;
    digits, factor := CountDigits(n);
    if size > 0 && n == 0 {
      buf[off] := '0';
      buf[off + 1] := NUL;
      return;
    }
    DecimalPadded(n);
    WriteDigits(buf, off, size, n, digits, factor);
  }

  /** The two counting loops; `factor` never exceeds the number, so it stays
      within an unsigned int when the number does. */
  method CountDigits(n: nat) returns (digits: nat, factor: nat)
    ensures digits == |Decimal(n)| >= 1 && factor == Pow10(digits - 1)
    ensures n > 0 ==> factor <= n
  {
    digits, factor := 1, 1;
    var tmp := n / 10;
    ghost var t: nat := n;
    while tmp != 0
      invariant digits >= 1 && factor == Pow10(digits - 1)
      invariant tmp == t / 10 && |Decimal(n)| == digits - 1 + |Decimal(t)|
      decreases t
    {
      digits := digits + 1;
      factor := factor * 10;
      t := t / 10;
      tmp := tmp / 10;
    }
    DecimalLower(n);
  }

  lemma {:induction false} DecimalLower(n: nat)
    ensures n > 0 ==> Pow10(|Decimal(n)| - 1) <= n
  {
    if n >= 10 {
      DecimalLower(n / 10);
    }
  }

  method WriteDigits(buf: array<char>, off: nat, size: nat, n: nat, digits: nat, factor: nat)
    requires size > 0 ==> off + size < buf.Length
    requires digits >= 1 && factor == Pow10(digits - 1) && n < Pow10(digits)
    modifies buf
    ensures Shows(buf[..], off, size, Padded(n, digits))
    ensures forall j :: 0 <= j < buf.Length && !(off <= j < off + size) ==> buf[j] == old(buf[j])
  {
    ghost var text := Padded(n, digits);
    var i: nat, f: nat, k: nat := n, factor, 0;
    while k < size && f > 0
      invariant k <= size && k <= digits
      invariant f == if k < digits then Pow10(digits - 1 - k) else 0
      invariant i < Pow10(digits - k) && text[k..] == Padded(i, digits - k)
      invariant forall j :: off <= j < off + k ==> buf[j] == text[j - off]
      invariant forall j :: 0 <= j < buf.Length && !(off <= j < off + size) ==> buf[j] == old(buf[j])
    {
      LeadingDigit(i, f);
      assert text[k] == text[k..][0] == DigitChar(i / f);
      assert text[k + 1..] == text[k..][1..] == Padded(i % f, digits - k - 1);
      buf[off + k] := DigitChar(i / f);
      i := i % f;
      f := f / 10;
      k := k + 1;
    }
    if k < size {
      buf[off + k] := NUL;
    }
  }

  // ----- One entry

  /** The store outside the buffer described at `SnprintUint`, for an entry. */
  predicate Overrun(e: Entry, prefix: string, y: Style, cap: nat) {
    KnownTag(e.tag) && Named(e.tag) && e.id == 0 && |prefix + TagText(e.tag, y)| + 1 == cap
  }

  lemma ShowsMore(b0: seq<char>, b1: seq<char>, base: nat, cap: nat, done: string, piece: string)
    requires |b0| == |b1| && base + cap <= |b0| && Shows(b0, base, cap, done)
    requires forall j :: 0 <= j < |b0| && !(base + |done| <= j < base + cap) && j != base + cap ==> b1[j] == b0[j]
    requires |done| < cap ==> Shows(b1, base + |done|, cap - |done|, piece)
    ensures Shows(b1, base, cap, done + piece)
  {
    forall i | 0 <= i < |done + piece| && i < cap ensures b1[base + i] == (done + piece)[i] {
      if i < |done| {
        assert b0[base + i] == done[i];
        assert b1[base + i] == b0[base + i];
      } else {
        assert b1[base + |done| + (i - |done|)] == piece[i - |done|];
      }
    }
  }

  /** Only cells from `base` to `base + cap` changed, and `base + cap` itself if
      `over`. */
  ghost predicate Inside(b0: seq<char>, b1: seq<char>, base: nat, cap: nat, over: bool) {
    && |b0| == |b1|
    && forall j :: 0 <= j < |b0| && !(base <= j < base + cap) && !(j == base + cap && over) ==> b1[j] == b0[j]
  }

  lemma InsideTwice(b0: seq<char>, b1: seq<char>, b2: seq<char>, base: nat, cap: nat, o1: bool, o2: bool)
    requires Inside(b0, b1, base, cap, o1) && Inside(b1, b2, base, cap, o2)
    ensures Inside(b0, b2, base, cap, o1 || o2)
  {
  }

  lemma InsideKeeps(b0: seq<char>, b1: seq<char>, base: nat, cap: nat)
    requires Inside(b0, b1, base, cap, false) && base + cap < |b0|
    ensures |b1| == |b0| && b1[base + cap] == b0[base + cap]
  {
  }

  /** Write the next piece and advance. */
  method Emit(buf: array<char>, base: nat, cap: nat, pos: nat, piece: string, ghost done: string) returns (next: nat)
    requires base + cap <= buf.Length && pos == |done| && Shows(buf[..], base, cap, done)
    modifies buf
    ensures next == |done + piece| && Shows(buf[..], base, cap, done + piece)
    ensures Inside(old(buf[..]), buf[..], base, cap, false)
  {
    ghost var b := buf[..];
    Put(buf, base + pos, if pos < cap then cap - pos else 0, piece);
    ShowsMore(b, buf[..], base, cap, done, piece);
    next := pos + |piece|;
  }

  method EmitUint(buf: array<char>, base: nat, cap: nat, pos: nat, n: nat, ghost done: string) returns (next: nat)
    requires base + cap < buf.Length && pos == |done| && Shows(buf[..], base, cap, done)
    modifies buf
    ensures next == |done + Decimal(n)| && Shows(buf[..], base, cap, done + Decimal(n))
    ensures Inside(old(buf[..]), buf[..], base, cap, n == 0 && pos + 1 == cap)
    ensures n == 0 && pos + 1 == cap ==> buf[base + cap] == NUL
  {
    ghost var b := buf[..];
    var digits := SnprintUint(buf, base + pos, if pos < cap then cap - pos else 0, n);
    ShowsMore(b, buf[..], base, cap, done, Decimal(n));
    next := pos + digits;
  }

  method EmitKey(buf: array<char>, base: nat, cap: nat, e: Entry, prefix: string, y: Style) returns (next: nat)
    requires base + cap < buf.Length && KnownTag(e.tag)
    modifies buf
    ensures var t := prefix + TagText(e.tag, y) + (if Named(e.tag) then Decimal(e.id) else "") + ":";
            next == |t| && Shows(buf[..], base, cap, t)
    ensures Inside(old(buf[..]), buf[..], base, cap, Overrun(e, prefix, y, cap))
    ensures Overrun(e, prefix, y, cap) ==> buf[base + cap] == NUL
  {
    hide Shows, Decimal, Inside;
    ghost var b := buf[..];
    ShowsNothing(b, base, cap);
    next := Emit(buf, base, cap, 0, prefix, "");
    assert "" + prefix == prefix;
    ghost var b1 := buf[..];
    next := Emit(buf, base, cap, next, TagText(e.tag, y), prefix);
    ghost var t := prefix + TagText(e.tag, y);
    InsideTwice(b, b1, buf[..], base, cap, false, false);
    b1 := buf[..];
    ghost var over := false;
    if Named(e.tag) {
      over := e.id == 0 && next + 1 == cap;
      next := EmitUint(buf, base, cap, next, e.id, t);
      InsideTwice(b, b1, buf[..], base, cap, false, over);
      b1 := buf[..];
      t := t + Decimal(e.id);
    } else {
      assert t + "" == t;
    }
    next := Emit(buf, base, cap, next, ":", t);
    InsideTwice(b, b1, buf[..], base, cap, over, false);
    InsideKeeps(b1, buf[..], base, cap);
  }

  lemma ShowsNothing(b: seq<char>, base: nat, cap: nat)
    ensures Shows(b, base, cap, "")
  {
  }

  method EmitComment(
      buf: array<char>, base: nat, cap: nat, pos: nat, e: Entry, mask: Option<Perm>, y: Style, ghost done: string)
    returns (next: nat)
    requires base + cap <= buf.Length && pos == |done| && Shows(buf[..], base, cap, done)
    modifies buf
    ensures next == |done + Comment(e, mask, pos, y)| && Shows(buf[..], base, cap, done + Comment(e, mask, pos, y))
    ensures Inside(old(buf[..]), buf[..], base, cap, false)
  {
    hide Shows, PermText, Tabs, Effective;
    if !Commented(e, mask, y) {
      assert done + "" == done;
      return pos;
    }
    hide Inside;
    ghost var b := buf[..];
    var tabs := Tabs(pos, y);
    next := Emit(buf, base, cap, pos, tabs, done);
    ghost var b1 := buf[..];
    next := Emit(buf, base, cap, next, EFFECTIVE, done + tabs);
    InsideTwice(b, b1, buf[..], base, cap, false, false);
    b1 := buf[..];
    var perm := PermText(Effective(e.perm, mask.value));
    next := Emit(buf, base, cap, next, perm, done + tabs + EFFECTIVE);
    InsideTwice(b, b1, buf[..], base, cap, false, false);
    assert done + tabs + EFFECTIVE + perm == done + (tabs + EFFECTIVE + perm);
  }

  /** `acl_entry_to_any_str`: as much of the entry as fits, and the length it
      would take. */
  method EntryToAnyStr(buf: array<char>, base: nat, cap: nat, e: Entry, mask: Option<Perm>, prefix: string, y: Style)
    returns (len: nat)
    requires base + cap < buf.Length
    modifies buf
    ensures len == |EntryText(e, mask, prefix, y)|
    ensures Shows(buf[..], base, cap, EntryText(e, mask, prefix, y))
    ensures Inside(old(buf[..]), buf[..], base, cap, Overrun(e, prefix, y, cap))
    ensures Overrun(e, prefix, y, cap) ==> buf[base + cap] == NUL
  {
    hide Shows, Decimal, PermText, Overrun, TagText, Comment, Inside;
    ghost var b := buf[..];
    ShowsNothing(b, base, cap);
    if !KnownTag(e.tag) {
      len := Emit(buf, base, cap, 0, prefix, "");
      InsideMore(b, buf[..], base, cap, Overrun(e, prefix, y, cap));
      ShowsNothing(buf[..], base, cap);
      OverrunKnown(e, prefix, y, cap);
      return 0;
    }
    len := EmitKey(buf, base, cap, e, prefix, y);
    ghost var b1, over := buf[..], Overrun(e, prefix, y, cap);
    ghost var t := prefix + TagText(e.tag, y) + (if Named(e.tag) then Decimal(e.id) else "") + ":";
    len := Emit(buf, base, cap, len, PermText(e.perm), t);
    InsideTwice(b, b1, buf[..], base, cap, over, false);
    InsideKeeps(b1, buf[..], base, cap);
    b1 := buf[..];
    len := EmitComment(buf, base, cap, len, e, mask, y, EntryCore(e, prefix, y));
    InsideTwice(b, b1, buf[..], base, cap, over, false);
    InsideKeeps(b1, buf[..], base, cap);
    b1 := buf[..];
    if len < cap {
      Terminate(buf, base, cap, len, EntryText(e, mask, prefix, y));
      InsideTwice(b, b1, buf[..], base, cap, over, false);
      InsideKeeps(b1, buf[..], base, cap);
    }
  }

  lemma OverrunKnown(e: Entry, prefix: string, y: Style, cap: nat)
    ensures Overrun(e, prefix, y, cap) ==> KnownTag(e.tag)
  {
  }

  lemma InsideMore(b0: seq<char>, b1: seq<char>, base: nat, cap: nat, over: bool)
    requires Inside(b0, b1, base, cap, false)
    ensures Inside(b0, b1, base, cap, over)
  {
  }

  method Terminate(buf: array<char>, base: nat, cap: nat, len: nat, ghost t: string)
    requires base + cap <= buf.Length && len == |t| < cap && Shows(buf[..], base, cap, t)
    modifies buf
    ensures Shows(buf[..], base, cap, t)
    ensures Inside(old(buf[..]), buf[..], base, cap, false)
  {
    buf[base + len] := NUL;
  }

  // ----- The whole text

  /** The size after doubling until it holds `need` characters. */
  function Grown(size: nat, need: int): (r: nat)
    requires size >= 1
    ensures r >= size && r >= need
    decreases need - size
  {
    if need <= size then size else Grown(2 * size, need)
  }

  /** What stands behind the buffer, so that a store there shows. */
  const MARK := '!'

  /** realloc to the size grown.  The array has one cell more than the buffer it
      stands for: the cell behind it, marked. */
  method Grow(buf: array<char>, size: nat, need: nat) returns (bigger: array<char>, newSize: nat)
    requires 1 <= size && buf.Length == size + 1
    ensures newSize == Grown(size, need) && bigger.Length == newSize + 1 && fresh(bigger)
    ensures bigger[..size] == buf[..size] && bigger[newSize] == MARK
  {
    newSize := size;
    while need > newSize
      invariant newSize >= size >= 1 && Grown(newSize, need) == Grown(size, need)
      decreases need - newSize
    {
      newSize := newSize * 2;
    }
    bigger := new char[newSize + 1](i requires 0 <= i < newSize + 1 reads buf =>
      if i == newSize then MARK else if i < buf.Length then buf[i] else NUL);
  }

  /** An entry that overruns the buffer does not fit it. */
  lemma OverrunShort(e: Entry, mask: Option<Perm>, prefix: string, y: Style, cap: nat)
    ensures Overrun(e, prefix, y, cap) ==> |EntryText(e, mask, prefix, y)| > cap
  {
    hide TagText, Comment, PermText;
    assert |Decimal(0)| == 1;
  }

  /** Print one entry at `len`, growing the buffer until it fits; `stray` tells
      whether the cell behind the buffer was written to. */
  method FitEntry(
      buf: array<char>, size: nat, len: nat, e: Entry, mask: Option<Perm>, prefix: string, room: nat, y: Style)
    returns (out: array<char>, newSize: nat, entryLen: nat, stray: bool)
    requires len <= size && 1 <= size && buf.Length == size + 1 && buf[size] == MARK
    modifies buf
    ensures (out == buf || fresh(out)) && out.Length == newSize + 1 && out[newSize] == MARK
    ensures entryLen == |EntryText(e, mask, prefix, y)| && newSize == Grown(size, len + entryLen + room + 1)
    ensures out[..len + entryLen] == old(buf[..len]) + EntryText(e, mask, prefix, y)
    ensures stray <==> Overrun(e, prefix, y, size - len)
  {
    hide EntryText, Shows, Inside, Overrun;
    ghost var t := EntryText(e, mask, prefix, y);
    OverrunShort(e, mask, prefix, y, size - len);
    entryLen := EntryToAnyStr(buf, len, size - len, e, mask, prefix, y);
    Kept(old(buf[..]), buf[..], len, size - len, Overrun(e, prefix, y, size - len), t);
    stray := buf[size] != MARK;
    if len + entryLen + room + 1 <= size {
      return buf, size, entryLen, stray;
    }
    out, newSize := Grow(buf, size, len + entryLen + room + 1);
    assert out[..len] == out[..size][..len] == buf[..size][..len] == buf[..len];
    ghost var b := out[..];
    OverrunShort(e, mask, prefix, y, newSize - len);
    entryLen := EntryToAnyStr(out, len, newSize - len, e, mask, prefix, y);
    Kept(b, out[..], len, newSize - len, Overrun(e, prefix, y, newSize - len), t);
    assert b[..len] == old(buf[..len]);
  }

  lemma Kept(b0: seq<char>, b1: seq<char>, len: nat, cap: nat, over: bool, t: string)
    requires Inside(b0, b1, len, cap, over) && Shows(b1, len, cap, t) && len + cap < |b0|
    ensures |b1| == |b0| && b1[..len] == b0[..len]
    ensures |t| <= cap ==> b1[..len + |t|] == b0[..len] + t
    ensures !over ==> b1[len + cap] == b0[len + cap]
  {
    if |t| <= cap {
      forall i | len <= i < len + |t| ensures b1[i] == t[i - len] {
        assert b1[len + (i - len)] == t[i - len];
      }
    }
  }

  /** The search for the mask entry. */
  method FetchMask(acl: AclObj, y: Style) returns (mask: Option<Perm>)
    requires acl.Valid()
    ensures mask == MaskFor(acl.Entries, y)
  {
    hide Linked, Distinct, Holds;
    if !(y.some || y.all) {
      return None;
    }
    ghost var s := acl.Entries;
    var i: nat := 0;
    var p := acl.First();
    while p != acl.head
      invariant i <= |s| && p == acl.At(i) && (p == acl.head <==> i == |s|)
      invariant var k := FirstMask(s[i..]); FirstMask(s) == if k < 0 then -1 else k + i
      decreases |s| - i
    {
      var e := acl.Read(p, i);
      assert s[i..][1..] == s[i + 1..];
      if e.tag == MASK {
        return Some(e.perm);
      }
      p := acl.Next(p, i);
      i := i + 1;
    }
    return None;
  }

  lemma LinesSnoc(ls: seq<string>, i: nat, sep: char)
    requires i < |ls|
    ensures Lines(ls[..i + 1], sep) == Lines(ls[..i], sep) + ls[i] + [sep]
  {
    assert ls[..i + 1][..i] == ls[..i];
  }

  /** The characters before line `i`, and the size of the buffer there. */
  function LenAt(ls: seq<string>, i: nat): nat
    requires i <= |ls|
  {
    if i == 0 then 0 else LenAt(ls, i - 1) + |ls[i - 1]| + 1
  }

  function SizeAt(ls: seq<string>, room: nat, i: nat): (size: nat)
    requires i <= |ls|
    ensures size >= 1 && LenAt(ls, i) <= size && (i > 0 ==> LenAt(ls, i) + room <= size)
  {
    if i == 0 then |ls| * 15 + 1 else Grown(SizeAt(ls, room, i - 1), LenAt(ls, i - 1) + |ls[i - 1]| + room + 1)
  }

  lemma SizeStep(ls: seq<string>, room: nat, i: nat)
    requires i < |ls|
    ensures LenAt(ls, i + 1) == LenAt(ls, i) + |ls[i]| + 1
    ensures SizeAt(ls, room, i + 1) == Grown(SizeAt(ls, room, i), LenAt(ls, i + 1) + room)
  {
    hide Grown;
  }

  lemma SizeStart(ls: seq<string>, room: nat)
    ensures LenAt(ls, 0) == 0 && SizeAt(ls, room, 0) == |ls| * 15 + 1
  {
  }

  /** Printing reaches entry `i` with exactly one cell left for its id zero. */
  predicate StraysAt(s: seq<Entry>, prefix: string, suffix: string, y: Style, i: nat)
    requires i < |s|
  {
    var ls := EntryLines(s, MaskFor(s, y), prefix, y);
    Overrun(s[i], prefix, y, SizeAt(ls, |suffix|, i) - LenAt(ls, i))
  }

  predicate StraysBefore(s: seq<Entry>, prefix: string, suffix: string, y: Style, i: nat)
    requires i <= |s|
  {
    exists j :: 0 <= j < i && StraysAt(s, prefix, suffix, y, j)
  }

  lemma StraysStep(s: seq<Entry>, prefix: string, suffix: string, y: Style, i: nat)
    requires i < |s|
    ensures var ls := EntryLines(s, MaskFor(s, y), prefix, y);
      StraysBefore(s, prefix, suffix, y, i + 1) <==>
      StraysBefore(s, prefix, suffix, y, i) || Overrun(s[i], prefix, y, SizeAt(ls, |suffix|, i) - LenAt(ls, i))
  {
    hide SizeAt, LenAt, Overrun, EntryLines;
    var ls := EntryLines(s, MaskFor(s, y), prefix, y);
    assert StraysAt(s, prefix, suffix, y, i) <==> Overrun(s[i], prefix, y, SizeAt(ls, |suffix|, i) - LenAt(ls, i));
  }

  lemma StraysStart(s: seq<Entry>, prefix: string, suffix: string, y: Style)
    ensures !StraysBefore(s, prefix, suffix, y, 0)
  {
  }

  /** One round of the loop: an entry and the separator. */
  method AddLine(
      buf: array<char>, size: nat, len: nat, e: Entry, mask: Option<Perm>, prefix: string, sep: char,
      room: nat, y: Style)
    returns (out: array<char>, newSize: nat, newLen: nat, stray: bool)
    requires len <= size && 1 <= size && buf.Length == size + 1 && buf[size] == MARK
    modifies buf
    ensures (out == buf || fresh(out)) && out.Length == newSize + 1 && out[newSize] == MARK
    ensures var t := EntryText(e, mask, prefix, y);
      && newLen == len + |t| + 1 && newSize == Grown(size, newLen + room)
      && out[..newLen] == old(buf[..len]) + t + [sep]
    ensures stray <==> Overrun(e, prefix, y, size - len)
  {
    hide EntryText, Overrun, Grown;
    var entryLen;
    out, newSize, entryLen, stray := FitEntry(buf, size, len, e, mask, prefix, room, y);
    ghost var before := out[..len + entryLen];
    out[len + entryLen] := sep;
    newLen := len + entryLen + 1;
    assert out[..newLen] == before + [sep];
  }

  /** `__acl_to_any_text`: the text does not depend on how often the buffer had
      to grow; the cell behind the buffer is written to exactly if some entry is
      reached so. */
  method ToAnyText(acl: AclObj, prefix: string, sep: char, suffix: string, y: Style) returns (text: string, stray: bool)
    requires acl.Valid()
    ensures text == ToText(acl.Entries, prefix, sep, suffix, y)
    ensures stray <==> StraysBefore(acl.Entries, prefix, suffix, y, |acl.Entries|)
  {
    hide AclObj.Valid, EntryText, Lines, MaskFor, Finish, Overrun;
    hide Grown, StraysBefore, StraysAt, EntryLines, LenAt, SizeAt;
    AclLength(acl);
    ghost var s := acl.Entries;
    var mask := FetchMask(acl, y);
    ghost var ls := EntryLines(s, mask, prefix, y);
    var size := acl.used * 15 + 1;
    var buf := new char[size + 1](i requires 0 <= i < size + 1 => if i == size then MARK else NUL);
    var len: nat, i: nat := 0, 0;
    stray := false;
    LinesNone(sep);
    StraysStart(s, prefix, suffix, y);
    SizeStart(ls, |suffix|);
    assert ls[..0] == [];
    var p := acl.First();
    while p != acl.head
      invariant i <= |s| && p == acl.At(i) && (p == acl.head <==> i == |s|)
      invariant fresh(buf) && size == SizeAt(ls, |suffix|, i) && buf.Length == size + 1 && buf[size] == MARK
      invariant len == |Lines(ls[..i], sep)| == LenAt(ls, i) && buf[..len] == Lines(ls[..i], sep)
      invariant stray <==> StraysBefore(s, prefix, suffix, y, i)
      decreases |s| - i
    {
      var e := acl.Read(p, i);
      LinesSnoc(ls, i, sep);
      StraysStep(s, prefix, suffix, y, i);
      SizeStep(ls, |suffix|, i);
      var over;
      buf, size, len, over := AddLine(buf, size, len, e, mask, prefix, sep, |suffix|, y);
      stray := stray || over;
      p := acl.Next(p, i);
      i := i + 1;
    }
    assert ls[..i] == ls;
    text := Close(buf, size, len, suffix, Lines(ls, sep));
  }

  /** It does happen: with any prefix of sixteen characters, for the valid ACL of
      the base entries, a mask and group 0. */
  lemma StrayReached(prefix: string, suffix: string)
    requires |prefix| == 16 && |suffix| <= 20
    ensures var s := [Entry(USER_OBJ, UNDEFINED_ID, 7), Entry(GROUP_OBJ, UNDEFINED_ID, 7), Entry(GROUP, 0, 7),
                      Entry(MASK, UNDEFINED_ID, 7), Entry(OTHER, UNDEFINED_ID, 7)];
      Code(s) == 0 && StraysAt(s, prefix, suffix, Style(false, false, false, false), 2)
  {
    var s := [Entry(USER_OBJ, UNDEFINED_ID, 7), Entry(GROUP_OBJ, UNDEFINED_ID, 7), Entry(GROUP, 0, 7),
              Entry(MASK, UNDEFINED_ID, 7), Entry(OTHER, UNDEFINED_ID, 7)];
    var y := Style(false, false, false, false);
    StrayValid(s);
    hide Code, PermText;
    var ls := EntryLines(s, MaskFor(s, y), prefix, y);
    assert |ls[0]| == 25 && |ls[1]| == 26;
    var room := |suffix|;
    assert SizeAt(ls, room, 0) == 76;
    assert LenAt(ls, 1) == 26 && SizeAt(ls, room, 1) == 76;
    assert LenAt(ls, 2) == 53 && SizeAt(ls, room, 2) == 76;
  }

  lemma StrayValid(s: seq<Entry>)
    requires s == [Entry(USER_OBJ, UNDEFINED_ID, 7), Entry(GROUP_OBJ, UNDEFINED_ID, 7), Entry(GROUP, 0, 7),
                   Entry(MASK, UNDEFINED_ID, 7), Entry(OTHER, UNDEFINED_ID, 7)]
    ensures Code(s) == 0
  {
    assert s[0].tag == USER_OBJ && s[1].tag == GROUP_OBJ && s[2].tag == GROUP && s[3].tag == MASK && s[4].tag == OTHER;
    AcceptedStrict(s);
  }

  /** Drop the last separator, add the suffix, for which room was kept. */
  method Close(buf: array<char>, size: nat, len: nat, suffix: string, ghost t: string) returns (text: string)
    requires len == |t| <= size < buf.Length && buf[..len] == t && (len > 0 ==> len + |suffix| <= size)
    ensures text == Finish(t, suffix)
  {
    var n := if len > 0 then len - 1 else 0;
    assert n > 0 ==> buf[..n] == t[..n];
    text := if n > 0 then buf[..n] + suffix else "";
  }

  lemma AclLength(acl: AclObj)
    requires acl.Valid()
    ensures acl.used == |acl.Nodes| == |acl.Entries|
  {
  }

  lemma LinesNone(sep: char)
    ensures Lines([], sep) == ""
  {
  }
}
