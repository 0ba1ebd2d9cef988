/** Encoding and decoding through the static buffers that only grow, 256 bytes
    at a time: whatever is asked for, the writes stay inside. */
module AttrBuffer {
  import opened Text
  import opened Wrappers
  import opened AttrCodec

  const CHUNK_SIZE := 256

  /** A buffer grown by `high_water_alloc`, null until something is asked for. */
  class HighWater {
    var buf: array?<char>

    ghost predicate Valid()
      reads this
    {
      buf != null ==> buf.Length % CHUNK_SIZE == 0
    }

    function Capacity(): nat
      reads this
    {
      if buf == null then 0 else buf.Length
    }

    constructor ()
      ensures Valid() && buf == null
    {
      buf := null;
    }

    method Alloc(newsize: nat)
      requires Valid()
      modifies this
      ensures Valid() && newsize <= Capacity()
      ensures buf == null <==> old(buf) == null && newsize == 0
      ensures old(Capacity()) >= newsize ==> buf == old(buf)
      ensures old(Capacity()) < newsize ==> buf != null && fresh(buf) && buf.Length < newsize + CHUNK_SIZE
      ensures old(buf) != null ==> old(buf.Length) <= buf.Length && buf[..old(buf.Length)] == old(buf[..])
    {
      if Capacity() < newsize {
        var size := (newsize + CHUNK_SIZE - 1) / CHUNK_SIZE * CHUNK_SIZE;
        var bigger := new char[size];
        if buf != null {
          for i := 0 to buf.Length
            invariant buf == old(buf) && buf[..] == old(buf[..])
            invariant bigger[..i] == buf[..i]
          {
            bigger[i] := buf[i];
          }
          assert bigger[..buf.Length] == buf[..];
        }
        buf := bigger;
      }
    }
  }

  /** Stores characters through a moving pointer. */
  method Put(a: array<char>, e: nat, s: string) returns (e': nat)
    requires e + |s| <= a.Length
    modifies a
    ensures e' == e + |s| && a[..e'] == old(a[..e]) + s
  {
    e' := e;
    for i := 0 to |s|
      invariant e' == e + i && a[..e'] == old(a[..e]) + s[..i]
    {
      a[e'] := s[i];
      e' := e' + 1;
    }
    assert s[..|s|] == s;
  }

  // ----- Writing

  function ExtraByte(c: char): nat {
    if LineBreaking(c) then 4 else if c == '\\' || c == '"' then 1 else 0
  }

  function Extra(v: string): nat {
    if v == [] then 0 else ExtraByte(v[0]) + Extra(v[1..])
  }

  lemma {:induction false} TextFits(v: string)
    requires Narrow(v)
    ensures |TextBody(v)| <= |v| + Extra(v)
  {
    if v != [] && v != [NUL] {
      TextFits(v[1..]);
    }
  }

  method CountExtra(v: string) returns (extra: nat)
    ensures extra == Extra(v)
  {
    extra := 0;
    for n := 0 to |v|
      invariant extra + Extra(v[n..]) == Extra(v)
    {
      assert v[n..][1..] == v[n + 1..];
      if v[n] == NUL || v[n] == '\n' || v[n] == '\r' {
        extra := extra + 4;
      } else if v[n] == '\\' || v[n] == '"' {
        extra := extra + 1;
      }
    }
  }

  method WellEnoughPrintable(v: string, printable: char -> bool) returns (ok: bool)
    ensures ok <==> |v| >= Unprintable(v, printable) * 8
  {
    var nonpr := 0;
    for n := 0 to |v|
      invariant nonpr == Unprintable(v[..n], printable)
    {
      assert v[..n + 1][..n] == v[..n];
      if !printable(v[n]) {
        nonpr := nonpr + 1;
      }
    }
    assert v[..|v|] == v;
    ok := |v| >= nonpr * 8;
  }

  method WriteText(a: array<char>, v: string) returns (size: nat)
    requires Narrow(v) && a.Length >= |v| + Extra(v) + 3
    modifies a
    ensures size < a.Length && a[..size] == EncodeText(v) && a[size] == NUL
  {
    hide TextByte, Extra;
    TextFits(v);
    var e := Put(a, 0, ['"']);
    var n := 0;
    while n < |v|
      invariant 0 <= n <= |v| && 0 <= e <= a.Length
      invariant a[..e] + TextBody(v[n..]) == ['"'] + TextBody(v)
    {
      if v[n] == NUL && n + 1 == |v| {
        assert v[n..] == [NUL];
        break;
      }
      assert v[n..][1..] == v[n + 1..];
      assert TextBody(v[n..]) == TextByte(v[n]) + TextBody(v[n + 1..]);
      e := Put(a, e, TextByte(v[n]));
      n := n + 1;
    }
    assert TextBody(v[n..]) == [];
    e := Put(a, e, ['"']);
    a[e] := NUL;
    size := e;
    assert a[..size] == EncodeText(v);
  }

  method WriteHex(a: array<char>, v: string) returns (size: nat)
    requires Narrow(v) && a.Length >= |v| * 2 + 4
    modifies a
    ensures size < a.Length && a[..size] == EncodeHex(v) && a[size] == NUL
  {
    hide HexChar;
    var e := Put(a, 0, "0x");
    var n := 0;
    while n < |v|
      invariant 0 <= n <= |v| && 0 <= e <= a.Length
      invariant a[..e] + HexBody(v[n..]) == "0x" + HexBody(v)
    {
      assert v[n..][1..] == v[n + 1..];
      e := Put(a, e, [HexChar(v[n] as int / 16), HexChar(v[n] as int % 16)]);
      n := n + 1;
    }
    a[e] := NUL;
    size := e;
    assert a[..size] == EncodeHex(v);
  }

  lemma SixStep(v: string, n: nat)
    requires Narrow(v) && n <= |v|
    ensures n + 3 <= |v| ==>
      SixBody(v[n..]) == Quad(v[n] as int, v[n + 1] as int, v[n + 2] as int) + SixBody(v[n + 3..])
    ensures n + 2 == |v| ==> SixBody(v[n..]) == Quad(v[n] as int, v[n + 1] as int, 0)[..3] + "="
    ensures n + 1 == |v| ==> SixBody(v[n..]) == Quad(v[n] as int, 0, 0)[..2] + "=="
    ensures n == |v| ==> SixBody(v[n..]) == []
  {
    hide Quad;
    if n + 3 <= |v| {
      assert v[n..][3..] == v[n + 3..];
    }
  }

  /** The notation needs two characters more than the size asked for, prefix
      and all; there is room because the capacity is a multiple of four. */
  method WriteBase64(a: array<char>, v: string) returns (size: nat)
    requires Narrow(v) && a.Length >= (|v| + 2) / 3 * 4 + 1 && a.Length % CHUNK_SIZE == 0
    modifies a
    ensures size < a.Length && a[..size] == EncodeBase64(v) && a[size] == NUL
  {
    hide Quad, SixBody;
    var e := Put(a, 0, "0s");
    var n := 0;
    while n + 2 < |v|
      invariant 0 <= n <= |v| && 0 <= e <= a.Length
      invariant a[..e] + SixBody(v[n..]) == "0s" + SixBody(v)
    {
      SixStep(v, n);
      e := Put(a, e, Quad(v[n] as int, v[n + 1] as int, v[n + 2] as int));
      n := n + 3;
    }
    SixStep(v, n);
    if |v| - n == 2 {
      e := Put(a, e, Quad(v[n] as int, v[n + 1] as int, 0)[..3] + "=");
    } else if |v| - n == 1 {
      e := Put(a, e, Quad(v[n] as int, 0, 0)[..2] + "==");
    }
    a[e] := NUL;
    size := e;
    assert a[..size] == EncodeBase64(v);
  }

  /** `encode`: over any sequence of calls the buffer holds the whole of each
      output and its NUL. */
  method EncodeValue(b: HighWater, option: Choice, v: string) returns (size: nat)
    requires b.Valid() && Narrow(v)
    modifies b, b.buf
    ensures b.Valid() && b.buf != null && (b.buf == old(b.buf) || fresh(b.buf))
    ensures size < b.buf.Length && b.buf[..size] == Encode(option, v) && b.buf[size] == NUL
  {
    hide EncodeText, EncodeHex, EncodeBase64, Unprintable, Narrow;
    var enc: Encoding;
    match option {
      case Automatic(printable) =>
        var ok := WellEnoughPrintable(v, printable);
        enc := if ok then Quoted else Base64;
      case Asked(e) =>
        enc := e;
    }
    match enc {
      case Quoted =>
        var extra := CountExtra(v);
        b.Alloc(|v| + extra + 3);
        size := WriteText(b.buf, v);
      case Hex =>
        b.Alloc(|v| * 2 + 4);
        size := WriteHex(b.buf, v);
      case Base64 =>
        b.Alloc((|v| + 2) / 3 * 4 + 1);
        size := WriteBase64(b.buf, v);
    }
  }

  // ----- Reading

  /** What a decoder leaves in its buffer: the bytes and their number. */
  ghost predicate Left(a: array<char>, r: Option<nat>, want: Option<string>)
    reads a
  {
    match r
    case None => want.None?
    case Some(n) => n <= a.Length && want == Some(a[..n])
  }

  method SkipTo(s: string, v: nat) returns (v': nat)
    requires v <= |s|
    ensures v <= v' <= |s| && s[v'..] == SkipSpace(s[v..])
  {
    v' := v;
    while v' < |s| && Space(s[v'])
      invariant v <= v' <= |s| && SkipSpace(s[v'..]) == SkipSpace(s[v..])
    {
      assert s[v'..][1..] == s[v' + 1..];
      v' := v' + 1;
    }
  }

  method ReadHex(a: array<char>, s: string) returns (r: Option<nat>)
    requires 2 <= |s| && a.Length >= |s| / 2
    modifies a
    ensures Left(a, r, DecodeHex(s[2..]))
  {
    hide SkipSpace, HexDigit, DecodeHex, Prefixed;
    var v, d := 2, 0;
    PrefixedLaws([], [], DecodeHex(s[2..]));
    while v < |s|
      invariant 2 <= v <= |s| && 0 <= d <= a.Length && 2 * d <= v - 2
      invariant Prefixed(a[..d], DecodeHex(s[v..])) == DecodeHex(s[2..])
    {
      ghost var was := a[..d];
      HexTurn(s[v..]);
      v := SkipTo(s, v);
      if v == |s| {
        PrefixedLaws(was, [], None);
        return Some(d);
      }
      var d1 := HexDigit(s[v]);
      assert s[v..][1..] == s[v + 1..];
      v := SkipTo(s, v + 1);
      PrefixedNone(was);
      if v == |s| {
        return None;
      }
      var d0 := HexDigit(s[v]);
      if d1 < 0 || d0 < 0 {
        return None;
      }
      assert s[v..][1..] == s[v + 1..];
      a[d] := Chr(d1 * 16 + d0);
      d := d + 1;
      v := v + 1;
      PrefixedLaws(was, [Chr(d1 * 16 + d0)], DecodeHex(s[v..]));
      assert a[..d] == was + [Chr(d1 * 16 + d0)];
    }
    HexTurn([]);
    SkipNothing();
    PrefixedLaws(a[..d], [], None);
    r := Some(d);
  }

  lemma SkipNothing()
    ensures SkipSpace([]) == []
  {
  }

  method Trailing(s: string, v: nat) returns (ok: bool)
    requires v <= |s|
    ensures ok <==> Tail64(s[v..])
  {
    hide SkipSpace;
    var v' := SkipTo(s, v);
    var u := s[v'..];
    if v' + 4 <= |s| && s[v'] == '=' {
      if s[v' + 1] != '=' || s[v' + 2] != '=' || s[v' + 3] != '=' {
        SkipSolid(u);
        return false;
      }
      assert u[4..] == s[v' + 4..];
      v' := v' + 4;
    }
    v' := SkipTo(s, v');
    ok := v' == |s|;
  }

  lemma SkipSolid(u: string)
    requires u != [] && u[0] == '='
    ensures SkipSpace(u) == u
  {
  }

  /** From the last group on. */
  method Finish(a: array<char>, d: nat, s: string, v: nat, d0: int, d1: int, d2: int, d3: int)
    returns (r: Option<nat>)
    requires d0 < 64 && d1 < 64 && d2 < 64 && d3 < 64 && v <= |s| && d <= a.Length
    requires d0 < 0 || d1 < 0 || d2 < 0 || d3 < 0
    requires d0 == -2 || d + 2 <= a.Length
    modifies a
    ensures Left(a, r, Prefixed(old(a[..d]), Ending(d0, d1, d2, d3, s[v..])))
  {
    hide Tail64, FirstByte, SecondByte, Prefixed;
    ghost var was := a[..d];
    PrefixedNone(was);
    PrefixedLaws(was, [], None);
    var n := d;
    if d0 == -2 {
      if d1 != -2 || d2 != -2 || d3 != -2 {
        return None;
      }
    } else {
      if d0 < 0 || d1 < 0 || d2 == -1 || d3 == -1 {
        return None;
      }
      a[d] := FirstByte(d0, d1);
      if d2 >= 0 {
        a[d + 1] := SecondByte(d1, d2);
        n := d + 2;
        if d2 % 4 != 0 {
          return None;
        }
      } else {
        n := d + 1;
        if d1 % 16 != 0 || d3 != -2 {
          return None;
        }
      }
    }
    Appended(was, a[..n], Group64(d0, d1, d2, d3));
    var ok := Trailing(s, v);
    r := if ok then Some(n) else None;
  }

  lemma Appended(done: string, all: string, more: Option<string>)
    ensures more.Some? && all == done + more.value ==> Prefixed(done, more) == Some(all)
  {
  }

  method ReadBase64(a: array<char>, s: string) returns (r: Option<nat>)
    requires 2 <= |s| && a.Length >= |s| / 4 * 3
    modifies a
    ensures Left(a, r, DecodeBase64(s[2..]))
  {
    hide SkipSpace, SixDigit, DecodeBase64, Prefixed, Ending, FirstByte, SecondByte, ThirdByte;
    var v, d := 2, 0;
    ghost var groups := 0;
    PrefixedLaws([], [], DecodeBase64(s[2..]));
    while true
      invariant 2 + 4 * groups <= v <= |s| && d == 3 * groups && groups >= 0
      invariant Prefixed(a[..d], DecodeBase64(s[v..])) == DecodeBase64(s[2..])
      decreases |s| - v
    {
      ghost var was := a[..d];
      Base64Turn(s[v..]);
      v := SkipTo(s, v);
      if v == |s| {
        assert s[v..] == [];
        r := Finish(a, d, s, v, -2, -2, -2, -2);
        return;
      }
      if v + 4 > |s| {
        PrefixedNone(was);
        return None;
      }
      var d0, d1, d2, d3 := SixDigit(s[v]), SixDigit(s[v + 1]), SixDigit(s[v + 2]), SixDigit(s[v + 3]);
      assert s[v..][4..] == s[v + 4..];
      v := v + 4;
      if d0 < 0 || d1 < 0 || d2 < 0 || d3 < 0 {
        r := Finish(a, d, s, v, d0, d1, d2, d3);
        return;
      }
      ghost var more := [FirstByte(d0, d1), SecondByte(d1, d2), ThirdByte(d2, d3)];
      PrefixedLaws(was, more, DecodeBase64(s[v..]));
      d := Put(a, d, [FirstByte(d0, d1), SecondByte(d1, d2), ThirdByte(d2, d3)]);
      groups := groups + 1;
    }
  }

  method ReadChar(s: string, v: nat, ghost end: nat) returns (c: char, v': nat)
    requires v < end <= |s|
    ensures v < v' && TextFrom(s, v, end) == [c] + TextFrom(s, v', end)
  {
    hide OctalRun;
    c, v' := s[v], v + 1;
    if c == '\\' {
      if At(s, v') == '\\' || At(s, v') == '"' {
        c := At(s, v');
        v' := v' + 1;
      } else if Octal(At(s, v')) {
        c, v' := ReadOctal(s, v');
      }
    }
  }

  method ReadBetween(a: array<char>, s: string, start: nat, end: nat) returns (d: nat)
    requires start <= end <= |s| <= a.Length
    modifies a
    ensures d <= a.Length && a[..d] == TextFrom(s, start, end)
  {
    hide TextFrom;
    var v := start;
    d := 0;
    while v < end
      invariant start <= v && d <= v - start
      invariant d <= a.Length && a[..d] + TextFrom(s, v, end) == TextFrom(s, start, end)
      decreases end - v
    {
      ghost var was := a[..d];
      var c, v' := ReadChar(s, v, end);
      a[d] := c;
      assert a[..d + 1] == was + [c];
      d := d + 1;
      v := v';
    }
    TextOver(s, v, end);
  }

  method ReadText(a: array<char>, s: string) returns (r: Option<nat>)
    requires a.Length >= |s|
    modifies a
    ensures Left(a, r, Some(DecodeText(s)))
  {
    hide TextFrom;
    var v, end := 0, |s|;
    if |s| > 1 && s[0] == '"' && s[|s| - 1] == '"' {
      v, end := 1, |s| - 1;
    }
    var d := ReadBetween(a, s, v, end);
    r := Some(d);
  }

  lemma TextOver(s: string, v: nat, end: nat)
    requires v >= end
    ensures TextFrom(s, v, end) == []
  {
  }

  method ReadOctal(s: string, v: nat) returns (c: char, v': nat)
    requires Octal(At(s, v))
    ensures (c, v') == OctalRun(s, v)
  {
    var n: nat := DigitValue(At(s, v));
    v' := v + 1;
    if Octal(At(s, v')) {
      n := n * 8 + DigitValue(At(s, v'));
      v' := v' + 1;
      if Octal(At(s, v')) {
        n := n * 8 + DigitValue(At(s, v'));
        v' := v' + 1;
      }
    }
    c := Truncated(n);
  }

  /** `decode`: the whole output fits the buffer, for any text at all. */
  method DecodeValue(b: HighWater, s: string) returns (r: Option<nat>)
    requires b.Valid()
    modifies b, b.buf
    ensures b.Valid() && (b.buf == old(b.buf) || fresh(b.buf))
    ensures b.buf != null <==> old(b.buf) != null || Request(s) > 0
    ensures b.buf == null ==> r.None? && DecodeFrom(old(b.buf) != null, s).None?
    ensures b.buf != null ==> Left(b.buf, r, DecodeFrom(old(b.buf) != null, s))
  {
    hide DecodeHex, DecodeBase64, DecodeText;
    if At(s, 0) == '0' && (At(s, 1) == 'x' || At(s, 1) == 'X') {
      b.Alloc(|s| / 2);
      r := ReadHex(b.buf, s);
    } else if At(s, 0) == '0' && (At(s, 1) == 's' || At(s, 1) == 'S') {
      b.Alloc(|s| / 4 * 3);
      if b.buf == null {
        return None;
      }
      r := ReadBase64(b.buf, s);
    } else {
      b.Alloc(|s|);
      if b.buf == null {
        return None;
      }
      r := ReadText(b.buf, s);
    }
  }
}
