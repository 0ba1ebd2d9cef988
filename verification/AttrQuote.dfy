/** `quote` into a growing buffer, `unquote` within the string itself. */
module AttrQuote {
  import opened Text
  import opened Wrappers
  import opened AttrCodec
  import opened AttrBuffer
  import opened AttrDump

  predicate Quotes(c: char, q: string) {
    c == '\\' || c in q
  }

  function Count(s: string, q: string): nat {
    if s == [] then 0 else (if Quotes(s[0], q) then 1 else 0) + Count(s[1..], q)
  }

  lemma {:induction false} QuoteLength(s: string, q: string)
    requires Narrow(s)
    ensures |Quote(s, q)| == |s| + 3 * Count(s, q)
    ensures Count(s, q) == 0 ==> Quote(s, q) == s
  {
    hide OctalEscape;
    if s != [] {
      QuoteLength(s[1..], q);
      assert s == [s[0]] + s[1..];
    }
  }

  /** `None` stands for the string given, returned as it is. */
  method QuoteName(b: HighWater, str: string, q: string) returns (r: Option<nat>)
    requires b.Valid() && Name(str)
    modifies b, b.buf
    ensures b.Valid() && (b.buf == old(b.buf) || fresh(b.buf))
    ensures r.None? ==> Quote(str, q) == str
    ensures r.Some? ==>
      b.buf != null && r.value < b.buf.Length && b.buf[..r.value] == Quote(str, q) && b.buf[r.value] == NUL
  {
    hide Quoted1, Quotes;
    var nonpr := 0;
    for i := 0 to |str|
      invariant nonpr >= 0 && nonpr + Count(str[i..], q) == Count(str, q)
    {
      assert str[i..][1..] == str[i + 1..];
      if Quotes(str[i], q) {
        nonpr := nonpr + 1;
      }
    }
    QuoteLength(str, q);
    if nonpr == 0 {
      return None;
    }
    b.Alloc(|str| + nonpr * 3 + 1);
    var n := WriteQuoted(b.buf, str, q);
    r := Some(n);
  }

  method WriteQuoted(a: array<char>, str: string, q: string) returns (n: nat)
    requires Narrow(str) && a.Length > |Quote(str, q)|
    modifies a
    ensures n < a.Length && a[..n] == Quote(str, q) && a[n] == NUL
  {
    hide Quoted1;
    n := 0;
    for i := 0 to |str|
      invariant n <= a.Length && a[..n] + Quote(str[i..], q) == Quote(str, q)
    {
      assert str[i..][1..] == str[i + 1..];
      n := Put(a, n, Quoted1(str[i], q));
    }
    a[n] := NUL;
  }

  lemma {:induction false} UnquoteFront(t: string, n: nat)
    requires n <= |t| && '\\' !in t[..n]
    ensures Unquote(t) == t[..n] + Unquote(t[n..])
  {
    if n > 0 {
      assert t[1..][..n - 1] == t[..n][1..] && t[1..][n - 1..] == t[n..];
      UnquoteFront(t[1..], n - 1);
      assert t[..n] == [t[0]] + t[1..][..n - 1];
    }
  }

  lemma UnquoteStep(t: string, s: nat)
    requires s < |t|
    ensures Escape(t[s..]) ==> Unquote(t[s..]) == [OctalValue(t[s + 1], t[s + 2], t[s + 3])] + Unquote(t[s + 4..])
    ensures !Escape(t[s..]) ==> Unquote(t[s..]) == [t[s]] + Unquote(t[s + 1..])
  {
    assert t[s..][1..] == t[s + 1..];
    if Escape(t[s..]) {
      assert t[s..][4..] == t[s + 4..];
    }
  }

  /** The string shrinks in place: what is written never catches up with what
      is still to be read. */
  method Compact(a: array<char>, ghost str: string, from: nat) returns (ghost m: nat)
    requires from < |str| < a.Length && a[|str|] == NUL && NUL !in str
    requires forall i :: 0 <= i < |str| ==> a[i] == str[i]
    modifies a
    ensures m <= |str| && a[..m] == str[..from] + Unquote(str[from..]) && a[m] == NUL
  {
    hide Unquote, OctalValue;
    ghost var n, all := |str|, str[..from] + Unquote(str[from..]);
    var s, t := from, from;
    while a[s] != NUL
      invariant 0 <= t <= s <= n && a[n] == NUL
      invariant forall i :: s <= i < n ==> a[i] == str[i]
      invariant a[..t] + Unquote(str[s..]) == all
      decreases n - s
    {
      ghost var was := a[..t];
      UnquoteStep(str, s);
      var c := a[s];
      if a[s] == '\\' && Octal(a[s + 1]) && Octal(a[s + 2]) && Octal(a[s + 3]) {
        c := OctalValue(a[s + 1], a[s + 2], a[s + 3]);
        s := s + 3;
      }
      a[t] := c;
      s := s + 1;
      t := t + 1;
      assert a[..t] == was + [c];
    }
    a[t] := NUL;
    UnquoteEmpty();
    assert str[n..] == [];
    m := t;
  }

  method UnquoteInPlace(a: array<char>, ghost n: nat) returns (ghost m: nat)
    requires n < a.Length && a[n] == NUL && NUL !in a[..n]
    modifies a
    ensures m <= n && a[..m] == Unquote(old(a[..n])) && a[m] == NUL
  {
    hide Unquote;
    ghost var str := a[..n];
    var s := 0;
    while a[s] != NUL && a[s] != '\\'
      invariant 0 <= s <= n && '\\' !in str[..s]
      decreases n - s
    {
      s := s + 1;
    }
    UnquoteFront(str, s);
    if a[s] == NUL {
      UnquoteEmpty();
      assert str[..n] == str && str[n..] == [];
      m := n;
    } else {
      m := Compact(a, str, s);
    }
  }

  lemma UnquoteEmpty()
    ensures Unquote([]) == []
  {
  }
}
