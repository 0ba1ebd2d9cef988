/** C strings and the small scanners the text parsers share.  A C string is a
    sequence of characters without NUL; reading past its end yields NUL.
    Scanners take the remaining text and return what is left of it. */
module Text {
  const NUL := '\0'

  function Head(t: string): char {
    if t == [] then NUL else t[0]
  }

  /** The character at a position, NUL past the end. */
  function At(t: string, i: nat): char {
    if i < |t| then t[i] else NUL
  }

  predicate Blank(c: char) {
    c == ' ' || c == '\t' || c == '\n' || c == '\r'
  }

  function SkipBlanks(t: string): (r: string)
    ensures |r| <= |t|
    ensures r != [] ==> !Blank(r[0])
  {
    if t != [] && Blank(t[0]) then SkipBlanks(t[1..]) else t
  }

  /** Space to `isspace`: the blanks, form feed and vertical tab. */
  predicate Space(c: char) {
    c == ' ' || '\t' <= c <= '\r'
  }

  function SkipSpace(t: string): (r: string)
    ensures |r| <= |t|
  {
    if t != [] && Space(t[0]) then SkipSpace(t[1..]) else t
  }

  function SkipLine(t: string): (r: string)
    ensures |r| <= |t|
  {
    if t == [] || t[0] == '\n' then t else SkipLine(t[1..])
  }

  predicate Digit(c: char) {
    '0' <= c <= '9'
  }

  predicate Octal(c: char) {
    '0' <= c <= '7'
  }

  function DigitChar(d: int): (c: char)
    requires 0 <= d < 10
    ensures Digit(c) && c as int == '0' as int + d
  {
    ('0' as int + d) as char
  }

  function DigitValue(c: char): (d: int)
    requires Digit(c)
    ensures 0 <= d < 10
  {
    c as int - '0' as int
  }

  /** Decimal notation, as printf's `%u` gives it. */
  function Decimal(n: nat): (t: string)
    ensures t != [] && forall i :: 0 <= i < |t| ==> Digit(t[i])
    ensures n > 0 ==> t[0] != '0'
    ensures n == 0 ==> t == "0"
  {
    if n < 10 then [DigitChar(n)] else Decimal(n / 10) + [DigitChar(n % 10)]
  }

  /** The number a digit string denotes in a base. */
  function Number(t: string, base: nat): (n: nat)
    requires forall i :: 0 <= i < |t| ==> Digit(t[i])
  {
    if t == [] then 0 else Number(t[..|t| - 1], base) * base + DigitValue(t[|t| - 1])
  }

  lemma {:induction false} DecimalNumber(n: nat)
    ensures Number(Decimal(n), 10) == n
  {
    var t := Decimal(n);
    if n >= 10 {
      DecimalNumber(n / 10);
      assert t[..|t| - 1] == Decimal(n / 10);
    } else {
      assert t[..|t| - 1] == [];
    }
  }

  // ----- Octal escapes

  /** `\ooo`, wrapping to eight bits as the store through an unsigned char
      does. */
  function OctalValue(a: char, b: char, c: char): (x: char)
    requires Octal(a) && Octal(b) && Octal(c)
  {
    ((DigitValue(a) * 64 + DigitValue(b) * 8 + DigitValue(c)) % 256) as char
  }

  predicate Escape(t: string) {
    |t| >= 4 && t[0] == '\\' && Octal(t[1]) && Octal(t[2]) && Octal(t[3])
  }

  /** `unquote`; an escape may produce a NUL. */
  function Unquote(t: string): (r: string) {
    if t == [] then []
    else if Escape(t) then [OctalValue(t[1], t[2], t[3])] + Unquote(t[4..])
    else [t[0]] + Unquote(t[1..])
  }

  lemma {:induction false} UnquotePlain(t: string)
    requires '\\' !in t
    ensures Unquote(t) == t
  {
    if t != [] {
      UnquotePlain(t[1..]);
    }
  }

  /** A C string ends at its first NUL. */
  function CutAtNul(s: string): string {
    if s == [] || s[0] == NUL then [] else [s[0]] + CutAtNul(s[1..])
  }

  function Unquoted(s: string): string {
    CutAtNul(Unquote(s))
  }

  lemma {:induction false} CutNothing(s: string)
    requires NUL !in s
    ensures CutAtNul(s) == s
  {
    if s != [] {
      CutNothing(s[1..]);
      assert s == [s[0]] + s[1..];
    }
  }
}
