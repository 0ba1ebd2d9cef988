/** The three notations getfattr writes attribute values in and setfattr reads:
    quoted text, hexadecimal, and base64 (section 4 of RFC 4648).  A byte is a
    character below 256. */
module AttrCodec {
  import opened Text
  import opened Wrappers

  predicate Narrow(s: string) {
    forall i :: 0 <= i < |s| ==> s[i] as int < 256
  }

  function Chr(n: int): (c: char)
    requires 0 <= n < 256
    ensures c as int == n
  {
    n as char
  }

  /** The value stored through a `char`. */
  function Truncated(n: nat): (c: char)
    ensures c as int == n % 256
  {
    (n % 256) as char
  }

  // ----- Quoted text

  function OctalDigit(n: int): (c: char)
    requires 0 <= n < 8
    ensures Octal(c) && DigitValue(c) == n
  {
    DigitChar(n)
  }

  /** A backslash and three octal digits. */
  function OctalEscape(c: char): (r: string)
    requires c as int < 256
    ensures |r| == 4
  {
    var n := c as int;
    ['\\', OctalDigit(n / 64), OctalDigit(n / 8 % 8), OctalDigit(n % 8)]
  }

  predicate LineBreaking(c: char) {
    c == NUL || c == '\n' || c == '\r'
  }

  function TextByte(c: char): (r: string)
    requires c as int < 256
    ensures 0 < |r| <= 4
  {
    if LineBreaking(c) then OctalEscape(c)
    else if c == '\\' || c == '"' then ['\\', c]
    else [c]
  }

  /** The characters between the quotes; a NUL in last place is left out. */
  function TextBody(v: string): string
    requires Narrow(v)
  {
    if v == [] || v == [NUL] then [] else TextByte(v[0]) + TextBody(v[1..])
  }

  function EncodeText(v: string): string
    requires Narrow(v)
  {
    ['"'] + TextBody(v) + ['"']
  }

  // ----- Hexadecimal

  function HexChar(n: int): (c: char)
    requires 0 <= n < 16
    ensures HexDigit(c) == n && !Space(c) && !LineBreaking(c)
  {
    if n < 10 then DigitChar(n) else ('a' as int + n - 10) as char
  }

  /** `hex_digit`: -1 for anything else. */
  function HexDigit(c: char): (d: int)
    ensures -1 <= d < 16
  {
    if '0' <= c <= '9' then c as int - '0' as int
    else if 'A' <= c <= 'F' then c as int - 'A' as int + 10
    else if 'a' <= c <= 'f' then c as int - 'a' as int + 10
    else -1
  }

  function HexBody(v: string): (r: string)
    requires Narrow(v)
    ensures |r| == 2 * |v|
  {
    if v == [] then []
    else [HexChar(v[0] as int / 16), HexChar(v[0] as int % 16)] + HexBody(v[1..])
  }

  function EncodeHex(v: string): string
    requires Narrow(v)
  {
    "0x" + HexBody(v)
  }

  // ----- Base64

  function SixChar(n: int): (c: char)
    requires 0 <= n < 64
    ensures SixDigit(c) == n && !Space(c) && !LineBreaking(c)
  {
    if n < 26 then ('A' as int + n) as char
    else if n < 52 then ('a' as int + n - 26) as char
    else if n < 62 then ('0' as int + n - 52) as char
    else if n == 62 then '+' else '/'
  }

  /** `base64_digit`: -2 for the padding character, -1 for anything else. */
  function SixDigit(c: char): (d: int)
    ensures -2 <= d < 64
  {
    if 'A' <= c <= 'Z' then c as int - 'A' as int
    else if 'a' <= c <= 'z' then 26 + c as int - 'a' as int
    else if '0' <= c <= '9' then 52 + c as int - '0' as int
    else if c == '+' then 62
    else if c == '/' then 63
    else if c == '=' then -2
    else -1
  }

  /** Three bytes as four digits; with `b` or `c` absent its bits are zero. */
  function Quad(a: int, b: int, c: int): (r: string)
    requires 0 <= a < 256 && 0 <= b < 256 && 0 <= c < 256
    ensures |r| == 4
  {
    [SixChar(a / 4), SixChar(a % 4 * 16 + b / 16), SixChar(b % 16 * 4 + c / 64), SixChar(c % 64)]
  }

  function SixBody(v: string): (r: string)
    requires Narrow(v)
    ensures |r| == (|v| + 2) / 3 * 4
  {
    if |v| >= 3 then Quad(v[0] as int, v[1] as int, v[2] as int) + SixBody(v[3..])
    else if |v| == 2 then Quad(v[0] as int, v[1] as int, 0)[..3] + "="
    else if |v| == 1 then Quad(v[0] as int, 0, 0)[..2] + "=="
    else []
  }

  function EncodeBase64(v: string): string
    requires Narrow(v)
  {
    "0s" + SixBody(v)
  }

  // ----- Choosing a notation

  datatype Encoding = Quoted | Hex | Base64

  /** How `--encoding` is given.  Without it the choice depends on what `isprint`
      takes for printable in the locale. */
  datatype Choice = Asked(encoding: Encoding) | Automatic(printable: char -> bool)

  function Unprintable(v: string, printable: char -> bool): (n: nat)
    ensures n <= |v|
  {
    if v == [] then 0
    else Unprintable(v[..|v| - 1], printable) + if printable(v[|v| - 1]) then 0 else 1
  }

  /** Text is chosen when no more than an eighth is unprintable. */
  function Chosen(option: Choice, v: string): Encoding {
    match option
    case Asked(e) => e
    case Automatic(printable) => if |v| >= Unprintable(v, printable) * 8 then Quoted else Base64
  }

  function Encode(option: Choice, v: string): string
    requires Narrow(v)
  {
    match Chosen(option, v)
    case Quoted => EncodeText(v)
    case Hex => EncodeHex(v)
    case Base64 => EncodeBase64(v)
  }

  // ----- Decoding

  function DecodeHex(t: string): Option<string>
    decreases |t|
  {
    var u := SkipSpace(t);
    if u == [] then Some([])
    else
      var w := SkipSpace(u[1..]);
      if w == [] || HexDigit(u[0]) < 0 || HexDigit(w[0]) < 0 then None
      else
        var rest := DecodeHex(w[1..]);
        if rest.None? then None
        else Some([Chr(HexDigit(u[0]) * 16 + HexDigit(w[0]))] + rest.value)
  }

  /** What may follow the last digits: one more group of four padding
      characters, and white space. */
  predicate Tail64(t: string) {
    var u := SkipSpace(t);
    SkipSpace(if |u| >= 4 && u[0] == '=' && u[1] == '=' && u[2] == '=' && u[3] == '=' then u[4..] else u) == []
  }

  function FirstByte(d0: int, d1: int): char
    requires 0 <= d0 < 64 && 0 <= d1 < 64
  {
    Truncated(d0 * 4 + d1 / 16)
  }

  function SecondByte(d1: int, d2: int): char
    requires 0 <= d1 < 64 && 0 <= d2 < 64
  {
    Truncated(d1 * 16 + d2 / 4)
  }

  function ThirdByte(d2: int, d3: int): char
    requires 0 <= d2 < 64 && 0 <= d3 < 64
  {
    Truncated(d2 * 64 + d3)
  }

  /** The bytes of a group that is not four digits. */
  function Group64(d0: int, d1: int, d2: int, d3: int): Option<string>
    requires d0 < 64 && d1 < 64 && d2 < 64 && d3 < 64
  {
    if d0 == -2 then (if d1 == -2 && d2 == -2 && d3 == -2 then Some([]) else None)
    else if d0 < 0 || d1 < 0 || d2 == -1 || d3 == -1 then None
    else if d2 < 0 then (if d1 % 16 != 0 || d3 != -2 then None else Some([FirstByte(d0, d1)]))
    else if d2 % 4 != 0 then None
    else Some([FirstByte(d0, d1), SecondByte(d1, d2)])
  }

  function DecodeBase64(t: string): Option<string>
    decreases |t|
  {
    var u := SkipSpace(t);
    if u == [] then Some([])
    else if |u| < 4 then None
    else
      var d0, d1, d2, d3 := SixDigit(u[0]), SixDigit(u[1]), SixDigit(u[2]), SixDigit(u[3]);
      if d0 >= 0 && d1 >= 0 && d2 >= 0 && d3 >= 0 then
        var rest := DecodeBase64(u[4..]);
        if rest.None? then None
        else Some([FirstByte(d0, d1), SecondByte(d1, d2), ThirdByte(d2, d3)] + rest.value)
      else
        var group := Group64(d0, d1, d2, d3);
        if group.Some? && Tail64(u[4..]) then group else None
  }

  /** An octal escape from its first digit on: at most three digits count. */
  function OctalRun(s: string, v: nat): (r: (char, nat))
    requires Octal(At(s, v))
    ensures v < r.1 <= v + 3
  {
    var a := DigitValue(At(s, v));
    if !Octal(At(s, v + 1)) then (Truncated(a), v + 1)
    else
      var b := a * 8 + DigitValue(At(s, v + 1));
      if !Octal(At(s, v + 2)) then (Truncated(b), v + 2)
      else (Truncated(b * 8 + DigitValue(At(s, v + 2))), v + 3)
  }

  /** Text from position `v` up to `end`; an escape may look beyond. */
  function TextFrom(s: string, v: nat, end: nat): string
    decreases end - v
  {
    if v >= end then []
    else if At(s, v) == '\\' && (At(s, v + 1) == '\\' || At(s, v + 1) == '"') then
      [At(s, v + 1)] + TextFrom(s, v + 2, end)
    else if At(s, v) == '\\' && Octal(At(s, v + 1)) then
      var (c, next) := OctalRun(s, v + 1);
      [c] + TextFrom(s, next, end)
    else [At(s, v)] + TextFrom(s, v + 1, end)
  }

  predicate InQuotes(s: string) {
    |s| > 1 && s[0] == '"' && s[|s| - 1] == '"'
  }

  function DecodeText(s: string): string {
    if InQuotes(s) then TextFrom(s, 1, |s| - 1) else TextFrom(s, 0, |s|)
  }

  function Decode(s: string): Option<string> {
    if At(s, 0) == '0' && (At(s, 1) == 'x' || At(s, 1) == 'X') then DecodeHex(s[2..])
    else if At(s, 0) == '0' && (At(s, 1) == 's' || At(s, 1) == 'S') then DecodeBase64(s[2..])
    else Some(DecodeText(s))
  }

  /** The bytes `decode` asks of its static buffer. */
  function Request(s: string): nat {
    if At(s, 0) == '0' && (At(s, 1) == 'x' || At(s, 1) == 'X') then |s| / 2
    else if At(s, 0) == '0' && (At(s, 1) == 's' || At(s, 1) == 'S') then |s| / 4 * 3
    else |s|
  }

  /** `decode` answers with its buffer, and a null pointer means failure: so it
      fails on a text that needs no byte while nothing has ever been allocated. */
  function DecodeFrom(ready: bool, s: string): Option<string> {
    if !ready && Request(s) == 0 then None else Decode(s)
  }

  /** Exactly these texts need no byte. */
  lemma RequestNothing(s: string)
    ensures Request(s) == 0 <==> s == [] || (|s| < 4 && At(s, 0) == '0' && (At(s, 1) == 's' || At(s, 1) == 'S'))
  {
  }

  // ----- The turns of the decoding loops

  function Prefixed(done: string, rest: Option<string>): Option<string> {
    match rest
    case None => None
    case Some(s) => Some(done + s)
  }

  lemma PrefixedLaws(done: string, more: string, rest: Option<string>)
    ensures Prefixed([], rest) == rest
    ensures Prefixed(done, Prefixed(more, rest)) == Prefixed(done + more, rest)
    ensures Prefixed(done, Some([])) == Some(done)
  {
    if rest.Some? {
      assert [] + rest.value == rest.value;
      assert done + (more + rest.value) == done + more + rest.value;
    }
    assert done + [] == done;
  }

  /** One turn of the hexadecimal loop, from the two digits found. */
  lemma HexTurn(t: string)
    ensures var u := SkipSpace(t);
      if u == [] then DecodeHex(t) == Some([])
      else
        var w := SkipSpace(u[1..]);
        if w == [] || HexDigit(u[0]) < 0 || HexDigit(w[0]) < 0 then DecodeHex(t) == None
        else DecodeHex(t) == Prefixed([Chr(HexDigit(u[0]) * 16 + HexDigit(w[0]))], DecodeHex(w[1..]))
  {
    hide SkipSpace, HexDigit;
  }

  lemma PrefixedNone(done: string)
    ensures Prefixed(done, None) == None
  {
  }

  /** The outcome of a group of four that is not all digits. */
  function Ending(d0: int, d1: int, d2: int, d3: int, t: string): Option<string>
    requires d0 < 64 && d1 < 64 && d2 < 64 && d3 < 64
  {
    var group := Group64(d0, d1, d2, d3);
    if group.Some? && Tail64(t) then group else None
  }

  lemma Base64Turn(t: string)
    ensures var u := SkipSpace(t);
      if u == [] then DecodeBase64(t) == Ending(-2, -2, -2, -2, [])
      else if |u| < 4 then DecodeBase64(t) == None
      else
        var d0, d1, d2, d3 := SixDigit(u[0]), SixDigit(u[1]), SixDigit(u[2]), SixDigit(u[3]);
        if d0 >= 0 && d1 >= 0 && d2 >= 0 && d3 >= 0 then
          DecodeBase64(t) ==
            Prefixed([FirstByte(d0, d1), SecondByte(d1, d2), ThirdByte(d2, d3)], DecodeBase64(u[4..]))
        else DecodeBase64(t) == Ending(d0, d1, d2, d3, u[4..])
  {
    hide SkipSpace, SixDigit, FirstByte, SecondByte, ThirdByte, Group64, Tail64;
    EndingNothing();
  }

  lemma EndingNothing()
    ensures Ending(-2, -2, -2, -2, []) == Some([])
  {
  }

  // ----- Round trips

  lemma {:induction false} HexRoundTrip(v: string)
    requires Narrow(v)
    ensures DecodeHex(HexBody(v)) == Some(v)
  {
    if v != [] {
      HexRoundTrip(v[1..]);
      var t := HexBody(v);
      assert SkipSpace(t) == t && SkipSpace(t[1..]) == t[1..];
      assert t[1..][1..] == HexBody(v[1..]);
      assert v == [v[0]] + v[1..];
    }
  }

  lemma FirstBits(a: int, b: int)
    requires 0 <= a < 256 && 0 <= b < 256
    ensures a / 4 * 4 + (a % 4 * 16 + b / 16) / 16 == a
  {
  }

  lemma SecondBits(a: int, b: int, c: int)
    requires 0 <= a < 256 && 0 <= b < 256 && 0 <= c < 256
    ensures ((a % 4 * 16 + b / 16) * 16 + (b % 16 * 4 + c / 64) / 4) % 256 == b
  {
    assert (b % 16 * 4 + c / 64) / 4 == b % 16;
    assert (a % 4 * 16 + b / 16) * 16 + b % 16 == a % 4 * 256 + b;
  }

  lemma ThirdBits(b: int, c: int)
    requires 0 <= b < 256 && 0 <= c < 256
    ensures ((b % 16 * 4 + c / 64) * 64 + c % 64) % 256 == c
  {
    assert (b % 16 * 4 + c / 64) * 64 + c % 64 == b % 16 * 256 + c;
  }

  lemma FirstDecoded(a: int, b: int)
    requires 0 <= a < 256 && 0 <= b < 256
    ensures FirstByte(SixDigit(SixChar(a / 4)), SixDigit(SixChar(a % 4 * 16 + b / 16))) == Chr(a)
  {
    hide SixChar, SixDigit;
    FirstBits(a, b);
  }

  lemma SecondDecoded(a: int, b: int, c: int)
    requires 0 <= a < 256 && 0 <= b < 256 && 0 <= c < 256
    ensures SecondByte(SixDigit(SixChar(a % 4 * 16 + b / 16)), SixDigit(SixChar(b % 16 * 4 + c / 64))) == Chr(b)
  {
    hide SixChar, SixDigit;
    SecondBits(a, b, c);
  }

  lemma ThirdDecoded(b: int, c: int)
    requires 0 <= b < 256 && 0 <= c < 256
    ensures ThirdByte(SixDigit(SixChar(b % 16 * 4 + c / 64)), SixDigit(SixChar(c % 64))) == Chr(c)
  {
    hide SixChar, SixDigit;
    ThirdBits(b, c);
  }

  lemma QuadDecoded(a: int, b: int, c: int)
    requires 0 <= a < 256 && 0 <= b < 256 && 0 <= c < 256
    ensures var q := Quad(a, b, c);
      && FirstByte(SixDigit(q[0]), SixDigit(q[1])) == Chr(a)
      && SecondByte(SixDigit(q[1]), SixDigit(q[2])) == Chr(b)
      && ThirdByte(SixDigit(q[2]), SixDigit(q[3])) == Chr(c)
  {
    hide SixChar, SixDigit, FirstByte, SecondByte, ThirdByte, Chr;
    FirstDecoded(a, b);
    SecondDecoded(a, b, c);
    ThirdDecoded(b, c);
  }

  /** Digits stand where white space is skipped. */
  lemma QuadSolid(a: int, b: int, c: int, t: string)
    requires 0 <= a < 256 && 0 <= b < 256 && 0 <= c < 256 && t != [] && t[0] == Quad(a, b, c)[0]
    ensures SkipSpace(t) == t
  {
    hide SixChar, SixDigit;
  }

  lemma {:induction false} Base64RoundTrip(v: string)
    requires Narrow(v)
    ensures DecodeBase64(SixBody(v)) == Some(v)
  {
    if |v| >= 3 {
      Base64RoundTrip(v[3..]);
      TripleRoundTrip(v);
    } else if |v| > 0 {
      RemainderRoundTrip(v);
    }
  }

  lemma QuadRead(a: int, b: int, c: int, rest: string)
    requires 0 <= a < 256 && 0 <= b < 256 && 0 <= c < 256
    ensures DecodeBase64(Quad(a, b, c) + rest) == Prefixed([Chr(a), Chr(b), Chr(c)], DecodeBase64(rest))
  {
    hide Quad, SixDigit, FirstByte, SecondByte, ThirdByte, SkipSpace, DecodeBase64, Prefixed, Ending;
    var t := Quad(a, b, c) + rest;
    QuadDecoded(a, b, c);
    QuadSolid(a, b, c, t);
    QuadDigits(a, b, c);
    Base64Turn(t);
    assert t[4..] == rest;
  }

  lemma TripleRoundTrip(v: string)
    requires Narrow(v) && |v| >= 3 && DecodeBase64(SixBody(v[3..])) == Some(v[3..])
    ensures DecodeBase64(SixBody(v)) == Some(v)
  {
    hide Quad, DecodeBase64;
    QuadRead(v[0] as int, v[1] as int, v[2] as int, SixBody(v[3..]));
    assert v == [v[0], v[1], v[2]] + v[3..];
  }

  lemma QuadDigits(a: int, b: int, c: int)
    requires 0 <= a < 256 && 0 <= b < 256 && 0 <= c < 256
    ensures var q := Quad(a, b, c);
      && SixDigit(q[0]) >= 0 && SixDigit(q[1]) >= 0 && SixDigit(q[2]) >= 0 && SixDigit(q[3]) >= 0
      && (c == 0 ==> SixDigit(q[2]) % 4 == 0) && (b == 0 ==> SixDigit(q[1]) % 16 == 0)
  {
    hide SixChar, SixDigit;
  }

  lemma RemainderRoundTrip(v: string)
    requires Narrow(v) && 1 <= |v| <= 2
    ensures DecodeBase64(SixBody(v)) == Some(v)
  {
    hide Quad, FirstByte, SecondByte, ThirdByte, SkipSpace, SixDigit, Tail64;
    var t := SixBody(v);
    var b := if |v| == 2 then v[1] as int else 0;
    QuadDecoded(v[0] as int, b, 0);
    QuadSolid(v[0] as int, b, 0, t);
    QuadDigits(v[0] as int, b, 0);
    Padding();
    var q := Quad(v[0] as int, b, 0);
    assert t[4..] == [] && t[0] == q[0] && t[1] == q[1] && t[3] == '=';
    if |v| == 2 {
      assert t[2] == q[2] && v == [v[0], v[1]];
    } else {
      assert t[2] == '=' && v == [v[0]];
    }
  }

  lemma Padding()
    ensures SixDigit('=') == -2 && Tail64([])
  {
  }

  function DropNul(v: string): string {
    if v != [] && v[|v| - 1] == NUL then v[..|v| - 1] else v
  }

  lemma EscapeRead(s: string, v: nat, c: char)
    requires c as int < 256 && v + 4 <= |s| && s[v..v + 4] == OctalEscape(c)
    ensures s[v] == '\\' && Octal(At(s, v + 1)) && OctalRun(s, v + 1) == (c, v + 4)
  {
    var e := OctalEscape(c);
    assert s[v] == e[0] && s[v + 1] == e[1] && s[v + 2] == e[2] && s[v + 3] == e[3];
  }

  lemma BodyStep(value: string)
    requires Narrow(value) && value != [] && value != [NUL]
    ensures TextBody(value) == TextByte(value[0]) + TextBody(value[1..])
    ensures DropNul(value) == [value[0]] + DropNul(value[1..])
  {
    hide TextByte;
  }

  lemma Split(s: string, v: nat, end: nat, a: string, b: string)
    requires v <= end <= |s| && s[v..end] == a + b
    ensures v + |a| <= end && s[v..v + |a|] == a && s[v + |a|..end] == b
  {
    assert s[v..end][..|a|] == a && s[v..end][|a|..] == b;
  }

  lemma TextEmpty(s: string, v: nat, value: string)
    requires value == [] || value == [NUL]
    ensures TextBody(value) == [] && TextFrom(s, v, v) == [] == DropNul(value)
  {
  }

  lemma {:induction false} TextRoundTrip(s: string, v: nat, end: nat, value: string)
    requires Narrow(value) && v <= end <= |s| && s[v..end] == TextBody(value)
    ensures TextFrom(s, v, end) == DropNul(value)
    decreases |value|
  {
    hide TextFrom, TextByte, TextBody, DropNul;
    if value == [] || value == [NUL] {
      TextEmpty(s, v, value);
    } else {
      var c, rest := value[0], value[1..];
      BodyStep(value);
      Split(s, v, end, TextByte(c), TextBody(rest));
      ByteRead(s, v, end, c);
      TextRoundTrip(s, v + |TextByte(c)|, end, rest);
    }
  }

  lemma ByteRead(s: string, v: nat, end: nat, c: char)
    requires c as int < 256 && v + |TextByte(c)| <= end <= |s| && s[v..v + |TextByte(c)|] == TextByte(c)
    ensures TextFrom(s, v, end) == [c] + TextFrom(s, v + |TextByte(c)|, end)
  {
    hide OctalRun, OctalEscape;
    var e := TextByte(c);
    assert forall i :: 0 <= i < |e| ==> s[v + i] == e[i];
    if LineBreaking(c) {
      EscapeRead(s, v, c);
      assert |e| == 4 && At(s, v) == '\\' && At(s, v + 1) != '\\' && At(s, v + 1) != '"';
      assert TextFrom(s, v, end) == [c] + TextFrom(s, v + 4, end);
    } else if c == '\\' || c == '"' {
      assert s[v + 0] == '\\' && s[v + 1] == c;
    } else {
      assert s[v + 0] == c;
    }
  }

  /** What setfattr makes of a value getfattr has written. */
  function Restored(option: Choice, v: string): string {
    if Chosen(option, v) == Quoted then DropNul(v) else v
  }

  /** Decoding undoes encoding, whichever notation was asked for or chosen; only
      quoted text loses a NUL in last place. */
  lemma EncodedDecoded(option: Choice, v: string)
    requires Narrow(v)
    ensures Decode(Encode(option, v)) == Some(Restored(option, v))
  {
    hide Chosen, Decode, EncodeText, EncodeHex, EncodeBase64, DropNul;
    match Chosen(option, v)
    case Quoted => QuotedDecoded(v);
    case Hex => HexDecoded(v);
    case Base64 => Base64Decoded(v);
  }

  lemma QuotedDecoded(v: string)
    requires Narrow(v)
    ensures Decode(EncodeText(v)) == Some(DropNul(v))
  {
    hide TextFrom, TextBody, DropNul;
    var s := EncodeText(v);
    assert s[1..|s| - 1] == TextBody(v);
    TextRoundTrip(s, 1, |s| - 1, v);
  }

  lemma HexDecoded(v: string)
    requires Narrow(v)
    ensures Decode(EncodeHex(v)) == Some(v)
  {
    hide HexBody, DecodeHex;
    assert EncodeHex(v)[2..] == HexBody(v);
    HexRoundTrip(v);
  }

  lemma Base64Decoded(v: string)
    requires Narrow(v)
    ensures Decode(EncodeBase64(v)) == Some(v)
  {
    hide SixBody, DecodeBase64;
    assert EncodeBase64(v)[2..] == SixBody(v);
    Base64RoundTrip(v);
  }

  /** What getfattr writes needs at least a byte, so it is decoded whether or not
      a buffer has been allocated. */
  lemma EncodedRequests(option: Choice, v: string)
    requires Narrow(v) && v != []
    ensures Request(Encode(option, v)) > 0
  {
    hide TextBody, HexBody, SixBody, Chosen;
    RequestNothing(Encode(option, v));
  }
}
