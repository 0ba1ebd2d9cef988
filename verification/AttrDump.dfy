/** getfattr's dump of the attributes of files, and setfattr's reading of it. */
module AttrDump {
  import opened Text
  import opened AttrCodec

  // ----- Names in lines

  function Quoted1(c: char, q: string): (r: string)
    requires c as int < 256
    ensures 0 < |r| <= 4
  {
    if c == '\\' || c in q then OctalEscape(c) else [c]
  }

  /** `quote`: backslashes and the characters of `q` in octal. */
  function Quote(s: string, q: string): string
    requires Narrow(s)
  {
    if s == [] then [] else Quoted1(s[0], q) + Quote(s[1..], q)
  }

  lemma OctalSum(n: int)
    requires 0 <= n < 256
    ensures n / 64 * 64 + n / 8 % 8 * 8 + n % 8 == n
  {
  }

  lemma OctalBack(n: int)
    requires 0 <= n < 256
    ensures OctalValue(OctalDigit(n / 64), OctalDigit(n / 8 % 8), OctalDigit(n % 8)) as int == n
  {
    hide OctalDigit, DigitValue;
    OctalSum(n);
  }

  lemma EscapeUndone(c: char, rest: string)
    requires c as int < 256
    ensures Unquote(OctalEscape(c) + rest) == [c] + Unquote(rest)
  {
    hide OctalDigit, OctalValue;
    var n := c as int;
    var t := OctalEscape(c) + rest;
    OctalBack(n);
    assert t[4..] == rest;
    assert t[1] == OctalDigit(n / 64) && t[2] == OctalDigit(n / 8 % 8) && t[3] == OctalDigit(n % 8);
  }

  lemma {:induction false} QuoteUndone(s: string, q: string)
    requires Narrow(s)
    ensures Unquote(Quote(s, q)) == s
  {
    hide OctalEscape;
    if s != [] {
      QuoteUndone(s[1..], q);
      var rest := Quote(s[1..], q);
      assert s == [s[0]] + s[1..];
      if s[0] == '\\' || s[0] in q {
        EscapeUndone(s[0], rest);
      } else {
        assert ([s[0]] + rest)[1..] == rest;
      }
    }
  }

  predicate Name(s: string) {
    Narrow(s) && NUL !in s
  }

  /** Quoting is undone for every C string, whatever is quoted. */
  lemma NameRestored(s: string, q: string)
    requires Name(s)
    ensures Unquoted(Quote(s, q)) == s
  {
    QuoteUndone(s, q);
    CutNothing(s);
  }

  predicate Free(s: string, q: string) {
    forall i :: 0 <= i < |s| ==> s[i] !in q
  }

  lemma FreeConcat(s: string, t: string, q: string)
    requires Free(s, q) && Free(t, q)
    ensures Free(s + t, q)
  {
  }

  /** None of the characters quoted is left, nor is any of them an octal digit
      or the backslash. */
  lemma {:induction false} QuoteFree(s: string, q: string)
    requires Narrow(s) && '\\' !in q && forall i :: 0 <= i < |q| ==> !Octal(q[i])
    ensures Free(Quote(s, q), q)
  {
    if s != [] {
      QuoteFree(s[1..], q);
      FreeConcat(Quoted1(s[0], q), Quote(s[1..], q), q);
    }
  }

  const EOL := "\n\r"
  const NAME_QUOTED := "=\n\r"

  lemma {:induction false} TextBodyFree(v: string)
    requires Narrow(v)
    ensures Free(TextBody(v), EOL)
  {
    if v != [] && v != [NUL] {
      TextBodyFree(v[1..]);
      FreeConcat(TextByte(v[0]), TextBody(v[1..]), EOL);
    }
  }

  lemma {:induction false} HexBodyFree(v: string)
    requires Narrow(v)
    ensures Free(HexBody(v), EOL)
  {
    hide HexChar;
    if v != [] {
      HexBodyFree(v[1..]);
      FreeConcat([HexChar(v[0] as int / 16), HexChar(v[0] as int % 16)], HexBody(v[1..]), EOL);
    }
  }

  lemma QuadFree(a: int, b: int, c: int)
    requires 0 <= a < 256 && 0 <= b < 256 && 0 <= c < 256
    ensures Free(Quad(a, b, c), EOL)
  {
    hide SixChar;
  }

  lemma {:induction false} SixBodyFree(v: string)
    requires Narrow(v)
    ensures Free(SixBody(v), EOL)
  {
    hide Quad;
    if |v| >= 3 {
      SixBodyFree(v[3..]);
      QuadFree(v[0] as int, v[1] as int, v[2] as int);
      FreeConcat(Quad(v[0] as int, v[1] as int, v[2] as int), SixBody(v[3..]), EOL);
    } else if |v| == 2 {
      QuadFree(v[0] as int, v[1] as int, 0);
    } else if |v| == 1 {
      QuadFree(v[0] as int, 0, 0);
    }
  }

  /** An encoded value stays on its line. */
  lemma EncodedFree(option: Choice, v: string)
    requires Narrow(v)
    ensures Free(Encode(option, v), EOL)
  {
    hide TextBody, HexBody, SixBody;
    TextBodyFree(v);
    HexBodyFree(v);
    SixBodyFree(v);
  }

  // ----- Writing a dump

  datatype Attr = Attr(name: string, value: string)
  datatype File = File(path: string, attrs: seq<Attr>)

  predicate GoodAttr(a: Attr) {
    Name(a.name) && a.name != [] && Narrow(a.value)
  }

  predicate GoodFile(f: File) {
    Name(f.path) && forall i :: 0 <= i < |f.attrs| ==> GoodAttr(f.attrs[i])
  }

  /** A line of `print_attribute`: an empty value is shown by the name alone. */
  function AttrLine(option: Choice, a: Attr): string
    requires GoodAttr(a)
  {
    if a.value == [] then Quote(a.name, NAME_QUOTED)
    else Quote(a.name, NAME_QUOTED) + "=" + Encode(option, a.value)
  }

  const HEADER := "# file: "

  function AttrLines(option: Choice, attrs: seq<Attr>): (r: seq<string>)
    requires forall i :: 0 <= i < |attrs| ==> GoodAttr(attrs[i])
    ensures |r| == |attrs| && forall i :: 0 <= i < |attrs| ==> r[i] == AttrLine(option, attrs[i])
  {
    seq(|attrs|, i requires 0 <= i < |attrs| => AttrLine(option, attrs[i]))
  }

  /** Nothing is printed for a file without attributes; else a header, the
      attributes and an empty line. */
  function FileLines(option: Choice, f: File): seq<string>
    requires GoodFile(f)
  {
    if f.attrs == [] then []
    else [HEADER + Quote(f.path, EOL)] + AttrLines(option, f.attrs) + [""]
  }

  predicate GoodFiles(files: seq<File>) {
    forall i :: 0 <= i < |files| ==> GoodFile(files[i])
  }

  function DumpLines(option: Choice, files: seq<File>): seq<string>
    requires GoodFiles(files)
  {
    if files == [] then [] else FileLines(option, files[0]) + DumpLines(option, files[1..])
  }

  function Joined(lines: seq<string>): string {
    if lines == [] then [] else lines[0] + "\n" + Joined(lines[1..])
  }

  // ----- Reading lines

  function UpToEol(t: string): (r: string)
    ensures |r| <= |t|
  {
    if t == [] || t[0] == '\n' then [] else [t[0]] + UpToEol(t[1..])
  }

  function Stripped(t: string): string {
    if t != [] && (t[|t| - 1] == '\n' || t[|t| - 1] == '\r') then Stripped(t[..|t| - 1]) else t
  }

  /** The lines `next_line` returns. */
  function Lines(t: string): seq<string>
    decreases |t|
  {
    if t == [] then []
    else
      var l := UpToEol(t);
      [Stripped(l)] + Lines(if |l| < |t| then t[|l| + 1..] else [])
  }

  lemma {:induction false} LineUpTo(l: string, rest: string)
    requires Free(l, EOL)
    ensures UpToEol(l + "\n" + rest) == l
  {
    var t := l + "\n" + rest;
    if l != [] {
      LineUpTo(l[1..], rest);
      assert t[1..] == l[1..] + "\n" + rest;
      assert l == [l[0]] + l[1..];
    }
  }

  lemma {:induction false} LinesJoined(lines: seq<string>)
    requires forall i :: 0 <= i < |lines| ==> Free(lines[i], EOL)
    ensures Lines(Joined(lines)) == lines
  {
    if lines != [] {
      var l, rest := lines[0], Joined(lines[1..]);
      LinesJoined(lines[1..]);
      LineUpTo(l, rest);
      assert Joined(lines)[|l| + 1..] == rest;
      assert Stripped(l) == l;
    }
  }

  lemma AttrLineFree(option: Choice, a: Attr)
    requires GoodAttr(a)
    ensures AttrLine(option, a) != [] && Free(AttrLine(option, a), EOL)
  {
    hide Encode, Quoted1;
    QuoteFree(a.name, NAME_QUOTED);
    EncodedFree(option, a.value);
    assert forall c :: c in EOL ==> c in NAME_QUOTED;
  }

  lemma FileLinesFree(option: Choice, f: File)
    requires GoodFile(f)
    ensures forall i :: 0 <= i < |FileLines(option, f)| ==> Free(FileLines(option, f)[i], EOL)
  {
    hide Quote, AttrLine;
    forall i | 0 <= i < |f.attrs|
      ensures Free(AttrLine(option, f.attrs[i]), EOL)
    {
      AttrLineFree(option, f.attrs[i]);
    }
    QuoteFree(f.path, EOL);
    FreeConcat(HEADER, Quote(f.path, EOL), EOL);
  }

  lemma {:induction false} DumpLinesFree(option: Choice, files: seq<File>)
    requires GoodFiles(files)
    ensures forall i :: 0 <= i < |DumpLines(option, files)| ==> Free(DumpLines(option, files)[i], EOL)
  {
    hide FileLines, Free;
    if files != [] {
      FileLinesFree(option, files[0]);
      DumpLinesFree(option, files[1..]);
    }
  }
}
