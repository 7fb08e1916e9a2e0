/**
 The part of a C compiler that the generated header meets: line splicing, comments, preprocessing
 directives, tokens, and the two declarations with their initialisers (sections 5.1.1.2, 6.4 and 6.7 of C11).
 */
module CSource {
  import opened Text
  import Utf8
  import Numerals
  import CLiteral

  /** Translation phase 2: a backslash in front of a newline disappears together with it. */
  function Splice(s: string): string {
    if s == "" then ""
    else if "\\\n" <= s then Splice(s[2..])
    else [s[0]] + Splice(s[1..])
  }

  lemma {:induction false} SpliceNothing(s: string)
    requires !Occurs("\\\n", s)
    ensures Splice(s) == s
  {
    if s != "" {
      OccursStep("\\\n", s);
      SpliceNothing(s[1..]);
      assert [s[0]] + s[1..] == s;
    }
  }

  /** The first backslash in front of a newline goes, together with the newline. */
  lemma {:induction false} SpliceFirst(a: string, b: string)
    requires !Occurs("\\\n", a + "\\")
    ensures Splice(a + "\\\n" + b) == a + Splice(b)
  {
    var s := a + "\\\n" + b;
    if a == "" {
      assert s == "\\\n" + b;
      assert s[2..] == b;
      assert "" + Splice(b) == Splice(b);
    } else {
      var before := a + "\\";
      OccursStep("\\\n", before);
      assert before[1..] == a[1..] + "\\";
      assert before[..2] == s[..2];
      assert "\\\n" <= s <==> "\\\n" == s[..2];
      assert s[1..] == a[1..] + "\\\n" + b;
      SpliceFirst(a[1..], b);
      Assoc([a[0]], a[1..], Splice(b));
      assert [a[0]] + a[1..] == a;
    }
  }

  // ---------- Tokens ----------

  datatype Token =
    | Directive(line: string)
    | Name(name: string)
    | Numeral(digits: string)
    | Str(body: string)
    | Sign(sign: char)  // any other single character

  predicate IsLetter(c: char) {
    'a' <= c <= 'z' || 'A' <= c <= 'Z' || c == '_'
  }

  predicate IsDigit(c: char) {
    '0' <= c <= '9'
  }

  predicate IsWordChar(c: char) {
    IsLetter(c) || IsDigit(c)
  }

  /** Length of the run of letters and digits at the head of `s`. */
  function WordLength(s: string): (n: nat)
    ensures n <= |s|
  {
    if s == "" || !IsWordChar(s[0]) then 0 else 1 + WordLength(s[1..])
  }

  /** Number of characters in front of the first newline. */
  function LineLength(s: string): (n: nat)
    ensures n <= |s|
  {
    if s == "" || s[0] == '\n' then 0 else 1 + LineLength(s[1..])
  }

  /** Number of characters up to and including the end of a comment, everything if it never ends. */
  function CommentLength(s: string): (n: nat)
    ensures n <= |s|
  {
    if s == "" then 0
    else if "*/" <= s then 2
    else 1 + CommentLength(s[1..])
  }

  /** Translation phase 3. `lineStart` says that only white space precedes on the line. */
  function Lex(s: string, lineStart: bool): seq<Token> {
    if s == "" then []
    else if s[0] == '\n' then Lex(s[1..], true)
    else if s[0] == ' ' || s[0] == '\t' then Lex(s[1..], lineStart)
    else if "/*" <= s then Lex(s[2..][CommentLength(s[2..])..], lineStart)
    else if "//" <= s then Lex(s[LineLength(s)..], lineStart)
    else if s[0] == '#' && lineStart then [Directive(s[..LineLength(s)])] + Lex(s[LineLength(s)..], false)
    else if IsLetter(s[0]) then [Name(s[..WordLength(s)])] + Lex(s[WordLength(s)..], false)
    else if IsDigit(s[0]) then [Numeral(s[..WordLength(s)])] + Lex(s[WordLength(s)..], false)
    else if s[0] == '"' then
      match CLiteral.ScanLiteral(s[1..], CLiteral.Body) {
        case Some(k) => [Str(s[1..k + 1])] + Lex(s[k + 2..], false)
        case None => [Sign('"')] + Lex(s[1..], false)
      }
    else [Sign(s[0])] + Lex(s[1..], false)
  }

  // ---------- Declarations ----------

  /** The two objects the header defines. */
  datatype Unit = Unit(arrayName: string, bytes: seq<Utf8.Byte>, lengthName: string, length: nat)

  /** How many string literals stand at the head. */
  function StrRun(ts: seq<Token>): (n: nat)
    ensures n <= |ts|
    ensures forall i :: 0 <= i < n ==> ts[i].Str?
  {
    if ts == [] || !ts[0].Str? then 0 else 1 + StrRun(ts[1..])
  }

  function Bodies(ts: seq<Token>): (bs: seq<string>)
    requires forall i :: 0 <= i < |ts| ==> ts[i].Str?
    ensures |bs| == |ts| && forall i :: 0 <= i < |ts| ==> bs[i] == ts[i].body
  {
    seq(|ts|, i requires 0 <= i < |ts| => ts[i].body)
  }

  predicate IsIdentifier(s: string) {
    s != "" && IsLetter(s[0]) && WordLength(s) == |s|
  }

  /** The identifier that follows the keyword of a directive such as `#define NAME`, up to the end of the line. */
  function MacroOf(line: string, keyword: string): Option<string> {
    if keyword <= line && IsIdentifier(line[|keyword|..]) then Some(line[|keyword|..]) else None
  }

  /** `#ifndef A`, `#define B`, ..., `#endif`: the macro that is asked for and the one that is defined. */
  function GuardOf(ts: seq<Token>): (g: Option<(string, string)>)
    ensures g.Some? ==> |ts| >= 3
  {
    if |ts| >= 3 && ts[0].Directive? && ts[1].Directive? && ts[|ts| - 1] == Directive("#endif") then
      match (MacroOf(ts[0].line, "#ifndef "), MacroOf(ts[1].line, "#define ")) {
        case (Some(asked), Some(defined)) => Some((asked, defined))
        case _ => None
      }
    else None
  }

  /** The names among the tokens: what a macro could replace. */
  function NamesOf(ts: seq<Token>): set<string> {
    set t | t in ts && t.Name? :: t.name
  }

  /** `static const char NAME[] =`, up to the initialiser. */
  predicate IsArrayHead(ts: seq<Token>) {
    && |ts| == 7
    && ts[..3] == [Name("static"), Name("const"), Name("char")]
    && ts[3].Name?
    && ts[4..] == [Sign('['), Sign(']'), Sign('=')]
  }

  /** `static const unsigned int NAME = sizeof(ARRAY) - N;`, where sizeof counts the bytes of the array. */
  function LengthValue(ts: seq<Token>, arrayName: string, size: nat): (r: Option<(string, nat)>)
    ensures r.Some? ==> r.value.1 < 0x1_0000_0000
  {
    if && |ts| == 13
       && ts[..4] == [Name("static"), Name("const"), Name("unsigned"), Name("int")]
       && ts[4].Name?
       && ts[5..11] == [Sign('='), Name("sizeof"), Sign('('), Name(arrayName), Sign(')'), Sign('-')]
       && ts[11].Numeral?
       && ts[12] == Sign(';')
    then
      match Numerals.Number(ts[11].digits, 10)
      case Some(n) => Some((ts[4].name, (size - n) % 0x1_0000_0000))  // converted to unsigned int
      case None => None
    else None
  }

  /** The initialiser must hold at least one literal; the array gets one more byte for the final NUL. */
  function Declarations(ts: seq<Token>): Option<Unit> {
    if |ts| < 8 || !IsArrayHead(ts[..7]) then None
    else
      var name := ts[3].name;
      var n := StrRun(ts[7..]);
      if n == 0 || 7 + n >= |ts| || ts[7 + n] != Sign(';') then None
      else match CLiteral.DecodeAll(Bodies(ts[7..][..n]))
        case None => None
        case Some(bs) =>
          match LengthValue(ts[8 + n..], name, |bs| + 1) {
            case None => None
            case Some(l) => Some(Unit(name, bs + [0], l.0, l.1))
          }
  }

  /** What becomes of a file that is included where some macros are defined already. */
  datatype Inclusion =
    | Rejected  // it does not compile
    | Skipped  // its guard is defined, so nothing of it is compiled
    | Replaced  // one of its words is a macro, and what stands for it decides
    | Declares(unit: Unit, macros: set<string>)  // its objects, and the macros defined after it

  function Include(file: string, macros: set<string>): Inclusion {
    var ts := Lex(Splice(file), true);
    match GuardOf(ts)
    case None => Rejected
    case Some((asked, defined)) =>
      var inner := ts[2..|ts| - 1];
      if asked in macros then Skipped
      else if !(NamesOf(inner) !! (macros + {defined})) then Replaced
      else match Declarations(inner)
        case Some(u) => Declares(u, macros + {defined})
        case None => Rejected
  }

  /** What the file defines on its own, or nothing if it does not compile. */
  function Compile(file: string): Option<Unit> {
    match Include(file, {})
    case Declares(u, _) => Some(u)
    case _ => None
  }
}
