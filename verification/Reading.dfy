/**
 The C front end at work on the generated header: splicing changes nothing, and the tokens are those of the
 include guard, the array with one string literal per piece, and the length.
 */
module Reading {
  import opened Text
  import opened Json
  import opened Rewrite
  import opened Header
  import opened CSource
  import CLiteral
  import Meaning
  import Numerals

  // ---------- The file as a sequence of lines ----------

  function Terminate(ls: seq<string>): string {
    if ls == [] then "" else ls[0] + "\n" + Terminate(ls[1..])
  }

  lemma {:induction false} JoinTerminates(ls: seq<string>)
    ensures Join(ls + [""]) == Terminate(ls)
  {
    if ls == [] {
      assert ls + [""] == [""];
    } else {
      assert (ls + [""])[1..] == ls[1..] + [""];
      JoinTerminates(ls[1..]);
    }
  }

  lemma {:induction false} TerminateConcat(a: seq<string>, b: seq<string>)
    ensures Terminate(a + b) == Terminate(a) + Terminate(b)
  {
    if a == [] {
      assert a + b == b;
    } else {
      assert (a + b)[1..] == a[1..] + b;
      TerminateConcat(a[1..], b);
      Assoc(a[0] + "\n", Terminate(a[1..]), Terminate(b));
    }
  }

  /** A list without its last, empty, element. */
  function FullLines(lines: seq<string>): seq<string> {
    PROLOGUE + LiteralLines(lines) + EPILOGUE[..4]
  }

  lemma EpilogueSplit()
    ensures EPILOGUE == EPILOGUE[..4] + [""]
  {}

  lemma TerminateThree(p: seq<string>, q: seq<string>, r: seq<string>)
    ensures Terminate(p + q + r) == Terminate(p) + (Terminate(q) + Terminate(r))
  {
    TerminateConcat(p + q, r);
    TerminateConcat(p, q);
    Assoc(Terminate(p), Terminate(q), Terminate(r));
  }

  lemma OutListBody(lines: seq<string>)
    ensures OutList(lines) == FullLines(lines) + [""]
  {
    EpilogueSplit();
    var p, e := PROLOGUE + LiteralLines(lines), EPILOGUE[..4];
    assert p + (e + [""]) == p + e + [""];
  }

  lemma HeaderTerminates(lines: seq<string>)
    ensures HeaderOf(lines) ==
            Terminate(PROLOGUE) + (Terminate(LiteralLines(lines)) + Terminate(EPILOGUE[..4]))
  {
    OutListBody(lines);
    JoinTerminates(FullLines(lines));
    TerminateThree(PROLOGUE, LiteralLines(lines), EPILOGUE[..4]);
  }

  // ---------- Splicing ----------

  /** An occurrence of a backslash and a newline, by position. */
  lemma SpliceOccurs(s: string)
    ensures Occurs("\\\n", s) ==> exists i :: 0 <= i < |s| - 1 && s[i] == '\\' && s[i + 1] == '\n'
  {
    if Occurs("\\\n", s) {
      var i :| 0 <= i <= |s| && "\\\n" <= s[i..];
      assert s[i..][0] == s[i] && s[i..][1] == s[i + 1];
    }
  }

  lemma {:induction false} NoSplice(ls: seq<string>)
    requires ArePlainLines(ls)
    ensures forall i :: 0 <= i < |Terminate(ls)| - 1 && Terminate(ls)[i] == '\\' ==> Terminate(ls)[i + 1] != '\n'
  {
    if ls != [] {
      var l, rest := ls[0], Terminate(ls[1..]);
      NoSplice(ls[1..]);
      var s := Terminate(ls);
      forall i | 0 <= i < |s| - 1 && s[i] == '\\'
        ensures s[i + 1] != '\n'
      {
        if i <= |l| {
          assert i < |l| && s[i] == l[i];
          if i + 1 < |l| {
            assert s[i + 1] == l[i + 1];
          }
        } else {
          var j := i - |l| - 1;
          assert s[i] == rest[j] && s[i + 1] == rest[j + 1];
        }
      }
    }
  }

  /** Line splicing never alters the header, whatever the text. */
  lemma SpliceLeavesHeader(lines: seq<string>)
    ensures Splice(HeaderOf(lines)) == HeaderOf(lines)
  {
    OutListPlain(lines);
    OutListBody(lines);
    var all, body := OutList(lines), FullLines(lines);
    assert forall i :: 0 <= i < |body| ==> body[i] == all[i];
    JoinTerminates(body);
    NoSplice(body);
    SpliceOccurs(HeaderOf(lines));
    SpliceNothing(HeaderOf(lines));
  }

  // ---------- Tokens one by one ----------

  lemma LexBlank(rest: string, lineStart: bool)
    ensures Lex(" " + rest, lineStart) == Lex(rest, lineStart)
  {
    assert (" " + rest)[1..] == rest;
  }

  lemma LexNewline(rest: string, lineStart: bool)
    ensures Lex("\n" + rest, lineStart) == Lex(rest, true)
  {
    assert ("\n" + rest)[1..] == rest;
  }

  lemma LexSign(c: char, rest: string, lineStart: bool)
    requires !IsWordChar(c) && c !in " \t\n/#\""
    ensures Lex([c] + rest, lineStart) == [Sign(c)] + Lex(rest, false)
  {
    var s := [c] + rest;
    assert s[0] == c && s[1..] == rest;
  }

  lemma {:induction false} WordLengthOf(w: string, rest: string)
    requires forall i :: 0 <= i < |w| ==> IsWordChar(w[i])
    requires rest == "" || !IsWordChar(rest[0])
    ensures WordLength(w + rest) == |w|
  {
    if w == "" {
      assert w + rest == rest;
    } else {
      assert (w + rest)[1..] == w[1..] + rest;
      WordLengthOf(w[1..], rest);
    }
  }

  predicate IsWord(w: string) {
    w != "" && forall i :: 0 <= i < |w| ==> IsWordChar(w[i])
  }

  function WordToken(w: string): Token
    requires w != ""
  {
    if IsLetter(w[0]) then Name(w) else Numeral(w)
  }

  lemma LexWord(w: string, rest: string, lineStart: bool)
    requires IsWord(w)
    requires rest == "" || !IsWordChar(rest[0])
    ensures Lex(w + rest, lineStart) == [WordToken(w)] + Lex(rest, false)
  {
    var s := w + rest;
    WordLengthOf(w, rest);
    assert s[0] == w[0] && s[..|w|] == w && s[|w|..] == rest;
  }

  lemma {:induction false} LineLengthOf(p: string, rest: string)
    requires IsPrintable(p)
    ensures LineLength(p + "\n" + rest) == |p|
  {
    var s := p + "\n" + rest;
    if p != "" {
      assert s[1..] == p[1..] + "\n" + rest;
      LineLengthOf(p[1..], rest);
    }
  }

  lemma LexDirective(p: string, rest: string)
    requires p != "" && p[0] == '#' && IsPrintable(p)
    ensures Lex(p + "\n" + rest, true) == [Directive(p)] + Lex(rest, true)
  {
    var s := p + "\n" + rest;
    LineLengthOf(p, rest);
    assert s[0] == '#' && s[..|p|] == p && s[|p|..] == "\n" + rest;
    LexNewline(rest, false);
  }

  lemma {:induction false} CommentLengthOf(c: string, rest: string)
    requires '*' !in c
    ensures CommentLength(c + "*/" + rest) == |c| + 2
  {
    var s := c + "*/" + rest;
    if c == "" {
      assert s[..2] == "*/";
    } else {
      assert s[0] == c[0] && c[0] in c;
      assert s[1..] == c[1..] + "*/" + rest;
      CommentLengthOf(c[1..], rest);
    }
  }

  lemma LexComment(c: string, rest: string, lineStart: bool)
    requires '*' !in c
    ensures Lex("/*" + c + "*/" + rest, lineStart) == Lex(rest, lineStart)
  {
    var s := "/*" + c + "*/" + rest;
    CommentLengthOf(c, rest);
    assert s[..2] == "/*" && s[2..] == c + "*/" + rest;
    assert s[2..][|c| + 2..] == rest;
  }

  lemma LexLiteral(body: string, rest: string, lineStart: bool)
    requires CLiteral.Run(CLiteral.Body, body) == CLiteral.Body
    ensures Lex("\"" + body + "\"" + rest, lineStart) == [Str(body)] + Lex(rest, false)
  {
    var s := "\"" + body + "\"" + rest;
    CLiteral.ScanFinds(CLiteral.Body, body, rest);
    assert s[0] == '"' && s[1..] == body + "\"" + rest;
    assert s[1..|body| + 1] == body && s[|body| + 2..] == rest;
  }

  // ---------- The lines of the header ----------

  lemma LexIndent(rest: string)
    ensures Lex("    " + rest, true) == Lex(rest, true)
  {
    assert "    " + rest == " " + (" " + (" " + (" " + rest)));
    LexBlank(" " + (" " + (" " + rest)), true);
    LexBlank(" " + (" " + rest), true);
    LexBlank(" " + rest, true);
    LexBlank(rest, true);
  }

  lemma LexLiteralEnd(last: bool, rest: string)
    ensures Lex((if last then ";" else "") + "\n" + rest, false)
         == (if last then [Sign(';')] else []) + Lex(rest, true)
  {
    LexNewline(rest, false);
    if last {
      LexSign(';', "\n" + rest, false);
      assert ";" + "\n" + rest == [';'] + ("\n" + rest);
    } else {
      assert "" + "\n" + rest == "\n" + rest;
    }
  }

  lemma LexLiteralLine(line: string, last: bool, rest: string)
    ensures Lex(LiteralLine(line, last) + "\n" + rest, true)
         == [Str(Fused(line))] + ((if last then [Sign(';')] else []) + Lex(rest, true))
  {
    LiteralLineShape(line, last);
    Meaning.RunFused(line);
    var end := if last then ";" else "";
    var tail := end + "\n" + rest;
    var quoted := "\"" + Fused(line) + "\"";
    assert LiteralLine(line, last) == "    " + quoted + end;
    assert "    " + quoted + end + "\n" + rest == "    " + (quoted + tail);
    LexIndent(quoted + tail);
    LexLiteral(Fused(line), tail, true);
    LexLiteralEnd(last, rest);
  }

  function StrTokens(lines: seq<string>): (r: seq<Token>)
    ensures |r| == |lines|
    ensures forall i :: 0 <= i < |lines| ==> r[i] == Str(Fused(lines[i]))
  {
    seq(|lines|, i requires 0 <= i < |lines| => Str(Fused(lines[i])))
  }

  function Semicolon(lines: seq<string>): seq<Token> {
    if lines == [] then [] else [Sign(';')]
  }

  lemma LiteralLinesTail(lines: seq<string>)
    requires lines != []
    ensures LiteralLines(lines)[0] == LiteralLine(lines[0], |lines| == 1)
    ensures LiteralLines(lines)[1..] == LiteralLines(lines[1..])
  {}

  lemma LiteralLinesStep(lines: seq<string>)
    requires lines != []
    ensures Terminate(LiteralLines(lines))
         == LiteralLine(lines[0], |lines| == 1) + "\n" + Terminate(LiteralLines(lines[1..]))
  {
    LiteralLinesTail(lines);
  }

  lemma StrTokensStep(lines: seq<string>)
    requires lines != []
    ensures StrTokens(lines) == [Str(Fused(lines[0]))] + StrTokens(lines[1..])
  {}

  lemma {:induction false} LexLiteralLines(lines: seq<string>, rest: string)
    ensures Lex(Terminate(LiteralLines(lines)) + rest, true)
         == StrTokens(lines) + (Semicolon(lines) + Lex(rest, true))
  {
    if lines == [] {
      assert Terminate(LiteralLines(lines)) + rest == rest;
    } else {
      var tail := lines[1..];
      var more := Terminate(LiteralLines(tail));
      LiteralLinesStep(lines);
      Assoc(LiteralLine(lines[0], |lines| == 1) + "\n", more, rest);
      LexLiteralLine(lines[0], |lines| == 1, more + rest);
      LexLiteralLines(tail, rest);
      LiteralTokens(lines, Lex(rest, true));
    }
  }

  lemma LiteralTokens(lines: seq<string>, more: seq<Token>)
    requires lines != []
    ensures [Str(Fused(lines[0]))]
            + ((if |lines| == 1 then [Sign(';')] else []) + (StrTokens(lines[1..]) + (Semicolon(lines[1..]) + more)))
         == StrTokens(lines) + (Semicolon(lines) + more)
  {
    StrTokensStep(lines);
    var tail := StrTokens(lines[1..]);
    if |lines| == 1 {
      assert tail + (Semicolon(lines[1..]) + more) == more;
    } else {
      Assoc([Str(Fused(lines[0]))], tail, [Sign(';')] + more);
      assert [] + (tail + ([Sign(';')] + more)) == tail + ([Sign(';')] + more);
    }
  }

  const ARRAY_TOKENS: seq<Token> :=
    [Name("static"), Name("const"), Name("char"), Name("ROUTER_UI_HTML"), Sign('['), Sign(']'), Sign('=')]

  const LENGTH_TOKENS: seq<Token> :=
    [Name("static"), Name("const"), Name("unsigned"), Name("int"), Name("ROUTER_UI_HTML_LEN"), Sign('='),
     Name("sizeof"), Sign('('), Name("ROUTER_UI_HTML"), Sign(')'), Sign('-'), Numeral("1"), Sign(';')]

  /** A line of words, signs and blanks, and the two ways to look at it. */
  datatype Pieces = End | Word(word: string, tail: Pieces) | Mark(sign: char, tail: Pieces) | Blank(tail: Pieces)

  function Written(ps: Pieces): string {
    match ps
    case End => ""
    case Word(w, tail) => w + Written(tail)
    case Mark(c, tail) => [c] + Written(tail)
    case Blank(tail) => " " + Written(tail)
  }

  function Tokens(ps: Pieces): seq<Token> {
    match ps
    case End => []
    case Word(w, tail) => (if w == "" then [] else [WordToken(w)]) + Tokens(tail)
    case Mark(c, tail) => [Sign(c)] + Tokens(tail)
    case Blank(tail) => Tokens(tail)
  }

  /** Two words need something between them. */
  predicate IsSeparated(ps: Pieces) {
    match ps
    case End => true
    case Word(w, tail) => IsWord(w) && !tail.Word? && IsSeparated(tail)
    case Mark(c, tail) => !IsWordChar(c) && c !in " \t\n/#\"" && IsSeparated(tail)
    case Blank(tail) => IsSeparated(tail)
  }

  /** Lexing a written line gives its tokens. */
  lemma {:induction false} LexPieces(ps: Pieces, rest: string, lineStart: bool)
    requires IsSeparated(ps)
    ensures Lex(Written(ps) + ("\n" + rest), lineStart) == Tokens(ps) + Lex(rest, true)
    decreases ps
  {
    match ps
    case End =>
      assert "" + ("\n" + rest) == "\n" + rest;
      LexNewline(rest, lineStart);
    case Word(w, tail) =>
      var more := Written(tail) + ("\n" + rest);
      Assoc(w, Written(tail), "\n" + rest);
      LexWord(w, more, lineStart);
      LexPieces(tail, rest, false);
    case Mark(c, tail) =>
      var more := Written(tail) + ("\n" + rest);
      Assoc([c], Written(tail), "\n" + rest);
      LexSign(c, more, lineStart);
      LexPieces(tail, rest, false);
    case Blank(tail) =>
      var more := Written(tail) + ("\n" + rest);
      Assoc(" ", Written(tail), "\n" + rest);
      LexBlank(more, lineStart);
      LexPieces(tail, rest, lineStart);
  }

  const ARRAY_PIECES: Pieces :=
    Word("static", Blank(Word("const", Blank(Word("char", Blank(
      Word("ROUTER_UI_HTML", Mark('[', Mark(']', Blank(Mark('=', End)))))))))))

  const MINUS_PIECES: Pieces := Blank(Mark('-', Blank(Word("1", Mark(';', End)))))

  const SIZEOF_PIECES: Pieces := Word("sizeof", Mark('(', Word("ROUTER_UI_HTML", Mark(')', MINUS_PIECES))))

  const VALUE_PIECES: Pieces := Blank(Mark('=', Blank(SIZEOF_PIECES)))

  const LENGTH_PIECES: Pieces :=
    Word("static", Blank(Word("const", Blank(Word("unsigned", Blank(Word("int", Blank(
      Word("ROUTER_UI_HTML_LEN", VALUE_PIECES)))))))))

  lemma FrameWords()
    ensures IsWord("static") && IsWord("const") && IsWord("char") && IsWord("unsigned") && IsWord("int")
    ensures IsWord("sizeof") && IsWord("1") && IsWord("ROUTER_UI_HTML") && IsWord("ROUTER_UI_HTML_LEN")
  {}

  lemma ArrayWritten()
    ensures Written(ARRAY_PIECES) ==
            "static" + (" " + ("const" + (" " + ("char" + (" " + ("ROUTER_UI_HTML" + ("[" + ("]" + (" " + "=")))))))))
  {
    assert "=" + "" == "=";
  }

  lemma ArrayText()
    ensures ARRAY_LINE ==
            "static" + (" " + ("const" + (" " + ("char" + (" " + ("ROUTER_UI_HTML" + ("[" + ("]" + (" " + "=")))))))))
  {}

  lemma ArrayTokens()
    ensures Tokens(ARRAY_PIECES) == ARRAY_TOKENS
  {}

  lemma ArraySeparated()
    ensures IsSeparated(ARRAY_PIECES)
  {
    FrameWords();
  }

  lemma LexArrayLine(rest: string)
    ensures Lex(ARRAY_LINE + ("\n" + rest), true) == ARRAY_TOKENS + Lex(rest, true)
  {
    ArrayWritten();
    ArrayText();
    ArrayTokens();
    ArraySeparated();
    LexPieces(ARRAY_PIECES, rest, true);
  }

  lemma MinusPieces()
    ensures Written(MINUS_PIECES) == " " + ("-" + (" " + ("1" + ";")))
    ensures Tokens(MINUS_PIECES) == [Sign('-'), Numeral("1"), Sign(';')]
    ensures IsSeparated(MINUS_PIECES)
  {
    FrameWords();
    assert Written(Mark(';', End)) == ";";
    assert Tokens(Mark(';', End)) == [Sign(';')];
    assert Tokens(Word("1", Mark(';', End))) == [Numeral("1"), Sign(';')];
  }

  lemma SizeofPieces()
    ensures Written(SIZEOF_PIECES) == "sizeof" + ("(" + ("ROUTER_UI_HTML" + (")" + Written(MINUS_PIECES))))
    ensures Tokens(SIZEOF_PIECES) ==
            [Name("sizeof"), Sign('('), Name("ROUTER_UI_HTML"), Sign(')')] + Tokens(MINUS_PIECES)
    ensures IsSeparated(SIZEOF_PIECES)
  {
    FrameWords();
    MinusPieces();
    assert Tokens(Mark(')', MINUS_PIECES)) == [Sign(')')] + Tokens(MINUS_PIECES);
    assert Tokens(Word("ROUTER_UI_HTML", Mark(')', MINUS_PIECES)))
        == [Name("ROUTER_UI_HTML"), Sign(')')] + Tokens(MINUS_PIECES);
  }

  lemma ValuePieces()
    ensures Written(VALUE_PIECES) == " " + ("=" + (" " + Written(SIZEOF_PIECES)))
    ensures Tokens(VALUE_PIECES) == [Sign('=')] + Tokens(SIZEOF_PIECES)
    ensures IsSeparated(VALUE_PIECES)
  {
    SizeofPieces();
  }

  lemma ValueWritten()
    ensures Written(VALUE_PIECES) ==
            " " + ("=" + (" " + ("sizeof" + ("(" + ("ROUTER_UI_HTML" + (")" + (" " + ("-" + (" " + ("1" + ";"))))))))))
  {
    MinusPieces();
    SizeofPieces();
    ValuePieces();
  }

  lemma ValueText()
    ensures " = sizeof(ROUTER_UI_HTML) - 1;" ==
            " " + ("=" + (" " + ("sizeof" + ("(" + ("ROUTER_UI_HTML" + (")" + (" " + ("-" + (" " + ("1" + ";"))))))))))
  {}

  lemma LengthWritten()
    ensures Written(LENGTH_PIECES) ==
            "static" + (" " + ("const" + (" " + ("unsigned" + (" " + ("int" + (" " +
              ("ROUTER_UI_HTML_LEN" + Written(VALUE_PIECES)))))))))
  {}

  lemma LengthText(rest: string)
    ensures "static const unsigned int ROUTER_UI_HTML_LEN" + rest ==
            "static" + (" " + ("const" + (" " + ("unsigned" + (" " + ("int" + (" " +
              ("ROUTER_UI_HTML_LEN" + rest))))))))
  {}

  lemma TokensWordBlank(w: string, tail: Pieces)
    requires IsWord(w)
    ensures Tokens(Word(w, Blank(tail))) == [WordToken(w)] + Tokens(tail)
  {
    assert Tokens(Blank(tail)) == Tokens(tail);
  }

  lemma LengthTokens()
    ensures Tokens(LENGTH_PIECES) == LENGTH_TOKENS
  {
    FrameWords();
    MinusPieces();
    SizeofPieces();
    ValuePieces();
    var name := Word("ROUTER_UI_HTML_LEN", VALUE_PIECES);
    assert Tokens(name) == [Name("ROUTER_UI_HTML_LEN")] + Tokens(VALUE_PIECES);
    TokensWordBlank("int", name);
    TokensWordBlank("unsigned", Word("int", Blank(name)));
    TokensWordBlank("const", Word("unsigned", Blank(Word("int", Blank(name)))));
    TokensWordBlank("static", Word("const", Blank(Word("unsigned", Blank(Word("int", Blank(name)))))));
    LengthTokensSplit();
  }

  lemma LengthTokensSplit()
    ensures LENGTH_TOKENS ==
            [Name("static")] + ([Name("const")] + ([Name("unsigned")] + ([Name("int")] +
              ([Name("ROUTER_UI_HTML_LEN")] + ([Sign('=')] +
                ([Name("sizeof"), Sign('('), Name("ROUTER_UI_HTML"), Sign(')')] +
                  [Sign('-'), Numeral("1"), Sign(';')]))))))
  {}

  lemma LengthSeparated()
    ensures IsSeparated(LENGTH_PIECES)
  {
    FrameWords();
    ValuePieces();
  }

  lemma LexLengthLine(rest: string)
    ensures Lex(LENGTH_LINE + ("\n" + rest), true) == LENGTH_TOKENS + Lex(rest, true)
  {
    ValueWritten();
    ValueText();
    LengthWritten();
    LengthText(Written(VALUE_PIECES));
    LengthTokens();
    LengthSeparated();
    LexPieces(LENGTH_PIECES, rest, true);
  }

  lemma CommentText()
    ensures COMMENT_LINE_1 == "/*" + COMMENT_LINE_1[2..]
    ensures COMMENT_LINE_2 == COMMENT_LINE_2[..|COMMENT_LINE_2| - 2] + "*/"
    ensures '*' !in COMMENT_LINE_1[2..]
    ensures '*' !in COMMENT_LINE_2[..|COMMENT_LINE_2| - 2]
  {}

  lemma LexCommentLines(rest: string)
    ensures Lex(COMMENT_LINE_1 + "\n" + COMMENT_LINE_2 + "\n" + rest, true) == Lex(rest, true)
  {
    CommentText();
    var c1 := COMMENT_LINE_1[2..];
    var c2 := COMMENT_LINE_2[..|COMMENT_LINE_2| - 2];
    LexTwoLineComment(c1, c2, rest);
  }

  lemma LexTwoLineComment(c1: string, c2: string, rest: string)
    requires '*' !in c1 && '*' !in c2
    ensures Lex("/*" + c1 + "\n" + (c2 + "*/") + "\n" + rest, true) == Lex(rest, true)
  {
    var c := c1 + "\n" + c2;
    LexComment(c, "\n" + rest, true);
    LexNewline(rest, true);
    assert "/*" + c1 + "\n" + (c2 + "*/") + "\n" + rest == "/*" + c + "*/" + ("\n" + rest);
  }

  // ---------- The whole header ----------

  lemma PrologueShape(c1: string, c2: string, i: string, d: string, a: string, rest: string)
    ensures Terminate([c1, c2, i, d, "", a]) + rest ==
            c1 + "\n" + c2 + "\n" + (i + "\n" + (d + "\n" + ("\n" + (a + ("\n" + rest)))))
  {
    assert Terminate([a]) == a + "\n" + "";
    assert ["", a][1..] == [a];
    assert Terminate(["", a]) == "" + "\n" + Terminate([a]);
    assert [d, "", a][1..] == ["", a];
    assert Terminate([d, "", a]) == d + "\n" + Terminate(["", a]);
    assert [i, d, "", a][1..] == [d, "", a];
    assert Terminate([i, d, "", a]) == i + "\n" + Terminate([d, "", a]);
    assert [c2, i, d, "", a][1..] == [i, d, "", a];
    assert Terminate([c2, i, d, "", a]) == c2 + "\n" + Terminate([i, d, "", a]);
    assert [c1, c2, i, d, "", a][1..] == [c2, i, d, "", a];
  }

  lemma EpilogueShape(l: string, e: string)
    ensures Terminate(["", l, "", e]) == "\n" + (l + ("\n" + ("\n" + (e + "\n" + ""))))
  {
    assert Terminate([e]) == e + "\n" + "";
    assert ["", e][1..] == [e];
    assert Terminate(["", e]) == "" + "\n" + Terminate([e]);
    assert [l, "", e][1..] == ["", e];
    assert Terminate([l, "", e]) == l + "\n" + Terminate(["", e]);
    assert ["", l, "", e][1..] == [l, "", e];
  }

  lemma LexPrologue(rest: string)
    ensures Lex(Terminate(PROLOGUE) + rest, true)
         == [Directive(IFNDEF_LINE)] + ([Directive(DEFINE_LINE)] + (ARRAY_TOKENS + Lex(rest, true)))
  {
    var decl := ARRAY_LINE + ("\n" + rest);
    var define := DEFINE_LINE + "\n" + ("\n" + decl);
    PrologueShape(COMMENT_LINE_1, COMMENT_LINE_2, IFNDEF_LINE, DEFINE_LINE, ARRAY_LINE, rest);
    LexCommentLines(IFNDEF_LINE + "\n" + define);
    DirectiveLinesPlain();
    LexDirective(IFNDEF_LINE, define);
    LexDirective(DEFINE_LINE, "\n" + decl);
    LexNewline(decl, true);
    LexArrayLine(rest);
  }

  lemma LexEpilogue()
    ensures Lex(Terminate(EPILOGUE[..4]), true) == LENGTH_TOKENS + [Directive(ENDIF_LINE)]
  {
    var end := ENDIF_LINE + "\n" + "";
    var length := LENGTH_LINE + ("\n" + ("\n" + end));
    assert EPILOGUE[..4] == ["", LENGTH_LINE, "", ENDIF_LINE];
    EpilogueShape(LENGTH_LINE, ENDIF_LINE);
    LexNewline(length, true);
    LexLengthLine("\n" + end);
    LexNewline(end, true);
    DirectiveLinesPlain();
    LexDirective(ENDIF_LINE, "");
  }

  /** The tokens between the include guard. */
  function DeclarationTokens(lines: seq<string>): seq<Token> {
    ARRAY_TOKENS + (StrTokens(lines) + (Semicolon(lines) + LENGTH_TOKENS))
  }

  lemma LexHeader(lines: seq<string>)
    ensures Lex(HeaderOf(lines), true)
         == [Directive("#ifndef SHARKOS_ROUTER_UI_HTML_H"), Directive("#define SHARKOS_ROUTER_UI_HTML_H")]
            + DeclarationTokens(lines)
            + [Directive("#endif")]
  {
    HeaderTerminates(lines);
    var e := Terminate(EPILOGUE[..4]);
    LexPrologue(Terminate(LiteralLines(lines)) + e);
    LexLiteralLines(lines, e);
    LexEpilogue();
    RegroupTokens(IFNDEF_LINE, DEFINE_LINE, ARRAY_TOKENS, StrTokens(lines), Semicolon(lines), LENGTH_TOKENS,
                  ENDIF_LINE);
  }

  lemma RegroupTokens(i: string, d: string, a: seq<Token>, s: seq<Token>, c: seq<Token>, l: seq<Token>, e: string)
    ensures [Directive(i)] + ([Directive(d)] + (a + (s + (c + (l + [Directive(e)])))))
         == [Directive(i), Directive(d)] + (a + (s + (c + l))) + [Directive(e)]
  {}

  lemma {:induction false} StrRunOf(ss: seq<Token>, rest: seq<Token>)
    requires forall i :: 0 <= i < |ss| ==> ss[i].Str?
    requires rest != [] && !rest[0].Str?
    ensures StrRun(ss + rest) == |ss|
  {
    if ss == [] {
      assert ss + rest == rest;
    } else {
      assert (ss + rest)[0] == ss[0] && (ss + rest)[1..] == ss[1..] + rest;
      StrRunOf(ss[1..], rest);
    }
  }

  lemma LengthOfArray(size: nat)
    ensures LengthValue(LENGTH_TOKENS, "ROUTER_UI_HTML", size + 1) == Some(("ROUTER_UI_HTML_LEN", size % 0x1_0000_0000))
  {
    assert Numerals.Number("1", 10) == Some(1) by {
      assert "1"[..0] == "";
      assert Numerals.DigitIn('1', 10) == Some(1);
    }
    assert LENGTH_TOKENS[..4] == [Name("static"), Name("const"), Name("unsigned"), Name("int")];
    assert LENGTH_TOKENS[5..11] == [Sign('='), Name("sizeof"), Sign('('), Name("ROUTER_UI_HTML"), Sign(')'), Sign('-')];
  }

  lemma ArrayHeadOf(rest: seq<Token>)
    ensures (ARRAY_TOKENS + rest)[..7] == ARRAY_TOKENS && (ARRAY_TOKENS + rest)[7..] == rest
    ensures IsArrayHead(ARRAY_TOKENS) && (ARRAY_TOKENS + rest)[3] == Name("ROUTER_UI_HTML")
  {
    assert ARRAY_TOKENS[..3] == [Name("static"), Name("const"), Name("char")];
    assert ARRAY_TOKENS[4..] == [Sign('['), Sign(']'), Sign('=')];
  }

  /** What the declarations mean, given the bytes of the literals. Without a literal they mean nothing. */
  function Meant(lines: seq<string>): Option<Unit> {
    if lines == [] then None
    else match CLiteral.DecodeAll(Meaning.FusedAll(lines))
      case None => None
      case Some(bs) => Some(Unit("ROUTER_UI_HTML", bs + [0], "ROUTER_UI_HTML_LEN", |bs| % 0x1_0000_0000))
  }

  lemma ParseLiterals(strs: seq<Token>, rest: seq<Token>)
    requires strs != [] && forall i :: 0 <= i < |strs| ==> strs[i].Str?
    ensures Declarations(ARRAY_TOKENS + (strs + ([Sign(';')] + rest))) ==
            match CLiteral.DecodeAll(Bodies(strs)) {
              case None => None
              case Some(bs) =>
                match LengthValue(rest, "ROUTER_UI_HTML", |bs| + 1) {
                  case None => None
                  case Some(l) => Some(Unit("ROUTER_UI_HTML", bs + [0], l.0, l.1))
                }
            }
  {
    var tail := [Sign(';')] + rest;
    var ts := ARRAY_TOKENS + (strs + tail);
    ArrayHeadOf(strs + tail);
    StrRunOf(strs, tail);
    assert (strs + tail)[..|strs|] == strs;
    assert ts[7 + |strs|] == (strs + tail)[|strs|] == Sign(';');
    assert ts[8 + |strs|..] == (strs + tail)[|strs| + 1..] == rest;
  }

  lemma ParseNoLiteral(rest: seq<Token>)
    requires rest != [] && !rest[0].Str?
    ensures Declarations(ARRAY_TOKENS + rest) == None
  {
    ArrayHeadOf(rest);
  }

  lemma BodiesAreFused(lines: seq<string>)
    ensures Bodies(StrTokens(lines)) == Meaning.FusedAll(lines)
  {}

  lemma DeclarationsOf(lines: seq<string>)
    ensures Declarations(DeclarationTokens(lines)) == Meant(lines)
  {
    if lines == [] {
      assert StrTokens(lines) + (Semicolon(lines) + LENGTH_TOKENS) == LENGTH_TOKENS;
      ParseNoLiteral(LENGTH_TOKENS);
    } else {
      ParseLiterals(StrTokens(lines), LENGTH_TOKENS);
      BodiesAreFused(lines);
      var r := CLiteral.DecodeAll(Meaning.FusedAll(lines));
      if r.Some? {
        LengthOfArray(|r.value|);
      }
    }
  }

  lemma GuardMacro()
    ensures MacroOf(IFNDEF_LINE, "#ifndef ") == Some("SHARKOS_ROUTER_UI_HTML_H")
    ensures MacroOf(DEFINE_LINE, "#define ") == Some("SHARKOS_ROUTER_UI_HTML_H")
  {
    GuardText();
    MacroOfDirective("#ifndef ", "SHARKOS_ROUTER_UI_HTML_H");
    MacroOfDirective("#define ", "SHARKOS_ROUTER_UI_HTML_H");
  }

  lemma GuardText()
    ensures IFNDEF_LINE == "#ifndef " + "SHARKOS_ROUTER_UI_HTML_H"
    ensures DEFINE_LINE == "#define " + "SHARKOS_ROUTER_UI_HTML_H"
    ensures IsWord("SHARKOS_ROUTER_UI_HTML_H") && IsLetter("SHARKOS_ROUTER_UI_HTML_H"[0])
  {}

  lemma MacroOfDirective(keyword: string, macro: string)
    requires IsWord(macro) && IsLetter(macro[0])
    ensures MacroOf(keyword + macro, keyword) == Some(macro)
  {
    assert (keyword + macro)[|keyword|..] == macro;
    assert macro + "" == macro;
    WordLengthOf(macro, "");
  }

  lemma GuardOfHeader(ts: seq<Token>)
    ensures var all := [Directive(IFNDEF_LINE), Directive(DEFINE_LINE)] + ts + [Directive(ENDIF_LINE)];
            && GuardOf(all) == Some(("SHARKOS_ROUTER_UI_HTML_H", "SHARKOS_ROUTER_UI_HTML_H"))
            && all[2..|all| - 1] == ts
  {
    var all := [Directive(IFNDEF_LINE), Directive(DEFINE_LINE)] + ts + [Directive(ENDIF_LINE)];
    assert all[2..|all| - 1] == ts;
    GuardMacro();
  }

  lemma NamesConcat(a: seq<Token>, b: seq<Token>)
    ensures NamesOf(a + b) == NamesOf(a) + NamesOf(b)
  {}

  /** The words of the header that a macro could replace. */
  const WORDS: set<string> :=
    {"static", "const", "char", "unsigned", "int", "sizeof", "ROUTER_UI_HTML", "ROUTER_UI_HTML_LEN"}

  lemma ArrayNames()
    ensures NamesOf(ARRAY_TOKENS) == {"static", "const", "char", "ROUTER_UI_HTML"}
  {}

  lemma LengthNames()
    ensures NamesOf(LENGTH_TOKENS) ==
            {"static", "const", "unsigned", "int", "ROUTER_UI_HTML_LEN"} + {"sizeof", "ROUTER_UI_HTML"}
  {
    var head := [Name("static"), Name("const"), Name("unsigned"), Name("int"), Name("ROUTER_UI_HTML_LEN"), Sign('=')];
    var value := [Name("sizeof"), Sign('('), Name("ROUTER_UI_HTML"), Sign(')'), Sign('-'), Numeral("1"), Sign(';')];
    assert LENGTH_TOKENS == head + value;
    FiveNames("static", "const", "unsigned", "int", "ROUTER_UI_HTML_LEN");
    TwoNames("sizeof", "ROUTER_UI_HTML", "1");
    NamesConcat(head, value);
  }

  lemma FiveNames(a: string, b: string, c: string, d: string, e: string)
    ensures NamesOf([Name(a), Name(b), Name(c), Name(d), Name(e), Sign('=')]) == {a, b, c, d, e}
  {}

  lemma TwoNames(a: string, b: string, n: string)
    ensures NamesOf([Name(a), Sign('('), Name(b), Sign(')'), Sign('-'), Numeral(n), Sign(';')]) == {a, b}
  {}

  lemma NamesOfHeader(lines: seq<string>)
    ensures NamesOf(DeclarationTokens(lines)) == WORDS
  {
    NamesOfParts(ARRAY_TOKENS, StrTokens(lines), Semicolon(lines), LENGTH_TOKENS);
    ArrayNames();
    LengthNames();
    NamesOfLiterals(lines);
    AllNames();
  }

  lemma NamesOfParts(a: seq<Token>, s: seq<Token>, c: seq<Token>, l: seq<Token>)
    ensures NamesOf(a + (s + (c + l))) == NamesOf(a) + (NamesOf(s) + (NamesOf(c) + NamesOf(l)))
  {
    NamesConcat(a, s + (c + l));
    NamesConcat(s, c + l);
    NamesConcat(c, l);
  }

  lemma NamesOfLiterals(lines: seq<string>)
    ensures NamesOf(StrTokens(lines)) == {} && NamesOf(Semicolon(lines)) == {}
  {}

  lemma AllNames()
    ensures {"static", "const", "char", "ROUTER_UI_HTML"}
            + ({"static", "const", "unsigned", "int", "ROUTER_UI_HTML_LEN"} + {"sizeof", "ROUTER_UI_HTML"}) == WORDS
  {}

  lemma GuardIsNoWord()
    ensures "SHARKOS_ROUTER_UI_HTML_H" !in WORDS
  {
    assert |"SHARKOS_ROUTER_UI_HTML_H"| == 24;
  }

  /** What a header is, where some macros are defined, given what its declarations mean. */
  function Included(lines: seq<string>, macros: set<string>): Inclusion {
    if "SHARKOS_ROUTER_UI_HTML_H" in macros then Skipped
    else if !(WORDS !! macros) then Replaced
    else match Meant(lines)
      case Some(u) => Declares(u, macros + {"SHARKOS_ROUTER_UI_HTML_H"})
      case None => Rejected
  }

  lemma IncludeTokens(file: string, inner: seq<Token>, macros: set<string>)
    requires Lex(Splice(file), true)
          == [Directive(IFNDEF_LINE), Directive(DEFINE_LINE)] + inner + [Directive(ENDIF_LINE)]
    ensures Include(file, macros) ==
            if "SHARKOS_ROUTER_UI_HTML_H" in macros then Skipped
            else if !(NamesOf(inner) !! (macros + {"SHARKOS_ROUTER_UI_HTML_H"})) then Replaced
            else match Declarations(inner) {
              case Some(u) => Declares(u, macros + {"SHARKOS_ROUTER_UI_HTML_H"})
              case None => Rejected
            }
  {
    GuardOfHeader(inner);
  }

  /** Including a header comes down to its guard and the value of its literals. */
  lemma IncludeHeader(lines: seq<string>, macros: set<string>)
    ensures Include(HeaderOf(lines), macros) == Included(lines, macros)
  {
    SpliceLeavesHeader(lines);
    LexHeader(lines);
    IncludeTokens(HeaderOf(lines), DeclarationTokens(lines), macros);
    DeclarationsOf(lines);
    NamesOfHeader(lines);
    GuardIsNoWord();
    DisjointFromMore(WORDS, macros, "SHARKOS_ROUTER_UI_HTML_H");
  }

  lemma DisjointFromMore(words: set<string>, macros: set<string>, macro: string)
    requires macro !in words
    ensures words !! macros + {macro} <==> words !! macros
  {}

  /** Compiling a header comes down to decoding its literals. */
  lemma CompileHeader(lines: seq<string>)
    ensures Compile(HeaderOf(lines)) == Meant(lines)
  {
    IncludeHeader(lines, {});
  }
}
