/**
 Trigraph sequences (section 5.2.1.1 of C11), which translation phase 1 replaces when the compiler is asked
 to conform to the standard. The header passes that phase unchanged exactly when the text has none.
 */
module Trigraphs {
  import opened Text
  import opened Lines
  import opened Json
  import opened Rewrite
  import opened Header
  import Numerals
  import Reading
  import Embedding

  function ThirdChar(c: char): Option<char> {
    if c == '=' then Some('#')
    else if c == '(' then Some('[')
    else if c == '/' then Some('\\')
    else if c == ')' then Some(']')
    else if c == '\'' then Some('^')
    else if c == '<' then Some('{')
    else if c == '!' then Some('|')
    else if c == '>' then Some('}')
    else if c == '-' then Some('~')
    else None
  }

  predicate StartsTrigraph(s: string) {
    |s| >= 3 && s[0] == '?' && s[1] == '?' && ThirdChar(s[2]).Some?
  }

  function ReplaceTrigraphs(s: string): string {
    if s == "" then ""
    else if StartsTrigraph(s) then [ThirdChar(s[2]).value] + ReplaceTrigraphs(s[3..])
    else [s[0]] + ReplaceTrigraphs(s[1..])
  }

  /** The nine replacements, and no other. */
  lemma TrigraphTable(c: char)
    ensures ReplaceTrigraphs(['?', '?', c]) ==
            if c == '=' then "#" else if c == '/' then "\\" else if c == '\'' then "^"
            else if c == '(' then "[" else if c == ')' then "]" else if c == '!' then "|"
            else if c == '<' then "{" else if c == '>' then "}" else if c == '-' then "~"
            else ['?', '?', c]
  {
    var s := ['?', '?', c];
    assert s[1..] == ['?', c] && ['?', c][1..] == [c] && [c][1..] == [];
    assert s[3..] == [];
    assert ReplaceTrigraphs([c]) == [c];
    assert ReplaceTrigraphs(['?', c]) == ['?', c];
  }

  predicate HasTrigraph(s: string) {
    s != "" && (StartsTrigraph(s) || HasTrigraph(s[1..]))
  }

  lemma {:induction false} UnchangedIfAbsent(s: string)
    ensures |ReplaceTrigraphs(s)| <= |s|
    ensures ReplaceTrigraphs(s) == s <==> !HasTrigraph(s)
  {
    if s != "" {
      if StartsTrigraph(s) {
        UnchangedIfAbsent(s[3..]);
      } else {
        UnchangedIfAbsent(s[1..]);
        assert ([s[0]] + ReplaceTrigraphs(s[1..]))[1..] == ReplaceTrigraphs(s[1..]);
        assert [s[0]] + s[1..] == s;
      }
    }
  }

  lemma {:induction false} SkipNoQuestion(p: string, rest: string)
    requires '?' !in p
    ensures HasTrigraph(p + rest) <==> HasTrigraph(rest)
  {
    if p == "" {
      assert p + rest == rest;
    } else {
      assert (p + rest)[0] == p[0] && p[0] in p;
      assert (p + rest)[1..] == p[1..] + rest;
      SkipNoQuestion(p[1..], rest);
    }
  }

  /** A raw character other than a space heads the literal when it heads the text, and not otherwise. */
  lemma RawHead(s: string, c: char)
    requires IsRaw(c) && c != ' '
    ensures (Fused(s) + "\"")[0] == c <==> s != "" && s[0] == c
    ensures s != "" && s[0] == c ==> Fused(s) == [c] + Fused(s[1..])
  {
    if s != "" {
      EscapeCharFirst(s[0]);
    }
  }

  lemma RawThird(c: char)
    ensures c == '?' || ThirdChar(c).Some? ==> IsRaw(c) && c != ' '
  {}

  lemma ThirdHead(s: string)
    ensures ThirdChar((Fused(s) + "\"")[0]).Some? <==> s != "" && ThirdChar(s[0]).Some?
  {
    var c := (Fused(s) + "\"")[0];
    if ThirdChar(c).Some? {
      RawThird(c);
      RawHead(s, c);
    }
    if s != "" && ThirdChar(s[0]).Some? {
      RawThird(s[0]);
      RawHead(s, s[0]);
    }
  }

  lemma QuestionHead(s: string)
    ensures (Fused(s) + "\"")[0] == '?' <==> s != "" && s[0] == '?'
    ensures s != "" && s[0] == '?' ==> (Fused(s) + "\"")[1..] == Fused(s[1..]) + "\""
  {
    RawHead(s, '?');
  }

  lemma StartsByHeads(x: string)
    ensures StartsTrigraph(x) <==>
            && x != "" && x[0] == '?'
            && x[1..] != "" && x[1..][0] == '?'
            && x[1..][1..] != "" && ThirdChar(x[1..][1..][0]).Some?
  {}

  lemma FusedStarts(s: string)
    ensures StartsTrigraph(Fused(s) + "\"") <==> StartsTrigraph(s)
  {
    StartsByHeads(Fused(s) + "\"");
    StartsByHeads(s);
    QuestionHead(s);
    if s != "" && s[0] == '?' {
      QuestionHead(s[1..]);
      if s[1..] != "" && s[1..][0] == '?' {
        ThirdHead(s[1..][1..]);
      }
    }
  }

  lemma {:induction false} NoQuestionInEscape(c: char)
    ensures c != '?' ==> '?' !in EscapeChar(c)
  {
    if ShortLetter(c).Some? || ' ' <= c <= '~' {
    } else if c as int >= 0x1_0000 {
      Numerals.Hex4Digits(HighSurrogate(c));
      Numerals.Hex4Digits(LowSurrogate(c));
    } else {
      Numerals.Hex4Digits(c as int);
    }
  }

  lemma StartsLocal(x: string, rest: string)
    requires x != "" && x[|x| - 1] == '"'
    ensures StartsTrigraph(x + rest) <==> StartsTrigraph(x)
  {}

  /** The escapes bring in no trigraph and hide none. */
  lemma {:induction false} FusedTrigraphs(s: string, rest: string)
    ensures HasTrigraph(Fused(s) + "\"" + rest) <==> HasTrigraph(s) || HasTrigraph(rest)
  {
    var x := Fused(s) + "\"" + rest;
    if s == "" {
      SkipNoQuestion("\"", rest);
    } else if ESCAPED_NBSP <= s {
      FusedTrigraphs(s[6..], rest);
      Assoc4("\\ ", Fused(s[6..]), "\"", rest);
      SkipNoQuestion("\\ ", Fused(s[6..]) + "\"" + rest);
      assert s == ESCAPED_NBSP + s[6..];
      SkipNoQuestion(ESCAPED_NBSP, s[6..]);
    } else {
      var more := Fused(s[1..]) + "\"" + rest;
      FusedTrigraphs(s[1..], rest);
      FusedStep(s);
      Assoc4(FusedHead(s), Fused(s[1..]), "\"", rest);
      if s[0] == '?' {
        FusedStarts(s);
        StartsLocal(Fused(s) + "\"", rest);
        assert x[1..] == more;
      } else {
        NoQuestionInEscape(s[0]);
        SkipNoQuestion(FusedHead(s), more);
      }
    }
  }

  /** No trigraph runs across the end of a line. */
  lemma {:induction false} TrigraphsAtCut(a: string, b: string)
    requires a != "" && (b != "" ==> IsBreak(a[|a| - 1]))
    ensures HasTrigraph(a + b) <==> HasTrigraph(a) || HasTrigraph(b)
  {
    if b == "" {
      assert a + b == a;
    } else {
      assert (a + b)[1..] == a[1..] + b;
      assert StartsTrigraph(a + b) <==> StartsTrigraph(a) by {
        assert forall i :: 0 <= i < |a| ==> (a + b)[i] == a[i];
      }
      if |a| == 1 {
        assert a[1..] + b == b;
      } else {
        assert a[1..][|a[1..]| - 1] == a[|a| - 1];
        TrigraphsAtCut(a[1..], b);
      }
    }
  }

  lemma Regroup(i: string, f: string, e: string, rest: string)
    ensures i + ("\"" + f + "\"") + e + "\n" + rest == i + "\"" + (f + "\"" + (e + "\n" + rest))
  {}

  lemma LineTrigraphs(line: string, last: bool, rest: string)
    ensures HasTrigraph(LiteralLine(line, last) + "\n" + rest) <==> HasTrigraph(line) || HasTrigraph(rest)
  {
    var close := if last then ";" else "";
    LiteralLineShape(line, last);
    Regroup("    ", Fused(line), close, rest);
    SkipNoQuestion("    " + "\"", Fused(line) + "\"" + (close + "\n" + rest));
    FusedTrigraphs(line, close + "\n" + rest);
    SkipNoQuestion(close + "\n", rest);
  }

  lemma {:induction false} LinesTrigraphs(html: string, rest: string)
    ensures HasTrigraph(Reading.Terminate(LiteralLines(SplitLines(html))) + rest)
            <==> HasTrigraph(html) || HasTrigraph(rest)
  {
    var lines := SplitLines(html);
    if html == "" {
      assert Reading.Terminate(LiteralLines(lines)) + rest == rest;
    } else {
      var k := LineEnd(html);
      var more := Reading.Terminate(LiteralLines(lines[1..]));
      Reading.LiteralLinesStep(lines);
      var first := LiteralLine(lines[0], |lines| == 1);
      Assoc(first + "\n", more, rest);
      LineTrigraphs(lines[0], |lines| == 1, more + rest);
      LinesTrigraphs(html[k..], rest);
      Embedding.FirstCut(html);
      LineEndIsCut(html);
      TrigraphsAtCut(html[..k], html[k..]);
    }
  }

  lemma {:induction false} NoQuestionInLines(ls: seq<string>)
    requires forall i :: 0 <= i < |ls| ==> '?' !in ls[i]
    ensures '?' !in Reading.Terminate(ls)
  {
    if ls != [] {
      NoQuestionInLines(ls[1..]);
    }
  }

  lemma NoQuestionInComment()
    ensures '?' !in COMMENT_LINE_1 && '?' !in COMMENT_LINE_2
  {}

  lemma NoQuestionInGuard()
    ensures '?' !in IFNDEF_LINE && '?' !in DEFINE_LINE && '?' !in ENDIF_LINE
  {}

  lemma NoQuestionInDeclarations()
    ensures '?' !in ARRAY_LINE && '?' !in LENGTH_LINE
  {}

  lemma NoQuestionInFrame()
    ensures '?' !in Reading.Terminate(PROLOGUE) && '?' !in Reading.Terminate(EPILOGUE[..4])
  {
    NoQuestionInComment();
    NoQuestionInGuard();
    NoQuestionInDeclarations();
    NoQuestionInLines(PROLOGUE);
    NoQuestionInLines(EPILOGUE[..4]);
  }

  /** The header contains a trigraph if and only if the text does. */
  lemma HeaderTrigraphs(html: string)
    ensures HasTrigraph(HeaderFor(html)) <==> HasTrigraph(html)
  {
    var lines := SplitLines(html);
    var e := Reading.Terminate(EPILOGUE[..4]);
    var body := Reading.Terminate(LiteralLines(lines)) + e;
    Reading.HeaderTerminates(lines);
    NoQuestionInFrame();
    SkipNoQuestion(Reading.Terminate(PROLOGUE), body);
    LinesTrigraphs(html, e);
    SkipNoQuestion(e, "");
    assert e + "" == e;
  }

  /** Translation phase 1 leaves the header alone if and only if the text contains no trigraph. */
  lemma TrigraphPhase(html: string)
    ensures ReplaceTrigraphs(HeaderFor(html)) == HeaderFor(html) <==> !HasTrigraph(html)
  {
    HeaderTrigraphs(html);
    UnchangedIfAbsent(HeaderFor(html));
  }
}
