/**
 The generated header: the list of its lines, the file they make up, and the way back from the file to the
 list.
 */
module Header {
  import opened Text
  import opened Lines
  import opened Json
  import opened Rewrite

  const COMMENT_LINE_1: string := "/* Generated by tools/gen_router_ui.py " + "from docs/router_ui.html."
  const COMMENT_LINE_2: string := "   Do not edit this file by hand. */"
  const IFNDEF_LINE: string := "#ifndef SHARKOS_ROUTER_UI_HTML_H"
  const DEFINE_LINE: string := "#define SHARKOS_ROUTER_UI_HTML_H"
  const ARRAY_LINE: string := "static const char ROUTER_UI_HTML[] ="
  const LENGTH_LINE: string :=
    "static const unsigned int ROUTER_UI_HTML_LEN" + " = sizeof(ROUTER_UI_HTML) - 1;"
  const ENDIF_LINE: string := "#endif"

  const PROLOGUE: seq<string> := [COMMENT_LINE_1, COMMENT_LINE_2, IFNDEF_LINE, DEFINE_LINE, "", ARRAY_LINE]
  const EPILOGUE: seq<string> := ["", LENGTH_LINE, "", ENDIF_LINE, ""]

  /** The literal of one line, indented; the last one ends the declaration. */
  function LiteralLine(line: string, last: bool): string {
    "    " + Encode(line) + (if last then ";" else "")
  }

  function LiteralLines(lines: seq<string>): (r: seq<string>)
    ensures |r| == |lines|
  {
    seq(|lines|, i requires 0 <= i < |lines| => LiteralLine(lines[i], i == |lines| - 1))
  }

  /** The list `out` at the end of the run. */
  function OutList(lines: seq<string>): seq<string> {
    PROLOGUE + LiteralLines(lines) + EPILOGUE
  }

  /** `"\n".join(parts)` */
  function Join(parts: seq<string>): string {
    if parts == [] then ""
    else if |parts| == 1 then parts[0]
    else parts[0] + "\n" + Join(parts[1..])
  }

  function HeaderOf(lines: seq<string>): string {
    Join(OutList(lines))
  }

  /** The file generated from the text of the page. */
  function HeaderFor(html: string): string {
    HeaderOf(SplitLines(html))
  }

  // ---------- Recovering the list from the file ----------

  /** `s.split("\n")` */
  function SplitAtNewlines(s: string): (parts: seq<string>)
    ensures parts != []
  {
    if s == "" then [""]
    else if s[0] == '\n' then [""] + SplitAtNewlines(s[1..])
    else
      var rest := SplitAtNewlines(s[1..]);
      [[s[0]] + rest[0]] + rest[1..]
  }

  /** The parts with the newlines put back, without an empty last one. */
  function WithNewlines(parts: seq<string>): seq<string> {
    if parts == [] then []
    else if |parts| == 1 then (if parts[0] == "" then [] else parts)
    else [parts[0] + "\n"] + WithNewlines(parts[1..])
  }

  /**
   In a text without the nine other boundaries, printable ASCII with newlines for one, the lines are what the
   newlines separate.
   */
  lemma {:induction false} NewlineText(s: string)
    requires forall i :: 0 <= i < |s| ==>
               s[i] as int !in {0xB, 0xC, 0xD, 0x1C, 0x1D, 0x1E, 0x85, 0x2028, 0x2029}
    ensures SplitLines(s) == WithNewlines(SplitAtNewlines(s))
  {
    if s != "" {
      var rest := s[1..];
      var parts := SplitAtNewlines(rest);
      NewlineText(rest);
      if s[0] == '\n' {
        assert s[..1] == "\n" && "" + "\n" == "\n";
        assert ([""] + parts)[1..] == parts;
      } else {
        assert s == [s[0]] + rest;
        assert s[0] as int !in {0xB, 0xC, 0xD, 0x1C, 0x1D, 0x1E, 0x85, 0x2028, 0x2029};
        SplitLinesCons(s[0], rest);
        FirstPart(s[0], parts);
        if rest == "" {
          assert parts == [""];
          assert [s[0]] + "" == [s[0]];
        }
      }
    }
  }

  lemma FirstPart(c: char, parts: seq<string>)
    requires parts != []
    ensures WithNewlines([[c] + parts[0]] + parts[1..]) ==
            if WithNewlines(parts) == [] then [[c]]
            else [[c] + WithNewlines(parts)[0]] + WithNewlines(parts)[1..]
  {
    var longer := [[c] + parts[0]] + parts[1..];
    assert longer[1..] == parts[1..];
    if |parts| == 1 {
      assert [c] + "" == [c];
    } else {
      Assoc([c], parts[0], "\n");
    }
  }

  lemma {:induction false} SplitOneLine(p: string)
    requires IsPrintable(p)
    ensures SplitAtNewlines(p) == [p]
  {
    if p != "" {
      assert IsPrintable(p[1..]);
      SplitOneLine(p[1..]);
      assert [p[0]] + p[1..] == p;
    }
  }

  lemma {:induction false} SplitFirstLine(p: string, rest: string)
    requires IsPrintable(p)
    ensures SplitAtNewlines(p + "\n" + rest) == [p] + SplitAtNewlines(rest)
  {
    var s := p + "\n" + rest;
    if p == "" {
      assert s[1..] == rest;
    } else {
      assert IsPrintable(p[1..]);
      SplitFirstLine(p[1..], rest);
      assert s[1..] == p[1..] + "\n" + rest;
      assert [p[0]] + p[1..] == p;
    }
  }

  lemma {:induction false} SplitOfJoin(parts: seq<string>)
    requires parts != []
    requires ArePlainLines(parts)
    ensures SplitAtNewlines(Join(parts)) == parts
  {
    if |parts| == 1 {
      SplitOneLine(parts[0]);
    } else {
      SplitOfJoin(parts[1..]);
      SplitFirstLine(parts[0], Join(parts[1..]));
    }
  }

  lemma {:induction false} FusedPrintable(s: string)
    ensures IsPrintable(Fused(s))
  {
    if s == "" {
    } else if ESCAPED_NBSP <= s {
      FusedPrintable(s[6..]);
    } else {
      EscapeCharPrintable(s[0]);
      FusedPrintable(s[1..]);
    }
  }

  /** A physical line that stays clear of line splicing. */
  predicate EndsPlain(s: string) {
    s != "" ==> s[|s| - 1] != '\\'
  }

  ghost predicate IsPlainLine(s: string) {
    IsPrintable(s) && EndsPlain(s)
  }

  lemma PrintableConcat(a: string, b: string)
    requires IsPrintable(a) && IsPrintable(b)
    ensures IsPrintable(a + b)
  {}

  lemma CommentLine1Plain()
    ensures IsPlainLine(COMMENT_LINE_1)
  {
    PrintableConcat("/* Generated by tools/gen_router_ui.py ", "from docs/router_ui.html.");
  }

  lemma CommentLine2Plain()
    ensures IsPlainLine(COMMENT_LINE_2)
  {}

  lemma DirectiveLinesPlain()
    ensures IsPlainLine(IFNDEF_LINE) && IsPlainLine(DEFINE_LINE) && IsPlainLine(ENDIF_LINE)
  {}

  lemma ArrayLinePlain()
    ensures IsPlainLine(ARRAY_LINE)
  {}

  lemma LengthLinePlain()
    ensures IsPlainLine(LENGTH_LINE)
  {
    PrintableConcat("static const unsigned int ROUTER_UI_HTML_LEN", " = sizeof(ROUTER_UI_HTML) - 1;");
  }

  ghost predicate ArePlainLines(ls: seq<string>) {
    forall i :: 0 <= i < |ls| ==> IsPlainLine(ls[i])
  }

  lemma FramePlain()
    ensures ArePlainLines(PROLOGUE) && ArePlainLines(EPILOGUE)
  {
    CommentLine1Plain();
    CommentLine2Plain();
    DirectiveLinesPlain();
    ArrayLinePlain();
    LengthLinePlain();
  }

  lemma PlainConcat(a: seq<string>, b: seq<string>)
    requires ArePlainLines(a) && ArePlainLines(b)
    ensures ArePlainLines(a + b)
  {}

  lemma QuotedIsPlain(body: string, last: bool)
    requires IsPrintable(body)
    ensures IsPlainLine("    " + ("\"" + body + "\"") + (if last then ";" else ""))
  {
    var end := if last then ";" else "";
    var quoted := "\"" + body + "\"";
    PrintableConcat("\"", body);
    PrintableConcat("\"" + body, "\"");
    PrintableConcat("    ", quoted);
    PrintableConcat("    " + quoted, end);
  }

  lemma LiteralLineShape(line: string, last: bool)
    ensures IsPlainLine(LiteralLine(line, last))
    ensures LiteralLine(line, last) == "    " + ("\"" + Fused(line) + "\"") + (if last then ";" else "")
  {
    EncodeIsFused(line);
    FusedPrintable(line);
    QuotedIsPlain(Fused(line), last);
  }

  lemma MiddleOf<T>(p: seq<T>, q: seq<T>, r: seq<T>, i: nat)
    requires i < |q|
    ensures |p + q + r| == |p| + |q| + |r|
    ensures (p + q + r)[|p| + i] == q[i]
  {}

  /** The i-th literal is element 6 + i, and only the last one ends the declaration. */
  lemma OutListAt(lines: seq<string>, i: nat)
    requires i < |lines|
    ensures |OutList(lines)| == 11 + |lines|
    ensures OutList(lines)[6 + i] == LiteralLine(lines[i], i == |lines| - 1)
  {
    assert |PROLOGUE| == 6;
    MiddleOf(PROLOGUE, LiteralLines(lines), EPILOGUE, i);
  }

  /** Every element is printable ASCII, without a newline, and none ends in a backslash. */
  lemma OutListPlain(lines: seq<string>)
    ensures ArePlainLines(OutList(lines))
  {
    FramePlain();
    forall i | 0 <= i < |lines|
      ensures IsPlainLine(LiteralLines(lines)[i])
    {
      LiteralLineShape(lines[i], i == |lines| - 1);
    }
    PlainConcat(PROLOGUE, LiteralLines(lines));
    PlainConcat(PROLOGUE + LiteralLines(lines), EPILOGUE);
  }

  lemma CommentLine1Text()
    ensures COMMENT_LINE_1 == "/* Generated by tools/gen_router_ui.py from docs/router_ui.html."
  {}

  lemma LengthLineText()
    ensures LENGTH_LINE == "static const unsigned int ROUTER_UI_HTML_LEN = sizeof(ROUTER_UI_HTML) - 1;"
  {}

  lemma FrameText()
    ensures PROLOGUE == [
              "/* Generated by tools/gen_router_ui.py from docs/router_ui.html.",
              "   Do not edit this file by hand. */",
              "#ifndef SHARKOS_ROUTER_UI_HTML_H",
              "#define SHARKOS_ROUTER_UI_HTML_H",
              "",
              "static const char ROUTER_UI_HTML[] ="
            ]
    ensures EPILOGUE == [
              "",
              "static const unsigned int ROUTER_UI_HTML_LEN = sizeof(ROUTER_UI_HTML) - 1;",
              "",
              "#endif",
              ""
            ]
  {
    CommentLine1Text();
    LengthLineText();
  }

  lemma ListOfFile(lines: seq<string>)
    ensures SplitAtNewlines(HeaderOf(lines)) == OutList(lines)
  {
    OutListPlain(lines);
    SplitOfJoin(OutList(lines));
  }

  /** The file gives the list back: splitting it at newlines yields the frame, word for word, around the literals. */
  lemma FramingIsRecoverable(lines: seq<string>)
    ensures SplitAtNewlines(HeaderOf(lines)) ==
            [
              "/* Generated by tools/gen_router_ui.py from docs/router_ui.html.",
              "   Do not edit this file by hand. */",
              "#ifndef SHARKOS_ROUTER_UI_HTML_H",
              "#define SHARKOS_ROUTER_UI_HTML_H",
              "",
              "static const char ROUTER_UI_HTML[] ="
            ]
            + LiteralLines(lines)
            + [
              "",
              "static const unsigned int ROUTER_UI_HTML_LEN = sizeof(ROUTER_UI_HTML) - 1;",
              "",
              "#endif",
              ""
            ]
  {
    ListOfFile(lines);
    FrameText();
  }

  /** Two headers are the same file exactly when they hold the same literals in the same order. */
  lemma HeaderOfInjective(a: seq<string>, b: seq<string>)
    ensures HeaderOf(a) == HeaderOf(b) <==>
            |a| == |b| && forall i :: 0 <= i < |a| ==> Encode(a[i]) == Encode(b[i])
  {
    if HeaderOf(a) == HeaderOf(b) {
      ListOfFile(a);
      ListOfFile(b);
      assert |OutList(a)| == 11 + |a| && |OutList(b)| == 11 + |b|;
      forall i | 0 <= i < |a|
        ensures Encode(a[i]) == Encode(b[i])
      {
        OutListAt(a, i);
        OutListAt(b, i);
        var la, lb := OutList(a)[6 + i], OutList(b)[6 + i];
        assert la[4..4 + |Encode(a[i])|] == Encode(a[i]);
        assert lb[4..4 + |Encode(b[i])|] == Encode(b[i]);
      }
    }
    if |a| == |b| && forall i :: 0 <= i < |a| ==> Encode(a[i]) == Encode(b[i]) {
      assert LiteralLines(a) == LiteralLines(b);
    }
  }
}
