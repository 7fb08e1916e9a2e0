/**
 The generator and the compiler together: what the header means, for which texts, and what survives of the
 text.
 */
module Embedding {
  import opened Text
  import opened Lines
  import opened Json
  import opened Rewrite
  import opened Header
  import opened Meaning
  import CSource
  import Reading
  import Utf8

  /** What the header should define: the page in UTF-8 with a final NUL, and its length without the NUL. */
  function Intended(html: string): CSource.Unit {
    var bytes := Utf8.Encode(Normalise(html));
    CSource.Unit("ROUTER_UI_HTML", bytes + [0], "ROUTER_UI_HTML_LEN", |bytes| % 0x1_0000_0000)
  }

  /** The texts the generator can embed. */
  ghost predicate IsEmbeddable(html: string) {
    html != "" && IsClean(html)
  }

  // ---------- Pieces ----------

  /** The meaning of a header made of any pieces of text, one literal each. */
  lemma MeaningOfPieces(pieces: seq<string>)
    ensures CSource.Compile(HeaderOf(pieces)) ==
            if pieces != [] && AllClean(pieces) then Some(Intended(Flatten(pieces))) else None
  {
    Reading.CompileHeader(pieces);
    DecodeAllPieces(pieces);
  }

  /** A cut inside the six characters has one of the first five of them in front of it. */
  lemma BeforeStraddle(a: string, b: string)
    ensures Straddles(ESCAPED_NBSP, a, b) ==> b != "" && a != "" && a[|a| - 1] in "\\u00a"
  {
    if Straddles(ESCAPED_NBSP, a, b) {
      var i :| 0 <= i < |a| < i + 6 && ESCAPED_NBSP <= (a + b)[i..];
      var j := |a| - 1 - i;
      assert (a + b)[i..][j] == a[|a| - 1] == ESCAPED_NBSP[j];
      assert ESCAPED_NBSP[j] == "\\u00a"[j];
    }
  }

  /** After a line boundary, a cut never falls inside the literal six characters. */
  lemma BreakIsNoStraddle(a: string, b: string)
    requires a != "" && (b != "" ==> IsBreak(a[|a| - 1]))
    ensures !Straddles(ESCAPED_NBSP, a, b)
  {
    BeforeStraddle(a, b);
  }

  lemma FirstCut(s: string)
    requires s != ""
    ensures s == s[..LineEnd(s)] + s[LineEnd(s)..]
    ensures !Straddles(ESCAPED_NBSP, s[..LineEnd(s)], s[LineEnd(s)..])
  {
    LineEndIsCut(s);
    BreakIsNoStraddle(s[..LineEnd(s)], s[LineEnd(s)..]);
  }

  lemma CleanConcat(a: string, b: string)
    ensures IsClean(a + b) <==> IsClean(a) && IsClean(b) && !Straddles(ESCAPED_NBSP, a, b)
  {
    OccursConcat(ESCAPED_NBSP, a, b);
    var s := a + b;
    assert forall i :: 0 <= i < |a| ==> a[i] == s[i];
    assert forall i :: 0 <= i < |b| ==> b[i] == s[|a| + i];
    assert forall i :: 0 <= i < |s| ==> s[i] == if i < |a| then a[i] else b[i - |a|];
  }

  lemma AllCleanStep(pieces: seq<string>)
    requires pieces != []
    ensures AllClean(pieces) <==> IsClean(pieces[0]) && AllClean(pieces[1..])
  {
    assert forall i :: 0 <= i < |pieces[1..]| ==> pieces[1..][i] == pieces[i + 1];
    assert forall i :: 0 < i < |pieces| ==> pieces[i] == pieces[1..][i - 1];
  }

  lemma {:induction false} CleanLines(html: string)
    ensures AllClean(SplitLines(html)) <==> IsClean(html)
  {
    if html == "" {
      CountLiteralZero(html);
    } else {
      var k := LineEnd(html);
      FirstCut(html);
      CleanConcat(html[..k], html[k..]);
      AllCleanStep(SplitLines(html));
      CleanLines(html[k..]);
    }
  }

  // ---------- Meaning ----------

  /** What the header becomes where it is included, by the macros that are defined there. */
  ghost function InclusionOf(html: string, macros: set<string>): CSource.Inclusion {
    if "SHARKOS_ROUTER_UI_HTML_H" in macros then CSource.Skipped
    else if !(macros !! {"static", "const", "char", "unsigned", "int", "sizeof",
                         "ROUTER_UI_HTML", "ROUTER_UI_HTML_LEN"}) then CSource.Replaced
    else if IsEmbeddable(html) then CSource.Declares(Intended(html), macros + {"SHARKOS_ROUTER_UI_HTML_H"})
    else CSource.Rejected
  }

  /**
   Meaning preservation with its exact domain, wherever the header is included. It is skipped if and only if
   its own guard macro is defined. Otherwise, where no macro replaces one of its words, it compiles if and only
   if the text is not empty, all its code points are expressible and the six characters `\u00a0` do not stand
   in it. If it compiles, the array holds exactly the UTF-8 bytes of the text, with no-break spaces turned into
   spaces, and a NUL, and the guard macro is defined from then on.
   */
  lemma MeaningWhereIncluded(html: string, file: string, macros: set<string>)
    requires file == HeaderFor(html)
    ensures CSource.Include(file, macros) == InclusionOf(html, macros)
  {
    var lines := SplitLines(html);
    SplitIsPartition(html);
    CleanLines(html);
    Reading.IncludeHeader(lines, macros);
    DecodeAllPieces(lines);
  }

  /** A second inclusion adds nothing, whatever the first one came to, short of an error. */
  lemma IncludedTwice(html: string, file: string, macros: set<string>)
    requires file == HeaderFor(html)
    ensures var first := CSource.Include(file, macros);
            first.Declares? ==> CSource.Include(file, first.macros) == CSource.Skipped
  {
    MeaningWhereIncluded(html, file, macros);
    MeaningWhereIncluded(html, file, macros + {"SHARKOS_ROUTER_UI_HTML_H"});
  }

  /** The same for a file that is compiled on its own. */
  lemma MeaningPreserved(html: string, file: string)
    requires file == HeaderFor(html)
    ensures CSource.Compile(file) == if IsEmbeddable(html) then Some(Intended(html)) else None
  {
    MeaningWhereIncluded(html, file, {});
  }

  // ---------- The layout of the file ----------

  /** One literal for each line of the text, however the lines are found, from element 6 of the file on. */
  ghost predicate HoldsLines(elements: seq<string>, lines: seq<string>) {
    && |elements| == 11 + |lines|
    && forall i :: 0 <= i < |lines| ==>
         elements[6 + i] == "    " + Encode(lines[i]) + (if i == |lines| - 1 then ";" else "")
  }

  /**
   The file, element by element: the six lines of the prologue, one literal for each line of the text with a
   semicolon after the last, and the five lines of the epilogue.
   */
  lemma FileLayout(html: string, lines: seq<string>)
    requires IsLinePartition(lines, html)
    ensures HoldsLines(SplitAtNewlines(HeaderFor(html)), lines)
    ensures SplitAtNewlines(HeaderFor(html))[..6] == [
              "/* Generated by tools/gen_router_ui.py from docs/router_ui.html.",
              "   Do not edit this file by hand. */",
              "#ifndef SHARKOS_ROUTER_UI_HTML_H",
              "#define SHARKOS_ROUTER_UI_HTML_H",
              "",
              "static const char ROUTER_UI_HTML[] ="
            ]
    ensures SplitAtNewlines(HeaderFor(html))[6 + |lines|..] == [
              "",
              "static const unsigned int ROUTER_UI_HTML_LEN = sizeof(ROUTER_UI_HTML) - 1;",
              "",
              "#endif",
              ""
            ]
  {
    PartitionIsUnique(lines, html);
    ListOfFile(lines);
    FrameText();
    AroundLiterals(PROLOGUE, LiteralLines(lines), EPILOGUE);
    LiteralsInFile(lines);
  }

  lemma AroundLiterals<T>(p: seq<T>, q: seq<T>, r: seq<T>)
    ensures (p + q + r)[..|p|] == p && (p + q + r)[|p| + |q|..] == r
  {}

  lemma LiteralsInFile(lines: seq<string>)
    ensures HoldsLines(OutList(lines), lines)
  {
    assert |OutList(lines)| == 11 + |lines|;
    forall i | 0 <= i < |lines|
      ensures OutList(lines)[6 + i] == "    " + Encode(lines[i]) + (if i == |lines| - 1 then ";" else "")
    {
      OutListAt(lines, i);
    }
  }

  // ---------- Where the text is cut ----------

  /** No line end falls inside a match: the lines, rewritten one by one, make up the rewritten text. */
  lemma {:induction false} CutsAreHarmless(html: string)
    ensures Flatten(FusedAll(SplitLines(html))) == Fused(html)
  {
    if html != "" {
      var k := LineEnd(html);
      var lines := SplitLines(html);
      FirstCut(html);
      CutLaw(html[..k], html[k..]);
      CutsAreHarmless(html[k..]);
      assert FusedAll(lines)[1..] == FusedAll(lines[1..]);
    }
  }

  ghost predicate AllExpressible(s: string) {
    forall i :: 0 <= i < |s| ==> IsExpressible(s[i])
  }

  lemma {:induction false} CleanPieces(pieces: seq<string>)
    ensures AllClean(pieces) ==> AllExpressible(Flatten(pieces))
    ensures IsClean(Flatten(pieces)) ==> AllClean(pieces)
  {
    if pieces != [] {
      AllCleanStep(pieces);
      CleanPieces(pieces[1..]);
      CleanConcat(pieces[0], Flatten(pieces[1..]));
    }
  }

  lemma SinglePiece(s: string)
    ensures Flatten([s]) == s
    ensures AllClean([s]) <==> IsClean(s)
  {
    assert Flatten([s]) == s + Flatten([s][1..]);
    AllCleanStep([s]);
  }

  /**
   One literal for each of any pieces means what one literal for the whole text means, unless the cuts break
   up every occurrence of the literal six characters in a text that is otherwise expressible.
   */
  lemma CutIndependence(pieces: seq<string>, html: string, file: string, whole: string)
    requires pieces != [] && Flatten(pieces) == html
    requires file == HeaderOf(pieces) && whole == HeaderOf([html])
    ensures CSource.Compile(file) == CSource.Compile(whole) <==> (AllClean(pieces) ==> !Occurs(ESCAPED_NBSP, html))
  {
    MeaningOfPieces(pieces);
    MeaningOfPieces([html]);
    SinglePiece(html);
    CleanPieces(pieces);
  }

  /** The loop over the lines refines the translation of the text as one literal. */
  lemma LinesRefineOneLiteral(html: string)
    requires html != ""
    ensures CSource.Compile(HeaderFor(html)) == CSource.Compile(HeaderOf([html]))
  {
    MeaningPreserved(html, HeaderFor(html));
    MeaningOfPieces([html]);
    SinglePiece(html);
  }

  // ---------- What survives of the text ----------

  lemma EncodeInjective(a: string, b: string)
    ensures Encode(a) == Encode(b) <==> Normalise(a) == Normalise(b)
  {
    EncodeIsFused(a);
    EncodeIsFused(b);
    FusedInjective(a, b);
    assert Encode(a)[1..|Encode(a)| - 1] == Fused(a);
    assert Encode(b)[1..|Encode(b)| - 1] == Fused(b);
  }

  lemma NormaliseAllEqual(a: seq<string>, b: seq<string>)
    ensures NormaliseAll(a) == NormaliseAll(b) <==>
            |a| == |b| && forall i :: 0 <= i < |a| ==> Normalise(a[i]) == Normalise(b[i])
  {
    if NormaliseAll(a) == NormaliseAll(b) {
      forall i | 0 <= i < |a|
        ensures Normalise(a[i]) == Normalise(b[i])
      {
        assert NormaliseAll(a)[i] == NormaliseAll(b)[i];
      }
    }
  }

  /**
   Two texts, embeddable or not, yield the same header if and only if they are equal up to the kind of
   their spaces.
   */
  lemma HeaderInjective(a: string, b: string)
    ensures HeaderFor(a) == HeaderFor(b) <==> Normalise(a) == Normalise(b)
  {
    var la, lb := SplitLines(a), SplitLines(b);
    HeaderOfInjective(la, lb);
    NormaliseAllEqual(la, lb);
    forall i | 0 <= i < |la| && |la| == |lb|
      ensures Encode(la[i]) == Encode(lb[i]) <==> Normalise(la[i]) == Normalise(lb[i])
    {
      EncodeInjective(la[i], lb[i]);
    }
    SplitCommutesWithNormalise(a);
    SplitCommutesWithNormalise(b);
    SplitIsPartition(Normalise(a));
    SplitIsPartition(Normalise(b));
  }

  lemma NormaliseTwice(s: string)
    ensures Normalise(Normalise(s)) == Normalise(s)
  {}

  /** The text that the compiled header holds. */
  function Recover(file: string): Option<string> {
    match CSource.Compile(file)
    case Some(u) => if u.bytes == [] then None else Utf8.Decode(u.bytes[..|u.bytes| - 1])
    case None => None
  }

  /** A header holds exactly one text, the normalised one, and it holds it exactly when the text is embeddable. */
  lemma Recovery(html: string, file: string, text: string)
    requires file == HeaderFor(html)
    ensures Recover(file) == Some(text) <==> IsEmbeddable(html) && text == Normalise(html)
  {
    MeaningPreserved(html, file);
    var bytes := Utf8.Encode(Normalise(html));
    assert (bytes + [0])[..|bytes + [0]| - 1] == bytes;
    Utf8.RoundTrip(Normalise(html));
  }

  /** Fixed point: generating from the normalised text changes nothing, for every text. */
  lemma FixedPoint(html: string)
    ensures HeaderFor(Normalise(html)) == HeaderFor(html)
  {
    NormaliseTwice(html);
    HeaderInjective(Normalise(html), html);
  }

  /** The text recovered from a header generates the very same header. */
  lemma Regeneration(html: string, text: string)
    requires Recover(HeaderFor(html)) == Some(text)
    ensures HeaderFor(text) == HeaderFor(html)
  {
    Recovery(html, HeaderFor(html), text);
    FixedPoint(html);
  }

  // ---------- Lengths ----------

  lemma {:induction false} BytesOfNormalise(s: string)
    ensures |Utf8.Encode(Normalise(s))| + CountNbsp(s) == |Utf8.Encode(s)|
  {
    if s != "" {
      NormaliseTail(s);
      BytesOfNormalise(s[1..]);
    }
  }

  /** ASCII, apart from no-break spaces. */
  ghost predicate IsNearlyAscii(s: string) {
    forall i :: 0 <= i < |s| ==> s[i] == NBSP || s[i] as int < 0x80
  }

  lemma {:induction false} CharactersAndBytes(s: string)
    ensures |s| <= |Utf8.Encode(Normalise(s))|
    ensures |s| == |Utf8.Encode(Normalise(s))| <==> IsNearlyAscii(s)
  {
    if s != "" {
      NormaliseTail(s);
      CharactersAndBytes(s[1..]);
      assert |Utf8.EncodeChar(NormaliseChar(s[0]))| == 1 <==> s[0] == NBSP || s[0] as int < 0x80;
      assert forall i :: 0 <= i < |s[1..]| ==> s[1..][i] == s[i + 1];
      assert forall i :: 0 < i < |s| ==> s[i] == s[1..][i - 1];
    }
  }

  lemma IntendedLength(html: string, n: nat)
    requires n == |Utf8.Encode(html)| - CountNbsp(html)
    ensures |Intended(html).bytes| == n + 1 && Intended(html).length == n % 0x1_0000_0000
    ensures n < 0x1_0000_0000 ==> (Intended(html).length == |html| <==> IsNearlyAscii(html))
  {
    BytesOfNormalise(html);
    CharactersAndBytes(html);
    ModSmall(n);
  }

  lemma ModSmall(n: nat)
    ensures n < 0x1_0000_0000 ==> n % 0x1_0000_0000 == n
  {}

  /**
   The length the compiled header declares is the number of UTF-8 bytes of the text minus the number of its
   no-break spaces, as a 32-bit unsigned number. Below 4 GiB it is the number the generator reports, which
   counts characters, if and only if the text is ASCII apart from no-break spaces.
   */
  lemma LengthLaw(html: string, u: CSource.Unit)
    requires CSource.Compile(HeaderFor(html)) == Some(u)
    ensures |u.bytes| == |Utf8.Encode(html)| - CountNbsp(html) + 1
    ensures u.length == (|Utf8.Encode(html)| - CountNbsp(html)) % 0x1_0000_0000
    ensures |u.bytes| <= 0x1_0000_0000 ==> (u.length == |html| <==> IsNearlyAscii(html))
  {
    MeaningPreserved(html, HeaderFor(html));
    BytesOfNormalise(html);
    IntendedLength(html, |Utf8.Encode(html)| - CountNbsp(html));
  }

  // ---------- Size of the file ----------

  /** An escaped line of n characters has between n + 2 and 12n + 2 of them, and each rewrite takes off 5. */
  lemma LineSize(line: string)
    ensures |line| + 2 <= |Dumps(line)| <= 12 * |line| + 2
    ensures |Encode(line)| == TotalCost(line) + 2 - 5 * (CountNbsp(line) + CountLiteral(line))
  {
    EscapeSize(line);
    FusedSize(line);
    HitsAre(line);
  }

  lemma {:induction false} TerminatedLiteralsSize(lines: seq<string>)
    ensures |Reading.Terminate(LiteralLines(lines))|
         == |Flatten(FusedAll(lines))| + 7 * |lines| + (if lines == [] then 0 else 1)
  {
    if lines != [] {
      Reading.LiteralLinesStep(lines);
      LiteralLineShape(lines[0], |lines| == 1);
      TerminatedLiteralsSize(lines[1..]);
      assert FusedAll(lines)[1..] == FusedAll(lines[1..]);
    }
  }

  lemma FrameSize()
    ensures |Reading.Terminate(PROLOGUE)| == 206
    ensures |Reading.Terminate(EPILOGUE[..4])| == 84
  {
    Reading.PrologueShape(COMMENT_LINE_1, COMMENT_LINE_2, IFNDEF_LINE, DEFINE_LINE, ARRAY_LINE, "");
    Reading.EpilogueShape(LENGTH_LINE, ENDIF_LINE);
    assert EPILOGUE[..4] == ["", LENGTH_LINE, "", ENDIF_LINE];
  }

  /**
   The size of the file, exactly: the frame, seven characters for each line, a semicolon if there is a line,
   and the cost of the text, minus five for each match.
   */
  lemma FileSize(html: string, size: nat)
    requires size == |HeaderFor(html)|
    ensures size + 5 * (CountNbsp(html) + CountLiteral(html))
         == TotalCost(html) + 7 * |SplitLines(html)| + (if html == "" then 290 else 291)
  {
    Reading.HeaderTerminates(SplitLines(html));
    TerminatedLiteralsSize(SplitLines(html));
    CutsAreHarmless(html);
    FusedSize(html);
    HitsAre(html);
    FrameSize();
  }

  // ---------- Texts that do not come through ----------

  /**
   The generator accepts any text, but the header of each of these does not compile: the empty text leaves
   the array without an initialiser, and the others end up in escapes that C does not have.
   */
  lemma RejectedTexts(html: string)
    requires html == "" || html == "\\u00a0" || html == "\U{1F600}" || html == "\U{7F}"
    ensures CSource.Compile(HeaderFor(html)) == None
  {
    MeaningPreserved(html, HeaderFor(html));
    if html == ESCAPED_NBSP {
      assert ESCAPED_NBSP <= html[0..];
    } else if html != "" {
      assert !IsExpressible(html[0]);
    }
  }

  lemma SingleIsEmbeddable(c: char)
    requires IsExpressible(c)
    ensures IsEmbeddable([c])
  {
    var s := [c];
    assert !Occurs(ESCAPED_NBSP, s) by {
      OccursStep(ESCAPED_NBSP, s);
      CountLiteralZero("");
    }
  }

  lemma TwoBytes(c: char)
    requires '\U{A1}' <= c <= '\U{7FF}'
    ensures |Utf8.Encode(Normalise([c]))| == 2
  {
    assert Normalise([c]) == [c];
    assert Utf8.Encode([c]) == Utf8.EncodeChar(c) + [];
  }

  lemma OneLetter(html: string)
    requires |html| == 1 && 0xA1 <= html[0] as int <= 0x7FF
    ensures IsEmbeddable(html)
    ensures |Intended(html).bytes| == 3 && Intended(html).length == 2
  {
    assert html == [html[0]];
    SingleIsEmbeddable(html[0]);
    TwoBytes(html[0]);
  }

  /**
   The number the generator reports is not the number of bytes. For a text of one letter such as U+00E9 it
   reports 1, and the header holds two bytes and the NUL.
   */
  lemma ReportedIsNotBytes(html: string, unit: CSource.Unit)
    requires |html| == 1 && 0xA1 <= html[0] as int <= 0x7FF
    ensures CSource.Compile(HeaderFor(html)) == Some(unit) <==> unit == Intended(html)
    ensures |Intended(html).bytes| == 3 && Intended(html).length == 2
  {
    OneLetter(html);
    MeaningPreserved(html, HeaderFor(html));
  }
}
