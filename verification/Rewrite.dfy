/**
 The textual rewrite of an already escaped line: `.replace("\\u00a0", " ")`.
 The theorems say, for every line, what the rewrite does to the text the escapes stand for.
 */
module Rewrite {
  import opened Text
  import Numerals
  import opened Json
  import opened Replace

  /** The emitted literal of a line: escaped, quotes included, then rewritten. */
  function Encode(line: string): string {
    ReplaceAll(Dumps(line), ESCAPED_NBSP, " ")
  }

  // ---------- What the rewrite means on the text ----------

  /**
   The rewritten escapes, computed from the text in one pass. A no-break space becomes a space. The six
   characters `\u00a0`, standing in the text as such, lose all but the first half of their escaped
   backslash. Every other character keeps its escape.
   */
  function Fused(s: string): string {
    if s == "" then ""
    else if ESCAPED_NBSP <= s then "\\ " + Fused(s[6..])
    else if s[0] == NBSP then " " + Fused(s[1..])
    else EscapeChar(s[0]) + Fused(s[1..])
  }

  /** The part of the output that the head of the text accounts for. */
  function FusedHead(s: string): string
    requires s != ""
  {
    if ESCAPED_NBSP <= s then "\\ " else if s[0] == NBSP then " " else EscapeChar(s[0])
  }

  lemma FusedStep(s: string)
    requires s != ""
    ensures Fused(s) == FusedHead(s) + Fused(s[if ESCAPED_NBSP <= s then 6 else 1..])
  {}

  /** How often the rewrite strikes. */
  function Hits(s: string): nat {
    if s == "" then 0
    else if ESCAPED_NBSP <= s then 1 + Hits(s[6..])
    else if s[0] == NBSP then 1 + Hits(s[1..])
    else Hits(s[1..])
  }

  /** No match begins at a character other than the backslash. */
  lemma {:induction false} SkipPlain(p: string, rest: string)
    requires '\\' !in p
    ensures ReplaceAll(p + rest, ESCAPED_NBSP, " ") == p + ReplaceAll(rest, ESCAPED_NBSP, " ")
    ensures CountMatches(p + rest, ESCAPED_NBSP) == CountMatches(rest, ESCAPED_NBSP)
  {
    if p == "" {
      assert p + rest == rest;
    } else {
      assert (p + rest)[0] == p[0];
      assert (p + rest)[1..] == p[1..] + rest;
      SkipPlain(p[1..], rest);
    }
  }

  lemma IsEscapedNbsp(unit: nat)
    requires unit < 0x1_0000
    ensures UnicodeEscape(unit) == ESCAPED_NBSP <==> unit == 0xA0
  {
    var e := UnicodeEscape(unit);
    Numerals.RoundTrip(unit);
    Numerals.RoundTrip(0xA0);
    assert Numerals.Hex4(0xA0) == "00a0";
    assert ESCAPED_NBSP[2..] == "00a0" && e[2..] == Numerals.Hex4(unit);
  }

  lemma ReplaceMatch(rest: string)
    ensures ReplaceAll(ESCAPED_NBSP + rest, ESCAPED_NBSP, " ") == " " + ReplaceAll(rest, ESCAPED_NBSP, " ")
    ensures CountMatches(ESCAPED_NBSP + rest, ESCAPED_NBSP) == 1 + CountMatches(rest, ESCAPED_NBSP)
  {
    assert (ESCAPED_NBSP + rest)[6..] == rest;
  }

  lemma ReplaceNoMatch(p: string, rest: string)
    requires |p| == 5 && '\\' !in p && ['\\'] + p != ESCAPED_NBSP
    ensures ReplaceAll(['\\'] + p + rest, ESCAPED_NBSP, " ") == ['\\'] + p + ReplaceAll(rest, ESCAPED_NBSP, " ")
    ensures CountMatches(['\\'] + p + rest, ESCAPED_NBSP) == CountMatches(rest, ESCAPED_NBSP)
  {
    var s := ['\\'] + p + rest;
    assert s[..6] == ['\\'] + p;
    assert s[1..] == p + rest;
    SkipPlain(p, rest);
    Assoc(['\\'], p, ReplaceAll(rest, ESCAPED_NBSP, " "));
  }

  /** A match that begins at a real escape introducer: exactly the escape of the code unit 0x00A0. */
  lemma ReplaceUnicodeEscape(unit: nat, rest: string)
    requires unit < 0x1_0000
    ensures ReplaceAll(UnicodeEscape(unit) + rest, ESCAPED_NBSP, " ")
         == (if unit == 0xA0 then " " else UnicodeEscape(unit)) + ReplaceAll(rest, ESCAPED_NBSP, " ")
    ensures CountMatches(UnicodeEscape(unit) + rest, ESCAPED_NBSP)
         == (if unit == 0xA0 then 1 else 0) + CountMatches(rest, ESCAPED_NBSP)
  {
    IsEscapedNbsp(unit);
    if unit == 0xA0 {
      ReplaceMatch(rest);
    } else {
      var p := ['u'] + Numerals.Hex4(unit);
      Numerals.Hex4Digits(unit);
      assert UnicodeEscape(unit) == ['\\'] + p;
      ReplaceNoMatch(p, rest);
    }
  }

  lemma RawStep(p: string, s: string)
    requires p != "" && IsRaw(p[0]) && s != ""
    ensures p <= Escape(s) + "\"" <==> p[0] == s[0] && p[1..] <= Escape(s[1..]) + "\""
  {
    var x := Escape(s) + "\"";
    EscapeCharFirst(s[0]);
    PrefixStep(p, x);
    if IsRaw(s[0]) {
      assert x[1..] == Escape(s[1..]) + "\"";
    }
  }

  /** Text made of raw characters stands in the escaped form exactly where it stands in the text. */
  lemma {:induction false} RawPrefix(p: string, s: string)
    requires forall i :: 0 <= i < |p| ==> IsRaw(p[i])
    ensures p <= Escape(s) + "\"" <==> p <= s
    ensures p <= s ==> Escape(s) == p + Escape(s[|p|..])
  {
    if p != "" {
      assert IsRaw(p[0]);
      if s != "" {
        RawStep(p, s);
        PrefixStep(p, s);
        RawPrefix(p[1..], s[1..]);
        if p <= s {
          EscapeCharFirst(s[0]);
          assert s[1..][|p[1..]|..] == s[|p|..];
          Assoc([p[0]], p[1..], Escape(s[|p|..]));
          assert [p[0]] + p[1..] == p;
        }
      }
    }
  }

  lemma ReplaceOneBackslash(rest: string)
    ensures ReplaceAll(['\\'] + rest, ESCAPED_NBSP, " ") ==
            if "u00a0" <= rest then " " + ReplaceAll(rest[5..], ESCAPED_NBSP, " ")
            else ['\\'] + ReplaceAll(rest, ESCAPED_NBSP, " ")
    ensures CountMatches(['\\'] + rest, ESCAPED_NBSP) ==
            if "u00a0" <= rest then 1 + CountMatches(rest[5..], ESCAPED_NBSP)
            else CountMatches(rest, ESCAPED_NBSP)
  {
    var y := ['\\'] + rest;
    assert y[0] == '\\' && y[1..] == rest;
    assert ESCAPED_NBSP[1..] == "u00a0";
    PrefixStep(ESCAPED_NBSP, y);
    assert "u00a0" <= rest ==> y[6..] == rest[5..];
  }

  /** The scan over an escaped backslash: the first half matches nothing, the second half may. */
  lemma ReplaceTwoBackslashes(rest: string)
    ensures ReplaceAll(['\\', '\\'] + rest, ESCAPED_NBSP, " ") ==
            if "u00a0" <= rest then "\\ " + ReplaceAll(rest[5..], ESCAPED_NBSP, " ")
            else "\\\\" + ReplaceAll(rest, ESCAPED_NBSP, " ")
    ensures CountMatches(['\\', '\\'] + rest, ESCAPED_NBSP) ==
            if "u00a0" <= rest then 1 + CountMatches(rest[5..], ESCAPED_NBSP)
            else CountMatches(rest, ESCAPED_NBSP)
  {
    var x := ['\\', '\\'] + rest;
    var y := ['\\'] + rest;
    assert x[1..] == y && x[0] == '\\';
    assert ESCAPED_NBSP[1] == 'u' && x[1] == '\\';
    ReplaceOneBackslash(rest);
    if "u00a0" <= rest {
      Assoc(['\\'], " ", ReplaceAll(rest[5..], ESCAPED_NBSP, " "));
      assert ['\\'] + " " == "\\ ";
    } else {
      Assoc(['\\'], ['\\'], ReplaceAll(rest, ESCAPED_NBSP, " "));
      assert ['\\'] + ['\\'] == "\\\\";
    }
  }

  lemma EscapedBackslash(s: string)
    requires s != "" && s[0] == '\\'
    ensures Escape(s) + "\"" == ['\\', '\\'] + (Escape(s[1..]) + "\"")
    ensures "u00a0" <= Escape(s[1..]) + "\"" <==> ESCAPED_NBSP <= s
    ensures ESCAPED_NBSP <= s ==> (Escape(s[1..]) + "\"")[5..] == Escape(s[6..]) + "\""
  {
    EscapeStep(s);
    Assoc(['\\', '\\'], Escape(s[1..]), "\"");
    assert ESCAPED_NBSP[1..] == "u00a0";
    PrefixStep(ESCAPED_NBSP, s);
    RawPrefix("u00a0", s[1..]);
    if ESCAPED_NBSP <= s {
      assert s[1..][5..] == s[6..];
      Assoc("u00a0", Escape(s[6..]), "\"");
      assert ("u00a0" + (Escape(s[6..]) + "\""))[5..] == Escape(s[6..]) + "\"";
    }
  }

  /** A match that begins at the second half of an escaped backslash: only in front of a literal `u00a0`. */
  lemma ReplaceBackslash(s: string)
    requires s != "" && s[0] == '\\'
    ensures ReplaceAll(Escape(s) + "\"", ESCAPED_NBSP, " ") ==
            if ESCAPED_NBSP <= s then "\\ " + ReplaceAll(Escape(s[6..]) + "\"", ESCAPED_NBSP, " ")
            else "\\\\" + ReplaceAll(Escape(s[1..]) + "\"", ESCAPED_NBSP, " ")
    ensures CountMatches(Escape(s) + "\"", ESCAPED_NBSP) ==
            if ESCAPED_NBSP <= s then 1 + CountMatches(Escape(s[6..]) + "\"", ESCAPED_NBSP)
            else CountMatches(Escape(s[1..]) + "\"", ESCAPED_NBSP)
  {
    EscapedBackslash(s);
    ReplaceTwoBackslashes(Escape(s[1..]) + "\"");
  }

  lemma ReplaceShortEscape(x: char, rest: string)
    requires x != 'u' && x != '\\'
    ensures ReplaceAll(['\\', x] + rest, ESCAPED_NBSP, " ") == ['\\', x] + ReplaceAll(rest, ESCAPED_NBSP, " ")
    ensures CountMatches(['\\', x] + rest, ESCAPED_NBSP) == CountMatches(rest, ESCAPED_NBSP)
  {
    var s := ['\\', x] + rest;
    assert ESCAPED_NBSP[1] == 'u' && s[1] == x;
    assert s[1..] == [x] + rest;
    SkipPlain([x], rest);
    assert ['\\'] + [x] == ['\\', x];
  }

  /** The rewrite of one character that is not a backslash. */
  lemma ReplaceChar(c: char, rest: string)
    requires c != '\\'
    ensures ReplaceAll(EscapeChar(c) + rest, ESCAPED_NBSP, " ")
         == (if c == NBSP then " " else EscapeChar(c)) + ReplaceAll(rest, ESCAPED_NBSP, " ")
    ensures CountMatches(EscapeChar(c) + rest, ESCAPED_NBSP)
         == (if c == NBSP then 1 else 0) + CountMatches(rest, ESCAPED_NBSP)
  {
    if ShortLetter(c).Some? {
      ReplaceShortEscape(ShortLetter(c).value, rest);
    } else if ' ' <= c <= '~' {
      SkipPlain([c], rest);
    } else if c as int >= 0x1_0000 {
      var hi, lo := UnicodeEscape(HighSurrogate(c)), UnicodeEscape(LowSurrogate(c));
      Assoc(hi, lo, rest);
      ReplaceUnicodeEscape(HighSurrogate(c), lo + rest);
      ReplaceUnicodeEscape(LowSurrogate(c), rest);
      Assoc(hi, lo, ReplaceAll(rest, ESCAPED_NBSP, " "));
    } else {
      ReplaceUnicodeEscape(c as int, rest);
    }
  }

  /** The rewrite on the escaped form is the one-pass translation of the text, for every text. */
  lemma {:induction false} ReplaceIsFused(s: string)
    ensures ReplaceAll(Escape(s) + "\"", ESCAPED_NBSP, " ") == Fused(s) + "\""
    ensures CountMatches(Escape(s) + "\"", ESCAPED_NBSP) == Hits(s)
  {
    if s == "" {
      SkipPlain("\"", "");
      assert "\"" + "" == "\"";
    } else {
      EscapeStep(s);
      Assoc(EscapeChar(s[0]), Escape(s[1..]), "\"");
      if s[0] == '\\' {
        ReplaceBackslash(s);
      } else {
        ReplaceChar(s[0], Escape(s[1..]) + "\"");
      }
      FusedStep(s);
      if ESCAPED_NBSP <= s {
        ReplaceIsFused(s[6..]);
        Assoc(FusedHead(s), Fused(s[6..]), "\"");
      } else {
        ReplaceIsFused(s[1..]);
        Assoc(FusedHead(s), Fused(s[1..]), "\"");
      }
    }
  }

  lemma EncodeIsFused(s: string)
    ensures Encode(s) == "\"" + Fused(s) + "\""
    ensures CountMatches(Dumps(s), ESCAPED_NBSP) == Hits(s)
  {
    assert Dumps(s) == "\"" + (Escape(s) + "\"");
    SkipPlain("\"", Escape(s) + "\"");
    ReplaceIsFused(s);
  }

  // ---------- The rewrite and the normalisation of the text ----------

  /** The literal six characters are the same in a text and in its normal form. */
  lemma NormalisePrefix(s: string)
    ensures ESCAPED_NBSP <= Normalise(s) <==> ESCAPED_NBSP <= s
  {
    if |s| >= 6 {
      var n := Normalise(s);
      assert ESCAPED_NBSP <= n <==> forall i :: 0 <= i < 6 ==> ESCAPED_NBSP[i] == n[i];
      assert ESCAPED_NBSP <= s <==> forall i :: 0 <= i < 6 ==> ESCAPED_NBSP[i] == s[i];
      forall i | 0 <= i < 6
        ensures ESCAPED_NBSP[i] == n[i] <==> ESCAPED_NBSP[i] == s[i]
      {
        assert ESCAPED_NBSP[i] != ' ' && ESCAPED_NBSP[i] != NBSP;
      }
    }
  }

  /** Generating from the normal form gives what generating from the text gives. */
  lemma {:induction false} FusedOfNormalise(s: string)
    ensures Fused(Normalise(s)) == Fused(s)
  {
    if s != "" {
      var n := Normalise(s);
      NormalisePrefix(s);
      NormaliseTail(s);
      if ESCAPED_NBSP <= s {
        assert n[6..] == Normalise(s[6..]);
        FusedOfNormalise(s[6..]);
      } else {
        FusedOfNormalise(s[1..]);
      }
    }
  }

  /** Puts back the six characters that the rewrite took out from behind an escape introducer. */
  function Restore(x: string): string {
    if x == "" then ""
    else if x[0] == '\\' && |x| > 1 then
      (if x[1] == ' ' then "\\\\u00a0" else x[..2]) + Restore(x[2..])
    else [x[0]] + Restore(x[1..])
  }

  lemma {:induction false} RestorePlain(p: string, rest: string)
    requires '\\' !in p
    ensures Restore(p + rest) == p + Restore(rest)
  {
    if p == "" {
      assert p + rest == rest;
    } else {
      assert (p + rest)[0] == p[0];
      assert (p + rest)[1..] == p[1..] + rest;
      RestorePlain(p[1..], rest);
    }
  }

  lemma RestoreUnicodeEscape(unit: nat, rest: string)
    requires unit < 0x1_0000
    ensures Restore(UnicodeEscape(unit) + rest) == UnicodeEscape(unit) + Restore(rest)
  {
    var s := UnicodeEscape(unit) + rest;
    var h := Numerals.Hex4(unit);
    Numerals.Hex4Digits(unit);
    assert s[..2] == "\\u" && s[2..] == h + rest;
    RestorePlain(h, rest);
    assert "\\u" + h == UnicodeEscape(unit);
  }

  lemma RestoreChar(c: char, rest: string)
    ensures Restore(EscapeChar(c) + rest) == EscapeChar(c) + Restore(rest)
  {
    if ShortLetter(c).Some? {
      var e := ['\\', ShortLetter(c).value];
      assert (e + rest)[..2] == e && (e + rest)[2..] == rest;
    } else if ' ' <= c <= '~' {
      RestorePlain([c], rest);
    } else if c as int >= 0x1_0000 {
      var hi, lo := UnicodeEscape(HighSurrogate(c)), UnicodeEscape(LowSurrogate(c));
      Assoc(hi, lo, rest);
      RestoreUnicodeEscape(HighSurrogate(c), lo + rest);
      RestoreUnicodeEscape(LowSurrogate(c), rest);
      Assoc(hi, lo, Restore(rest));
    } else {
      RestoreUnicodeEscape(c as int, rest);
    }
  }

  lemma RestoreLiteral(s: string)
    requires ESCAPED_NBSP <= s
    ensures Escape(s) == "\\\\u00a0" + Escape(s[6..])
    ensures forall rest :: Restore("\\ " + rest) == "\\\\u00a0" + Restore(rest)
  {
    var t := s[1..];
    assert ESCAPED_NBSP[1..] == "u00a0";
    assert t[..5] == "u00a0";
    RawPrefix("u00a0", t);
    assert t[5..] == s[6..];
    assert "\\\\" + ("u00a0" + Escape(s[6..])) == "\\\\u00a0" + Escape(s[6..]);
    forall rest
      ensures Restore("\\ " + rest) == "\\\\u00a0" + Restore(rest)
    {
      assert ("\\ " + rest)[2..] == rest;
    }
  }

  /** Nothing but the difference between the two spaces is lost by the rewrite. */
  lemma {:induction false} RestoreOfFused(s: string)
    ensures Restore(Fused(s)) == Escape(Normalise(s))
  {
    if s != "" {
      var n := Normalise(s);
      NormaliseTail(s);
      NormalisePrefix(s);
      if ESCAPED_NBSP <= s {
        RestoreOfFused(s[6..]);
        RestoreLiteral(n);
        assert n[6..] == Normalise(s[6..]);
      } else if s[0] == NBSP {
        RestoreOfFused(s[1..]);
        RestorePlain(" ", Fused(s[1..]));
      } else {
        RestoreOfFused(s[1..]);
        RestoreChar(s[0], Fused(s[1..]));
      }
    }
  }

  /** Two lines come out the same exactly when they differ in nothing but the kind of their spaces. */
  lemma FusedInjective(a: string, b: string)
    ensures Fused(a) == Fused(b) <==> Normalise(a) == Normalise(b)
  {
    if Fused(a) == Fused(b) {
      RestoreOfFused(a);
      RestoreOfFused(b);
      EscapeInjective(Normalise(a), Normalise(b));
    }
    FusedOfNormalise(a);
    FusedOfNormalise(b);
  }

  // ---------- Exactly when the rewrite commutes with escaping ----------

  function CountNbsp(s: string): (n: nat)
    ensures n <= |s|
  {
    if s == "" then 0 else (if s[0] == NBSP then 1 else 0) + CountNbsp(s[1..])
  }

  /** Occurrences of the literal six characters; they cannot overlap. */
  function CountLiteral(s: string): nat {
    if s == "" then 0 else (if ESCAPED_NBSP <= s then 1 else 0) + CountLiteral(s[1..])
  }

  lemma {:induction false} CountLiteralZero(s: string)
    ensures CountLiteral(s) == 0 <==> !Occurs(ESCAPED_NBSP, s)
  {
    if s == "" {
      assert forall i :: 0 <= i <= |s| ==> s[i..] == "";
    } else {
      OccursStep(ESCAPED_NBSP, s);
      CountLiteralZero(s[1..]);
    }
  }

  /** Past a literal there is nothing to count until it ends. */
  lemma {:induction false} CountSkip(p: string, rest: string)
    requires '\\' !in p && NBSP !in p
    ensures CountLiteral(p + rest) == CountLiteral(rest)
    ensures CountNbsp(p + rest) == CountNbsp(rest)
  {
    if p == "" {
      assert p + rest == rest;
    } else {
      assert (p + rest)[0] == p[0];
      assert (p + rest)[1..] == p[1..] + rest;
      CountSkip(p[1..], rest);
    }
  }

  lemma {:induction false} HitsAre(s: string)
    ensures Hits(s) == CountNbsp(s) + CountLiteral(s)
  {
    if s == "" {
    } else if ESCAPED_NBSP <= s {
      HitsAre(s[6..]);
      assert ESCAPED_NBSP[1..] == "u00a0";
      assert s[1..][..5] == "u00a0";
      assert s[1..] == "u00a0" + s[6..];
      CountSkip("u00a0", s[6..]);
    } else {
      HitsAre(s[1..]);
    }
  }

  /** Each hit shortens the line by exactly five characters. */
  lemma FusedSize(s: string)
    ensures |Fused(s)| + 5 * Hits(s) == TotalCost(s)
    ensures |Encode(s)| == |Fused(s)| + 2
  {
    EscapeSize(s);
    EncodeIsFused(s);
    ReplaceSize(Dumps(s), ESCAPED_NBSP, " ");
  }

  lemma {:induction false} CostOfNormalise(s: string)
    ensures TotalCost(Normalise(s)) + 5 * CountNbsp(s) == TotalCost(s)
  {
    if s != "" {
      NormaliseTail(s);
      CostOfNormalise(s[1..]);
    }
  }

  lemma {:induction false} FusedWithoutLiteral(s: string)
    requires !Occurs(ESCAPED_NBSP, s)
    ensures Fused(s) == Escape(Normalise(s))
  {
    if s != "" {
      OccursStep(ESCAPED_NBSP, s);
      NormaliseTail(s);
      FusedWithoutLiteral(s[1..]);
    }
  }

  /**
   Rewriting after escaping is escaping the normalised line if and only if the line does not contain
   the six characters `\u00a0` as such.
   */
  lemma RewriteCommutes(line: string)
    ensures Encode(line) == Dumps(Normalise(line)) <==> !Occurs(ESCAPED_NBSP, line)
  {
    EncodeIsFused(line);
    if !Occurs(ESCAPED_NBSP, line) {
      FusedWithoutLiteral(line);
    } else {
      CountLiteralZero(line);
      HitsAre(line);
      FusedSize(line);
      EscapeSize(Normalise(line));
      CostOfNormalise(line);
    }
  }

  // ---------- Cutting a text into pieces ----------

  /** Cutting a text adds up literals, except one that the cut destroys. */
  lemma {:induction false} CountLiteralConcat(a: string, b: string)
    ensures CountLiteral(a + b) == CountLiteral(a) + CountLiteral(b) <==> !Straddles(ESCAPED_NBSP, a, b)
    ensures CountLiteral(a + b) >= CountLiteral(a) + CountLiteral(b)
    ensures CountNbsp(a + b) == CountNbsp(a) + CountNbsp(b)
  {
    if a == "" {
      assert a + b == b;
    } else {
      assert (a + b)[1..] == a[1..] + b;
      CountLiteralConcat(a[1..], b);
      PrefixOfConcat(ESCAPED_NBSP, a, b);
      StraddlesStep(ESCAPED_NBSP, a, b);
    }
  }

  lemma {:induction false} FusedConcatIfWhole(a: string, b: string)
    requires !Straddles(ESCAPED_NBSP, a, b)
    ensures Fused(a + b) == Fused(a) + Fused(b)
    decreases |a|
  {
    if a == "" {
      assert a + b == b;
    } else {
      var k := if ESCAPED_NBSP <= a then 6 else 1;
      PrefixOfConcat(ESCAPED_NBSP, a, b);
      StraddlesStep(ESCAPED_NBSP, a, b);
      StraddlesDrop(ESCAPED_NBSP, a, b, k);
      assert (a + b)[k..] == a[k..] + b;
      FusedConcatIfWhole(a[k..], b);
      FusedStep(a + b);
      FusedStep(a);
      Assoc(FusedHead(a), Fused(a[k..]), Fused(b));
    }
  }

  lemma {:induction false} TotalCostConcat(a: string, b: string)
    ensures TotalCost(a + b) == TotalCost(a) + TotalCost(b)
  {
    if a == "" {
      assert a + b == b;
    } else {
      assert (a + b)[1..] == a[1..] + b;
      TotalCostConcat(a[1..], b);
    }
  }

  /** A cut is harmless if and only if it does not fall inside the literal six characters. */
  lemma CutLaw(a: string, b: string)
    ensures Fused(a + b) == Fused(a) + Fused(b) <==> !Straddles(ESCAPED_NBSP, a, b)
  {
    if Straddles(ESCAPED_NBSP, a, b) {
      FusedSize(a + b);
      FusedSize(a);
      FusedSize(b);
      HitsAre(a + b);
      HitsAre(a);
      HitsAre(b);
      CountLiteralConcat(a, b);
      TotalCostConcat(a, b);
    } else {
      FusedConcatIfWhole(a, b);
    }
  }
}
