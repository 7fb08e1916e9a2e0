/**
 What a C compiler makes of one emitted literal: where it ends, and the bytes it denotes.
 */
module Meaning {
  import opened Text
  import Numerals
  import opened Json
  import opened Rewrite
  import opened CLiteral
  import Utf8

  /** The code points whose JSON escape is also a C escape for the same character. */
  predicate IsExpressible(c: char) {
    || '\U{8}' <= c <= '\n' || c == '\U{C}' || c == '\r'
    || ' ' <= c <= '~'
    || '\U{A0}' <= c <= '\U{FFFF}'
  }

  /** Exactly the lines whose literal C accepts. */
  ghost predicate IsClean(s: string) {
    && (forall i :: 0 <= i < |s| ==> IsExpressible(s[i]))
    && !Occurs(ESCAPED_NBSP, s)
  }

  lemma CleanStep(s: string)
    requires s != ""
    ensures IsClean(s) <==> IsExpressible(s[0]) && !(ESCAPED_NBSP <= s) && IsClean(s[1..])
  {
    OccursStep(ESCAPED_NBSP, s);
    assert (forall i :: 0 <= i < |s| ==> IsExpressible(s[i])) <==>
           IsExpressible(s[0]) && (forall i :: 0 <= i < |s[1..]| ==> IsExpressible(s[1..][i])) by {
      if IsExpressible(s[0]) && (forall i :: 0 <= i < |s[1..]| ==> IsExpressible(s[1..][i])) {
        forall i | 0 <= i < |s|
          ensures IsExpressible(s[i])
        {
          if i > 0 {
            assert s[i] == s[1..][i - 1];
          }
        }
      }
    }
  }

  // ---------- Termination ----------

  lemma RunEscapeChar(c: char)
    ensures Run(Body, EscapeChar(c)) == Body
  {
    if ShortLetter(c).Some? {
      RunPair(ShortLetter(c).value);
    } else if ' ' <= c <= '~' {
      RunPlain([c]);
    } else if c as int >= 0x1_0000 {
      RunUnicodeEscape(HighSurrogate(c));
      RunUnicodeEscape(LowSurrogate(c));
      RunConcat(Body, UnicodeEscape(HighSurrogate(c)), UnicodeEscape(LowSurrogate(c)));
    } else {
      RunUnicodeEscape(c as int);
    }
  }

  lemma RunPair(c: char)
    requires c != '\n'
    ensures Run(Body, ['\\', c]) == Body
  {
    assert ['\\', c][1..] == [c];
    assert Run(AfterBackslash, [c]) == Run(Body, "");
  }

  lemma RunUnicodeEscape(unit: nat)
    requires unit < 0x1_0000
    ensures Run(Body, UnicodeEscape(unit)) == Body
  {
    Numerals.Hex4Digits(unit);
    assert UnicodeEscape(unit) == ['\\', 'u'] + Numerals.Hex4(unit);
    RunConcat(Body, ['\\', 'u'], Numerals.Hex4(unit));
    RunPair('u');
    RunPlain(Numerals.Hex4(unit));
  }

  lemma {:induction false} RunEscape(s: string)
    ensures Run(Body, Escape(s)) == Body
  {
    if s != "" {
      RunEscapeChar(s[0]);
      RunConcat(Body, EscapeChar(s[0]), Escape(s[1..]));
      RunEscape(s[1..]);
    }
  }

  lemma {:induction false} RunFused(s: string)
    ensures Run(Body, Fused(s)) == Body
  {
    if s == "" {
    } else if ESCAPED_NBSP <= s {
      RunPair(' ');
      RunConcat(Body, "\\ ", Fused(s[6..]));
      RunFused(s[6..]);
    } else if s[0] == NBSP {
      RunPlain(" ");
      RunConcat(Body, " ", Fused(s[1..]));
      RunFused(s[1..]);
    } else {
      RunEscapeChar(s[0]);
      RunConcat(Body, EscapeChar(s[0]), Fused(s[1..]));
      RunFused(s[1..]);
    }
  }

  /** From the opening quotation mark on, the lexer is inside at every position and leaves at the last character. */
  ghost predicate IsWholeLiteral(lit: string) {
    && |lit| >= 2 && lit[0] == '"'
    && (forall k :: 1 <= k < |lit| ==> Run(Body, lit[1..k]) == Body || Run(Body, lit[1..k]) == AfterBackslash)
    && Run(Body, lit[1..]) == Closed
  }

  lemma BodyMakesLiteral(body: string)
    requires Run(Body, body) == Body
    ensures IsWholeLiteral("\"" + body + "\"")
  {
    var lit := "\"" + body + "\"";
    Terminates(body);
    assert lit[1..] == body + "\"";
    forall k | 1 <= k < |lit|
      ensures Run(Body, lit[1..k]) == Body || Run(Body, lit[1..k]) == AfterBackslash
    {
      assert lit[1..k] == body[..k - 1];
    }
  }

  /** Every line, whatever its backslashes and quotation marks, before and after the rewrite. */
  lemma LiteralTermination(line: string)
    ensures IsWholeLiteral(Dumps(line))
    ensures IsWholeLiteral(Encode(line))
  {
    RunEscape(line);
    RunFused(line);
    BodyMakesLiteral(Escape(line));
    BodyMakesLiteral(Fused(line));
    EncodeIsFused(line);
  }

  // ---------- Value ----------

  lemma DecodeUnicodeEscape(unit: nat, rest: string)
    requires unit < 0x1_0000
    ensures Decode(UnicodeEscape(unit) + rest) ==
            if IsUniversal(unit) then Prepend(Utf8.EncodeChar(unit as char), Decode(rest)) else None
  {
    var s := UnicodeEscape(unit) + rest;
    assert s[2..6] == Numerals.Hex4(unit) && s[6..] == rest;
    Numerals.RoundTrip(unit);
    assert ReadEscape(s) == ReadUniversal(s, 4);
  }

  lemma DecodePair(x: char, rest: string)
    requires x != 'u' && x != 'U' && x != 'x' && !('0' <= x <= '7')
    ensures Decode(['\\', x] + rest) ==
            match SimpleEscape(x) { case Some(b) => Prepend([b], Decode(rest)) case None => None }
  {
    var s := ['\\', x] + rest;
    assert s[2..] == rest;
  }

  /** The C reader undoes the JSON writer on the expressible characters, and rejects all others. */
  lemma DecodeEscapeChar(c: char, rest: string)
    ensures Decode(EscapeChar(c) + rest) ==
            if IsExpressible(c) then Prepend(Utf8.EncodeChar(c), Decode(rest)) else None
  {
    if ShortLetter(c).Some? {
      DecodePair(ShortLetter(c).value, rest);
    } else if ' ' <= c <= '~' {
      assert ([c] + rest)[1..] == rest;
    } else if c as int >= 0x1_0000 {
      var lo := UnicodeEscape(LowSurrogate(c));
      Assoc(UnicodeEscape(HighSurrogate(c)), lo, rest);
      DecodeUnicodeEscape(HighSurrogate(c), lo + rest);
    } else {
      DecodeUnicodeEscape(c as int, rest);
    }
  }

  lemma DecodeSpace(rest: string)
    ensures Decode(" " + rest) == Prepend(Utf8.EncodeChar(' '), Decode(rest))
  {
    assert (" " + rest)[1..] == rest;
  }

  lemma DecodeFusedHead(s: string)
    requires s != ""
    ensures Decode(Fused(s)) ==
            if ESCAPED_NBSP <= s || !IsExpressible(s[0]) then None
            else Prepend(Utf8.EncodeChar(NormaliseChar(s[0])), Decode(Fused(s[1..])))
  {
    FusedStep(s);
    if ESCAPED_NBSP <= s {
      DecodePair(' ', Fused(s[6..]));
      assert FusedHead(s) == ['\\', ' '];
    } else if s[0] == NBSP {
      DecodeSpace(Fused(s[1..]));
    } else {
      DecodeEscapeChar(s[0], Fused(s[1..]));
    }
  }

  /** The meaning of an emitted literal, for every line: its normal form in UTF-8, or no meaning at all. */
  lemma {:induction false} DecodeFused(s: string)
    ensures Decode(Fused(s)) == if IsClean(s) then Some(Utf8.Encode(Normalise(s))) else None
  {
    if s != "" {
      CleanStep(s);
      NormaliseTail(s);
      DecodeFusedHead(s);
      if !(ESCAPED_NBSP <= s) {
        DecodeFused(s[1..]);
      }
    }
  }

  /** The bodies of the literals of a list of pieces. */
  function FusedAll(pieces: seq<string>): (r: seq<string>)
    ensures |r| == |pieces|
    ensures forall i :: 0 <= i < |pieces| ==> r[i] == Fused(pieces[i])
  {
    seq(|pieces|, i requires 0 <= i < |pieces| => Fused(pieces[i]))
  }

  ghost predicate AllClean(pieces: seq<string>) {
    forall i :: 0 <= i < |pieces| ==> IsClean(pieces[i])
  }

  /** Concatenating the literals of any pieces whatsoever denotes the concatenation of the pieces. */
  lemma {:induction false} DecodeAllPieces(pieces: seq<string>)
    ensures DecodeAll(FusedAll(pieces)) ==
            if AllClean(pieces) then Some(Utf8.Encode(Normalise(Flatten(pieces)))) else None
  {
    if pieces != [] {
      var p, rest := pieces[0], pieces[1..];
      assert FusedAll(pieces)[1..] == FusedAll(rest);
      DecodeFused(p);
      DecodeAllPieces(rest);
      assert AllClean(pieces) <==> IsClean(p) && AllClean(rest) by {
        assert forall i :: 0 <= i < |rest| ==> rest[i] == pieces[i + 1];
        if IsClean(p) && AllClean(rest) {
          forall i | 0 <= i < |pieces|
            ensures IsClean(pieces[i])
          {
            if i > 0 {
              assert pieces[i] == rest[i - 1];
            }
          }
        }
      }
      NormaliseConcat(p, Flatten(rest));
      Utf8.EncodeConcat(Normalise(p), Normalise(Flatten(rest)));
    }
  }
}
