/**
 C string literals (sections 6.4.3, 6.4.4.4 and 6.4.5 of C11): finding the closing quotation mark, and the
 bytes the literal denotes in a UTF-8 execution character set.
 */
module CLiteral {
  import opened Text
  import opened Utf8
  import Numerals

  // ---------- The literal as a token ----------

  /** The state of the lexer between two characters of a literal. */
  datatype State = Body | AfterBackslash | Closed | Broken

  function Step(st: State, c: char): State {
    match st
    case Body =>
      if c == '"' then Closed else if c == '\\' then AfterBackslash else if c == '\n' then Broken else Body
    case AfterBackslash => if c == '\n' then Broken else Body
    case Closed => Broken
    case Broken => Broken
  }

  function Run(st: State, s: string): State
    decreases s
  {
    if s == "" then st else Run(Step(st, s[0]), s[1..])
  }

  /** Position of the closing quotation mark, if the literal has one. */
  function ScanLiteral(s: string, st: State): (k: Option<nat>)
    ensures k.Some? ==> k.value < |s|
  {
    if s == "" then None
    else match Step(st, s[0])
      case Closed => Some(0)
      case Broken => None
      case next =>
        match ScanLiteral(s[1..], next) {
          case Some(k) => Some(k + 1)
          case None => None
        }
  }

  lemma {:induction false} RunConcat(st: State, a: string, b: string)
    ensures Run(st, a + b) == Run(Run(st, a), b)
    decreases a
  {
    if a == "" {
      assert a + b == b;
    } else {
      assert (a + b)[1..] == a[1..] + b;
      RunConcat(Step(st, a[0]), a[1..], b);
    }
  }

  lemma {:induction false} NoWayBack(st: State, s: string)
    requires st == Closed || st == Broken
    ensures Run(st, s) == Closed || Run(st, s) == Broken
    decreases s
  {
    if s != "" {
      NoWayBack(Broken, s[1..]);
    }
  }

  lemma {:induction false} ScanFinds(st: State, body: string, rest: string)
    requires Run(st, body) == Body
    ensures ScanLiteral(body + "\"" + rest, st) == Some(|body|)
    decreases body
  {
    var s := body + "\"" + rest;
    if body != "" {
      if Step(st, body[0]) == Closed || Step(st, body[0]) == Broken {
        NoWayBack(Step(st, body[0]), body[1..]);
      }
      assert s[1..] == body[1..] + "\"" + rest;
      ScanFinds(Step(st, body[0]), body[1..], rest);
    } else {
      assert s[0] == '"';
    }
  }

  /**
   A body that leaves the lexer in the middle of the literal keeps it inside at every position, and the
   quotation mark after it is the closing one.
   */
  lemma Terminates(body: string)
    requires Run(Body, body) == Body
    ensures forall k :: 0 <= k <= |body| ==> Run(Body, body[..k]) == Body || Run(Body, body[..k]) == AfterBackslash
    ensures Run(Body, body + "\"") == Closed
  {
    forall k | 0 <= k <= |body|
      ensures Run(Body, body[..k]) == Body || Run(Body, body[..k]) == AfterBackslash
    {
      assert body == body[..k] + body[k..];
      RunConcat(Body, body[..k], body[k..]);
      if Run(Body, body[..k]) == Closed || Run(Body, body[..k]) == Broken {
        NoWayBack(Run(Body, body[..k]), body[k..]);
      }
    }
    RunConcat(Body, body, "\"");
    assert Run(Body, "\"") == Run(Closed, "");
  }

  lemma {:induction false} RunPlain(p: string)
    requires '"' !in p && '\\' !in p && '\n' !in p
    ensures Run(Body, p) == Body
  {
    if p != "" {
      assert p[0] in p;
      RunPlain(p[1..]);
    }
  }

  // ---------- What the literal denotes ----------

  /** The escapes of section 6.4.4.4 that consist of a backslash and one character. */
  function SimpleEscape(c: char): Option<Byte> {
    if c == '\'' || c == '"' || c == '?' || c == '\\' then Some(c as Byte)
    else if c == 'a' then Some(7)
    else if c == 'b' then Some(8)
    else if c == 't' then Some(9)
    else if c == 'n' then Some(10)
    else if c == 'v' then Some(11)
    else if c == 'f' then Some(12)
    else if c == 'r' then Some(13)
    else None
  }

  /** The code points that section 6.4.3 lets a universal character name designate. */
  predicate IsUniversal(n: nat) {
    && (n >= 0xA0 || n == 0x24 || n == 0x40 || n == 0x60)
    && IsScalar(n)
  }

  /** A universal character name at the head of `s`: its bytes and its length. */
  function ReadUniversal(s: string, digits: nat): (r: Option<(seq<Byte>, nat)>)
    ensures r.Some? ==> 0 < r.value.1 <= |s|
  {
    if |s| < 2 + digits then None
    else match Numerals.Number(s[2..2 + digits], 16)
      case Some(n) => if IsUniversal(n) then Some((EncodeChar(n as char), 2 + digits)) else None
      case None => None
  }

  /** Octal and hexadecimal escapes denote one byte. */
  function ReadNumeric(s: string, start: nat, base: nat, limit: nat): (r: Option<(seq<Byte>, nat)>)
    requires start <= |s|
    ensures r.Some? ==> 0 < r.value.1 <= |s|
  {
    var n := Numerals.DigitRun(s[start..], base, limit);
    if n == 0 then None
    else match Numerals.Number(s[start..start + n], base)
      case Some(v) => if v < 0x100 then Some(([v], start + n)) else None
      case None => None
  }

  /** Any escape at the head of `s`. */
  function ReadEscape(s: string): (r: Option<(seq<Byte>, nat)>)
    requires s != "" && s[0] == '\\'
    ensures r.Some? ==> 0 < r.value.1 <= |s|
  {
    if |s| == 1 then None
    else if s[1] == 'u' then ReadUniversal(s, 4)
    else if s[1] == 'U' then ReadUniversal(s, 8)
    else if s[1] == 'x' then ReadNumeric(s, 2, 16, |s|)
    else if '0' <= s[1] <= '7' then ReadNumeric(s, 1, 8, 3)
    else match SimpleEscape(s[1])
      case Some(b) => Some(([b], 2))
      case None => None
  }

  /** The bytes in front of the rest, if the rest has a meaning. */
  function Prepend(bs: seq<Byte>, r: Option<seq<Byte>>): Option<seq<Byte>> {
    match r
    case Some(t) => Some(bs + t)
    case None => None
  }

  /** The bytes of one literal. A backslash that starts no escape of the language makes it no literal. */
  function Decode(body: string): Option<seq<Byte>> {
    if body == "" then Some([])
    else if body[0] == '\\' then
      match ReadEscape(body) {
        case Some(r) => Prepend(r.0, Decode(body[r.1..]))
        case None => None
      }
    else Prepend(EncodeChar(body[0]), Decode(body[1..]))
  }

  /** Adjacent literals are concatenated after their escapes are decoded (phases 5 and 6 of section 5.1.1.2). */
  function DecodeAll(bodies: seq<string>): Option<seq<Byte>> {
    if bodies == [] then Some([])
    else match Decode(bodies[0])
      case Some(bs) => Prepend(bs, DecodeAll(bodies[1..]))
      case None => None
  }
}
