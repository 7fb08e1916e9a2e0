/**
 JSON strings: the writer is `json.dumps(line, ensure_ascii=True)`, the reader is the string grammar
 of section 7 of RFC 8259.
 */
module Json {
  import opened Text
  import Numerals

  /** Characters written as themselves: space to tilde, without the quotation mark and the backslash. */
  predicate IsRaw(c: char) {
    ' ' <= c <= '~' && c != '"' && c != '\\'
  }

  function UnicodeEscape(unit: nat): (e: string)
    requires unit < 0x1_0000
    ensures |e| == 6
  {
    "\\u" + Numerals.Hex4(unit)
  }

  /** A UTF-16 surrogate pair for a code point above U+FFFF. */
  function HighSurrogate(c: char): (u: nat)
    requires c as int >= 0x1_0000
    ensures 0xD800 <= u <= 0xDBFF
  {
    0xD800 + (c as int - 0x1_0000) / 0x400
  }

  function LowSurrogate(c: char): (u: nat)
    requires c as int >= 0x1_0000
    ensures 0xDC00 <= u <= 0xDFFF
  {
    0xDC00 + (c as int - 0x1_0000) % 0x400
  }

  /** The letter of the two-character escape that some characters have. */
  function ShortLetter(c: char): (r: Option<char>)
    ensures r.Some? ==> r.value in "\"\\nrtfb"
  {
    if c == '"' then Some('"')
    else if c == '\\' then Some('\\')
    else if c == '\n' then Some('n')
    else if c == '\r' then Some('r')
    else if c == '\t' then Some('t')
    else if c == '\U{C}' then Some('f')
    else if c == '\U{8}' then Some('b')
    else None
  }

  function EscapeChar(c: char): string {
    if ShortLetter(c).Some? then ['\\', ShortLetter(c).value]
    else if ' ' <= c <= '~' then [c]
    else if c as int < 0x1_0000 then UnicodeEscape(c as int)
    else UnicodeEscape(HighSurrogate(c)) + UnicodeEscape(LowSurrogate(c))
  }

  /** An escape is the character itself or starts with a backslash. */
  lemma EscapeCharFirst(c: char)
    ensures EscapeChar(c) != ""
    ensures IsRaw(c) ==> EscapeChar(c) == [c]
    ensures !IsRaw(c) ==> EscapeChar(c)[0] == '\\'
    ensures IsRaw(c) <==> ShortLetter(c).None? && ' ' <= c <= '~'
  {}

  function Escape(s: string): string {
    if s == "" then "" else EscapeChar(s[0]) + Escape(s[1..])
  }

  function Dumps(s: string): string {
    "\"" + Escape(s) + "\""
  }

  lemma EscapeStep(s: string)
    requires s != ""
    ensures Escape(s) == EscapeChar(s[0]) + Escape(s[1..])
  {}

  /** The encoder's loop over the characters of a line. */
  method DumpsLoop(s: string) returns (r: string)
    ensures r == Dumps(s)
  {
    r := "\"";
    assert s[0..] == s;
    for i := 0 to |s|
      invariant "\"" + Escape(s) == r + Escape(s[i..])
    {
      var rest := s[i..];
      EscapeStep(rest);
      assert rest[1..] == s[i + 1..];
      Assoc(r, EscapeChar(s[i]), Escape(s[i + 1..]));
      r := r + EscapeChar(s[i]);
    }
    assert s[|s|..] == "";
    r := r + "\"";
  }

  // ---------- Reader ----------

  /** The character a two-character escape stands for. */
  function ShortEscape(c: char): Option<char> {
    if c == '"' || c == '\\' || c == '/' then Some(c)
    else if c == 'b' then Some('\U{8}')
    else if c == 'f' then Some('\U{C}')
    else if c == 'n' then Some('\n')
    else if c == 'r' then Some('\r')
    else if c == 't' then Some('\t')
    else None
  }

  /** The UTF-16 code unit that an escape at the head of `s` denotes. */
  function Unit(s: string): (u: Option<nat>)
    ensures u.Some? ==> |s| >= 6 && u.value < 0x1_0000
  {
    if |s| >= 6 && s[0] == '\\' && s[1] == 'u' then
      Numerals.Number4(s[2..6]);
      Numerals.Number(s[2..6], 16)
    else None
  }

  /** One character and the number of input characters it took. A lone surrogate denotes no character. */
  function ReadUnicode(s: string): (r: Option<(char, nat)>)
    ensures r.Some? ==> 0 < r.value.1 <= |s|
  {
    match Unit(s)
    case None => None
    case Some(hi) =>
      if 0xD800 <= hi <= 0xDBFF then
        match Unit(s[6..]) {
          case Some(lo) =>
            if 0xDC00 <= lo <= 0xDFFF then
              Some(((0x1_0000 + 0x400 * (hi - 0xD800) + (lo - 0xDC00)) as char, 12))
            else None
          case None => None
        }
      else if 0xDC00 <= hi <= 0xDFFF then None
      else Some((hi as char, 6))
  }

  function ReadChar(s: string): (r: Option<(char, nat)>)
    requires s != ""
    ensures r.Some? ==> 0 < r.value.1 <= |s|
  {
    if s[0] != '\\' then (if s[0] >= ' ' then Some((s[0], 1)) else None)
    else if |s| == 1 then None
    else if s[1] == 'u' then ReadUnicode(s)
    else match ShortEscape(s[1])
      case Some(c) => Some((c, 2))
      case None => None
  }

  /** The characters up to a closing quotation mark, which must be the last character. */
  function ReadChars(s: string): Option<string> {
    if s == "" then None
    else if s[0] == '"' then (if |s| == 1 then Some("") else None)
    else match ReadChar(s)
      case None => None
      case Some(r) =>
        match ReadChars(s[r.1..]) {
          case None => None
          case Some(t) => Some([r.0] + t)
        }
  }

  function Loads(s: string): Option<string> {
    if s != "" && s[0] == '"' then ReadChars(s[1..]) else None
  }

  lemma UnitOfEscape(unit: nat, rest: string)
    requires unit < 0x1_0000
    ensures Unit(UnicodeEscape(unit) + rest) == Some(unit)
  {
    var s := UnicodeEscape(unit) + rest;
    assert s[2..6] == Numerals.Hex4(unit);
    Numerals.RoundTrip(unit);
  }

  /** The reader recovers any one character, and takes exactly the characters its escape has. */
  lemma ReadEscapedChar(c: char, rest: string)
    ensures EscapeChar(c) != "" && EscapeChar(c)[0] != '"'
    ensures ReadChar(EscapeChar(c) + rest) == Some((c, |EscapeChar(c)|))
  {
    var s := EscapeChar(c) + rest;
    if ShortLetter(c).Some? || ' ' <= c <= '~' {
    } else if c as int >= 0x1_0000 {
      var lo := UnicodeEscape(LowSurrogate(c)) + rest;
      assert s == UnicodeEscape(HighSurrogate(c)) + lo;
      assert s[6..] == lo;
      UnitOfEscape(HighSurrogate(c), lo);
      UnitOfEscape(LowSurrogate(c), rest);
    } else {
      UnitOfEscape(c as int, rest);
    }
  }

  /** JSON round trip, for every text: code points above U+FFFF come back through their surrogate pairs. */
  lemma {:induction false} ReadCharsOfEscape(s: string)
    ensures ReadChars(Escape(s) + "\"") == Some(s)
  {
    if s != "" {
      var e, rest := EscapeChar(s[0]), Escape(s[1..]) + "\"";
      assert Escape(s) + "\"" == e + rest;
      ReadEscapedChar(s[0], rest);
      assert (e + rest)[|e|..] == rest;
      ReadCharsOfEscape(s[1..]);
      assert [s[0]] + s[1..] == s;
    }
  }

  lemma LoadsOfDumps(s: string)
    ensures Loads(Dumps(s)) == Some(s)
  {
    assert Dumps(s)[1..] == Escape(s) + "\"";
    ReadCharsOfEscape(s);
  }

  /** Nothing is lost by escaping. */
  lemma EscapeInjective(a: string, b: string)
    requires Escape(a) == Escape(b)
    ensures a == b
  {
    ReadCharsOfEscape(a);
    ReadCharsOfEscape(b);
  }

  // ---------- Shape and size of the output ----------

  /** Printable ASCII: every character of the output is one. */
  ghost predicate IsPrintable(s: string) {
    forall i :: 0 <= i < |s| ==> ' ' <= s[i] <= '~'
  }

  lemma UnicodeEscapePrintable(unit: nat)
    requires unit < 0x1_0000
    ensures IsPrintable(UnicodeEscape(unit))
  {
    Numerals.Hex4Digits(unit);
  }

  lemma EscapeCharPrintable(c: char)
    ensures IsPrintable(EscapeChar(c))
  {
    if ShortLetter(c).Some? || ' ' <= c <= '~' {
    } else if c as int >= 0x1_0000 {
      UnicodeEscapePrintable(HighSurrogate(c));
      UnicodeEscapePrintable(LowSurrogate(c));
    } else {
      UnicodeEscapePrintable(c as int);
    }
  }

  predicate IsUpper(c: char) {
    'A' <= c <= 'Z'
  }

  lemma EscapeCharLowerCase(c: char)
    requires !IsUpper(c)
    ensures forall i :: 0 <= i < |EscapeChar(c)| ==> !IsUpper(EscapeChar(c)[i])
  {
    if ShortLetter(c).Some? || ' ' <= c <= '~' {
    } else if c as int >= 0x1_0000 {
      Numerals.Hex4Digits(HighSurrogate(c));
      Numerals.Hex4Digits(LowSurrogate(c));
    } else {
      Numerals.Hex4Digits(c as int);
    }
  }

  /** Escaping brings in no upper-case letter: the hexadecimal digits are lower-case ones. */
  lemma {:induction false} EscapeIsLowerCase(s: string)
    requires forall i :: 0 <= i < |s| ==> !IsUpper(s[i])
    ensures forall i :: 0 <= i < |Escape(s)| ==> !IsUpper(Escape(s)[i])
  {
    if s != "" {
      EscapeCharLowerCase(s[0]);
      EscapeIsLowerCase(s[1..]);
    }
  }

  /** Escaping leaves a text alone if and only if it is printable ASCII without quotation marks and backslashes. */
  lemma {:induction false} EscapeLeavesAlone(s: string)
    ensures Escape(s) == s <==> forall i :: 0 <= i < |s| ==> ' ' <= s[i] <= '~' && s[i] != '"' && s[i] != '\\'
  {
    if s != "" {
      EscapeCharFirst(s[0]);
      EscapeStep(s);
      EscapeLeavesAlone(s[1..]);
      if IsRaw(s[0]) {
        assert Escape(s)[1..] == Escape(s[1..]);
        assert [s[0]] + s[1..] == s;
        assert forall i :: 0 < i < |s| ==> s[i] == s[1..][i - 1];
      } else if s[0] == '\\' {
        assert Escape(s) != s by {
          EscapeSize(s);
          EscapeSize(s[1..]);
        }
      }
    }
  }

  /** How many characters a code point costs, by the class it belongs to. */
  function Cost(c: char): nat {
    if IsRaw(c) then 1
    else if c == '"' || c == '\\' || '\U{8}' <= c <= '\n' || c == '\U{C}' || c == '\r' then 2
    else if c as int < 0x1_0000 then 6
    else 12
  }

  function TotalCost(s: string): (n: nat) {
    if s == "" then 0 else Cost(s[0]) + TotalCost(s[1..])
  }

  lemma {:induction false} EscapeSize(s: string)
    ensures |Escape(s)| == TotalCost(s)
    ensures |s| <= TotalCost(s) <= 12 * |s|
  {
    if s != "" {
      EscapeSize(s[1..]);
    }
  }
}
