/**
 UTF-8 as defined by section 3 of RFC 3629, with a strict decoder (section 4).
 */
module Utf8 {
  import opened Text

  type Byte = b: int | 0 <= b < 0x100

  /** The trailing byte that carries the six low bits of `n`. */
  function Trail(n: nat): Byte {
    0x80 + n % 0x40
  }

  function EncodeChar(c: char): (bs: seq<Byte>)
    ensures bs != []
  {
    var n := c as int;
    if n < 0x80 then [n]
    else if n < 0x800 then [0xC0 + n / 0x40, Trail(n)]
    else if n < 0x1_0000 then [0xE0 + n / 0x1000, Trail(n / 0x40), Trail(n)]
    else [0xF0 + n / 0x4_0000, Trail(n / 0x1000), Trail(n / 0x40), Trail(n)]
  }

  function Encode(s: string): seq<Byte> {
    if s == "" then [] else EncodeChar(s[0]) + Encode(s[1..])
  }

  /** The table of section 3 of RFC 3629: the length by the range, and the bits of each byte. */
  lemma Table(c: char)
    ensures var n, e := c as int, EncodeChar(c);
            if n < 0x80 then e == [n]
            else if n < 0x800 then
              |e| == 2 && 0xC0 <= e[0] < 0xE0 && n == (e[0] as int - 0xC0) * 0x40 + (e[1] as int - 0x80)
            else if n < 0x1_0000 then
              |e| == 3 && 0xE0 <= e[0] < 0xF0
              && n == (e[0] as int - 0xE0) * 0x1000 + (e[1] as int - 0x80) * 0x40 + (e[2] as int - 0x80)
            else
              |e| == 4 && 0xF0 <= e[0] < 0xF8
              && n == (e[0] as int - 0xF0) * 0x4_0000 + (e[1] as int - 0x80) * 0x1000
                      + (e[2] as int - 0x80) * 0x40 + (e[3] as int - 0x80)
    ensures forall i :: 0 < i < |EncodeChar(c)| ==> 0x80 <= EncodeChar(c)[i] < 0xC0
  {
    var n := c as int;
    if n < 0x800 {
    } else if n < 0x1_0000 {
      Digits3(n);
    } else {
      Digits4(n);
    }
  }

  predicate IsTrail(b: Byte) {
    0x80 <= b < 0xC0
  }

  function Low(b: Byte): (n: nat)
    requires IsTrail(b)
    ensures n < 0x40
  {
    b - 0x80
  }

  function Lead(b: Byte, mark: Byte): nat
    requires mark <= b
  {
    b - mark
  }

  predicate IsScalar(n: nat) {
    n < 0xD800 || 0xE000 <= n < 0x11_0000
  }

  /** The scalar value of `n`, unless a shorter form of it exists or it is no scalar value. */
  function Checked(n: nat, least: nat, length: nat): Option<(char, nat)> {
    if least <= n && IsScalar(n) then Some((n as char, length)) else None
  }

  function DecodeChar(bs: seq<Byte>): (r: Option<(char, nat)>)
    requires bs != []
    ensures r.Some? ==> 0 < r.value.1 <= |bs|
  {
    if bs[0] < 0x80 then Some((bs[0] as char, 1))
    else if 0xC0 <= bs[0] < 0xE0 && |bs| >= 2 && IsTrail(bs[1]) then
      Checked(Lead(bs[0], 0xC0) * 0x40 + Low(bs[1]), 0x80, 2)
    else if 0xE0 <= bs[0] < 0xF0 && |bs| >= 3 && IsTrail(bs[1]) && IsTrail(bs[2]) then
      Checked(Lead(bs[0], 0xE0) * 0x1000 + Low(bs[1]) * 0x40 + Low(bs[2]), 0x800, 3)
    else if 0xF0 <= bs[0] < 0xF8 && |bs| >= 4 && IsTrail(bs[1]) && IsTrail(bs[2]) && IsTrail(bs[3]) then
      Checked(Lead(bs[0], 0xF0) * 0x4_0000 + Low(bs[1]) * 0x1000 + Low(bs[2]) * 0x40 + Low(bs[3]),
              0x1_0000, 4)
    else None
  }

  function Decode(bs: seq<Byte>): Option<string> {
    if bs == [] then Some("")
    else match DecodeChar(bs)
      case None => None
      case Some(r) =>
        match Decode(bs[r.1..]) {
          case None => None
          case Some(t) => Some([r.0] + t)
        }
  }

  lemma Digits3(n: nat)
    ensures n == n / 0x1000 * 0x1000 + n / 0x40 % 0x40 * 0x40 + n % 0x40
  {
    var a := n / 0x40;
    assert n == 0x40 * a + n % 0x40;
    assert a / 0x40 == n / 0x1000 && a == 0x40 * (a / 0x40) + a % 0x40;
  }

  lemma Digits4(n: nat)
    ensures n == n / 0x4_0000 * 0x4_0000 + n / 0x1000 % 0x40 * 0x1000 + n / 0x40 % 0x40 * 0x40 + n % 0x40
  {
    var a := n / 0x40;
    var b := n / 0x1000;
    var c := n / 0x4_0000;
    assert n == 0x40 * a + n % 0x40;
    assert a / 0x40 == b && a == 0x40 * b + a % 0x40;
    assert b / 0x40 == c && b == 0x40 * c + b % 0x40;
  }

  lemma DecodeEncodedChar(c: char, rest: seq<Byte>)
    ensures DecodeChar(EncodeChar(c) + rest) == Some((c, |EncodeChar(c)|))
  {
    var n := c as int;
    var e := EncodeChar(c);
    var bs := e + rest;
    assert forall i :: 0 <= i < |e| ==> bs[i] == e[i];
    if n < 0x80 {
    } else if n < 0x800 {
      assert Lead(bs[0], 0xC0) == n / 0x40 && Low(bs[1]) == n % 0x40;
    } else if n < 0x1_0000 {
      assert Lead(bs[0], 0xE0) == n / 0x1000 && Low(bs[1]) == n / 0x40 % 0x40 && Low(bs[2]) == n % 0x40;
      Digits3(n);
    } else {
      assert Lead(bs[0], 0xF0) == n / 0x4_0000 && Low(bs[1]) == n / 0x1000 % 0x40;
      assert Low(bs[2]) == n / 0x40 % 0x40 && Low(bs[3]) == n % 0x40;
      Digits4(n);
    }
  }

  /** UTF-8 round trip, for every text. */
  lemma {:induction false} RoundTrip(s: string)
    ensures Decode(Encode(s)) == Some(s)
  {
    if s != "" {
      var e, rest := EncodeChar(s[0]), Encode(s[1..]);
      DecodeEncodedChar(s[0], rest);
      assert (e + rest)[|e|..] == rest;
      RoundTrip(s[1..]);
      assert [s[0]] + s[1..] == s;
    }
  }

  /** The decoder is strict: the bytes of a character are the only ones it takes for it. */
  lemma EncodeDecodedChar(bs: seq<Byte>)
    requires bs != [] && DecodeChar(bs).Some?
    ensures EncodeChar(DecodeChar(bs).value.0) == bs[..DecodeChar(bs).value.1]
  {
    var (c, k) := DecodeChar(bs).value;
    if k == 2 {
      Places(Lead(bs[0], 0xC0), Low(bs[1]));
    } else if k == 3 {
      var h := Lead(bs[0], 0xE0) * 0x40 + Low(bs[1]);
      Places(h, Low(bs[2]));
      Places(Lead(bs[0], 0xE0), Low(bs[1]));
      Places2(c as int, h, Lead(bs[0], 0xE0), Low(bs[1]));
    } else if k == 4 {
      var g := Lead(bs[0], 0xF0) * 0x40 + Low(bs[1]);
      var h := g * 0x40 + Low(bs[2]);
      Places(h, Low(bs[3]));
      Places(g, Low(bs[2]));
      Places(Lead(bs[0], 0xF0), Low(bs[1]));
      Places2(c as int, h, g, Low(bs[2]));
      Places3(c as int, g, Lead(bs[0], 0xF0), Low(bs[1]));
    }
  }

  /** Base-64 places. */
  lemma Places(hi: nat, lo: nat)
    requires lo < 0x40
    ensures (hi * 0x40 + lo) / 0x40 == hi && (hi * 0x40 + lo) % 0x40 == lo
  {}

  lemma Places2(n: nat, h: nat, g: nat, mid: nat)
    requires n / 0x40 == h && h == g * 0x40 + mid && mid < 0x40
    ensures n / 0x1000 == g && n / 0x40 % 0x40 == mid
  {}

  lemma Places3(n: nat, g: nat, f: nat, mid: nat)
    requires n / 0x1000 == g && g == f * 0x40 + mid && mid < 0x40
    ensures n / 0x4_0000 == f && n / 0x1000 % 0x40 == mid
  {}

  /** A byte sequence decodes to a text if and only if it is the encoding of that text. */
  lemma {:induction false} DecodeIsInverse(bs: seq<Byte>, s: string)
    ensures Decode(bs) == Some(s) <==> bs == Encode(s)
    decreases |bs|
  {
    RoundTrip(s);
    if Decode(bs) == Some(s) && bs != [] {
      var (c, k) := DecodeChar(bs).value;
      EncodeDecodedChar(bs);
      assert s[0] == c && Decode(bs[k..]) == Some(s[1..]);
      DecodeIsInverse(bs[k..], s[1..]);
      assert bs == bs[..k] + bs[k..];
    }
  }

  lemma {:induction false} EncodeConcat(a: string, b: string)
    ensures Encode(a + b) == Encode(a) + Encode(b)
  {
    if a == "" {
      assert a + b == b;
    } else {
      EncodeConcat(a[1..], b);
      assert (a + b)[0] == a[0] && (a + b)[1..] == a[1..] + b;
      Assoc(EncodeChar(a[0]), Encode(a[1..]), Encode(b));
    }
  }
}
