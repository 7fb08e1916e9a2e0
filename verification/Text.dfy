/**
 Texts are sequences of Unicode scalar values, which is exactly what Dafny's `string` is.
 This module holds the vocabulary shared by the writer and the reader of the generated header.
 */
module Text {

  datatype Option<+T> = None | Some(value: T)

  /** U+00A0 NO-BREAK SPACE, the one code point the generator does not keep. */
  const NBSP: char := '\U{A0}'

  /** The six characters that the generator rewrites, wherever they stand in an escaped line. */
  const ESCAPED_NBSP: string := "\\u00a0"

  function NormaliseChar(c: char): (r: char)
    ensures r == if c as int == 0xA0 then ' ' else c
  {
    if c == NBSP then ' ' else c
  }

  /** What the page is meant to say: the text with every no-break space turned into a space. */
  function Normalise(s: string): (r: string)
    ensures |r| == |s|
    ensures forall i :: 0 <= i < |s| ==> r[i] == NormaliseChar(s[i])
  {
    seq(|s|, i requires 0 <= i < |s| => NormaliseChar(s[i]))
  }

  lemma NormaliseConcat(a: string, b: string)
    ensures Normalise(a + b) == Normalise(a) + Normalise(b)
  {}

  lemma NormaliseTail(s: string)
    requires s != ""
    ensures Normalise(s)[1..] == Normalise(s[1..])
    ensures Normalise(s) == [NormaliseChar(s[0])] + Normalise(s[1..])
  {}

  lemma Assoc<T>(a: seq<T>, b: seq<T>, c: seq<T>)
    ensures a + (b + c) == a + b + c
  {}

  lemma Assoc4<T>(a: seq<T>, b: seq<T>, c: seq<T>, d: seq<T>)
    ensures a + (b + c + d) == a + b + c + d
  {}

  /** Concatenation of all pieces, in order. */
  function Flatten<T>(pieces: seq<seq<T>>): seq<T> {
    if pieces == [] then [] else pieces[0] + Flatten(pieces[1..])
  }

  /** `pat` stands somewhere in `s`. */
  ghost predicate Occurs(pat: string, s: string) {
    exists i :: 0 <= i <= |s| && pat <= s[i..]
  }

  lemma OccursStep(pat: string, s: string)
    requires s != "" && pat != ""
    ensures Occurs(pat, s) <==> pat <= s || Occurs(pat, s[1..])
  {
    if pat <= s {
      assert s[0..] == s;
    }
    if Occurs(pat, s[1..]) {
      var i :| 0 <= i <= |s[1..]| && pat <= s[1..][i..];
      assert s[1..][i..] == s[i + 1..];
    }
    if Occurs(pat, s) {
      var i :| 0 <= i <= |s| && pat <= s[i..];
      if i == 0 {
        assert s[0..] == s;
      } else {
        assert s[i..] == s[1..][i - 1..];
      }
    }
  }

  lemma OccursAfter(pat: string, p: string, s: string)
    requires Occurs(pat, s)
    ensures Occurs(pat, p + s)
  {
    var i :| 0 <= i <= |s| && pat <= s[i..];
    assert (p + s)[|p| + i..] == s[i..];
  }

  lemma OccursBefore(pat: string, s: string, p: string)
    requires Occurs(pat, s)
    ensures Occurs(pat, s + p)
  {
    var i :| 0 <= i <= |s| && pat <= s[i..];
    assert (s + p)[i..] == s[i..] + p;
  }

  /** `pat` starts in `a` and ends in `b`: the cut between `a` and `b` falls inside it. */
  ghost predicate Straddles(pat: string, a: string, b: string) {
    exists i :: 0 <= i < |a| < i + |pat| && pat <= (a + b)[i..]
  }

  lemma PrefixStep(p: string, s: string)
    requires p != "" && s != ""
    ensures p <= s <==> p[0] == s[0] && p[1..] <= s[1..]
  {
    if p[0] == s[0] && p[1..] <= s[1..] {
      forall i | 0 <= i < |p|
        ensures p[i] == s[i]
      {
        if i > 0 {
          assert p[i] == p[1..][i - 1] == s[1..][i - 1];
        }
      }
    }
  }

  lemma PrefixOfConcat(pat: string, a: string, b: string)
    ensures pat <= a + b <==> pat <= a || (|a| < |pat| && pat <= a + b)
    ensures pat <= a ==> (a + b)[|pat|..] == a[|pat|..] + b
  {
    if |pat| <= |a| {
      assert (a + b)[..|pat|] == a[..|pat|];
    }
  }

  lemma DropOfConcat(a: string, b: string, k: nat, i: nat)
    requires k <= |a| && k <= i <= |a| + |b|
    ensures (a + b)[i..] == (a[k..] + b)[i - k..]
  {
    assert (a + b)[k..] == a[k..] + b;
    assert (a + b)[i..] == (a + b)[k..][i - k..];
  }

  /** Dropping characters on the left of a harmless cut leaves it harmless. */
  lemma StraddlesDrop(pat: string, a: string, b: string, k: nat)
    requires k <= |a|
    ensures Straddles(pat, a[k..], b) ==> Straddles(pat, a, b)
  {
    if Straddles(pat, a[k..], b) {
      var i :| 0 <= i < |a[k..]| < i + |pat| && pat <= (a[k..] + b)[i..];
      DropOfConcat(a, b, k, i + k);
    }
  }

  lemma StraddlesSplit(pat: string, a: string, b: string)
    requires a != ""
    ensures Straddles(pat, a, b) ==> (|a| < |pat| && pat <= a + b) || Straddles(pat, a[1..], b)
  {
    if Straddles(pat, a, b) {
      var i :| 0 <= i < |a| < i + |pat| && pat <= (a + b)[i..];
      if i == 0 {
        assert (a + b)[0..] == a + b;
      } else {
        DropOfConcat(a, b, 1, i);
      }
    }
  }

  lemma StraddlesStep(pat: string, a: string, b: string)
    requires a != ""
    ensures Straddles(pat, a, b) <==> (|a| < |pat| && pat <= a + b) || Straddles(pat, a[1..], b)
  {
    StraddlesSplit(pat, a, b);
    StraddlesDrop(pat, a, b, 1);
    assert (a + b)[0..] == a + b;
  }

  lemma PrefixAt(pat: string, s: string, i: nat)
    requires i <= |s|
    ensures pat <= s[i..] <==> i + |pat| <= |s| && s[i..i + |pat|] == pat
  {
    if i + |pat| <= |s| {
      assert s[i..][..|pat|] == s[i..i + |pat|];
    }
  }

  /** An occurrence in a concatenation is on the left, on the right, or across the cut. */
  lemma OccursConcat(pat: string, a: string, b: string)
    requires pat != ""
    ensures Occurs(pat, a + b) <==> Occurs(pat, a) || Occurs(pat, b) || Straddles(pat, a, b)
  {
    if Occurs(pat, a) {
      OccursBefore(pat, a, b);
    }
    if Occurs(pat, b) {
      OccursAfter(pat, a, b);
    }
    if Occurs(pat, a + b) {
      var i :| 0 <= i <= |a + b| && pat <= (a + b)[i..];
      if i >= |a| {
        assert (a + b)[i..] == b[i - |a|..];
      } else if i + |pat| <= |a| {
        assert (a + b)[i..] == a[i..] + b;
        assert pat == a[i..][..|pat|];
      }
    }
  }
}
