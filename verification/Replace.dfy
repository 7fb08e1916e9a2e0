/**
 `str.replace`: the scan, its specification, and an account of it as cutting and rejoining.
 */
module Replace {
  import opened Text

  /** Python's `str.replace`: leftmost matches, not overlapping. */
  function ReplaceAll(s: string, pat: string, rep: string): string
    requires pat != ""
  {
    if s == "" then ""
    else if pat <= s then rep + ReplaceAll(s[|pat|..], pat, rep)
    else [s[0]] + ReplaceAll(s[1..], pat, rep)
  }

  function CountMatches(s: string, pat: string): nat
    requires pat != ""
  {
    if s == "" then 0
    else if pat <= s then 1 + CountMatches(s[|pat|..], pat)
    else CountMatches(s[1..], pat)
  }

  lemma MulStep(k: nat, m: nat)
    ensures k * (1 + m) == k + k * m
  {}

  lemma {:induction false} ReplaceSize(s: string, pat: string, rep: string)
    requires pat != ""
    ensures |ReplaceAll(s, pat, rep)| + |pat| * CountMatches(s, pat) == |s| + |rep| * CountMatches(s, pat)
  {
    if s == "" {
    } else if pat <= s {
      var m := CountMatches(s[|pat|..], pat);
      ReplaceSize(s[|pat|..], pat, rep);
      MulStep(|pat|, m);
      MulStep(|rep|, m);
    } else {
      ReplaceSize(s[1..], pat, rep);
    }
  }

  /** The scan behind `str.replace`, on an index into the line. */
  method ReplaceScan(s: string, pat: string, rep: string) returns (r: string, hits: nat)
    requires pat != ""
    ensures r == ReplaceAll(s, pat, rep)
    ensures hits == CountMatches(s, pat)
  {
    r, hits := "", 0;
    var i := 0;
    assert s[0..] == s;
    while i < |s|
      invariant 0 <= i <= |s|
      invariant ReplaceAll(s, pat, rep) == r + ReplaceAll(s[i..], pat, rep)
      invariant CountMatches(s, pat) == hits + CountMatches(s[i..], pat)
    {
      PrefixAt(pat, s, i);
      if i + |pat| <= |s| && s[i..i + |pat|] == pat {
        assert s[i..][|pat|..] == s[i + |pat|..];
        r, hits, i := r + rep, hits + 1, i + |pat|;
      } else {
        assert s[i..][1..] == s[i + 1..];
        r, i := r + [s[i]], i + 1;
      }
    }
    assert s[i..] == "";
  }

  // ---------- An independent account of the same operation ----------

  /** The pieces, put together with a separator between them. */
  function JoinWith(pieces: seq<string>, sep: string): string {
    if pieces == [] then ""
    else if |pieces| == 1 then pieces[0]
    else pieces[0] + sep + JoinWith(pieces[1..], sep)
  }

  /**
   `pieces` is `s` cut at leftmost, non-overlapping matches of `pat`: each piece but the last is followed by
   a match, before which no other match starts, and the last piece holds none.
   */
  ghost predicate IsLeftmostCut(pieces: seq<string>, s: string, pat: string)
    requires pat != ""
  {
    && pieces != []
    && JoinWith(pieces, pat) == s
    && (forall i :: 0 <= i < |pieces| - 1 ==> !Occurs(pat, pieces[i] + pat[..|pat| - 1]))
    && !Occurs(pat, pieces[|pieces| - 1])
  }

  lemma {:induction false} NothingToReplace(s: string, pat: string, rep: string)
    requires pat != "" && !Occurs(pat, s)
    ensures ReplaceAll(s, pat, rep) == s
    ensures CountMatches(s, pat) == 0
  {
    if s != "" {
      OccursStep(pat, s);
      NothingToReplace(s[1..], pat, rep);
      assert [s[0]] + s[1..] == s;
    }
  }

  /** The scan reaches a match that nothing before it hides. */
  lemma {:induction false} ReplaceFirst(p: string, rest: string, pat: string, rep: string)
    requires pat != "" && !Occurs(pat, p + pat[..|pat| - 1])
    ensures ReplaceAll(p + pat + rest, pat, rep) == p + rep + ReplaceAll(rest, pat, rep)
    ensures CountMatches(p + pat + rest, pat) == 1 + CountMatches(rest, pat)
  {
    var s := p + pat + rest;
    if p == "" {
      assert s == pat + rest;
      assert s[|pat|..] == rest;
      assert "" + rep == rep;
    } else {
      var before := p + pat[..|pat| - 1];
      OccursStep(pat, before);
      assert before[1..] == p[1..] + pat[..|pat| - 1];
      assert before[..|pat|] == s[..|pat|];
      assert pat <= s <==> pat == s[..|pat|];
      assert s[1..] == p[1..] + pat + rest;
      ReplaceFirst(p[1..], rest, pat, rep);
      Assoc4([p[0]], p[1..], rep, ReplaceAll(rest, pat, rep));
      assert [p[0]] + p[1..] == p;
    }
  }

  /** However a text is cut at its leftmost matches, replacing them is joining the pieces anew. */
  lemma {:induction false} ReplaceIsRejoining(pieces: seq<string>, s: string, pat: string, rep: string)
    requires pat != "" && IsLeftmostCut(pieces, s, pat)
    ensures ReplaceAll(s, pat, rep) == JoinWith(pieces, rep)
    ensures CountMatches(s, pat) == |pieces| - 1
    decreases |pieces|
  {
    if |pieces| == 1 {
      NothingToReplace(s, pat, rep);
    } else {
      var rest := pieces[1..];
      assert forall i :: 0 <= i < |rest| ==> rest[i] == pieces[i + 1];
      assert rest[|rest| - 1] == pieces[|pieces| - 1];
      ReplaceIsRejoining(rest, JoinWith(rest, pat), pat, rep);
      ReplaceFirst(pieces[0], JoinWith(rest, pat), pat, rep);
    }
  }
}
