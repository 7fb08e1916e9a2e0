/**
 Line splitting with kept terminators (`str.splitlines(keepends=True)`).
 */
module Lines {
  import opened Text

  /** The characters Python takes as line boundaries. */
  predicate IsBreak(c: char) {
    || c == '\n' || c == '\r'
    || c == '\U{B}' || c == '\U{C}'
    || c == '\U{1C}' || c == '\U{1D}' || c == '\U{1E}'
    || c == '\U{85}' || c == '\U{2028}' || c == '\U{2029}'
  }

  /** Length of the first line of `s`, terminator included. */
  function LineEnd(s: string): (k: nat)
    requires s != ""
    ensures 0 < k <= |s|
  {
    if IsBreak(s[0]) then
      if s[0] == '\r' && |s| > 1 && s[1] == '\n' then 2 else 1
    else if |s| == 1 then 1
    else 1 + LineEnd(s[1..])
  }

  function SplitLines(s: string): seq<string> {
    if s == "" then []
    else [s[..LineEnd(s)]] + SplitLines(s[LineEnd(s)..])
  }

  /** Length of the terminator that closes `l`: CR LF counts as one terminator of length 2. */
  function TerminatorLength(l: string): (k: nat)
    ensures k <= |l|
  {
    if |l| >= 2 && l[|l| - 2] == '\r' && l[|l| - 1] == '\n' then 2
    else if |l| >= 1 && IsBreak(l[|l| - 1]) then 1
    else 0
  }

  /** A nonempty line whose only line boundary, if any, is the terminator at its end. */
  ghost predicate IsLine(l: string) {
    && l != ""
    && forall i :: 0 <= i < |l| - TerminatorLength(l) ==> !IsBreak(l[i])
  }

  /** The cut between `l` and `rest` is a place where a line ends: after a terminator, not inside CR LF. */
  predicate EndsBefore(l: string, rest: string)
    requires l != ""
  {
    rest != "" ==> TerminatorLength(l) > 0 && !(l[|l| - 1] == '\r' && rest[0] == '\n')
  }

  /** What it means to split `s` into lines, without saying how. */
  ghost predicate IsLinePartition(lines: seq<string>, s: string) {
    && Flatten(lines) == s
    && (forall i :: 0 <= i < |lines| ==> IsLine(lines[i]))
    && (forall i :: 0 <= i < |lines| ==> EndsBefore(lines[i], Flatten(lines[i + 1..])))
  }

  lemma {:induction false} LineEndIsCut(s: string)
    requires s != ""
    ensures IsLine(s[..LineEnd(s)])
    ensures EndsBefore(s[..LineEnd(s)], s[LineEnd(s)..])
  {
    var k := LineEnd(s);
    if !IsBreak(s[0]) && |s| > 1 {
      LineEndIsCut(s[1..]);
      var l := s[1..][..k - 1];
      assert s[..k] == [s[0]] + l;
      assert s[1..][k - 1..] == s[k..];
      assert TerminatorLength(s[..k]) == TerminatorLength(l);
    }
  }

  lemma {:induction false} CutIsLineEnd(s: string, k: nat)
    requires 0 < k <= |s|
    requires IsLine(s[..k])
    requires EndsBefore(s[..k], s[k..])
    ensures LineEnd(s) == k
  {
    var l := s[..k];
    assert l[0] == s[0] && l[k - 1] == s[k - 1];
    assert k < |s| ==> s[k..] != "" && s[k..][0] == s[k];
    if IsBreak(s[0]) {
      if k > 1 {
        assert TerminatorLength(l) == |l|;
      }
    } else if k > 1 {
      var m := s[1..][..k - 1];
      assert l == [s[0]] + m;
      assert s[1..][k - 1..] == s[k..];
      assert m[|m| - 1] == l[|l| - 1];
      assert TerminatorLength(l) == TerminatorLength(m);
      forall i | 0 <= i < |m| - TerminatorLength(m)
        ensures !IsBreak(m[i])
      {
        assert m[i] == l[i + 1];
      }
      CutIsLineEnd(s[1..], k - 1);
    }
  }

  /** Splitting loses nothing and yields lines ... */
  lemma {:induction false} SplitIsPartition(s: string)
    ensures IsLinePartition(SplitLines(s), s)
  {
    if s != "" {
      var k := LineEnd(s);
      var rest := SplitLines(s[k..]);
      LineEndIsCut(s);
      SplitIsPartition(s[k..]);
      var lines := SplitLines(s);
      assert lines[1..] == rest;
      forall i | 0 <= i < |lines|
        ensures IsLine(lines[i]) && EndsBefore(lines[i], Flatten(lines[i + 1..]))
      {
        if i > 0 {
          assert lines[i] == rest[i - 1];
          assert lines[i + 1..] == rest[i..];
        }
      }
    }
  }

  /** ... and no other list of pieces does: the partition is canonical. */
  lemma {:induction false} PartitionIsUnique(lines: seq<string>, s: string)
    ensures IsLinePartition(lines, s) <==> lines == SplitLines(s)
    decreases |lines|
  {
    if lines == SplitLines(s) {
      SplitIsPartition(s);
    }
    if IsLinePartition(lines, s) && lines != [] {
      var k := |lines[0]|;
      assert IsLine(lines[0]) && EndsBefore(lines[0], Flatten(lines[1..]));
      assert s[..k] == lines[0] && s[k..] == Flatten(lines[1..]);
      CutIsLineEnd(s, k);
      var rest := lines[1..];
      forall i | 0 <= i < |rest|
        ensures IsLine(rest[i]) && EndsBefore(rest[i], Flatten(rest[i + 1..]))
      {
        assert rest[i] == lines[i + 1];
        assert rest[i + 1..] == lines[i + 2..];
      }
      PartitionIsUnique(rest, s[k..]);
    }
  }

  /** Where a line ends that starts with `n` characters other than boundaries. */
  lemma {:induction false} LineEndAfterScan(s: string, n: nat)
    requires s != "" && n <= |s|
    requires forall x :: 0 <= x < n ==> !IsBreak(s[x])
    requires n < |s| ==> IsBreak(s[n])
    ensures LineEnd(s) ==
            if n == |s| then n
            else if s[n] == '\r' && n + 1 < |s| && s[n + 1] == '\n' then n + 2
            else n + 1
  {
    if n > 0 && |s| > 1 {
      LineEndAfterScan(s[1..], n - 1);
    }
  }

  lemma SplitStep(s: string, k: nat)
    requires s != "" && LineEnd(s) == k
    ensures SplitLines(s) == [s[..k]] + SplitLines(s[k..])
  {}

  /** One round of the scan: past `n` the boundary is at `i`, and the slice up to it is the next line. */
  lemma ScanStep(s: string, j: nat, n: nat, i: nat)
    requires j <= n <= |s| && j < |s|
    requires forall x :: j <= x < n ==> !IsBreak(s[x])
    requires n < |s| ==> IsBreak(s[n])
    requires i == if n == |s| then n
                  else if s[n] == '\r' && n + 1 < |s| && s[n + 1] == '\n' then n + 2
                  else n + 1
    ensures SplitLines(s[j..]) == [s[j..i]] + SplitLines(s[i..])
  {
    var t, m := s[j..], n - j;
    assert forall x :: 0 <= x < |t| ==> t[x] == s[j + x];
    assert m < |t| <==> n < |s|;
    assert m + 1 < |t| <==> n + 1 < |s|;
    LineEndAfterScan(t, m);
    SplitStep(t, i - j);
    assert t[..i - j] == s[j..i];
    assert t[i - j..] == s[i..];
  }

  /** The scan: an index walks to the next boundary, steps over it, and the slice becomes a line. */
  method SplitLinesScan(s: string) returns (lines: seq<string>)
    ensures lines == SplitLines(s)
    ensures IsLinePartition(lines, s)
  {
    lines := [];
    var j := 0;
    assert s[0..] == s;
    while j < |s|
      invariant 0 <= j <= |s|
      invariant SplitLines(s) == lines + SplitLines(s[j..])
    {
      var i := j;
      while i < |s| && !IsBreak(s[i])
        invariant j <= i <= |s|
        invariant forall x :: j <= x < i ==> !IsBreak(s[x])
      {
        i := i + 1;
      }
      ghost var n := i;
      if i < |s| {
        if s[i] == '\r' && i + 1 < |s| && s[i + 1] == '\n' {
          i := i + 2;
        } else {
          i := i + 1;
        }
      }
      ScanStep(s, j, n, i);
      Assoc(lines, [s[j..i]], SplitLines(s[i..]));
      lines := lines + [s[j..i]];
      j := i;
    }
    assert s[j..] == "";
    PartitionIsUnique(lines, s);
  }

  /** The ten characters that end a line, shown on a text with the character in the middle. */
  lemma LineBoundaries(c: char)
    ensures |SplitLines(['x', c, 'y'])| == 2 <==>
            c as int in {0xA, 0xB, 0xC, 0xD, 0x1C, 0x1D, 0x1E, 0x85, 0x2028, 0x2029}
    ensures |SplitLines(['x', c, 'y'])| == 1 || SplitLines(['x', c, 'y']) == [['x', c], ['y']]
  {
    var s := ['x', c, 'y'];
    assert s[1..] == [c, 'y'] && [c, 'y'][1..] == ['y'];
    assert IsBreak(c) <==> c as int in {0xA, 0xB, 0xC, 0xD, 0x1C, 0x1D, 0x1E, 0x85, 0x2028, 0x2029};
    if IsBreak(c) {
      LineEndAfterScan(s, 1);
      assert s[..2] == ['x', c] && s[2..] == ['y'];
      assert SplitLines(['y']) == [['y']] by {
        assert ['y'][..1] == ['y'] && ['y'][1..] == [];
      }
    } else {
      LineEndAfterScan(s, 3);
      assert s[3..] == [];
    }
  }

  /** A character that ends no line goes to the front of the first line. */
  lemma SplitLinesCons(c: char, rest: string)
    requires !IsBreak(c)
    ensures SplitLines([c] + rest) ==
            if rest == "" then [[c]] else [[c] + SplitLines(rest)[0]] + SplitLines(rest)[1..]
  {
    var s := [c] + rest;
    assert s[1..] == rest;
    if rest == "" {
      assert s[..1] == [c] && s[1..] == [];
    } else {
      var k := LineEnd(rest);
      assert LineEnd(s) == k + 1;
      assert s[..k + 1] == [c] + rest[..k];
      assert s[k + 1..] == rest[k..];
    }
  }

  /** Turning no-break spaces into spaces does not move any line boundary. */
  lemma {:induction false} NormaliseKeepsLineEnd(s: string)
    requires s != ""
    ensures LineEnd(Normalise(s)) == LineEnd(s)
  {
    if !IsBreak(s[0]) && |s| > 1 {
      NormaliseTail(s);
      NormaliseKeepsLineEnd(s[1..]);
    }
  }

  function NormaliseAll(lines: seq<string>): (r: seq<string>)
    ensures |r| == |lines|
    ensures forall i :: 0 <= i < |lines| ==> r[i] == Normalise(lines[i])
  {
    seq(|lines|, i requires 0 <= i < |lines| => Normalise(lines[i]))
  }

  lemma {:induction false} SplitCommutesWithNormalise(s: string)
    ensures SplitLines(Normalise(s)) == NormaliseAll(SplitLines(s))
  {
    if s != "" {
      var k := LineEnd(s);
      NormaliseKeepsLineEnd(s);
      SplitCommutesWithNormalise(s[k..]);
      assert Normalise(s)[..k] == Normalise(s[..k]);
      assert Normalise(s)[k..] == Normalise(s[k..]);
    }
  }
}
