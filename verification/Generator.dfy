/**
 The program: `main` of the generator, without its file access.
 */
module Generator {
  import opened Text
  import opened Lines
  import opened Json
  import opened Replace
  import opened Rewrite
  import opened Header
  import CSource
  import Embedding

  lemma TakeOneMore<T>(p: seq<T>, q: seq<T>, i: nat)
    requires i < |q|
    ensures p + q[..i] + [q[i]] == p + q[..i + 1]
  {}

  /**
   Builds the header from the text of the page. `reported` is the number in the closing message. Wherever the
   file is included it means the text, for exactly the texts that can be embedded, and it holds one literal for
   each line.
   */
  method GenerateHeader(html: string) returns (file: string, reported: nat)
    ensures file == HeaderFor(html)
    ensures forall macros :: CSource.Include(file, macros) == Embedding.InclusionOf(html, macros)
    ensures forall lines :: IsLinePartition(lines, html) ==> Embedding.HoldsLines(SplitAtNewlines(file), lines)
    ensures reported == |html|
  {
    var lines := SplitLinesScan(html);
    var out := PROLOGUE;
    for index := 0 to |lines|
      invariant out == PROLOGUE + LiteralLines(lines)[..index]
    {
      var dumped := DumpsLoop(lines[index]);
      var encoded, hits := ReplaceScan(dumped, "\\u00a0", " ");
      TakeOneMore(PROLOGUE, LiteralLines(lines), index);
      out := out + ["    " + encoded + (if index == |lines| - 1 then ";" else "")];
    }
    assert LiteralLines(lines)[..|lines|] == LiteralLines(lines);
    out := out + EPILOGUE;
    file := Join(out);
    reported := |html|;
    forall macros
      ensures CSource.Include(file, macros) == Embedding.InclusionOf(html, macros)
    {
      Embedding.MeaningWhereIncluded(html, file, macros);
    }
    forall pieces | IsLinePartition(pieces, html)
      ensures Embedding.HoldsLines(SplitAtNewlines(file), pieces)
    {
      Embedding.FileLayout(html, pieces);
    }
  }
}
