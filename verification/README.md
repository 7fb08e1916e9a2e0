# The router page embedder, verified

`tools/gen_router_ui.py` turns the text of the router's management page into a C header: it splits the text
into lines, escapes each line with `json.dumps`, rewrites the escape of the no-break space, and emits one
string literal a line between a fixed prologue and epilogue. The kernel includes the header and sends the
array (`src/net/router_http.c:220`). This project models the generator as a small compiler from texts to C
source, models the part of a C compiler that reads the header back, and proves what the two of them do
together, for every text.

Texts are Dafny strings, that is, sequences of Unicode scalar values; the strict UTF-8 decoding of the page
yields nothing else.

| file | contents |
|---|---|
| `Text.dfy` | texts, the normal form (U+00A0 becomes a space), occurrences and cuts |
| `Lines.dfy` | splitting into lines: scan, recursive definition, canonical partition |
| `Numerals.dfy`, `Json.dfy` | the JSON string writer and the reader of section 7 of RFC 8259 |
| `Replace.dfy`, `Rewrite.dfy` | `str.replace`, and what the rewrite of the escaped form does to the text |
| `Utf8.dfy` | UTF-8 (RFC 3629) with a strict decoder |
| `CLiteral.dfy`, `CSource.dfy` | the C11 reader: line splicing, tokens, directives, string literals, declarations, `sizeof` |
| `Meaning.dfy` | one emitted literal as C reads it |
| `Header.dfy`, `Reading.dfy` | the header as a list of lines, and its tokens as C sees them |
| `Embedding.dfy` | the main results |
| `Trigraphs.dfy` | translation phase 1, for compilers asked to replace trigraphs |
| `Generator.dfy` | the program |

The main results:

- Wherever the header is included, it is skipped if and only if its own guard macro is defined there
  (`Embedding.MeaningWhereIncluded`); in particular the guard of `include/router.h`, which
  `src/net/router_http.c:3` includes before it, does not hide it.
- On its own, the header compiles if and only if the text is not empty, each code point is BS, TAB, LF, FF, CR, in
  U+0020..U+007E or in U+00A0..U+FFFF, and the six characters `\u00a0` do not stand in the text as such. If it
  compiles, the array holds the UTF-8 bytes of the text, with U+00A0 turned into a space, and one NUL
  (`Embedding.MeaningPreserved`).
- Element by element, the file is the fixed prologue, one literal for each line of the text, and the fixed
  epilogue (`Embedding.FileLayout`).
- The rewrite of the escaped line is the escaping of the normalised line if and only if the line does not
  contain those six characters (`Rewrite.RewriteCommutes`); otherwise it strikes at the second half of an
  escaped backslash and leaves a lone backslash in front of a space.
- Two texts give the same header if and only if they have the same normal form, and the text recovered from a
  header generates that header again (`Embedding.HeaderInjective`, `Embedding.Regeneration`).
- Cutting the text differently does not change what the header means, except where a cut breaks up the six
  characters (`Rewrite.CutLaw`, `Embedding.CutIndependence`).

Where the code and its words disagree, the model follows the code. The closing message calls `len(html)` the
number of bytes, but it counts code points (`Embedding.LengthLaw`, `Embedding.ReportedIsNotBytes`). The
description says that the page is embedded, but an empty page, a character above U+FFFF such as an emoji, most
control characters and the literal `\u00a0` produce a header that C does not accept
(`Embedding.RejectedTexts`), and no-break spaces become spaces.

The C reader follows C11, where a backslash that starts no escape makes no token (section 6.4.4.4) and where
universal character names are limited (section 6.4.3). C99, which the Makefile asks for with `-std=gnu99`
(`Makefile:11`), has the same rules. That option leaves trigraphs alone; `Trigraphs.TrigraphPhase` says for
which texts it makes no difference.

## Model

| member | source | states |
|---|---|---|
| `Generator.GenerateHeader` | `tools/gen_router_ui.py:18-40` | the loop builds the file specified by `HeaderFor`; wherever the file is included it means the page, exactly for the embeddable texts; for every list of pieces that is a line partition of the text, the file holds one literal for each, from element 6 on; the reported number is the number of code points |
| `Lines.SplitLinesScan` | `tools/gen_router_ui.py:20` | the index scan yields the recursively defined lines, and these are a line partition of the text; `Lines.LineBoundaries` and `Header.NewlineText` say which characters end a line |
| `Lines.PartitionIsUnique` | `tools/gen_router_ui.py:20` | a list of pieces concatenates to the text, has no empty piece, ends every piece but the last with exactly one terminator, has no other terminator and divides no CR LF, if and only if it is the list of lines |
| `Lines.LineBoundaries` | `tools/gen_router_ui.py:20` | a character between two letters ends a line if and only if it is one of U+000A..U+000D, U+001C..U+001E, U+0085, U+2028 and U+2029, and then the cut is behind it |
| `Header.NewlineText` | `tools/gen_router_ui.py:20` | in a text without the nine boundaries other than the newline, the lines are what splitting at newlines gives, each with its newline put back, without an empty last part |
| `Lines.SplitCommutesWithNormalise` | `tools/gen_router_ui.py:20-30` | turning U+00A0 into a space moves no line end |
| `Json.DumpsLoop` | `tools/gen_router_ui.py:30` | the encoder's loop computes the escaped line with its quotation marks |
| `Json.LoadsOfDumps` | `tools/gen_router_ui.py:30` | a JSON reader gets the line back from its escaped form, for every text, surrogate pairs included |
| `Json.EscapeLeavesAlone` | `tools/gen_router_ui.py:30` | escaping changes nothing if and only if the text is printable ASCII without quotation marks and backslashes |
| `Json.EscapeIsLowerCase` | `tools/gen_router_ui.py:30` | the hexadecimal digits of the escapes are lower-case: escaping brings in no upper-case letter |
| `Json.EscapeSize` | `tools/gen_router_ui.py:30` | a code point costs 1, 2, 6 or 12 characters by its class, and the escaped form has the sum of the costs |
| `Replace.ReplaceScan` | `tools/gen_router_ui.py:30` | the scan computes the replacement and the number of matches |
| `Replace.ReplaceSize` | `tools/gen_router_ui.py:30` | every match changes the length by the difference between pattern and replacement |
| `Replace.ReplaceIsRejoining` | `tools/gen_router_ui.py:30` | however a string is cut at leftmost non-overlapping matches, replacing is joining the same pieces with the replacement |
| `Rewrite.EncodeIsFused` | `tools/gen_router_ui.py:30` | for every line, the rewritten escaped line is a one-pass translation of the text: a match is a U+00A0 or the six literal characters, never anything else |
| `Rewrite.RewriteCommutes` | `tools/gen_router_ui.py:30` | rewriting the escaped line equals escaping the normalised line if and only if the six literal characters do not occur |
| `Rewrite.RestoreOfFused` | `tools/gen_router_ui.py:30` | the rewrite can be undone up to the kind of the spaces, for every line |
| `Rewrite.FusedInjective` | `tools/gen_router_ui.py:30` | two lines are emitted the same if and only if their normal forms are equal |
| `Rewrite.HitsAre` | `tools/gen_router_ui.py:30` | the rewrite strikes once for each U+00A0 and once for each occurrence of the six characters |
| `Rewrite.FusedSize` | `tools/gen_router_ui.py:30` | each match shortens the line by exactly five characters |
| `Rewrite.CutLaw` | `tools/gen_router_ui.py:29-30` | two pieces are emitted like their concatenation if and only if the cut does not fall inside the six characters |
| `Utf8.DecodeIsInverse` | `tools/gen_router_ui.py:19` | bytes decode to a text if and only if they are its encoding |
| `Utf8.Table` | `tools/gen_router_ui.py:19` | the length of an encoded character by its range, and the value of its bytes, as in section 3 of RFC 3629 |
| `Meaning.LiteralTermination` | `tools/gen_router_ui.py:30-31` | for every line, before and after the rewrite, the C lexer is inside the literal at every interior position and leaves it at the last character |
| `Meaning.DecodeEscapeChar` | `tools/gen_router_ui.py:30` | C reads the JSON escape of a character as that character if it is expressible and rejects it otherwise |
| `Meaning.DecodeFused` | `tools/gen_router_ui.py:30` | C reads an emitted literal as the normalised line in UTF-8, or rejects it, and exactly which |
| `Meaning.DecodeAllPieces` | `tools/gen_router_ui.py:29-31` | adjacent literals of any pieces denote the concatenation of the pieces, or are rejected, and exactly which |
| `Header.FramingIsRecoverable` | `tools/gen_router_ui.py:21-39` | splitting any generated file at newlines gives the six strings of the prologue, written out, the literals, and the five strings of the epilogue, written out |
| `Header.OutListPlain` | `tools/gen_router_ui.py:21-38` | every element of `out` is printable ASCII and none ends in a backslash |
| `Header.OutListAt` | `tools/gen_router_ui.py:29-31` | the i-th literal is element 6 + i of `out`, and only the last literal ends the declaration |
| `Header.HeaderOfInjective` | `tools/gen_router_ui.py:21-39` | two headers are equal if and only if they hold the same literals in the same order |
| `Reading.SpliceLeavesHeader` | `tools/gen_router_ui.py:39` | C line splicing alters no generated file |
| `Reading.LexHeader` | `tools/gen_router_ui.py:21-39` | the tokens of the file are the guard directives with the macro `SHARKOS_ROUTER_UI_HTML_H` written out, the array with one literal for each line and one semicolon after the last, the length declaration, and `#endif` |
| `Reading.IncludeHeader` | `tools/gen_router_ui.py:21-39` | where a set of macros is defined, including the file comes down to its guard macro, its words and the value of its literals |
| `Reading.CompileHeader` | `tools/gen_router_ui.py:21-39` | compiling the file comes down to decoding its literals; without a literal it does not compile |
| `Embedding.MeaningOfPieces` | `tools/gen_router_ui.py:29-39` | the meaning of a header made from any list of pieces, with its exact domain |
| `Embedding.MeaningWhereIncluded` | `tools/gen_router_ui.py:19-39` | wherever it is included: the header is skipped if and only if `SHARKOS_ROUTER_UI_HTML_H` is defined there; otherwise, where no macro replaces one of its eight words, it compiles exactly for the embeddable texts, to the normalised text in UTF-8, a NUL and its length, and defines that macro |
| `Embedding.IncludedTwice` | `tools/gen_router_ui.py:24-25` | a second inclusion is skipped, wherever the first one declared the page |
| `Embedding.MeaningPreserved` | `tools/gen_router_ui.py:19-39` | compiled on its own, the generated header compiles exactly for the embeddable texts, to the normalised text in UTF-8, a NUL, and its length |
| `Embedding.FileLayout` | `tools/gen_router_ui.py:20-39` | for every line partition of the text, element 6 + i of the file is the indented literal of line i, with a semicolon after the last only; the first six and the last five elements are the strings of the prologue and the epilogue, written out |
| `Embedding.CutsAreHarmless` | `tools/gen_router_ui.py:20-31` | the lines, escaped and rewritten one by one, make up the whole text escaped and rewritten at once, for every text |
| `Embedding.CutIndependence` | `tools/gen_router_ui.py:29-31` | any pieces mean what the whole text means as one literal, unless the cuts break up the six characters, and exactly then |
| `Embedding.LinesRefineOneLiteral` | `tools/gen_router_ui.py:20-31` | the loop over the lines means what one literal for the whole text means, for every non-empty text |
| `Embedding.HeaderInjective` | `tools/gen_router_ui.py:20-39` | two texts yield the same file if and only if their normal forms are equal, embeddable or not |
| `Embedding.Recovery` | `tools/gen_router_ui.py:19-39` | the file yields a text if and only if the page is embeddable, and only the normalised page |
| `Embedding.FixedPoint` | `tools/gen_router_ui.py:19-39` | generating from the normalised text gives the same file, for every text |
| `Embedding.Regeneration` | `tools/gen_router_ui.py:19-39` | the text recovered from a file generates that file again |
| `Embedding.LengthLaw` | `tools/gen_router_ui.py:34-40` | the declared length is the number of UTF-8 bytes minus the number of U+00A0, modulo 2^32; below 4 GiB it is the reported number if and only if the text is ASCII apart from U+00A0 |
| `Embedding.LineSize` | `tools/gen_router_ui.py:30` | n code points escape to n + 2 up to 12n + 2 characters; the emitted line has the cost of its code points, minus five for each match |
| `Embedding.FileSize` | `tools/gen_router_ui.py:21-39` | the exact size of the file, as a sum over the text and its lines |
| `Embedding.RejectedTexts` | `tools/gen_router_ui.py:29-31` | four texts whose header does not compile |
| `Embedding.ReportedIsNotBytes` | `tools/gen_router_ui.py:34-40` | every text of one character in U+00A1..U+07FF compiles to two bytes and a NUL, while the generator reports 1 |
| `Trigraphs.HeaderTrigraphs` | `tools/gen_router_ui.py:29-39` | the file contains a trigraph if and only if the text does: escaping and rewriting bring in none and hide none |
| `Trigraphs.TrigraphPhase` | `tools/gen_router_ui.py:29-39` | trigraph replacement leaves the file alone if and only if the text contains no trigraph |
| `Trigraphs.TrigraphTable` | `tools/gen_router_ui.py:29-39` | the nine sequences that the phase replaces, by what, and that it replaces no other |

## Left out

- Reading and writing the files, the paths and the closing message: the text is a parameter, the file and the reported number are results.
- Universal-newline translation when the page is read (CR LF and CR become LF beforehand): the model also covers texts with CR.
- Newline translation when the file is written on Windows: the file is the joined text.
- The rest of the C language: the reader knows the tokens and the two declarations that a generated header consists of and rejects everything else.
- Replacement lists of macros: where a word of the header is defined as a macro, the reader says so and goes no further.
- Preprocessor directives other than the include guard: they do not occur in the header.
- Extensions of particular compilers, such as accepting an unknown escape with a warning, and limits on the length of string literals.
- The HTTP server that sends the array, the kernel and the other tools: no part of them decides what the header means.
