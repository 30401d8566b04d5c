# CSC230 programs, modelled and verified in Dafny

This project models the computational core of five small C programs from a
systems-programming course, and proves what each one does:

- **ugrep**, a regular-expression matcher.
  - `p6/pattern.c`: a pattern tree whose nodes fill a `(len+1)×(len+1)`
    boolean table, where cell `[b][e]` means "`str[b..e)` matches".
  - `parse.c`: a recursive-descent parser that builds the tree.
  - `ugrep.c`: `reportMatches`, which turns a finished table into highlighted and
    plain output.
- **sudoku**, a checker and solver.
  - `p2/validate.c`: the array, row, column and box validators.
  - `p2/solve.c`: the in-place fill-and-backtrack search.
- **contest**, a programming-contest scoreboard.
  - `p4/model.c`: the problem, contestant and contest records with their lookups.
  - `p4/command.c`: the comparators, the report filters, and the state changes
    made by the `problem`, `contestant`, `attempt` and `solved` commands.
- **conceal / extract**, steganography in the low bits of image bytes.
  - `p5/bits.c`: the bit helpers.
  - `p5/conceal.c`, `p5/extract.c`: the embedding, padding and extraction loops.
- **spellcheck**, the word list (`p3/wordlist.c`).

The model follows the code's own form:
- Code that works in place is imperative Dafny: tables are `array2<bool>`, the
  sudoku grid is an `array2<int>`, image bytes and the word table are arrays, and
  contests, problems and contestants are classes.
- Each such method is proved against a specification function or predicate:
  - `Patterns.Matches` gives the cells each pattern sets.
  - `Parse.Atomic` … `Parse.PatternParse` give the parser's result.
  - `Ugrep.Report` gives the output segments.
  - `Validate.ArrayOk`, `RowsOk`, `ColsOk` and `SquaresOk` give the validators' verdicts.
  - `Conceal.IsConcealed` and `Extract.IsExtraction` give the bit layout.
  - `WordList.Inserted` gives the word list after an insertion.
- Separate lemmas state what those specifications mean.

The model follows the code, not textbook semantics. Where the programs' own
description says otherwise, the code wins:
- `+` and `*` are not a transitive closure. One extra equal-length repetition
  marks every longer end in the row, and two unequal repetitions are not joined
  (`PlusOvermatches`, `PlusMissesRepetition`).
- The reporter does not pick one longest, non-overlapping match per position.
  It emits every true cell as its own highlighted segment, overlaps included
  (`OverlappingHighlights`).
- A parenthesised group closes only after a `|`, so `(a)` is rejected while
  `a|b)` and `(a|b` are accepted.

Modules: `Wrappers` (Option/Result), `Arith` (helper arithmetic), `Bits`,
`Patterns`, `PatternProperties`, `Parse`, `ParseProperties`, `Ugrep`,
`UgrepProperties`, `Validate`, `Solve`, `ContestModel`, `Command`, `Conceal`,
`Extract`, `WordList`.

## Model

| member | source | states |
|---|---|---|
| Patterns.Matches | p6/pattern.h:28-40 | every cell a pattern marks lies in the table's upper triangle, 0 <= b <= e <= len |
| Patterns.Match | p6/pattern.h:28-40 | matching sets exactly the cells of Matches(p, s) and never clears a cell that was already true |
| Patterns.MatchLiteral | p6/pattern.c:47-58 | sets [i][i+1] exactly where s[i] is the symbol; every other cell is unchanged |
| Patterns.MatchDot | p6/pattern.c:74-81 | sets [i][i+1] for every i < len and nothing else |
| Patterns.MatchStart | p6/pattern.c:96-100 | sets only [0][0] |
| Patterns.MatchEnd | p6/pattern.c:115-119 | sets only [len-1][len-1] |
| Patterns.MatchCharacterClass | p6/pattern.c:268-280 | sets [i][i+1] exactly where s[i] is one of the class's characters |
| Patterns.ConcatenateTables | p6/pattern.c:178-187 | from two sub-tables, sets [b][e] iff some k in b..e has tbl1[b][k] and tbl2[k][e] |
| Patterns.MatchConcatenation | p6/pattern.c:162-191 | sets exactly Matches(Concatenation(p1, p2), s) |
| Patterns.AlternateTables | p6/pattern.c:210-216 | from two sub-tables, sets [b][e] iff either sub-table has it |
| Patterns.MatchAlternation | p6/pattern.c:194-220 | sets exactly Matches(Alternation(p1, p2), s) |
| Patterns.RepeatTables | p6/pattern.c:333-344 | applies the copy-and-extend loop of the repetition operators to a sub-table, with the diagonal added for `*` |
| Patterns.MatchPlus | p6/pattern.c:325-346 | sets exactly Matches(Plus(q), s) |
| Patterns.MatchAsterisk | p6/pattern.c:348-372 | sets exactly Matches(Asterisk(q), s) |
| Patterns.MatchQuestion | p6/pattern.c:374-393 | sets exactly Matches(Question(q), s) |
| PatternProperties.LiteralExact | p6/pattern.c:55-57 | a literal matches (b, e) iff b < len, e = b + 1 and s[b] is the symbol |
| PatternProperties.DotEveryCharacter | p6/pattern.c:79-80 | a dot matches (b, e) iff b < len and e = b + 1 |
| PatternProperties.ClassExact | p6/pattern.c:274-279 | a class matches (b, e) iff e = b + 1 and s[b] is one of its characters |
| PatternProperties.AnchorsExact | p6/pattern.c:96-119 | `^` matches only (0, 0); `$` matches only (len-1, len-1), and only when len >= 1 |
| PatternProperties.ConcatenationSplits | p6/pattern.c:178-187 | a concatenation matches (b, e) iff p1 matches (b, k) and p2 matches (k, e) for some k |
| PatternProperties.AlternationIsUnion | p6/pattern.c:210-216 | an alternation matches exactly the union of its two sides |
| PatternProperties.QuestionIsInnerOrEmpty | p6/pattern.c:382-391 | `?` matches the inner matches plus every empty span (b, b) |
| PatternProperties.PlusKeepsInner | p6/pattern.c:335-336 | `+` keeps every inner match |
| PatternProperties.PlusExact | p6/pattern.c:333-344 | `+` matches (b, x) iff the inner pattern does, or x < len and an inner match (b, e) with e <= x is followed by an inner match (e, 2e-b) |
| PatternProperties.AsteriskIsPlusOrEmpty | p6/pattern.c:356-370 | `*` matches exactly what `+` matches plus every empty span |
| PatternProperties.PlusOvermatches | p6/pattern.c:337-340 | `a+` on "aab\n" marks (0, 3), a span that ends after a non-`a` |
| PatternProperties.PlusMissesRepetition | p6/pattern.c:333-344 | `a+` on "aaa" does not mark (0, 3): it is not a closure |
| PatternProperties.PlusOverrunReadsBelowDiagonal | p6/pattern.c:337 | when column 2e-b is past the row, the flat-array read lands below the diagonal of row e+1, which no pattern marks |
| Parse.Peek | parse.c:59 | the character at a position, or the terminator NUL past the end of the string |
| Parse.StrChr | parse.c:28 | finds the first occurrence of c, and always finds the terminator NUL |
| Parse.OrdinaryIsStrChr | parse.c:25-31 | a character is ordinary iff strchr does not find it among the eleven special characters `.^$*?+`, bar, `()[{` |
| Parse.ClosersOrdinary | parse.c:25-31 | `]` and `}` are ordinary; NUL is not |
| Parse.ClassEnd | parse.c:76-78 | the scan of a class stops at the first `]` or at the end of the string |
| Parse.Atomic | parse.c:57-96 | a successful atom strictly advances the cursor and stays within the string |
| Parse.Repeated | parse.c:109-128 | a successful repetition strictly advances the cursor |
| Parse.Concatenated | parse.c:142-154 | a successful concatenation advances the cursor and stops at NUL, a bar or `)` |
| Parse.Alternated | parse.c:168-185 | a successful alternation strictly advances the cursor |
| Parse.PatternParse | parse.c:188-199 | a successful parse is the pattern an alternation parse from position 0 produced |
| ParseProperties.PatternParseConsumesAll | parse.c:188-199 | parsing succeeds iff the alternation from position 0 succeeds and stops at the terminator; for a NUL-free pattern, iff it consumes the whole pattern |
| Parse.ParseAtomicPattern | parse.c:57-96 | the cursor-advancing routine returns Atomic's result |
| Parse.ParseRepetition | parse.c:109-128 | the three tests for `+`, `?` and `*` return Repeated's result |
| Parse.ParseConcatenation | parse.c:142-154 | the folding loop returns Concatenated's result |
| Parse.ParseAlternation | parse.c:168-185 | the folding loop returns Alternated's result |
| Parse.ParsePattern | parse.c:188-199 | returns PatternParse's result |
| ParseProperties.AtomRejects | parse.c:94 | NUL, `*`, `+`, `?`, a bar, `)` and `{` at atom level are an invalid pattern |
| ParseProperties.SingleCharacterAtoms | parse.c:59-69 | an ordinary char, `.`, `^` and `$` become Literal, Dot, Start and End, advancing by one |
| ParseProperties.ClassAtom | parse.c:71-87 | `[` … `]` becomes a class of the characters between them, and the cursor passes the `]` |
| ParseProperties.ClassEndFinds | parse.c:76-78 | the class scan stops at the first `]` |
| ParseProperties.UnterminatedClass | parse.c:80-85 | a `[` with no later `]` is an invalid pattern |
| ParseProperties.ClassEndRuns | parse.c:76-78 | with no `]` ahead, the class scan runs to the end of the string |
| ParseProperties.RepetitionOrder | parse.c:111-125 | "a+?*" parses as Asterisk(Question(Plus(a))) |
| ParseProperties.PlusAfterStarRejected | parse.c:111-125 | "a*+" is rejected, because `+` is tested only before `*` |
| ParseProperties.PlusAfterQuestionRejected | parse.c:111-125 | "a?+" is rejected |
| ParseProperties.PlainLiteral | parse.c:111-127 | an ordinary char with no operator after it is a lone literal |
| ParseProperties.LoneLiteral | parse.c:145-151 | an ordinary char followed by NUL, a bar or `)` is the whole concatenation |
| ParseProperties.ConcatenationFoldsLeft | parse.c:145-151 | "abc" parses as Concatenation(Concatenation(a, b), c) |
| ParseProperties.ClosingBracketsAreLiterals | parse.c:25-31 | "]}" parses as a concatenation of two literals |
| ParseProperties.GroupWithBar | parse.c:170-184 | "(a" bar "b)" parses as Alternation(a, b) |
| ParseProperties.GroupWithoutBar | parse.c:170-184 | "(a)" is rejected: the `)` is consumed only after a bar |
| ParseProperties.StrayCloseAccepted | parse.c:170-184 | "a" bar "b)" is accepted |
| ParseProperties.UnclosedGroupAccepted | parse.c:170-184 | "(a" bar "b" is accepted |
| ParseProperties.EmptyAlternativesRejected | parse.c:94 | the empty pattern and "a" followed by a bar are rejected |
| ParseProperties.ClassEdges | parse.c:71-87 | "[abc" is rejected and "[]" is an empty class |
| Ugrep.Span | ugrep.c:68-70 | the highlighted text str[b..e): e-b characters taken from s starting at b, or empty when e < b |
| Ugrep.RowNonRed | ugrep.c:66 | after a row, nonRed is unchanged or lies below eEnd |
| Ugrep.RowNonRedIsLastTrueEnd | ugrep.c:63-66 | after a row, nonRed is the last end below eEnd of a true cell in that row, with no true cell after it; a row with no true cell leaves nonRed unchanged |
| Ugrep.AnyTrueCell | ugrep.c:50-57 | true iff some cell [b][e] with b, e < len is true |
| Ugrep.ReportRow | ugrep.c:62-72 | one row's highlighted segments, whether any cell was found, and the new nonRed |
| Ugrep.ReportBegin | ugrep.c:61-76 | one turn of the begin loop adds exactly that row's part of the report |
| Ugrep.ReportRows | ugrep.c:60-77 | the begin loop produces the whole specified output from nonRed = 0 |
| Ugrep.ReportMatches | ugrep.c:45-78 | the output is Report(s, M): empty with no true cell, otherwise the row-by-row walk |
| Ugrep.ProcessLine | ugrep.c:104-112 | a line longer than 100 is an error, a bad pattern is an error, otherwise the report of the pattern's matches on the line |
| UgrepProperties.HighlightsAreTexts | ugrep.c:67-71 | every highlighted text is the text of a highlighted segment of the output, and every highlighted segment's text is among them |
| UgrepProperties.HighlightsAppend | ugrep.c:61-77 | the highlighted texts of joined output are the joined highlighted texts |
| UgrepProperties.RowHighlightsSpans | ugrep.c:63-72 | a row emits one highlighted str[b..e) per true cell, in column order |
| UgrepProperties.RowsSpans | ugrep.c:61-77 | the walk emits one highlighted span per true cell in row-major order; plain characters carry no highlight |
| UgrepProperties.ReportHighlightsEveryCell | ugrep.c:45-78 | when anything matches, the highlighted texts are exactly the spans of every true cell |
| UgrepProperties.RowSpansNonEmpty | ugrep.c:63-72 | a true cell in a row makes that row emit a highlight |
| UgrepProperties.CellSpansNonEmpty | ugrep.c:61-77 | a true cell at or after a row yields a highlight |
| UgrepProperties.SilentIffNoMatch | ugrep.c:50-59 | nothing is emitted iff no cell with b, e < len is true |
| UgrepProperties.OverlappingHighlights | ugrep.c:61-73 | on "ab\n" with cells (0,1) and (0,2), both "a" and "ab" are highlighted, then '\n' is plain |
| Validate.CheckArray | p2/validate.c:128-139 | the result is ArrayOk of the first size entries |
| Validate.CheckArrayWithSpaces | p2/validate.c:141-152 | the result is ArrayWithSpacesOk of the first size entries |
| Validate.ArrayOkMeaning | p2/validate.c:128-139 | ok iff all entries differ and every entry but the last is in 1..size |
| Validate.ArrayWithSpacesOkMeaning | p2/validate.c:141-152 | ok iff no two equal nonzero entries and every entry but the last is <= size |
| Validate.ArrayOkWithSpaces | p2/validate.c:128-152 | an array checkArray accepts is accepted with spaces too |
| Validate.LastEntryUnchecked | p2/validate.c:130-135 | [1, 5] with size 2 and [0, 0, -3, 7] with size 3 pass: the last entry is never range-checked and negatives are not rejected |
| Validate.RowPart | p2/validate.c:114-117 | the w cells of row k from column j |
| Validate.Block | p2/validate.c:113-118 | a block holds rows × n cells |
| Validate.ValidateRowsWithSpaces | p2/validate.c:77-90 | true iff no row has equal nonzero values in two columns and no cell outside the last column exceeds size |
| Validate.ValidateColsWithSpaces | p2/validate.c:92-105 | true iff no column has equal nonzero values in two rows and no cell outside the last row exceeds size |
| Validate.CopyRow | p2/validate.c:114-117 | appends n cells of one grid row to the buffer, keeping its prefix |
| Validate.CopyBlock | p2/validate.c:113-118 | the buffer holds the n×n block in row-major order |
| Validate.ValidateSquaresWithSpaces | p2/validate.c:107-126 | true iff every n×n block at multiples of n passes checkArrayWithSpaces with bound n*n |
| Solve.ValidateAllWithSpaces | p2/solve.c:70-74 | the conjunction of the row, column and square validators |
| Solve.Snapshot | p2/solve.c:15 | the grid read as a sequence of rows, cell for cell |
| Solve.RowEmptiesCatalogue | p2/solve.c:30-37 | one row's listing has each empty cell of that row once, in column order |
| Solve.EmptiesCatalogue | p2/solve.c:27-38 | the listing has every empty cell exactly once, in row-major order |
| Solve.RowEmptiesGrow | p2/solve.c:19-24 | a row prefix has no more empty cells than the whole row |
| Solve.EmptiesPrefix | p2/solve.c:17-25 | the first rows have no more empty cells than the whole grid |
| Solve.CountEmpty | p2/solve.c:17-25 | the count is the number of empty cells |
| Solve.ListRow | p2/solve.c:31-37 | appends one row's empty cells as (row, col) pairs |
| Solve.ListEmpty | p2/solve.c:27-38 | emptyCells lists every empty cell as (row, col) pairs, in row-major order |
| Solve.Place | p2/solve.c:47 | the cell holds the value written and every other cell is unchanged; writing 0..size into the next listed empty cell keeps the search invariant; a nonzero value extends the filled prefix |
| Solve.Try | p2/solve.c:47-48 | the next listed cell holds the candidate 1..size and every other cell is unchanged; the answer is whether all three validators pass, and the filled prefix grows by that cell |
| Solve.AllPlaced | p2/solve.c:43-53 | once every listed cell is filled, every originally empty cell is in 1..size |
| Solve.SearchStart | p2/solve.c:17-41 | the search starts from a complete catalogue; there is an empty cell iff the catalogue is non-empty |
| Solve.EmptyIffListed | p2/solve.c:17-38 | an empty cell exists iff the listing is non-empty |
| Solve.Backtrack | p2/solve.c:40-67 | only listed cells change, and only to 0..size; no empty cells means solved; solved means every listed cell filled and all validators pass |
| Solve.ListAllEmpty | p2/solve.c:17-38 | counts the empty cells and lists them all in a fresh array |
| Solve.Solve | p2/solve.c:15-68 | non-empty cells never change; empty cells end in 0..size; a full grid is solved at once; a solved grid has every empty cell in 1..size and passes all validators |
| ContestModel.Problem.constructor | p4/model.c:20-28 | a problem with the given id and name and zero solved and attempt counts |
| ContestModel.Contestant.constructor | p4/model.c:35-48 | a contestant with no attempts, attempt capacity 3, zero points and zero solved |
| ContestModel.Contest.constructor | p4/model.c:56-74 | empty problem and contestant lists with capacity 3 each |
| ContestModel.HasProblemSnoc | p4/model.c:93-101 | appending a problem adds exactly its id to the ids found |
| ContestModel.HasContestantSnoc | p4/model.c:103-111 | appending a contestant adds exactly its id to the ids found |
| ContestModel.ProblemIndex | p4/command.c:275-281 | the position of the last problem with the id |
| ContestModel.ContestantIndex | p4/command.c:282-288 | the position of the last contestant with the id |
| ContestModel.Contest.FindProblem | p4/model.c:93-101 | the first problem with the id, or None iff none has it; the contest is not changed |
| ContestModel.Contest.FindContestant | p4/model.c:103-111 | the first contestant with the id, or None iff none has it |
| ContestModel.ProblemIdentifiedById | p4/model.c:93-101 | with distinct ids, the problem found for an id is the one at its position |
| Command.StrCmp | p4/command.c:105 | strcmp's sign: in -1..1, zero iff the strings are equal |
| Command.StrCmpAntisymmetric | p4/command.c:105 | swapping the arguments negates the comparison |
| Command.StrCmpTransitive | p4/command.c:105 | the string order is transitive |
| Command.KeyBeforeStrictTotal | p4/command.c:85-135 | the comparators' key order is irreflexive, transitive and total |
| Command.ProblemComp | p4/command.c:85-106 | zero iff the two problems' keys are equal |
| Command.ContestantComp | p4/command.c:114-135 | zero iff the two contestants' keys are equal |
| Command.ProblemCompOrders | p4/command.c:85-106 | negative iff more solved, then fewer attempts, then smaller id; positive for the reverse |
| Command.ContestantCompOrders | p4/command.c:114-135 | negative iff more solved, then fewer points, then smaller id; positive for the reverse |
| Command.PrintAllTest | p4/command.c:38-41 | always true |
| Command.PrintSolvedForContestant | p4/command.c:50-59 | true iff the contestant has a solved attempt on a problem with that id |
| Command.PrintUnsolvedForContestant | p4/command.c:68-77 | exactly the negation of the solved test |
| Command.SolvedIdsMeaning | p4/command.c:50-59 | an id is among the solved ids iff a solved attempt on it exists |
| Command.PenalizedAddId | p4/command.c:375-381 | the penalty total over one more id adds that id's unsolved attempts |
| Command.SolvedAtMostOnce | p4/command.c:292-298 | when the solved count equals the number of solved ids, no problem is solved twice |
| Command.SolvedCountBound | p4/command.c:354-373 | distinct solved ids never exceed the solved attempts |
| Command.ScanProblems | p4/command.c:275-281 | found iff some problem has the id, at the last such position |
| Command.ScanContestants | p4/command.c:282-288 | found iff some contestant has the id, at the last such position |
| Command.AddProblem | p4/command.c:204-220 | a duplicate id changes nothing; otherwise doubles the capacity when full and appends a fresh zeroed problem; the scoreboard invariant is kept |
| Command.AddContestant | p4/command.c:238-253 | a duplicate id changes nothing; otherwise doubles the capacity when full and appends a fresh contestant; the invariant is kept |
| Command.AppendAttempt | p4/command.c:298-306 | appends one attempt, doubling the attempt capacity when full |
| Command.ChargePenalties | p4/command.c:375-381 | adds 20 points per earlier unsolved attempt on the problem |
| Command.AttemptUnsolved | p4/command.c:298-311 | an unsolved attempt is appended and the problem's attempt count goes up by one |
| Command.SolveUnsolved | p4/command.c:360-381 | a solved attempt is appended, the three counters go up by one, and the penalty is charged |
| Command.AttemptPair | p4/command.c:291-311 | an already-solved pair is unchanged; otherwise as AttemptUnsolved |
| Command.SolvedPair | p4/command.c:353-381 | an already-solved pair is unchanged; otherwise as SolveUnsolved |
| Command.RecordAttempt | p4/command.c:270-315 | valid iff both ids exist; an invalid command changes nothing; otherwise the attempt rule for that pair, the invariant kept |
| Command.RecordSolved | p4/command.c:332-386 | valid iff both ids exist; an invalid command changes nothing; otherwise the solved rule for that pair, the invariant kept |
| Bits.GetBit | p5/bits.c:12-15 | bit n of a byte is set iff `(ch >> n) & 1` is 1 |
| Bits.PutBit | p5/bits.c:18-25 | putting 1 ORs `1 << n` into ch; putting 0 ANDs ch with `~(1 << n)` |
| Bits.MaskIsPowerOfTwo | p5/bits.c:12-25 | `1 << n` is the n-th power of two |
| Bits.GetPutSame | p5/bits.c:12-25 | reading back a bit just put gives the value put |
| Bits.GetPutOther | p5/bits.c:18-25 | putting bit n leaves every other bit unchanged |
| Bits.ByteFromBits | p5/bits.c:12-15 | a byte is determined by its eight bits |
| Bits.PutBitIdempotent | p5/bits.c:18-25 | putting the same bit twice equals putting it once |
| Conceal.StrLen | p5/conceal.c:68 | the length up to the first NUL byte, or the whole buffer |
| Conceal.ClearLowBits | p5/conceal.c:99-101 | clears the low bits of one byte, keeping its high bits and every other byte |
| Conceal.EmbedBit | p5/conceal.c:86-92 | writes one message bit into bit `t mod bits` of byte `t div bits` and advances the counters by one bit |
| Conceal.EmbedCharacter | p5/conceal.c:85-93 | writes the eight bits of one character, advancing the counters by 8 bits |
| Conceal.Embed | p5/conceal.c:84-95 | after the loop the counters point just past bit 8*length, every message bit is stored, and nothing else changed |
| Conceal.Pad | p5/conceal.c:98-102 | clears the low bits of every byte from pixelsProcessed on |
| Conceal.Hide | p5/conceal.c:84-102 | the image holds the message in the stated layout with the rest of the low bits cleared |
| Conceal.Conceal | p5/conceal.c:46-102 | bits outside 1..8 and a message too long for the image are rejected with the image untouched; otherwise the message is concealed |
| Conceal.HighBitsKept | p5/conceal.c:86-100 | bits at positions >= bits are never modified |
| Conceal.PaddingErasesPartialByte | p5/conceal.c:98-102 | when 8*length is not a multiple of bits, padding clears the last message bit already stored |
| Extract.ExtractBit | p5/extract.c:59-65 | reads bit `t mod bits` of byte `t div bits` into the character and advances by one bit |
| Extract.ExtractCharacter | p5/extract.c:58-66 | one whole character is assembled from eight consecutive layout bits |
| Extract.ExtractAll | p5/extract.c:57-68 | every colour byte is consumed; character c bit i is layout bit 8c+i |
| Extract.Extract | p5/extract.c:41-69 | bits outside 1..8 are rejected and bits in 1..8 always succeed; on success a fresh buffer of bits*rows*cols*3+1 bytes holds the extracted characters and the terminator |
| Extract.BitRoundTrip | p5/extract.c:57-68 | after concealing, layout bit 8c+i is message bit i of character c, or 0 past the message |
| Extract.RoundTrip | p5/extract.c:57-69 | when 8*length is a multiple of bits, extraction returns the concealed message up to its terminator |
| Extract.StrLenAt | p5/extract.c:69 | the length is the position of the first NUL |
| Extract.LastCharacterTruncated | p5/conceal.c:98-102 | concealing 0xFF at 3 bits and extracting it gives 0x3F: padding erased the top two bits |
| Extract.TruncatedBit | p5/conceal.c:98-102 | in that example, exactly the first six layout bits are set |
| WordList.WordCharSeparators | p3/wordlist.c:31-33 | the apostrophe is a word character; digits, blanks, hyphens and the terminator are not |
| WordList.IndexOf | p3/wordlist.c:38-39 | the first position of the word in the list |
| WordList.InsertedWellFormed | p3/wordlist.c:74-87 | inserting keeps the list well-formed (first word twice, then distinct words), keeps every entry and lists the word |
| WordList.InsertedWords | p3/wordlist.c:78-87 | inserting adds exactly that word to the set of words listed |
| WordList.LookupReadsPastShortWord | p3/wordlist.c:38-45 | in a list readWords builds, "d" sits at position 4, past its own terminator, so lookupWord reads outside the word |
| WordList.WordTable.constructor | p3/wordlist.c:25-29 | MAX_WORDS empty rows and a count of zero |
| WordList.WordTable.LookupWord | p3/wordlist.c:35-50 | 0 iff the word is empty or not listed; otherwise 2 or 1 as the word's character at the entry's position is or is not uppercase |
| WordList.WordTable.AddWord | p3/wordlist.c:61-87 | a count above MAX_WORDS or a non-word character changes nothing and reports the error; otherwise the list becomes Inserted(list, word) |

## Left out

- Input and output:
  - `main` in ugrep.c: arguments, `fopen`/`fgets`, colour escape codes and exit codes.
  - The `printf` of the reporter. Its output is the segment sequence.
  - `invalidPattern`'s message and `exit`, which are an error value here.
  - p2/sudoku.c, p3/spellcheck.c, p4/contest.c and p3/document.c are drivers and file or terminal handling. They are not part of this model.
  - readWords' `fopen`/`fscanf`, and command.c's `scanf` parsing and table printing.
  - p5/image.c's PPM reading and writing, the message-file reading in conceal.c and the output file in extract.c.
- Memory management: `malloc`/`calloc`/`free` and the `destroy*` and `free*` functions. Datatypes and garbage-collected arrays replace them.
- `qsort` in command.c: only the comparators and the order they define are modelled.
- `validateRows`, `validateCols` and `validateSquares` in p2/validate.c: nothing calls them, and as written they index past their rows.
- `Solve.Solve`: no contract characterises when Unsolvable is returned. The search has no apparent termination measure, so it runs on a fuel budget; running out of fuel gives OutOfFuel, which the C code has no counterpart for.
- `Solve.Backtrack`: for the same reason, it promises the search invariant and the meaning of Solved, not completeness.
- `Command.StrCmp`: models only strcmp's sign, which is all the comparators use.
- Integer widths: counters, points and indices are unbounded integers, so C `int` overflow is not modelled.
- `Patterns.MatchEnd`: requires len >= 1. The C code writes cell [-1][-1] on an empty string, and lines from fgets are never empty.
- `Patterns.MatchPlus`: where column 2e-b lies past the row, the model reads false instead of the next row's cell. PatternProperties.PlusOverrunReadsBelowDiagonal shows that this cell lies below the diagonal, which no pattern marks.
- `Ugrep.ProcessLine`: requires a non-empty line, as fgets supplies one. Lines longer than the 200-byte read buffer are not split into several reads.
- `Bits.GetBit` and `Bits.PutBit`: take positions 0..7 only, the only positions any caller passes.
- `Conceal.Conceal`: the message is the bytes up to the first NUL, as strlen sees them. The uninitialised bytes malloc leaves are not modelled.
- `Extract.Extract`: requires the image to hold a whole number of characters (3*rows*cols*bits a multiple of 8). Otherwise the last character reads past the colour array.
- `Extract.RoundTrip`: holds only when 8*length is a multiple of bits. Otherwise padding erases stored bits (Conceal.PaddingErasesPartialByte, Extract.LastCharacterTruncated).
- `Parse.ClassEnd` and `Patterns.MatchCharacterClass`: a class may have any length. The C code copies the class into a buffer of MAX_LINE_LEN + 1 = 101 bytes (parse.c:72, p6/pattern.c:260 and 297-300). A class of 101 characters leaves no room for the terminator, and a longer one overflows the buffer.
- `WordList.WordTable`: words of any length are stored. The C rows are `char[WORD_LEN]` with WORD_LEN 13, and readWords reads with `%12s` (p3/wordlist.c:21, 26 and 60). A longer word in the file is split into 12-character pieces, and each piece is checked and added on its own.
- `WordList.WordTable.LookupWord`: requires the matching entry's position to be at most the word's length. The C code indexes the word by that position and would read past it.
- `WordList.WordTable.AddWord`: requires a free row when a new word would be stored. The C guard `count > MAX_WORDS` lets a word be written at index MAX_WORDS, past the table.
- `ContestModel.ProblemIndex` and `ContestModel.ContestantIndex`: they name the last entry with the id, as command.c's scans do; FindProblem and FindContestant return the first. The two agree because ids are kept distinct (ProblemIdentifiedById).
