/**
 * What ugrep prints for one input line (ugrep.c, reportMatches and the
 * per-line steps of main), as a sequence of segments: highlighted text
 * (printed between the red and reset colour codes) and plain characters.
 */
module Ugrep {
  import opened Wrappers
  import opened Patterns
  import opened Parse

  /** One piece of output: a highlighted substring, or one uncoloured character. */
  datatype Segment = Highlighted(text: string) | Plain(c: char)

  /** The longest line main accepts, trailing newline included. */
  const MaxLineLen: nat := 100

  /** The text printed for a true cell [b][e]: s[b..e), nothing when e < b. */
  function Span(s: string, b: nat, e: nat): (t: string)
    requires b < |s| && e < |s|
    ensures |t| == if b <= e then e - b else 0
    ensures forall i :: 0 <= i < |t| ==> t[i] == s[b + i]
  {
    if b <= e then s[b..e] else ""
  }

  /** Some cell with begin and end both below len is true; row and column len are never looked at. */
  ghost predicate AnyMatch(M: Cells, n: int)
  {
    exists b, e :: 0 <= b < n && 0 <= e < n && (b, e) in M
  }

  /** The segments row b prints for its true cells with end below eEnd, in order of end. */
  ghost function RowHighlights(s: string, M: Cells, b: nat, eEnd: nat): seq<Segment>
    requires b < |s| && eEnd <= |s|
  {
    if eEnd == 0 then []
    else RowHighlights(s, M, b, eEnd - 1) + (if (b, eEnd - 1) in M then [Highlighted(Span(s, b, eEnd - 1))] else [])
  }

  /** Row b has a true cell with end below eEnd. */
  ghost predicate RowFound(M: Cells, b: nat, eEnd: nat)
  {
    exists e :: 0 <= e < eEnd && (b, e) in M
  }

  /** nonRed after the end loop of row b has run up to eEnd: the last true end seen, else unchanged. */
  ghost function RowNonRed(M: Cells, b: nat, eEnd: nat, nonRed: nat): (r: nat)
    ensures r == nonRed || r < eEnd
  {
    if eEnd == 0 then nonRed
    else if (b, eEnd - 1) in M then eEnd - 1
    else RowNonRed(M, b, eEnd - 1, nonRed)
  }

  /**
   * nonRed after row b's end loop is the last end below eEnd of a true cell
   * in that row, or, when the row has none, the nonRed it started with.
   */
  lemma {:induction false} RowNonRedIsLastTrueEnd(M: Cells, b: nat, eEnd: nat, nonRed: nat)
    ensures RowFound(M, b, eEnd) ==>
      var r := RowNonRed(M, b, eEnd, nonRed);
      r < eEnd && (b, r) in M && forall e :: r < e < eEnd ==> (b, e) !in M
    ensures !RowFound(M, b, eEnd) ==> RowNonRed(M, b, eEnd, nonRed) == nonRed
  {
    if eEnd > 0 {
      if (b, eEnd - 1) in M {
        assert RowFound(M, b, eEnd);
      } else {
        RowNonRedIsLastTrueEnd(M, b, eEnd - 1, nonRed);
        if RowFound(M, b, eEnd) {
          var e :| 0 <= e < eEnd && (b, e) in M;
          assert RowFound(M, b, eEnd - 1);
        } else {
          assert !RowFound(M, b, eEnd - 1);
        }
      }
    }
  }

  /** What the begin loop prints from row b on, given the current nonRed. */
  ghost function Rows(s: string, M: Cells, b: nat, nonRed: nat): seq<Segment>
    requires nonRed <= |s|
    decreases |s| - b
  {
    if b >= |s| then []
    else
      var n := |s|;
      var nr := RowNonRed(M, b, n, nonRed);
      var plain := !RowFound(M, b, n) && nr <= b;
      RowHighlights(s, M, b, n) +
      (if plain then [Plain(s[nr])] else []) +
      Rows(s, M, b + 1, if plain then nr + 1 else nr)
  }

  /** Everything reportMatches prints for line s when its table holds the cells M. */
  ghost function Report(s: string, M: Cells): seq<Segment>
  {
    if AnyMatch(M, |s|) then Rows(s, M, 0, 0) else []
  }

  /** One row of Rows: its highlights, at most one plain character, then the later rows. */
  lemma RowsUnfold(s: string, M: Cells, b: nat, nonRed: nat) returns (p: seq<Segment>, nr2: nat)
    requires b < |s| && nonRed <= |s|
    ensures var nr := RowNonRed(M, b, |s|, nonRed);
      var plain := !RowFound(M, b, |s|) && nr <= b;
      p == (if plain then [Plain(s[nr])] else []) && nr2 == if plain then nr + 1 else nr
    ensures |p| <= 1 && (forall i :: 0 <= i < |p| ==> p[i].Plain?) && nr2 <= |s|
    ensures Rows(s, M, b, nonRed) == RowHighlights(s, M, b, |s|) + p + Rows(s, M, b + 1, nr2)
  {
    var nr := RowNonRed(M, b, |s|, nonRed);
    var plain := !RowFound(M, b, |s|) && nr <= b;
    p := if plain then [Plain(s[nr])] else [];
    nr2 := if plain then nr + 1 else nr;
  }

  /** One turn of the begin loop: the row's highlights, maybe one plain character, then the later rows. */
  lemma RowsStep(s: string, M: Cells, b: nat, nonRed: nat, before: seq<Segment>, after: seq<Segment>, nonRedAfter: nat)
    requires b < |s| && nonRed <= |s|
    requires var nr := RowNonRed(M, b, |s|, nonRed);
      var plain := !RowFound(M, b, |s|) && nr <= b;
      after == before + RowHighlights(s, M, b, |s|) + (if plain then [Plain(s[nr])] else []) &&
      nonRedAfter == if plain then nr + 1 else nr
    ensures before + Rows(s, M, b, nonRed) == after + Rows(s, M, b + 1, nonRedAfter)
  {
    var p, nr2 := RowsUnfold(s, M, b, nonRed);
    var rh, rest := RowHighlights(s, M, b, |s|), Rows(s, M, b + 1, nr2);
    assert after == before + rh + p;
    assert before + (rh + p + rest) == before + rh + p + rest;
  }

  /** The first loop nest of reportMatches: is any cell [b][e] with b, e < len true? */
  method AnyTrueCell(s: string, table: array2<bool>, ghost M: Cells) returns (matched: bool)
    requires table.Length0 == |s| + 1 && table.Length1 == |s| + 1
    requires Holds(table, M)
    ensures matched == AnyMatch(M, |s|)
  {
    var len := |s|;
    matched := false;
    for begin := 0 to len
      invariant matched <==> exists b, e :: 0 <= b < begin && 0 <= e < len && (b, e) in M
    {
      for end := 0 to len
        invariant matched <==>
          (exists b, e :: 0 <= b < begin && 0 <= e < len && (b, e) in M) || (exists e :: 0 <= e < end && (begin, e) in M)
      {
        if table[begin, end] {
          matched := true;
        }
      }
    }
  }

  /** The end loop for one row: highlight every true cell, remembering whether one was found and the last end. */
  method ReportRow(s: string, table: array2<bool>, ghost M: Cells, begin: nat, nonRed0: nat)
    returns (segments: seq<Segment>, found: bool, nonRed: nat)
    requires table.Length0 == |s| + 1 && table.Length1 == |s| + 1
    requires Holds(table, M)
    requires begin < |s| && nonRed0 <= |s|
    ensures segments == RowHighlights(s, M, begin, |s|)
    ensures found == RowFound(M, begin, |s|)
    ensures nonRed == RowNonRed(M, begin, |s|, nonRed0) && nonRed <= |s|
  {
    segments, found, nonRed := [], false, nonRed0;
    for end := 0 to |s|
      invariant nonRed <= |s|
      invariant found <==> RowFound(M, begin, end)
      invariant nonRed == RowNonRed(M, begin, end, nonRed0)
      invariant segments == RowHighlights(s, M, begin, end)
    {
      if table[begin, end] {
        found := true;
        nonRed := end;
        segments := segments + [Highlighted(Span(s, begin, end))];
      }
    }
  }

  /** One turn of the begin loop: row `begin`'s highlights, then its character if it is still uncoloured. */
  method ReportBegin(s: string, table: array2<bool>, ghost M: Cells, begin: nat, out0: seq<Segment>, nonRed0: nat)
    returns (out: seq<Segment>, nonRed: nat)
    requires table.Length0 == |s| + 1 && table.Length1 == |s| + 1
    requires Holds(table, M)
    requires begin < |s| && nonRed0 <= |s|
    ensures nonRed <= |s|
    ensures out + Rows(s, M, begin + 1, nonRed) == out0 + Rows(s, M, begin, nonRed0)
  {
    var highlights, found, nr := ReportRow(s, table, M, begin, nonRed0);
    out, nonRed := out0 + highlights, nr;
    if !found && nonRed <= begin {
      out := out + [Plain(s[nonRed])];
      nonRed := nonRed + 1;
    } else {
      assert out == out0 + highlights + [];
    }
    RowsStep(s, M, begin, nonRed0, out0, out, nonRed);
  }

  /** The second loop nest of reportMatches: every row in turn, starting with nothing coloured. */
  method ReportRows(s: string, table: array2<bool>, ghost M: Cells) returns (out: seq<Segment>)
    requires table.Length0 == |s| + 1 && table.Length1 == |s| + 1
    requires Holds(table, M)
    ensures out == Rows(s, M, 0, 0)
  {
    out := [];
    var nonRed := 0;
    for begin := 0 to |s|
      invariant 0 <= nonRed <= |s|
      invariant out + Rows(s, M, begin, nonRed) == Rows(s, M, 0, 0)
    {
      out, nonRed := ReportBegin(s, table, M, begin, out, nonRed);
    }
    assert Rows(s, M, |s|, nonRed) == [];
  }

  method ReportMatches(s: string, table: array2<bool>, ghost M: Cells) returns (out: seq<Segment>)
    requires table.Length0 == |s| + 1 && table.Length1 == |s| + 1
    requires Holds(table, M)
    ensures out == Report(s, M)
  {
    var matched := AnyTrueCell(s, table, M);
    out := [];
    if matched {
      out := ReportRows(s, table, M);
    }
  }

  /** Why main abandons a line: it is longer than MaxLineLen, or the pattern does not parse. */
  datatype GrepError = LineTooLong | BadPattern

  /**
   * The per-line steps of main: check the length, parse the pattern, match
   * it into a fresh all-false table and report.  Reading the line (fgets)
   * and printing the segments are not modelled; the line is the text up to
   * its first NUL, newline included, so it is never empty.
   */
  method ProcessLine(pattern: string, line: string) returns (r: Result<seq<Segment>, GrepError>)
    requires |line| >= 1
    ensures |line| > MaxLineLen ==> r == Failure(LineTooLong)
    ensures |line| <= MaxLineLen && PatternParse(pattern).Failure? ==> r == Failure(BadPattern)
    ensures |line| <= MaxLineLen && PatternParse(pattern).Success? ==>
      r == Success(Report(line, Matches(PatternParse(pattern).value, line)))
  {
    if |line| > MaxLineLen {
      return Failure(LineTooLong);
    }
    var parsed := ParsePattern(pattern);
    if parsed.Failure? {
      return Failure(BadPattern);
    }
    var p := parsed.value;
    var table := MatchFresh(p, line);
    var out := ReportMatches(line, table, Matches(p, line));
    return Success(out);
  }
}
