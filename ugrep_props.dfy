/**
 * What the output of reportMatches (ugrep.c) tells about the table: it is
 * empty exactly when no cell below row and column len is true, and its
 * highlighted segments are the spans of all true cells in row-major order,
 * not only the longest match.
 */
module UgrepProperties {
  import opened Patterns
  import opened Ugrep

  /** The text of one segment if it is highlighted. */
  function HighlightOf(seg: Segment): seq<string>
  {
    if seg.Highlighted? then [seg.text] else []
  }

  /** The texts of the highlighted segments, in order. */
  function Highlights(out: seq<Segment>): (r: seq<string>)
    ensures |r| <= |out|
  {
    if out == [] then [] else HighlightOf(out[0]) + Highlights(out[1..])
  }

  /** Helper: regrouping a three-way join (stated generically so the prover never compares nested sequences). */
  lemma AppendAssociative<T>(x: seq<T>, y: seq<T>, z: seq<T>)
    ensures x + (y + z) == (x + y) + z
  {
  }

  lemma {:induction false} HighlightsAppend(a: seq<Segment>, b: seq<Segment>)
    ensures Highlights(a + b) == Highlights(a) + Highlights(b)
  {
    if a == [] {
      assert a + b == b;
    } else {
      HighlightsAppend(a[1..], b);
      var ab := a + b;
      assert ab[0] == a[0] && ab[1..] == a[1..] + b;
      AppendAssociative(HighlightOf(a[0]), Highlights(a[1..]), Highlights(b));
    }
  }

  /**
   * Highlights keeps exactly the highlighted texts: each text it returns is
   * that of a highlighted segment, and each highlighted segment's text is
   * among them; so it is empty iff every segment is a plain character.
   */
  lemma {:induction false} HighlightsAreTexts(out: seq<Segment>)
    ensures forall k :: 0 <= k < |Highlights(out)| ==> Highlighted(Highlights(out)[k]) in out
    ensures forall i :: 0 <= i < |out| && out[i].Highlighted? ==> out[i].text in Highlights(out)
  {
    if out != [] {
      HighlightsAreTexts(out[1..]);
      var h, rest := HighlightOf(out[0]), Highlights(out[1..]);
      assert Highlights(out) == h + rest;
      forall k | 0 <= k < |h + rest|
        ensures Highlighted((h + rest)[k]) in out
      {
        if k >= |h| {
          assert (h + rest)[k] == rest[k - |h|];
          assert Highlighted(rest[k - |h|]) in out[1..];
        }
      }
      forall i | 0 <= i < |out| && out[i].Highlighted?
        ensures out[i].text in h + rest
      {
        if i > 0 {
          assert out[1..][i - 1] == out[i];
          assert out[i].text in rest;
        }
      }
    }
  }

  /** The spans of the true cells of row b with end below eEnd, in order of end. */
  ghost function RowSpans(s: string, M: Cells, b: nat, eEnd: nat): seq<string>
    requires b < |s| && eEnd <= |s|
  {
    if eEnd == 0 then []
    else RowSpans(s, M, b, eEnd - 1) + (if (b, eEnd - 1) in M then [Span(s, b, eEnd - 1)] else [])
  }

  /** The spans of all true cells [b][e] with row b at least from and b, e < len, row by row. */
  ghost function CellSpans(s: string, M: Cells, from: nat): seq<string>
    decreases |s| - from
  {
    if from >= |s| then [] else RowSpans(s, M, from, |s|) + CellSpans(s, M, from + 1)
  }

  lemma {:induction false} RowHighlightsSpans(s: string, M: Cells, b: nat, eEnd: nat)
    requires b < |s| && eEnd <= |s|
    ensures Highlights(RowHighlights(s, M, b, eEnd)) == RowSpans(s, M, b, eEnd)
  {
    if eEnd > 0 {
      RowHighlightsSpans(s, M, b, eEnd - 1);
      var last: seq<Segment> := if (b, eEnd - 1) in M then [Highlighted(Span(s, b, eEnd - 1))] else [];
      HighlightsAppend(RowHighlights(s, M, b, eEnd - 1), last);
      assert Highlights(last) == if (b, eEnd - 1) in M then [Span(s, b, eEnd - 1)] else [];
    }
  }

  /** A row's output with an optional plain character between it and the later rows. */
  lemma SkipPlain(rh: seq<Segment>, p: seq<Segment>, rest: seq<Segment>)
    requires forall i :: 0 <= i < |p| ==> p[i].Plain?
    requires |p| <= 1
    ensures Highlights(rh + p + rest) == Highlights(rh) + Highlights(rest)
  {
    assert Highlights(p) == [] by {
      if p != [] {
        assert p[1..] == [];
      }
    }
    HighlightsAppend(rh, p);
    assert Highlights(rh + p) == Highlights(rh);
    HighlightsAppend(rh + p, rest);
  }

  /** The highlights of a row's output followed by the later rows' output. */
  lemma JoinSpans(whole: seq<Segment>, rh: seq<Segment>, p: seq<Segment>, rest: seq<Segment>,
                  rowSpans: seq<string>, restSpans: seq<string>)
    requires whole == rh + p + rest
    requires forall i :: 0 <= i < |p| ==> p[i].Plain?
    requires |p| <= 1
    requires Highlights(rh) == rowSpans && Highlights(rest) == restSpans
    ensures Highlights(whole) == rowSpans + restSpans
  {
    SkipPlain(rh, p, rest);
  }

  lemma {:induction false} RowsSpans(s: string, M: Cells, b: nat, nonRed: nat)
    requires nonRed <= |s|
    ensures Highlights(Rows(s, M, b, nonRed)) == CellSpans(s, M, b)
    decreases |s| - b
  {
    if b < |s| {
      var p, nr2 := RowsUnfold(s, M, b, nonRed);
      RowsSpans(s, M, b + 1, nr2);
      RowHighlightsSpans(s, M, b, |s|);
      JoinSpans(Rows(s, M, b, nonRed), RowHighlights(s, M, b, |s|), p, Rows(s, M, b + 1, nr2),
                RowSpans(s, M, b, |s|), CellSpans(s, M, b + 1));
    }
  }

  /**
   * Every true cell [b][e] with b, e < len yields one highlighted segment
   * s[b..e) (empty for a diagonal cell), in row-major order, and nothing
   * else is highlighted; several cells of one row overlap.
   */
  lemma ReportHighlightsEveryCell(s: string, M: Cells)
    requires AnyMatch(M, |s|)
    ensures Highlights(Report(s, M)) == CellSpans(s, M, 0)
  {
    RowsSpans(s, M, 0, 0);
  }

  lemma {:induction false} RowSpansNonEmpty(s: string, M: Cells, b: nat, e: nat, eEnd: nat)
    requires b < |s| && e < eEnd <= |s| && (b, e) in M
    ensures RowSpans(s, M, b, eEnd) != []
  {
    if e < eEnd - 1 {
      RowSpansNonEmpty(s, M, b, e, eEnd - 1);
    }
  }

  lemma {:induction false} CellSpansNonEmpty(s: string, M: Cells, from: nat, b: nat, e: nat)
    requires from <= b < |s| && e < |s| && (b, e) in M
    ensures CellSpans(s, M, from) != []
    decreases b - from
  {
    if from < b {
      CellSpansNonEmpty(s, M, from + 1, b, e);
    } else {
      RowSpansNonEmpty(s, M, b, e, |s|);
    }
  }

  /** reportMatches prints nothing at all exactly when no cell [b][e] with b, e < len is true. */
  lemma SilentIffNoMatch(s: string, M: Cells)
    ensures Report(s, M) == [] <==> !AnyMatch(M, |s|)
  {
    if AnyMatch(M, |s|) {
      var b, e :| 0 <= b < |s| && 0 <= e < |s| && (b, e) in M;
      CellSpansNonEmpty(s, M, 0, b, e);
      ReportHighlightsEveryCell(s, M);
    }
  }

  /** Two true cells in row 0 of "ab\n" print both "a" and "ab", then the newline plainly. */
  lemma OverlappingHighlights()
    ensures Report("ab\n", {(0, 1), (0, 2)}) == [Highlighted("a"), Highlighted("ab"), Plain('\n')]
  {
    var s, M := "ab\n", {(0, 1), (0, 2)};
    assert AnyMatch(M, 3) by { assert (0, 1) in M; }
    assert RowHighlights(s, M, 0, 1) == [];
    assert Span(s, 0, 1) == "a";
    assert Span(s, 0, 2) == "ab";
    assert RowHighlights(s, M, 0, 2) == [Highlighted("a")];
    assert RowHighlights(s, M, 0, 3) == [Highlighted("a"), Highlighted("ab")];
    assert RowFound(M, 0, 3) by { assert (0, 1) in M; }
    assert RowNonRed(M, 0, 3, 0) == 2;
    assert !RowFound(M, 1, 3);
    assert RowNonRed(M, 1, 3, 2) == 2;
    assert RowHighlights(s, M, 1, 3) == [];
    assert !RowFound(M, 2, 3);
    assert RowNonRed(M, 2, 3, 2) == 2;
    assert RowHighlights(s, M, 2, 3) == [];
    assert Rows(s, M, 2, 2) == [Plain('\n')];
    assert Rows(s, M, 1, 2) == [Plain('\n')];
  }
}
