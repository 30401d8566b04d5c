/**
 * What the cells set by each kind of pattern node mean, stated cell by cell
 * over the specification Matches of module Patterns (p6/pattern.c).
 */
module PatternProperties {
  import opened Patterns

  /** A literal matches exactly the one-character spans holding its symbol. */
  lemma LiteralExact(c: char, s: string, b: int, e: int)
    ensures (b, e) in Matches(Literal(c), s) <==> 0 <= b < |s| && e == b + 1 && s[b] == c
  {
    if 0 <= b < |s| && e == b + 1 && s[b] == c {
      assert (b, e) == (b, b + 1);
    }
  }

  /** The dot matches every one-character span. */
  lemma DotEveryCharacter(s: string, b: int, e: int)
    ensures (b, e) in Matches(Dot, s) <==> 0 <= b < |s| && e == b + 1
  {
    if 0 <= b < |s| && e == b + 1 {
      assert AnyChar(s[b]);
    }
  }

  /** A character class matches exactly the one-character spans holding one of its members. */
  lemma ClassExact(members: seq<char>, s: string, b: int, e: int)
    ensures (b, e) in Matches(CharClass(members), s) <==>
      0 <= b < |s| && e == b + 1 && exists k :: 0 <= k < |members| && members[k] == s[b]
  {
    if 0 <= b < |s| && e == b + 1 && s[b] in members {
      assert (b, e) == (b, b + 1);
    }
  }

  /** The start anchor marks only the empty span at 0; the end anchor only the empty span at len - 1. */
  lemma AnchorsExact(s: string, b: int, e: int)
    ensures (b, e) in Matches(Start, s) <==> b == 0 && e == 0
    ensures (b, e) in Matches(End, s) <==> |s| >= 1 && b == |s| - 1 && e == |s| - 1
  {
  }

  /** A concatenation matches s[b..e) exactly when it splits into a p1-match followed by a p2-match. */
  lemma ConcatenationSplits(p1: Pattern, p2: Pattern, s: string, b: int, e: int)
    ensures (b, e) in Matches(Concatenation(p1, p2), s) <==>
      exists k :: (b, k) in Matches(p1, s) && (k, e) in Matches(p2, s)
  {
    var M1, M2 := Matches(p1, s), Matches(p2, s);
    if k :| (b, k) in M1 && (k, e) in M2 {
      assert 0 <= b <= k <= e <= |s|;
      assert Split(M1, M2, b, e);
    }
  }

  /** A cell of AltCells is a cell of either operand, given that both lie in the table. */
  lemma AltCellsUnion(M1: Cells, M2: Cells, n: int, b: int, e: int)
    requires (b, e) in M1 || (b, e) in M2 ==> 0 <= b <= e <= n
    ensures (b, e) in AltCells(M1, M2, n) <==> (b, e) in M1 || (b, e) in M2
  {
  }

  /** An alternation matches exactly the union of what its two branches match. */
  lemma AlternationIsUnion(p1: Pattern, p2: Pattern, s: string, b: int, e: int)
    ensures (b, e) in Matches(Alternation(p1, p2), s) <==> (b, e) in Matches(p1, s) || (b, e) in Matches(p2, s)
  {
    var M1, M2 := Matches(p1, s), Matches(p2, s);
    assert (b, e) in M1 || (b, e) in M2 ==> 0 <= b <= e <= |s|;
    AltCellsUnion(M1, M2, |s|, b, e);
  }

  /** q? matches what q matches and, in addition, the empty span at every position 0..len. */
  lemma QuestionIsInnerOrEmpty(q: Pattern, s: string, b: int, e: int)
    ensures (b, e) in Matches(Question(q), s) <==> (b, e) in Matches(q, s) || (b == e && 0 <= b <= |s|)
  {
    var M, n := Matches(q, s), |s|;
    if (b, e) in M {
      assert 0 <= b <= e <= n;
      assert Contributes(ZeroOrOne, M, n, b, e, e);
    } else if b == e && 0 <= b <= n {
      assert Contributes(ZeroOrOne, M, n, b, b, b);
    }
  }

  /** Plus keeps every match of its operand. */
  lemma PlusKeepsInner(q: Pattern, s: string, b: int, e: int)
    requires (b, e) in Matches(q, s)
    ensures (b, e) in Matches(Plus(q), s)
  {
    var M, n := Matches(q, s), |s|;
    assert 0 <= b <= e <= n;
    assert Contributes(OneOrMore, M, n, b, e, e);
  }

  /** Every cell of M lies in an (n+1) x (n+1) table, on or above its diagonal. */
  ghost predicate InTable(M: Cells, n: int)
  {
    forall c :: c in M ==> 0 <= c.0 <= c.1 <= n
  }

  /** The cells the Plus loop sets for inner cells M, described without the loop's visiting order. */
  lemma PlusCellsExact(M: Cells, n: int, b: int, x: int)
    requires InTable(M, n)
    ensures (b, x) in RepeatCells(OneOrMore, M, n) <==>
      (b, x) in M || (x < n && exists e :: e <= x && (b, e) in M && (e, e + (e - b)) in M)
  {
    if (b, x) in M {
      assert 0 <= b <= x <= n;
      assert Contributes(OneOrMore, M, n, b, x, x);
    } else if e :| e <= x < n && (b, e) in M && (e, e + (e - b)) in M {
      assert 0 <= b <= e && e + (e - b) <= n;
      assert Contributes(OneOrMore, M, n, b, e, x);
    }
  }

  /**
   * What Plus sets beyond its operand's matches: for a q-match s[b..e)
   * immediately followed by an equally long q-match, the whole rest of row b
   * from e up to, but not including, column len.  It is not a closure under
   * concatenation (see PlusOvermatches and PlusMissesRepetition).
   */
  lemma PlusExact(q: Pattern, s: string, b: int, x: int)
    ensures (b, x) in Matches(Plus(q), s) <==>
      (b, x) in Matches(q, s) ||
      (x < |s| && exists e :: e <= x && (b, e) in Matches(q, s) && (e, e + (e - b)) in Matches(q, s))
  {
    PlusCellsExact(Matches(q, s), |s|, b, x);
  }

  /** q* matches exactly what q+ matches plus the empty span at every position 0..len. */
  lemma AsteriskIsPlusOrEmpty(q: Pattern, s: string, b: int, x: int)
    ensures (b, x) in Matches(Asterisk(q), s) <==> (b, x) in Matches(Plus(q), s) || (b == x && 0 <= b <= |s|)
  {
    var M, n := Matches(q, s), |s|;
    if (b, x) in Matches(Plus(q), s) {
      var e :| 0 <= e <= n && Contributes(OneOrMore, M, n, b, e, x);
      assert Contributes(ZeroOrMore, M, n, b, e, x);
    }
    if b == x && 0 <= b <= n {
      assert Contributes(ZeroOrMore, M, n, b, b, b);
    }
    if (b, x) in Matches(Asterisk(q), s) && !(b == x && 0 <= b <= n) {
      var e :| 0 <= e <= n && Contributes(ZeroOrMore, M, n, b, e, x);
      assert Contributes(OneOrMore, M, n, b, e, x);
    }
  }

  /**
   * "a+" on the line "aab\n" marks s[0..3) = "aab": the chained pair of
   * a-matches at [0,1) and [1,2) makes Plus fill row 0 up to column 3
   * whatever the characters there are.
   */
  lemma PlusOvermatches()
    ensures (0, 3) in Matches(Plus(Literal('a')), "aab\n")
    ensures "aab\n"[2] != 'a'
  {
    var s := "aab\n";
    var M := Matches(Literal('a'), s);
    LiteralExact('a', s, 0, 1);
    LiteralExact('a', s, 1, 2);
    assert Contributes(OneOrMore, M, 4, 0, 1, 3);
  }

  /**
   * On a line without a trailing newline Plus never reaches column len by
   * chaining: "a+" on "aaa" does not mark the whole line s[0..3).
   */
  lemma PlusMissesRepetition()
    ensures (0, 3) !in Matches(Plus(Literal('a')), "aaa")
  {
    var s := "aaa";
    var M := Matches(Literal('a'), s);
    forall e | 0 <= e <= 3
      ensures !Contributes(OneOrMore, M, 3, 0, e, 3)
    {
      LiteralExact('a', s, 0, e);
    }
  }

  /**
   * The source reads the inner table at [e][2e - b] without checking the
   * column.  The table is one flat block of (len+1)^2 cells, so when
   * 2e - b > len and e < len that read lands in row e + 1 at a column
   * below the diagonal, a cell no match routine ever sets.  Reading false
   * there, as Chained does, is therefore what the source reads.  (When
   * e == len the extension loop runs zero times, so the value read is
   * irrelevant.)
   */
  lemma PlusOverrunReadsBelowDiagonal(q: Pattern, s: string, b: int, e: int)
    requires 0 <= b <= e < |s| && e + (e - b) > |s|
    ensures var col := e + (e - b) - (|s| + 1);
      e * (|s| + 1) + (e + (e - b)) == (e + 1) * (|s| + 1) + col &&
      0 <= col < e + 1 &&
      (e + 1, col) !in Matches(q, s)
  {
  }
}
