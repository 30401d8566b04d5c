/**
 * The pattern tree of the ugrep matcher and the dynamic-programming match
 * routines of its nodes (p6/pattern.c).
 *
 * A node's match routine receives the input line s (of length n) and a
 * caller-owned (n+1) x (n+1) table of booleans.  For every substring
 * s[b..e) that the node matches it sets table[b][e]; it never clears a cell.
 * The specification of what a node sets is Matches(p, s), a set of cells
 * written to follow the loops of the source exactly; in particular the
 * repetition operators are NOT a transitive closure (see PlusCells below).
 */
module Patterns {

  /** One node of a pattern tree; children are owned values, so the tree is acyclic. */
  datatype Pattern =
    | Literal(sym: char)
    | Dot
    | Start
    | End
    | CharClass(members: seq<char>)
    | Concatenation(p1: Pattern, p2: Pattern)
    | Alternation(p1: Pattern, p2: Pattern)
    | Plus(p: Pattern)
    | Asterisk(p: Pattern)
    | Question(p: Pattern)

  /** A set of table cells (begin, end). */
  type Cells = set<(int, int)>

  /** The three repetition operators share one loop shape; this tag selects the body. */
  datatype Repeat = OneOrMore | ZeroOrMore | ZeroOrOne

  /** True when an end anchor occurs in p: matching it writes row len - 1, so len must be positive. */
  predicate HasEnd(p: Pattern)
  {
    match p
    case End => true
    case Concatenation(p1, p2) => HasEnd(p1) || HasEnd(p2)
    case Alternation(p1, p2) => HasEnd(p1) || HasEnd(p2)
    case Plus(q) => HasEnd(q)
    case Asterisk(q) => HasEnd(q)
    case Question(q) => HasEnd(q)
    case _ => false
  }

  // ---------------------------------------------------------------------
  // Specification: the cells each node sets

  ghost function LiteralCells(sym: char, s: string): Cells
  {
    set i | 0 <= i < |s| && s[i] == sym :: (i, i + 1)
  }

  /** The dot accepts every character, the trailing newline included. */
  ghost predicate AnyChar(c: char)
  {
    true
  }

  ghost function DotCells(s: string): Cells
  {
    set i | 0 <= i < |s| && AnyChar(s[i]) :: (i, i + 1)
  }

  /** The end anchor marks the empty span at len - 1 (for a line read by fgets, just before its newline). */
  ghost function EndCells(n: int): Cells
  {
    if n >= 1 then {(n - 1, n - 1)} else {}
  }

  ghost function ClassCells(members: seq<char>, s: string): Cells
  {
    set i | 0 <= i < |s| && s[i] in members :: (i, i + 1)
  }

  /** s[b..e) splits at some k into a p1-match s[b..k) and a p2-match s[k..e). */
  ghost predicate Split(M1: Cells, M2: Cells, b: int, e: int)
  {
    exists k :: b <= k <= e && (b, k) in M1 && (k, e) in M2
  }

  ghost function ConcatCells(M1: Cells, M2: Cells, n: int): Cells
  {
    set b, e | 0 <= b <= e <= n && Split(M1, M2, b, e) :: (b, e)
  }

  ghost function AltCells(M1: Cells, M2: Cells, n: int): Cells
  {
    set b, e | 0 <= b <= e <= n && ((b, e) in M1 || (b, e) in M2) :: (b, e)
  }

  /**
   * The repetition loops test the inner table at [e][e + (e - b)], the
   * equally long span that follows s[b..e).  The source does not check that
   * the column is at most n; the model reads false beyond it (see
   * PlusOverrunReadsBelowDiagonal for why that is what the source reads).
   */
  ghost predicate Chained(M: Cells, n: int, b: int, e: int)
  {
    e + (e - b) <= n && (e, e + (e - b)) in M
  }

  /** Whether visiting inner cell [b][e] in the Plus loop sets cell [b][x]. */
  ghost predicate PlusContributes(M: Cells, n: int, b: int, e: int, x: int)
  {
    (b, e) in M && (x == e || (Chained(M, n, b, e) && e <= x < n))
  }

  /** Whether visiting inner cell [b][e] in the loop of the given operator sets cell [b][x]. */
  ghost predicate Contributes(op: Repeat, M: Cells, n: int, b: int, e: int, x: int)
  {
    match op
    case OneOrMore => PlusContributes(M, n, b, e, x)
    case ZeroOrMore => PlusContributes(M, n, b, e, x) || ((b, e) !in M && x == b)
    case ZeroOrOne => if (b, e) in M then x == e else x == b
  }

  /** The cells a repetition loop sets: every (b, x) that some visited inner cell [b][e] contributes. */
  ghost function RepeatCells(op: Repeat, M: Cells, n: int): Cells
  {
    set b, x | 0 <= b <= n && 0 <= x <= n && (exists e :: 0 <= e <= n && Contributes(op, M, n, b, e, x)) :: (b, x)
  }

  /**
   * The cells the match routine of p sets in an all-false table for line s.
   * Every such cell lies in the table and on or above its diagonal.
   */
  ghost function Matches(p: Pattern, s: string): (r: Cells)
    ensures forall c :: c in r ==> 0 <= c.0 <= c.1 <= |s|
  {
    match p
    case Literal(c) => LiteralCells(c, s)
    case Dot => DotCells(s)
    case Start => {(0, 0)}
    case End => EndCells(|s|)
    case CharClass(m) => ClassCells(m, s)
    case Concatenation(p1, p2) => ConcatCells(Matches(p1, s), Matches(p2, s), |s|)
    case Alternation(p1, p2) => AltCells(Matches(p1, s), Matches(p2, s), |s|)
    case Plus(q) => RepeatCells(OneOrMore, Matches(q, s), |s|)
    case Asterisk(q) => RepeatCells(ZeroOrMore, Matches(q, s), |s|)
    case Question(q) => RepeatCells(ZeroOrOne, Matches(q, s), |s|)
  }

  // ---------------------------------------------------------------------
  // The match routines

  /** table afterwards is table before, with exactly the cells of S (inside it) additionally set. */
  twostate predicate Sets(table: array2<bool>, S: Cells)
    reads table
  {
    forall b, e :: 0 <= b < table.Length0 && 0 <= e < table.Length1 ==>
      table[b, e] == (old(table[b, e]) || (b, e) in S)
  }

  /** Dispatch on the node kind (the function pointer of the source). */
  method Match(p: Pattern, s: string, table: array2<bool>)
    requires table.Length0 == |s| + 1 && table.Length1 == |s| + 1
    requires HasEnd(p) ==> |s| >= 1
    modifies table
    ensures Sets(table, Matches(p, s))
    decreases p, 1
  {
    match p
    case Literal(c) => MatchLiteral(c, s, table);
    case Dot => MatchDot(s, table);
    case Start => MatchStart(s, table);
    case End => MatchEnd(s, table);
    case CharClass(m) => MatchCharacterClass(m, s, table);
    case Concatenation(p1, p2) => MatchConcatenation(p1, p2, s, table);
    case Alternation(p1, p2) => MatchAlternation(p1, p2, s, table);
    case Plus(q) => MatchPlus(q, s, table);
    case Asterisk(q) => MatchAsterisk(q, s, table);
    case Question(q) => MatchQuestion(q, s, table);
  }

  method MatchLiteral(sym: char, s: string, table: array2<bool>)
    requires table.Length0 == |s| + 1 && table.Length1 == |s| + 1
    modifies table
    ensures Sets(table, LiteralCells(sym, s))
  {
    for i := 0 to |s|
      invariant forall b, e :: 0 <= b <= |s| && 0 <= e <= |s| ==>
        table[b, e] == (old(table[b, e]) || (e == b + 1 && b < i && s[b] == sym))
    {
      if s[i] == sym {
        table[i, i + 1] := true;
      }
    }
  }

  method MatchDot(s: string, table: array2<bool>)
    requires table.Length0 == |s| + 1 && table.Length1 == |s| + 1
    modifies table
    ensures Sets(table, DotCells(s))
  {
    for i := 0 to |s|
      invariant forall b, e :: 0 <= b <= |s| && 0 <= e <= |s| ==>
        table[b, e] == (old(table[b, e]) || (e == b + 1 && b < i && AnyChar(s[b])))
    {
      table[i, i + 1] := true;
    }
  }

  method MatchStart(s: string, table: array2<bool>)
    requires table.Length0 == |s| + 1 && table.Length1 == |s| + 1
    modifies table
    ensures Sets(table, {(0, 0)})
  {
    table[0, 0] := true;
  }

  method MatchEnd(s: string, table: array2<bool>)
    requires table.Length0 == |s| + 1 && table.Length1 == |s| + 1
    requires |s| >= 1
    modifies table
    ensures Sets(table, EndCells(|s|))
  {
    table[|s| - 1, |s| - 1] := true;
  }

  method MatchCharacterClass(members: seq<char>, s: string, table: array2<bool>)
    requires table.Length0 == |s| + 1 && table.Length1 == |s| + 1
    modifies table
    ensures Sets(table, ClassCells(members, s))
  {
    for i := 0 to |s|
      invariant forall b, e :: 0 <= b <= |s| && 0 <= e <= |s| ==>
        table[b, e] == (old(table[b, e]) || (e == b + 1 && b < i && s[b] in members))
    {
      for k := 0 to |members|
        invariant forall b, e :: 0 <= b <= |s| && 0 <= e <= |s| ==>
          table[b, e] == (old(table[b, e]) || (e == b + 1 && b < i && s[b] in members)
                                           || (b == i && e == i + 1 && s[i] in members[..k]))
      {
        if s[i] == members[k] {
          table[i, i + 1] := true;
        }
      }
      assert members[..|members|] == members;
    }
  }
  // ---------------------------------------------------------------------
  // The loops that combine the tables of the sub-patterns.  Each takes the
  // sub-tables together with the (ghost) cell sets they hold.

  /** t holds exactly the cells of M. */
  ghost predicate Holds(t: array2<bool>, M: Cells)
    reads t
  {
    forall r, x :: 0 <= r < t.Length0 && 0 <= x < t.Length1 ==> t[r, x] == ((r, x) in M)
  }

  /** A table just filled by Match from all-false holds the cells the pattern matches. */
  lemma FreshHolds(t: array2<bool>, M: Cells)
    requires forall r, x :: 0 <= r < t.Length0 && 0 <= x < t.Length1 ==> t[r, x] == (false || (r, x) in M)
    ensures Holds(t, M)
  {
  }

  /** A sub-pattern's own table: calloc'ed all false, then filled by the sub-pattern's match routine. */
  method MatchFresh(p: Pattern, s: string) returns (tbl: array2<bool>)
    requires HasEnd(p) ==> |s| >= 1
    ensures fresh(tbl) && tbl.Length0 == |s| + 1 && tbl.Length1 == |s| + 1
    ensures Holds(tbl, Matches(p, s))
    decreases p, 2
  {
    tbl := new bool[|s| + 1, |s| + 1]((b, e) => false);
    Match(p, s, tbl);
    FreshHolds(tbl, Matches(p, s));
  }

  /** Some split point k in [b, kEnd) joins a p1-match s[b..k) and a p2-match s[k..e). */
  ghost predicate SplitBelow(M1: Cells, M2: Cells, b: int, e: int, kEnd: int)
    decreases kEnd - b
  {
    kEnd > b && (SplitBelow(M1, M2, b, e, kEnd - 1) || ((b, kEnd - 1) in M1 && (kEnd - 1, e) in M2))
  }

  lemma {:induction false} SplitBelowWitness(M1: Cells, M2: Cells, b: int, e: int, kEnd: int)
    ensures SplitBelow(M1, M2, b, e, kEnd) <==> exists k :: b <= k < kEnd && (b, k) in M1 && (k, e) in M2
    decreases kEnd - b
  {
    if kEnd > b {
      SplitBelowWitness(M1, M2, b, e, kEnd - 1);
    }
  }

  /** The innermost loop of the concatenation: try every split point k of s[b..e). */
  method TrySplits(tbl1: array2<bool>, tbl2: array2<bool>, ghost M1: Cells, ghost M2: Cells,
                   b: int, e: int, table: array2<bool>)
    requires tbl1.Length0 == tbl1.Length1 == tbl2.Length0 == tbl2.Length1 == table.Length0 == table.Length1
    requires 0 <= b <= e < table.Length0
    requires Holds(tbl1, M1) && Holds(tbl2, M2)
    modifies table
    ensures Sets(table, if SplitBelow(M1, M2, b, e, e + 1) then {(b, e)} else {})
  {
    for k := b to e + 1
      invariant forall r, x :: 0 <= r < table.Length0 && 0 <= x < table.Length1 ==>
        table[r, x] == (old(table[r, x]) || (r == b && x == e && SplitBelow(M1, M2, b, e, k)))
    {
      if tbl1[b, k] && tbl2[k, e] {
        table[b, e] := true;
      }
    }
  }

  /** The middle loop of the concatenation: every end e >= b of row b. */
  method ConcatenateRow(tbl1: array2<bool>, tbl2: array2<bool>, ghost M1: Cells, ghost M2: Cells,
                        b: int, table: array2<bool>)
    requires tbl1.Length0 == tbl1.Length1 == tbl2.Length0 == tbl2.Length1 == table.Length0 == table.Length1
    requires 0 <= b < table.Length0
    requires table != tbl1 && table != tbl2
    requires Holds(tbl1, M1) && Holds(tbl2, M2)
    modifies table
    ensures forall r, x :: 0 <= r < table.Length0 && 0 <= x < table.Length1 ==>
      table[r, x] == (old(table[r, x]) || (r == b && b <= x && SplitBelow(M1, M2, b, x, x + 1)))
  {
    for e := b to table.Length1
      invariant forall r, x :: 0 <= r < table.Length0 && 0 <= x < table.Length1 ==>
        table[r, x] == (old(table[r, x]) || (r == b && b <= x < e && SplitBelow(M1, M2, b, x, x + 1)))
    {
      TrySplits(tbl1, tbl2, M1, M2, b, e, table);
    }
  }

  /** The outer loop of the concatenation: every begin b. */
  method ConcatenateTables(tbl1: array2<bool>, tbl2: array2<bool>, ghost M1: Cells, ghost M2: Cells,
                           table: array2<bool>)
    requires tbl1.Length0 == tbl1.Length1 == tbl2.Length0 == tbl2.Length1 == table.Length0 == table.Length1
    requires table != tbl1 && table != tbl2
    requires Holds(tbl1, M1) && Holds(tbl2, M2)
    modifies table
    ensures Sets(table, ConcatCells(M1, M2, table.Length0 - 1))
  {
    for b := 0 to table.Length0
      invariant forall r, x :: 0 <= r < table.Length0 && 0 <= x < table.Length1 ==>
        table[r, x] == (old(table[r, x]) || (r < b && r <= x && SplitBelow(M1, M2, r, x, x + 1)))
    {
      ConcatenateRow(tbl1, tbl2, M1, M2, b, table);
    }
    forall r, x | 0 <= r <= x
      ensures SplitBelow(M1, M2, r, x, x + 1) == Split(M1, M2, r, x)
    {
      SplitBelowWitness(M1, M2, r, x, x + 1);
    }
  }

  method MatchConcatenation(p1: Pattern, p2: Pattern, s: string, table: array2<bool>)
    requires table.Length0 == |s| + 1 && table.Length1 == |s| + 1
    requires HasEnd(p1) || HasEnd(p2) ==> |s| >= 1
    modifies table
    ensures Sets(table, Matches(Concatenation(p1, p2), s))
    decreases Concatenation(p1, p2), 0
  {
    var n := |s|;
    var tbl1 := MatchFresh(p1, s);
    var tbl2 := MatchFresh(p2, s);
    ConcatenateTables(tbl1, tbl2, Matches(p1, s), Matches(p2, s), table);
  }

  /** Both loops of the alternation: every cell on or above the diagonal. */
  method AlternateTables(tbl1: array2<bool>, tbl2: array2<bool>, ghost M1: Cells, ghost M2: Cells,
                         table: array2<bool>)
    requires tbl1.Length0 == tbl1.Length1 == tbl2.Length0 == tbl2.Length1 == table.Length0 == table.Length1
    requires table != tbl1 && table != tbl2
    requires Holds(tbl1, M1) && Holds(tbl2, M2)
    modifies table
    ensures Sets(table, AltCells(M1, M2, table.Length0 - 1))
  {
    for b := 0 to table.Length0
      invariant forall r, x :: 0 <= r < table.Length0 && 0 <= x < table.Length1 ==>
        table[r, x] == (old(table[r, x]) || (r < b && r <= x && ((r, x) in M1 || (r, x) in M2)))
    {
      for e := b to table.Length1
        invariant forall r, x :: 0 <= r < table.Length0 && 0 <= x < table.Length1 ==>
          table[r, x] == (old(table[r, x]) || ((r < b || (r == b && x < e)) && r <= x && ((r, x) in M1 || (r, x) in M2)))
      {
        if tbl1[b, e] || tbl2[b, e] {
          table[b, e] := true;
        }
      }
    }
  }

  method MatchAlternation(p1: Pattern, p2: Pattern, s: string, table: array2<bool>)
    requires table.Length0 == |s| + 1 && table.Length1 == |s| + 1
    requires HasEnd(p1) || HasEnd(p2) ==> |s| >= 1
    modifies table
    ensures Sets(table, Matches(Alternation(p1, p2), s))
    decreases Alternation(p1, p2), 0
  {
    var n := |s|;
    var tbl1 := MatchFresh(p1, s);
    var tbl2 := MatchFresh(p2, s);
    AlternateTables(tbl1, tbl2, Matches(p1, s), Matches(p2, s), table);
  }

  /** Some visited inner cell [r][e] with e < eEnd contributes cell [r][x]. */
  ghost predicate RowDone(op: Repeat, M: Cells, n: int, r: int, x: int, eEnd: int)
    decreases eEnd
  {
    eEnd > 0 && (RowDone(op, M, n, r, x, eEnd - 1) || Contributes(op, M, n, r, eEnd - 1, x))
  }

  lemma {:induction false} RowDoneWitness(op: Repeat, M: Cells, n: int, r: int, x: int, eEnd: int)
    requires eEnd >= 0
    ensures RowDone(op, M, n, r, x, eEnd) <==> exists e :: 0 <= e < eEnd && Contributes(op, M, n, r, e, x)
  {
    if eEnd > 0 {
      RowDoneWitness(op, M, n, r, x, eEnd - 1);
    }
  }

  /** The innermost loop of Plus and Asterisk: set row b from column e up to, not including, column len. */
  method FillRow(b: int, e: int, table: array2<bool>)
    requires table.Length0 == table.Length1
    requires 0 <= b < table.Length0 && 0 <= e < table.Length1
    modifies table
    ensures forall r, x :: 0 <= r < table.Length0 && 0 <= x < table.Length1 ==>
      table[r, x] == (old(table[r, x]) || (r == b && e <= x < table.Length1 - 1))
  {
    for i := 0 to table.Length1 - 1 - e
      invariant forall r, x :: 0 <= r < table.Length0 && 0 <= x < table.Length1 ==>
        table[r, x] == (old(table[r, x]) || (r == b && e <= x < e + i))
    {
      table[b, e + i] := true;
    }
  }

  /** The end loop of one row of a repetition: visit every inner cell [b][e]. */
  method RepeatRow(op: Repeat, tbl: array2<bool>, ghost M: Cells, b: int, table: array2<bool>)
    requires tbl.Length0 == tbl.Length1 == table.Length0 == table.Length1
    requires 0 <= b < table.Length0
    requires table != tbl
    requires Holds(tbl, M)
    requires forall c :: c in M ==> c.0 <= c.1
    modifies table
    ensures forall r, x :: 0 <= r < table.Length0 && 0 <= x < table.Length1 ==>
      table[r, x] == (old(table[r, x]) || (r == b && RowDone(op, M, table.Length0 - 1, b, x, table.Length0)))
  {
    var n := table.Length0 - 1;
    for e := 0 to n + 1
      invariant forall r, x :: 0 <= r <= n && 0 <= x <= n ==>
        table[r, x] == (old(table[r, x]) || (r == b && RowDone(op, M, n, b, x, e)))
    {
      if op == ZeroOrOne {
        if !tbl[b, e] {
          table[b, b] := true;
        } else if tbl[b, e] {
          table[b, e] := true;
        }
      } else {
        if tbl[b, e] {
          table[b, e] := true;
          if e + (e - b) <= n && tbl[e, e + (e - b)] {
            FillRow(b, e, table);
          }
        }
        if op == ZeroOrMore && !tbl[b, e] {
          table[b, b] := true;
        }
      }
    }
  }

  /** The begin loop of a repetition: every row b. */
  method RepeatTables(op: Repeat, tbl: array2<bool>, ghost M: Cells, table: array2<bool>)
    requires tbl.Length0 == tbl.Length1 == table.Length0 == table.Length1
    requires table != tbl
    requires Holds(tbl, M)
    requires forall c :: c in M ==> c.0 <= c.1
    modifies table
    ensures Sets(table, RepeatCells(op, M, table.Length0 - 1))
  {
    var n := table.Length0 - 1;
    for b := 0 to n + 1
      invariant forall r, x :: 0 <= r <= n && 0 <= x <= n ==>
        table[r, x] == (old(table[r, x]) || (r < b && RowDone(op, M, n, r, x, n + 1)))
    {
      RepeatRow(op, tbl, M, b, table);
    }
    forall r, x | 0 <= r <= n && 0 <= x <= n
      ensures RowDone(op, M, n, r, x, n + 1) <==> (r, x) in RepeatCells(op, M, n)
    {
      RowDoneWitness(op, M, n, r, x, n + 1);
    }
  }

  method MatchPlus(q: Pattern, s: string, table: array2<bool>)
    requires table.Length0 == |s| + 1 && table.Length1 == |s| + 1
    requires HasEnd(q) ==> |s| >= 1
    modifies table
    ensures Sets(table, Matches(Plus(q), s))
    decreases Plus(q), 0
  {
    var n := |s|;
    var tbl := MatchFresh(q, s);
    RepeatTables(OneOrMore, tbl, Matches(q, s), table);
  }

  method MatchAsterisk(q: Pattern, s: string, table: array2<bool>)
    requires table.Length0 == |s| + 1 && table.Length1 == |s| + 1
    requires HasEnd(q) ==> |s| >= 1
    modifies table
    ensures Sets(table, Matches(Asterisk(q), s))
    decreases Asterisk(q), 0
  {
    var n := |s|;
    var tbl := MatchFresh(q, s);
    RepeatTables(ZeroOrMore, tbl, Matches(q, s), table);
  }

  method MatchQuestion(q: Pattern, s: string, table: array2<bool>)
    requires table.Length0 == |s| + 1 && table.Length1 == |s| + 1
    requires HasEnd(q) ==> |s| >= 1
    modifies table
    ensures Sets(table, Matches(Question(q), s))
    decreases Question(q), 0
  {
    var n := |s|;
    var tbl := MatchFresh(q, s);
    RepeatTables(ZeroOrOne, tbl, Matches(q, s), table);
  }
}
