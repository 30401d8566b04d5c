/**
 * The scoreboard logic of p4/command.c: the two orderings used to sort the
 * tables, the filters that pick the problems a contestant has or has not
 * solved, and the state changes made by the `problem`, `contestant`,
 * `attempt` and `solved` commands, lifted out of the command loop as methods
 * that take the already-read ids.
 */
module Command {
  import opened ContestModel

  /** Penalty points for each unsuccessful attempt on a problem that is later solved. */
  const PENALTY := 20

  // ---------------------------------------------------------------------------
  // strcmp and the two comparators
  // ---------------------------------------------------------------------------

  /** strcmp on two strings without NUL characters, up to the sign of its result. */
  function StrCmp(a: string, b: string): (r: int)
    ensures -1 <= r <= 1
    ensures r == 0 <==> a == b
  {
    if |a| == 0 && |b| == 0 then 0
    else if |a| == 0 then -1
    else if |b| == 0 then 1
    else if a[0] < b[0] then -1
    else if a[0] > b[0] then 1
    else
      var r := StrCmp(a[1..], b[1..]);
      assert r == 0 ==> a == [a[0]] + a[1..] == [b[0]] + b[1..] == b;
      r
  }

  /** Swapping the arguments of strcmp flips the sign of its result. */
  lemma {:induction false} StrCmpAntisymmetric(a: string, b: string)
    ensures StrCmp(a, b) == -StrCmp(b, a)
  {
    if |a| > 0 && |b| > 0 && a[0] == b[0] {
      StrCmpAntisymmetric(a[1..], b[1..]);
    }
  }

  /** strcmp orders strings transitively. */
  lemma {:induction false} StrCmpTransitive(a: string, b: string, c: string)
    requires StrCmp(a, b) < 0 && StrCmp(b, c) < 0
    ensures StrCmp(a, c) < 0
  {
    if |a| > 0 && |b| > 0 && |c| > 0 && a[0] == b[0] == c[0] {
      StrCmpTransitive(a[1..], b[1..], c[1..]);
    }
  }

  /**
   * A sort key: a primary and a secondary number, both ordered ascending, and
   * an id ordered by strcmp.  `KeyBefore` is the lexicographic order on keys.
   */
  type Key = (int, int, string)

  predicate KeyBefore(x: Key, y: Key)
  {
    x.0 < y.0 || (x.0 == y.0 && (x.1 < y.1 || (x.1 == y.1 && StrCmp(x.2, y.2) < 0)))
  }

  /** KeyBefore is a strict total order: irreflexive, transitive and total. */
  lemma KeyBeforeStrictTotal(x: Key, y: Key, z: Key)
    ensures !KeyBefore(x, x)
    ensures KeyBefore(x, y) && KeyBefore(y, z) ==> KeyBefore(x, z)
    ensures x != y ==> KeyBefore(x, y) || KeyBefore(y, x)
  {
    if x.0 == y.0 == z.0 && x.1 == y.1 == z.1 && StrCmp(x.2, y.2) < 0 && StrCmp(y.2, z.2) < 0 {
      StrCmpTransitive(x.2, y.2, z.2);
    }
    StrCmpAntisymmetric(x.2, y.2);
  }

  /** Problems sort by solutions descending, then attempts ascending, then id. */
  function ProblemKey(p: Problem): Key
    reads p
  {
    (-p.solvedCount, p.attemptCount, p.id)
  }

  /** Contestants sort by problems solved descending, then penalty points ascending, then id. */
  function ContestantKey(c: Contestant): Key
    reads c
  {
    (-c.solvedCount, c.points, c.id)
  }

  /** problemComp: negative when `a` is listed before `b`, zero only for equal keys. */
  function ProblemComp(a: Problem, b: Problem): (r: int)
    reads a, b
    ensures r == 0 <==> ProblemKey(a) == ProblemKey(b)
  {
    if a.solvedCount > b.solvedCount then -1
    else if a.solvedCount < b.solvedCount then 1
    else if a.attemptCount < b.attemptCount then -1
    else if a.attemptCount > b.attemptCount then 1
    else StrCmp(a.id, b.id)
  }

  /** contestantComp: negative when `a` is listed before `b`, zero only for equal keys. */
  function ContestantComp(a: Contestant, b: Contestant): (r: int)
    reads a, b
    ensures r == 0 <==> ContestantKey(a) == ContestantKey(b)
  {
    if a.solvedCount > b.solvedCount then -1
    else if a.solvedCount < b.solvedCount then 1
    else if a.points < b.points then -1
    else if a.points > b.points then 1
    else StrCmp(a.id, b.id)
  }

  /** The sign of problemComp is the order of the problems' keys, in both directions. */
  lemma ProblemCompOrders(a: Problem, b: Problem)
    ensures ProblemComp(a, b) < 0 <==> KeyBefore(ProblemKey(a), ProblemKey(b))
    ensures ProblemComp(a, b) > 0 <==> KeyBefore(ProblemKey(b), ProblemKey(a))
  {
    StrCmpAntisymmetric(a.id, b.id);
  }

  /** The sign of contestantComp is the order of the contestants' keys, in both directions. */
  lemma ContestantCompOrders(a: Contestant, b: Contestant)
    ensures ContestantComp(a, b) < 0 <==> KeyBefore(ContestantKey(a), ContestantKey(b))
    ensures ContestantComp(a, b) > 0 <==> KeyBefore(ContestantKey(b), ContestantKey(a))
  {
    StrCmpAntisymmetric(a.id, b.id);
  }

  // ---------------------------------------------------------------------------
  // The list filters
  // ---------------------------------------------------------------------------

  /** Some attempt in `attempts` solved the problem with id `id`. */
  predicate HasSolved(attempts: seq<Attempt>, id: string)
  {
    exists i :: 0 <= i < |attempts| && attempts[i].problem.id == id && attempts[i].solved
  }

  /** printAllTest: every problem is listed. */
  function PrintAllTest(problem: Problem): (r: bool)
    ensures r
  {
    true
  }

  /** printSolvedForContestant: true exactly when `c` has a solved attempt on a problem with `problem`'s id. */
  method PrintSolvedForContestant(problem: Problem, c: Contestant) returns (r: bool)
    ensures r == HasSolved(c.aList, problem.id)
  {
    for i := 0 to |c.aList|
      invariant !HasSolved(c.aList[..i], problem.id)
    {
      if problem.id == c.aList[i].problem.id && c.aList[i].solved {
        assert c.aList[i] == c.aList[..i + 1][i];
        return true;
      }
      assert !HasSolved(c.aList[..i + 1], problem.id) by {
        assert c.aList[..i + 1] == c.aList[..i] + [c.aList[i]];
      }
    }
    assert c.aList[..|c.aList|] == c.aList;
    return false;
  }

  /** printUnsolvedForContestant: the exact negation of printSolvedForContestant. */
  method PrintUnsolvedForContestant(problem: Problem, c: Contestant) returns (r: bool)
    ensures r == !HasSolved(c.aList, problem.id)
  {
    for i := 0 to |c.aList|
      invariant !HasSolved(c.aList[..i], problem.id)
    {
      if problem.id == c.aList[i].problem.id && c.aList[i].solved {
        assert c.aList[i] == c.aList[..i + 1][i];
        return false;
      }
      assert !HasSolved(c.aList[..i + 1], problem.id) by {
        assert c.aList[..i + 1] == c.aList[..i] + [c.aList[i]];
      }
    }
    assert c.aList[..|c.aList|] == c.aList;
    return true;
  }

  // ---------------------------------------------------------------------------
  // Scoring: what a contestant's counters mean
  // ---------------------------------------------------------------------------

  /** The number of solved attempts. */
  function SolvedCount(a: seq<Attempt>): nat
  {
    if a == [] then 0 else SolvedCount(a[..|a| - 1]) + (if a[|a| - 1].solved then 1 else 0)
  }

  /** The ids of the problems with a solved attempt. */
  function SolvedIds(a: seq<Attempt>): set<string>
  {
    if a == [] then {}
    else SolvedIds(a[..|a| - 1]) + (if a[|a| - 1].solved then {a[|a| - 1].problem.id} else {})
  }

  /** The number of unsolved attempts on the problem with id `id`. */
  function UnsolvedOn(a: seq<Attempt>, id: string): nat
  {
    if a == [] then 0
    else UnsolvedOn(a[..|a| - 1], id) + (if !a[|a| - 1].solved && a[|a| - 1].problem.id == id then 1 else 0)
  }

  /** The number of unsolved attempts on problems whose ids are in `ids`. */
  function Penalized(a: seq<Attempt>, ids: set<string>): nat
  {
    if a == [] then 0
    else Penalized(a[..|a| - 1], ids) + (if !a[|a| - 1].solved && a[|a| - 1].problem.id in ids then 1 else 0)
  }

  /** SolvedIds collects exactly the problems HasSolved finds. */
  lemma {:induction false} SolvedIdsMeaning(a: seq<Attempt>, id: string)
    ensures id in SolvedIds(a) <==> HasSolved(a, id)
  {
    if a != [] {
      var init := a[..|a| - 1];
      SolvedIdsMeaning(init, id);
      if HasSolved(a, id) {
        var k :| 0 <= k < |a| && a[k].problem.id == id && a[k].solved;
        assert k < |a| - 1 ==> init[k] == a[k];
      }
      if HasSolved(init, id) {
        var k :| 0 <= k < |init| && init[k].problem.id == id && init[k].solved;
        assert a[k] == init[k];
      }
    }
  }

  /** Counting one more id as solved adds exactly that problem's unsolved attempts to the penalty count. */
  lemma {:induction false} PenalizedAddId(a: seq<Attempt>, ids: set<string>, id: string)
    requires id !in ids
    ensures Penalized(a, ids + {id}) == Penalized(a, ids) + UnsolvedOn(a, id)
  {
    if a != [] {
      PenalizedAddId(a[..|a| - 1], ids, id);
    }
  }

  /**
   * What a contestant's counters mean: `solvedCount` is the number of solved
   * attempts, which is also the number of distinct problems solved (a pair is
   * solved at most once), and `points` is PENALTY for every unsolved attempt
   * on a problem the contestant went on to solve.
   */
  ghost predicate Scored(c: Contestant)
    reads c
  {
    c.solvedCount == SolvedCount(c.aList) == |SolvedIds(c.aList)| &&
    c.points == PENALTY * Penalized(c.aList, SolvedIds(c.aList))
  }

  /** A well-formed contest whose every contestant's counters mean what they should. */
  ghost predicate Consistent(contest: Contest)
    reads contest, contest.cList
  {
    contest.Valid() && forall i :: 0 <= i < |contest.cList| ==> Scored(contest.cList[i])
  }

  /** Two solved attempts never name the same problem in a scored attempt list. */
  lemma {:induction false} SolvedAtMostOnce(a: seq<Attempt>)
    requires SolvedCount(a) == |SolvedIds(a)|
    ensures forall i, j :: 0 <= i < j < |a| && a[i].solved && a[j].solved ==> a[i].problem.id != a[j].problem.id
  {
    if a != [] {
      var init := a[..|a| - 1];
      var last := a[|a| - 1];
      SolvedCountBound(init);
      if last.solved {
        assert last.problem.id !in SolvedIds(init);
        SolvedIdsMeaning(init, last.problem.id);
      }
      SolvedAtMostOnce(init);
      forall i, j | 0 <= i < j < |a| && a[i].solved && a[j].solved
        ensures a[i].problem.id != a[j].problem.id
      {
        assert a[i] == init[i];
        assert j < |a| - 1 ==> a[j] == init[j];
      }
    }
  }

  /** There are never fewer solved attempts than solved problems. */
  lemma {:induction false} SolvedCountBound(a: seq<Attempt>)
    ensures |SolvedIds(a)| <= SolvedCount(a)
  {
    if a != [] {
      SolvedCountBound(a[..|a| - 1]);
    }
  }

  // ---------------------------------------------------------------------------
  // The commands that change the contest
  // ---------------------------------------------------------------------------

  /** The scan of the problem list for an id, which settles on the last match. */
  method ScanProblems(contest: Contest, id: string) returns (found: bool, index: nat)
    ensures found <==> HasProblem(contest.pList, id)
    ensures found ==> index == ProblemIndex(contest.pList, id)
  {
    found, index := false, 0;
    for i := 0 to |contest.pList|
      invariant found <==> HasProblem(contest.pList[..i], id)
      invariant found ==> index == ProblemIndex(contest.pList[..i], id)
    {
      assert contest.pList[..i + 1] == contest.pList[..i] + [contest.pList[i]];
      HasProblemSnoc(contest.pList[..i], contest.pList[i], id);
      if id == contest.pList[i].id {
        found, index := true, i;
      }
    }
    assert contest.pList[..|contest.pList|] == contest.pList;
  }

  /** The scan of the contestant list for an id, which settles on the last match. */
  method ScanContestants(contest: Contest, id: string) returns (found: bool, index: nat)
    ensures found <==> HasContestant(contest.cList, id)
    ensures found ==> index == ContestantIndex(contest.cList, id)
  {
    found, index := false, 0;
    for i := 0 to |contest.cList|
      invariant found <==> HasContestant(contest.cList[..i], id)
      invariant found ==> index == ContestantIndex(contest.cList[..i], id)
    {
      assert contest.cList[..i + 1] == contest.cList[..i] + [contest.cList[i]];
      HasContestantSnoc(contest.cList[..i], contest.cList[i], id);
      if id == contest.cList[i].id {
        found, index := true, i;
      }
    }
    assert contest.cList[..|contest.cList|] == contest.cList;
  }

  /**
   * The `problem` command: a duplicate id is refused and changes nothing;
   * otherwise a new problem is appended, the capacity doubling first when the
   * list is full.
   */
  method AddProblem(contest: Contest, id: string, name: string) returns (added: bool)
    requires Consistent(contest)
    modifies contest
    ensures Consistent(contest)
    ensures added <==> !old(HasProblem(contest.pList, id))
    ensures contest.cList == old(contest.cList) && contest.cCap == old(contest.cCap)
    ensures !added ==> contest.pList == old(contest.pList) && contest.pCap == old(contest.pCap)
    ensures added ==> contest.pCap == (if old(|contest.pList| >= contest.pCap) then 2 * old(contest.pCap) else old(contest.pCap))
    ensures added ==> exists p: Problem :: fresh(p) && contest.pList == old(contest.pList) + [p] &&
                        p.id == id && p.name == name && p.solvedCount == 0 && p.attemptCount == 0
  {
    var duplicate, _ := ScanProblems(contest, id);
    if duplicate {
      return false;
    }
    if |contest.pList| >= contest.pCap {
      contest.pCap := contest.pCap * 2;
    }
    var p := new Problem(id, name);
    contest.pList := contest.pList + [p];
    return true;
  }

  /**
   * The `contestant` command: a duplicate id is refused and changes nothing;
   * otherwise a new contestant is appended, the capacity doubling first when
   * the list is full.
   */
  method AddContestant(contest: Contest, id: string, name: string) returns (added: bool)
    requires Consistent(contest)
    modifies contest
    ensures Consistent(contest)
    ensures added <==> !old(HasContestant(contest.cList, id))
    ensures contest.pList == old(contest.pList) && contest.pCap == old(contest.pCap)
    ensures !added ==> contest.cList == old(contest.cList) && contest.cCap == old(contest.cCap)
    ensures added ==> contest.cCap == (if old(|contest.cList| >= contest.cCap) then 2 * old(contest.cCap) else old(contest.cCap))
    ensures added ==> exists c: Contestant :: fresh(c) && contest.cList == old(contest.cList) + [c] &&
                        c.id == id && c.name == name && c.aList == [] && c.aCap == INITIAL_ATTEMPT_CAP &&
                        c.points == 0 && c.solvedCount == 0
  {
    var duplicate, _ := ScanContestants(contest, id);
    if duplicate {
      return false;
    }
    if |contest.cList| >= contest.cCap {
      contest.cCap := contest.cCap * 2;
    }
    var c := new Contestant(id, name);
    contest.cList := contest.cList + [c];
    return true;
  }

  /** Appends an attempt to a contestant's list, doubling the capacity first when it is full. */
  method AppendAttempt(c: Contestant, a: Attempt)
    requires c.Valid()
    modifies c
    ensures c.Valid()
    ensures c.aList == old(c.aList) + [a]
    ensures c.aCap == if old(|c.aList| >= c.aCap) then 2 * old(c.aCap) else old(c.aCap)
    ensures c.points == old(c.points) && c.solvedCount == old(c.solvedCount)
  {
    if |c.aList| >= c.aCap {
      c.aCap := c.aCap * 2;
    }
    c.aList := c.aList + [a];
  }

  /** The penalty loop: PENALTY for every unsolved attempt on the problem with id `id`. */
  method ChargePenalties(c: Contestant, id: string)
    modifies c
    ensures c.points == old(c.points) + PENALTY * UnsolvedOn(c.aList, id)
    ensures c.aList == old(c.aList) && c.aCap == old(c.aCap) && c.solvedCount == old(c.solvedCount)
  {
    for i := 0 to |c.aList|
      invariant c.aList == old(c.aList) && c.aCap == old(c.aCap) && c.solvedCount == old(c.solvedCount)
      invariant c.points == old(c.points) + PENALTY * UnsolvedOn(c.aList[..i], id)
    {
      assert c.aList[..i + 1][..i] == c.aList[..i];
      if c.aList[i].problem.id == id && !c.aList[i].solved {
        c.points := c.points + PENALTY;
      }
    }
    assert c.aList[..|c.aList|] == c.aList;
  }

  /** What `attempt` does to an unsolved pair: one more unsolved attempt, and the counters keep their meaning. */
  method AttemptUnsolved(c: Contestant, p: Problem)
    requires c.Valid() && Scored(c) && !HasSolved(c.aList, p.id)
    modifies c, p
    ensures c.Valid() && Scored(c)
    ensures c.aList == old(c.aList) + [Attempt(p, false)]
    ensures c.points == old(c.points) && c.solvedCount == old(c.solvedCount)
    ensures p.attemptCount == old(p.attemptCount) + 1 && p.solvedCount == old(p.solvedCount)
  {
    ghost var before := c.aList;
    SolvedIdsMeaning(before, p.id);
    AppendAttempt(c, Attempt(p, false));
    p.attemptCount := p.attemptCount + 1;
    assert c.aList[..|c.aList| - 1] == before;
  }

  /**
   * What `solved` does to an unsolved pair: a solved attempt, one more
   * solution for the problem and the contestant, and PENALTY for each earlier
   * unsolved attempt on it; the counters keep their meaning.
   */
  method SolveUnsolved(c: Contestant, p: Problem)
    requires c.Valid() && Scored(c) && !HasSolved(c.aList, p.id)
    modifies c, p
    ensures c.Valid() && Scored(c)
    ensures c.aList == old(c.aList) + [Attempt(p, true)]
    ensures c.solvedCount == old(c.solvedCount) + 1
    ensures c.points == old(c.points) + PENALTY * old(UnsolvedOn(c.aList, p.id))
    ensures p.attemptCount == old(p.attemptCount) + 1 && p.solvedCount == old(p.solvedCount) + 1
  {
    ghost var before := c.aList;
    SolvedIdsMeaning(before, p.id);
    AppendAttempt(c, Attempt(p, true));
    p.attemptCount := p.attemptCount + 1;
    p.solvedCount := p.solvedCount + 1;
    c.solvedCount := c.solvedCount + 1;
    ChargePenalties(c, p.id);
    assert c.aList[..|c.aList| - 1] == before;
    PenalizedAddId(before, SolvedIds(before), p.id);
  }

  /** An `attempt` by a listed contestant on a listed problem: nothing changes on a pair already solved. */
  method AttemptPair(contest: Contest, c: Contestant, p: Problem)
    requires Consistent(contest) && c in contest.cList
    modifies c, p
    ensures Consistent(contest)
    ensures if old(HasSolved(c.aList, p.id)) then unchanged(c) && unchanged(p)
      else
      c.aList == old(c.aList) + [Attempt(p, false)] &&
      c.points == old(c.points) && c.solvedCount == old(c.solvedCount) &&
      p.attemptCount == old(p.attemptCount) + 1 && p.solvedCount == old(p.solvedCount)
  {
    var solved := PrintSolvedForContestant(p, c);
    if !solved {
      AttemptUnsolved(c, p);
    }
  }

  /** A `solved` by a listed contestant on a listed problem: nothing changes on a pair already solved. */
  method SolvedPair(contest: Contest, c: Contestant, p: Problem)
    requires Consistent(contest) && c in contest.cList
    modifies c, p
    ensures Consistent(contest)
    ensures if old(HasSolved(c.aList, p.id)) then unchanged(c) && unchanged(p)
      else
      c.aList == old(c.aList) + [Attempt(p, true)] &&
      c.solvedCount == old(c.solvedCount) + 1 &&
      c.points == old(c.points) + PENALTY * old(UnsolvedOn(c.aList, p.id)) &&
      p.attemptCount == old(p.attemptCount) + 1 && p.solvedCount == old(p.solvedCount) + 1
  {
    var solved := PrintSolvedForContestant(p, c);
    if !solved {
      SolveUnsolved(c, p);
    }
  }

  /**
   * The `attempt` command.  An unknown contestant or problem id is refused
   * (`valid` false) and changes nothing.  On a pair already solved nothing
   * changes either.  Otherwise an unsolved attempt is appended to the
   * contestant's list and the problem's attempt count goes up by one.
   */
  method RecordAttempt(contest: Contest, contestantId: string, problemId: string) returns (valid: bool)
    requires Consistent(contest)
    modifies set k | 0 <= k < |contest.cList| && contest.cList[k].id == contestantId :: contest.cList[k]
    modifies set k | 0 <= k < |contest.pList| && contest.pList[k].id == problemId :: contest.pList[k]
    ensures Consistent(contest)
    ensures valid <==> HasProblem(contest.pList, problemId) && HasContestant(contest.cList, contestantId)
    ensures !valid ==> unchanged(contest.pList) && unchanged(contest.cList)
    ensures valid ==>
      var c := contest.cList[ContestantIndex(contest.cList, contestantId)];
      var p := contest.pList[ProblemIndex(contest.pList, problemId)];
      if old(HasSolved(c.aList, problemId)) then unchanged(c) && unchanged(p)
      else
        c.aList == old(c.aList) + [Attempt(p, false)] &&
        c.points == old(c.points) && c.solvedCount == old(c.solvedCount) &&
        p.attemptCount == old(p.attemptCount) + 1 && p.solvedCount == old(p.solvedCount)
  {
    var pExists, pi := ScanProblems(contest, problemId);
    var cExists, ci := ScanContestants(contest, contestantId);
    if !(pExists && cExists) {
      return false;
    }
    var p := contest.pList[pi];
    var c := contest.cList[ci];
    AttemptPair(contest, c, p);
    return true;
  }

  /**
   * The `solved` command.  An unknown contestant or problem id is refused
   * (`valid` false) and changes nothing.  On a pair already solved nothing
   * changes either.  Otherwise a solved attempt is appended, the problem's
   * attempt and solution counts and the contestant's solved count go up by
   * one, and the contestant is charged PENALTY for each earlier unsolved
   * attempt on that problem.
   */
  method RecordSolved(contest: Contest, contestantId: string, problemId: string) returns (valid: bool)
    requires Consistent(contest)
    modifies set k | 0 <= k < |contest.cList| && contest.cList[k].id == contestantId :: contest.cList[k]
    modifies set k | 0 <= k < |contest.pList| && contest.pList[k].id == problemId :: contest.pList[k]
    ensures Consistent(contest)
    ensures valid <==> HasProblem(contest.pList, problemId) && HasContestant(contest.cList, contestantId)
    ensures !valid ==> unchanged(contest.pList) && unchanged(contest.cList)
    ensures valid ==>
      var c := contest.cList[ContestantIndex(contest.cList, contestantId)];
      var p := contest.pList[ProblemIndex(contest.pList, problemId)];
      if old(HasSolved(c.aList, problemId)) then unchanged(c) && unchanged(p)
      else
        c.aList == old(c.aList) + [Attempt(p, true)] &&
        c.solvedCount == old(c.solvedCount) + 1 &&
        c.points == old(c.points) + PENALTY * old(UnsolvedOn(c.aList, problemId)) &&
        p.attemptCount == old(p.attemptCount) + 1 && p.solvedCount == old(p.solvedCount) + 1
  {
    var pExists, pi := ScanProblems(contest, problemId);
    var cExists, ci := ScanContestants(contest, contestantId);
    if !(pExists && cExists) {
      return false;
    }
    var p := contest.pList[pi];
    var c := contest.cList[ci];
    SolvedPair(contest, c, p);
    return true;
  }
}
