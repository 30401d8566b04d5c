/**
 * The records of the programming-contest scoreboard (p4/model.h) and the
 * constructors and lookups of p4/model.c.
 *
 * Problems and contestants live on the heap and are updated in place through
 * the pointers the contest's lists hold, so they are classes here.  An id or a
 * name is copied once when the record is made and never written again, so it
 * is a `const` field.  A C array together with its count becomes a sequence
 * (the count is its length) next to the capacity the program keeps for it.
 */
module ContestModel {
  import opened Wrappers

  /** Initial capacity of a contestant's attempt list. */
  const INITIAL_ATTEMPT_CAP := 3
  /** Initial capacity of the problem list. */
  const INITIAL_PROBLEM_CAP := 3
  /** Initial capacity of the contestant list. */
  const INITIAL_CONTESTANT_CAP := 3

  /** A problem of the contest with its solution and attempt counters. */
  class Problem {
    const id: string
    const name: string
    var solvedCount: int
    var attemptCount: int

    /** makeProblem: a fresh problem with both counters at zero. */
    constructor (id: string, name: string)
      ensures this.id == id && this.name == name
      ensures solvedCount == 0 && attemptCount == 0
    {
      this.id := id;
      this.name := name;
      solvedCount := 0;
      attemptCount := 0;
    }
  }

  /** One submission: the problem it was for (a pointer in the program) and whether it solved it. */
  datatype Attempt = Attempt(problem: Problem, solved: bool)

  /** A person or team, with a growable list of attempts. */
  class Contestant {
    const id: string
    const name: string
    var aList: seq<Attempt>
    var aCap: int
    var points: int
    var solvedCount: int

    /** The attempt list fits its capacity, which can still be doubled. */
    ghost predicate Valid()
      reads this
    {
      1 <= aCap && |aList| <= aCap
    }

    /** makeContestant: no attempts, room for three, no points, nothing solved. */
    constructor (id: string, name: string)
      ensures this.id == id && this.name == name
      ensures aList == [] && aCap == INITIAL_ATTEMPT_CAP
      ensures points == 0 && solvedCount == 0
      ensures Valid()
    {
      this.id := id;
      this.name := name;
      aList := [];
      aCap := INITIAL_ATTEMPT_CAP;
      points := 0;
      solvedCount := 0;
    }
  }

  /** Some problem in `ps` has the id `id`. */
  predicate HasProblem(ps: seq<Problem>, id: string)
  {
    exists i :: 0 <= i < |ps| && ps[i].id == id
  }

  /** Some contestant in `cs` has the id `id`. */
  predicate HasContestant(cs: seq<Contestant>, id: string)
  {
    exists i :: 0 <= i < |cs| && cs[i].id == id
  }

  /** No two problems share an id (so no problem is listed twice). */
  predicate DistinctProblemIds(ps: seq<Problem>)
  {
    forall i, j :: 0 <= i < j < |ps| ==> ps[i].id != ps[j].id
  }

  /** No two contestants share an id. */
  predicate DistinctContestantIds(cs: seq<Contestant>)
  {
    forall i, j :: 0 <= i < j < |cs| ==> cs[i].id != cs[j].id
  }

  /** Extending a problem list by one problem adds exactly that problem's id. */
  lemma HasProblemSnoc(ps: seq<Problem>, p: Problem, id: string)
    ensures HasProblem(ps + [p], id) <==> HasProblem(ps, id) || p.id == id
  {
    if HasProblem(ps + [p], id) {
      var k :| 0 <= k < |ps| + 1 && (ps + [p])[k].id == id;
      assert k < |ps| ==> ps[k].id == id;
    }
    if p.id == id {
      assert (ps + [p])[|ps|] == p;
    }
    if HasProblem(ps, id) {
      var k :| 0 <= k < |ps| && ps[k].id == id;
      assert (ps + [p])[k] == ps[k];
    }
  }

  /** Extending a contestant list by one contestant adds exactly that contestant's id. */
  lemma HasContestantSnoc(cs: seq<Contestant>, c: Contestant, id: string)
    ensures HasContestant(cs + [c], id) <==> HasContestant(cs, id) || c.id == id
  {
    if HasContestant(cs + [c], id) {
      var k :| 0 <= k < |cs| + 1 && (cs + [c])[k].id == id;
      assert k < |cs| ==> cs[k].id == id;
    }
    if c.id == id {
      assert (cs + [c])[|cs|] == c;
    }
    if HasContestant(cs, id) {
      var k :| 0 <= k < |cs| && cs[k].id == id;
      assert (cs + [c])[k] == cs[k];
    }
  }

  /** The position of the last problem with id `id`: the one a full scan of the list settles on. */
  function ProblemIndex(ps: seq<Problem>, id: string): (i: nat)
    requires HasProblem(ps, id)
    ensures i < |ps| && ps[i].id == id
    ensures forall j :: i < j < |ps| ==> ps[j].id != id
  {
    if ps[|ps| - 1].id == id then |ps| - 1
    else
      assert HasProblem(ps[..|ps| - 1], id) by {
        var k :| 0 <= k < |ps| && ps[k].id == id;
        assert ps[..|ps| - 1][k].id == id;
      }
      ProblemIndex(ps[..|ps| - 1], id)
  }

  /** The position of the last contestant with id `id`. */
  function ContestantIndex(cs: seq<Contestant>, id: string): (i: nat)
    requires HasContestant(cs, id)
    ensures i < |cs| && cs[i].id == id
    ensures forall j :: i < j < |cs| ==> cs[j].id != id
  {
    if cs[|cs| - 1].id == id then |cs| - 1
    else
      assert HasContestant(cs[..|cs| - 1], id) by {
        var k :| 0 <= k < |cs| && cs[k].id == id;
        assert cs[..|cs| - 1][k].id == id;
      }
      ContestantIndex(cs[..|cs| - 1], id)
  }

  /** The whole contest: a growable list of problems and one of contestants. */
  class Contest {
    var pList: seq<Problem>
    var pCap: int
    var cList: seq<Contestant>
    var cCap: int

    /** Both lists fit their capacities, ids are unique, every contestant's attempt list fits. */
    ghost predicate Valid()
      reads this, cList
    {
      1 <= pCap && |pList| <= pCap &&
      1 <= cCap && |cList| <= cCap &&
      DistinctProblemIds(pList) && DistinctContestantIds(cList) &&
      forall i :: 0 <= i < |cList| ==> cList[i].Valid()
    }

    /** makeContest: both lists empty with room for three. */
    constructor ()
      ensures pList == [] && pCap == INITIAL_PROBLEM_CAP
      ensures cList == [] && cCap == INITIAL_CONTESTANT_CAP
      ensures Valid()
    {
      pList := [];
      pCap := INITIAL_PROBLEM_CAP;
      cList := [];
      cCap := INITIAL_CONTESTANT_CAP;
    }

    /** findProblem: the first listed problem with the given id, if any; changes nothing. */
    method FindProblem(id: string) returns (r: Option<Problem>)
      ensures r.None? <==> !HasProblem(pList, id)
      ensures r.Some? ==> exists i :: 0 <= i < |pList| && pList[i] == r.value && r.value.id == id &&
                                      forall j :: 0 <= j < i ==> pList[j].id != id
    {
      for i := 0 to |pList|
        invariant forall j :: 0 <= j < i ==> pList[j].id != id
      {
        if pList[i].id == id {
          return Some(pList[i]);
        }
      }
      return None;
    }

    /** findContestant: the first listed contestant with the given id, if any; changes nothing. */
    method FindContestant(id: string) returns (r: Option<Contestant>)
      ensures r.None? <==> !HasContestant(cList, id)
      ensures r.Some? ==> exists i :: 0 <= i < |cList| && cList[i] == r.value && r.value.id == id &&
                                      forall j :: 0 <= j < i ==> cList[j].id != id
    {
      for i := 0 to |cList|
        invariant forall j :: 0 <= j < i ==> cList[j].id != id
      {
        if cList[i].id == id {
          return Some(cList[i]);
        }
      }
      return None;
    }
  }

  /** With unique ids, the id alone determines the problem: first and last match coincide. */
  lemma ProblemIdentifiedById(ps: seq<Problem>, id: string, i: int)
    requires DistinctProblemIds(ps)
    requires 0 <= i < |ps| && ps[i].id == id
    ensures HasProblem(ps, id) && ProblemIndex(ps, id) == i
  {
  }
}
