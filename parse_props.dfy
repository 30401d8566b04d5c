/**
 * Consequences of the grammar of parse.c, stated on the specification
 * functions of module Parse: which characters start an atom, and how the
 * order of the repetition tests and the group handling of the alternation
 * loop decide concrete patterns.
 */
module ParseProperties {
  import opened Wrappers
  import opened Patterns
  import opened Parse

  /**
   * parsePattern succeeds exactly when the alternation parsed from the start
   * stops on the terminator; for a string without an embedded NUL, that is
   * when it consumed the whole pattern.
   */
  lemma PatternParseConsumesAll(str: string)
    ensures PatternParse(str).Success? <==>
      Alternated(str, 0).Success? && Peek(str, Alternated(str, 0).value.1) == NUL
    ensures NUL !in str ==>
      (PatternParse(str).Success? <==> Alternated(str, 0).Success? && Alternated(str, 0).value.1 == |str|)
  {
    if Alternated(str, 0).Success? {
      var i := Alternated(str, 0).value.1;
      if i < |str| {
        assert Peek(str, i) == str[i];
      }
    }
  }

  /** A character that is neither ordinary nor one of ". ^ $ [ (" cannot start an atom. */
  lemma AtomRejects(str: string, pos: nat)
    requires pos <= |str|
    requires Peek(str, pos) in {NUL, '*', '+', '?', '|', ')', '{'}
    ensures Atomic(str, pos) == Failure(InvalidPattern)
  {
  }

  /** An ordinary character, '.', '^' or '$' is one atom of one character. */
  lemma SingleCharacterAtoms(str: string, pos: nat)
    requires pos < |str|
    ensures Ordinary(str[pos]) ==> Atomic(str, pos) == Success((Literal(str[pos]), pos + 1))
    ensures str[pos] == '.' ==> Atomic(str, pos) == Success((Dot, pos + 1))
    ensures str[pos] == '^' ==> Atomic(str, pos) == Success((Start, pos + 1))
    ensures str[pos] == '$' ==> Atomic(str, pos) == Success((End, pos + 1))
  {
  }

  /** A '[' takes every character up to the next ']' into a class and consumes the ']'; without one the pattern is invalid. */
  lemma ClassAtom(str: string, pos: nat, k: nat)
    requires pos < k < |str| && str[pos] == '[' && str[k] == ']'
    requires forall i :: pos < i < k ==> str[i] != ']' && str[i] != NUL
    ensures Atomic(str, pos) == Success((CharClass(str[pos + 1..k]), k + 1))
  {
    ClassEndFinds(str, pos + 1, k);
  }

  lemma {:induction false} ClassEndFinds(str: string, j: nat, k: nat)
    requires j <= k < |str| && str[k] == ']'
    requires forall i :: j <= i < k ==> str[i] != ']' && str[i] != NUL
    ensures ClassEnd(str, j) == k
    decreases k - j
  {
    if j < k {
      ClassEndFinds(str, j + 1, k);
    }
  }

  /** An unterminated class is an invalid pattern. */
  lemma UnterminatedClass(str: string, pos: nat)
    requires pos < |str| && str[pos] == '['
    requires forall i :: pos < i < |str| ==> str[i] != ']' && str[i] != NUL
    ensures Atomic(str, pos) == Failure(InvalidPattern)
  {
    ClassEndRuns(str, pos + 1);
  }

  lemma {:induction false} ClassEndRuns(str: string, j: nat)
    requires j <= |str|
    requires forall i :: j <= i < |str| ==> str[i] != ']' && str[i] != NUL
    ensures ClassEnd(str, j) == |str|
    decreases |str| - j
  {
    if j < |str| {
      ClassEndRuns(str, j + 1);
    }
  }

  /** The repetition suffixes are tested once each, '+' then '?' then '*'. */
  lemma RepetitionOrder()
    ensures PatternParse("a+?*") == Success(Asterisk(Question(Plus(Literal('a')))))
  {
    var s, p := "a+?*", Asterisk(Question(Plus(Literal('a'))));
    assert Atomic(s, 0) == Success((Literal('a'), 1));
    assert Repeated(s, 0) == Success((p, 4));
    assert ConcatRest(s, p, 4) == Success((p, 4));
    assert Alternated(s, 0) == Success((p, 4));
  }

  /** After '*' no '+' may follow: the second suffix is parsed as an atom, and '+' is no atom. */
  lemma PlusAfterStarRejected()
    ensures PatternParse("a*+") == Failure(InvalidPattern)
  {
    var s := "a*+";
    assert !Ordinary('+') && Peek(s, 2) == '+';
    assert Atomic(s, 2) == Failure(InvalidPattern);
    assert Repeated(s, 0) == Success((Asterisk(Literal('a')), 2));
    assert ConcatRest(s, Asterisk(Literal('a')), 2) == Failure(InvalidPattern);
    assert Alternated(s, 0) == Failure(InvalidPattern);
  }

  /** After '?' no '+' may follow either. */
  lemma PlusAfterQuestionRejected()
    ensures PatternParse("a?+") == Failure(InvalidPattern)
  {
    var s := "a?+";
    assert !Ordinary('+') && Peek(s, 2) == '+';
    assert Atomic(s, 2) == Failure(InvalidPattern);
    assert Repeated(s, 0) == Success((Question(Literal('a')), 2));
    assert ConcatRest(s, Question(Literal('a')), 2) == Failure(InvalidPattern);
    assert Alternated(s, 0) == Failure(InvalidPattern);
  }

  /** An ordinary character not followed by a repetition suffix is one repetition-level node. */
  lemma PlainLiteral(str: string, pos: nat)
    requires pos < |str| && Ordinary(str[pos])
    requires Peek(str, pos + 1) !in "+?*"
    ensures Repeated(str, pos) == Success((Literal(str[pos]), pos + 1))
  {
    assert Atomic(str, pos) == Success((Literal(str[pos]), pos + 1));
  }

  /** A single literal followed by the terminator, '|' or ')' is one concatenation-level node. */
  lemma LoneLiteral(str: string, pos: nat)
    requires pos < |str| && Ordinary(str[pos])
    requires Peek(str, pos + 1) in {NUL, '|', ')'}
    ensures Concatenated(str, pos) == Success((Literal(str[pos]), pos + 1))
  {
    PlainLiteral(str, pos);
  }

  /** Concatenation folds to the left. */
  lemma ConcatenationFoldsLeft()
    ensures PatternParse("abc") == Success(Concatenation(Concatenation(Literal('a'), Literal('b')), Literal('c')))
  {
    var s := "abc";
    var a, b, c := Literal('a'), Literal('b'), Literal('c');
    PlainLiteral(s, 0);
    PlainLiteral(s, 1);
    PlainLiteral(s, 2);
    assert ConcatRest(s, Concatenation(Concatenation(a, b), c), 3) == Success((Concatenation(Concatenation(a, b), c), 3));
    assert ConcatRest(s, Concatenation(a, b), 2) == Success((Concatenation(Concatenation(a, b), c), 3));
    assert ConcatRest(s, a, 1) == Success((Concatenation(Concatenation(a, b), c), 3));
    assert Alternated(s, 0) == Success((Concatenation(Concatenation(a, b), c), 3));
  }

  /** ']' and '}' are literals. */
  lemma ClosingBracketsAreLiterals()
    ensures PatternParse("]}") == Success(Concatenation(Literal(']'), Literal('}')))
  {
    var s := "]}";
    PlainLiteral(s, 0);
    PlainLiteral(s, 1);
    assert ConcatRest(s, Literal(']'), 1) == Success((Concatenation(Literal(']'), Literal('}')), 2));
    assert Alternated(s, 0) == Success((Concatenation(Literal(']'), Literal('}')), 2));
  }

  /** A parenthesised alternation is one atom. */
  lemma GroupWithBar()
    ensures PatternParse("(a|b)") == Success(Alternation(Literal('a'), Literal('b')))
  {
    var s := "(a|b)";
    var alt := Alternation(Literal('a'), Literal('b'));
    LoneLiteral(s, 1);
    LoneLiteral(s, 3);
    assert AltRest(s, alt, 4) == Success((alt, 5));
    assert Alternated(s, 1) == Success((alt, 5));
    assert Atomic(s, 0) == Success((alt, 5));
    assert Concatenated(s, 0) == Success((alt, 5));
  }

  /** A group without a '|' leaves its ')' unconsumed, so "(a)" is rejected. */
  lemma GroupWithoutBar()
    ensures PatternParse("(a)") == Failure(InvalidPattern)
  {
    var s := "(a)";
    LoneLiteral(s, 1);
    assert Alternated(s, 1) == Success((Literal('a'), 2));
    assert Atomic(s, 0) == Success((Literal('a'), 2));
    assert Repeated(s, 0) == Success((Literal('a'), 2));
    assert Alternated(s, 0) == Success((Literal('a'), 2));
  }

  /** After a '|' the loop consumes one ')' if present, so "a|b)" is accepted. */
  lemma StrayCloseAccepted()
    ensures PatternParse("a|b)") == Success(Alternation(Literal('a'), Literal('b')))
  {
    var s := "a|b)";
    var alt := Alternation(Literal('a'), Literal('b'));
    LoneLiteral(s, 0);
    LoneLiteral(s, 2);
    assert AltRest(s, alt, 3) == Success((alt, 4));
    assert Alternated(s, 0) == Success((alt, 4));
  }

  /** ... and without one the group simply ends, so "(a|b" is accepted. */
  lemma UnclosedGroupAccepted()
    ensures PatternParse("(a|b") == Success(Alternation(Literal('a'), Literal('b')))
  {
    var s := "(a|b";
    var alt := Alternation(Literal('a'), Literal('b'));
    LoneLiteral(s, 1);
    LoneLiteral(s, 3);
    assert AltRest(s, alt, 4) == Success((alt, 4));
    assert Alternated(s, 1) == Success((alt, 4));
    assert Atomic(s, 0) == Success((alt, 4));
    assert Concatenated(s, 0) == Success((alt, 4));
  }

  /** The empty pattern and a trailing '|' are rejected. */
  lemma EmptyAlternativesRejected()
    ensures PatternParse("") == Failure(InvalidPattern)
    ensures PatternParse("a|") == Failure(InvalidPattern)
  {
    assert Concatenated("", 0).Failure?;
    LoneLiteral("a|", 0);
    assert Concatenated("a|", 2).Failure?;
  }

  /** An unterminated class is rejected and "[]" is the empty class. */
  lemma ClassEdges()
    ensures PatternParse("[abc") == Failure(InvalidPattern)
    ensures PatternParse("[]") == Success(CharClass([]))
  {
    UnterminatedClass("[abc", 0);
    assert Repeated("[abc", 0).Failure?;
    ClassAtom("[]", 0, 1);
    assert "[]"[1..1] == [];
    assert Repeated("[]", 0) == Success((CharClass([]), 2));
    assert Concatenated("[]", 0) == Success((CharClass([]), 2));
  }
}
