/**
 * The recursive-descent parser of ugrep patterns (parse.c).
 *
 * The source walks a NUL-terminated string with a shared cursor *pos.  Here
 * the string is a Dafny string, Peek reads the NUL terminator at (and
 * beyond) its end, and every parse step returns the node it built together
 * with the new cursor, or InvalidPattern where the source prints
 * "Invalid pattern" and exits.
 *
 * The grammar is given twice: as functions (Atomic, Repeated, Concatenated,
 * ConcatRest, Alternated, AltRest, PatternParse), which are the
 * specification, and as the methods with the source's loops
 * (ParseAtomicPattern ... ParsePattern), each proved to return what its
 * function returns.
 */
module Parse {
  import opened Wrappers
  import opened Patterns

  /** The C string terminator. */
  const NUL: char := '\0'

  /** The characters the source treats as metacharacters. */
  const Special: string := ".^$*?+|()[{"

  /** The only way a pattern is rejected. */
  datatype ParseError = InvalidPattern

  /** A parsed node and the cursor just after it. */
  type Parsed = Result<(Pattern, nat), ParseError>

  /** str[pos], reading the terminator at and past the end. */
  function Peek(str: string, pos: nat): (c: char)
    ensures pos < |str| ==> c == str[pos]
    ensures |str| <= pos ==> c == NUL
  {
    if pos < |str| then str[pos] else NUL
  }

  /**
   * The C library strchr: the index of the first occurrence of c in the
   * NUL-terminated string s, where the terminator itself is found too.
   */
  function StrChr(s: string, c: char): (r: Option<nat>)
    ensures r.Some? <==> c in s || c == NUL
    ensures r.Some? ==> r.value <= |s| && (r.value < |s| ==> s[r.value] == c) && c !in s[..r.value]
  {
    if |s| == 0 then (if c == NUL then Some(0) else None)
    else if s[0] == c then Some(0)
    else match StrChr(s[1..], c)
      case None => None
      case Some(i) => Some(i + 1)
  }

  /**
   * A character that matches only itself: neither a metacharacter nor the
   * terminator (which strchr also finds, see OrdinaryIsStrChr).
   */
  predicate Ordinary(c: char)
  {
    c !in Special && c != NUL
  }

  /** ordinary(c) is exactly "strchr does not find c among the metacharacters". */
  lemma OrdinaryIsStrChr(c: char)
    ensures Ordinary(c) <==> StrChr(Special, c).None?
  {
  }

  /** The closing bracket and brace are not metacharacters; the terminator is not ordinary. */
  lemma ClosersOrdinary()
    ensures Ordinary(']') && Ordinary('}') && !Ordinary(NUL)
  {
  }

  // ---------------------------------------------------------------------
  // The grammar as functions

  /** The first position at or after j holding ']' or the terminator. */
  function ClassEnd(str: string, j: nat): (k: nat)
    requires j <= |str|
    ensures j <= k <= |str|
    ensures Peek(str, k) == NUL || Peek(str, k) == ']'
    ensures forall i :: j <= i < k ==> str[i] != NUL && str[i] != ']'
    decreases |str| - j
  {
    if Peek(str, j) == NUL || Peek(str, j) == ']' then j else ClassEnd(str, j + 1)
  }

  /** parseAtomicPattern: a literal, '.', '^', '$', a bracketed class, or a parenthesised alternation. */
  function Atomic(str: string, pos: nat): (r: Parsed)
    requires pos <= |str|
    ensures r.Success? ==> pos < r.value.1 <= |str|
    decreases |str| - pos, 0
  {
    var c := Peek(str, pos);
    if Ordinary(c) then Success((Literal(c), pos + 1))
    else if c == '.' then Success((Dot, pos + 1))
    else if c == '^' then Success((Start, pos + 1))
    else if c == '$' then Success((End, pos + 1))
    else if c == '[' then
      var k := ClassEnd(str, pos + 1);
      if Peek(str, k) == ']' then Success((CharClass(str[pos + 1..k]), k + 1))
      else Failure(InvalidPattern)
    else if c == '(' then Alternated(str, pos + 1)
    else Failure(InvalidPattern)
  }

  /** parseRepetition: an atom followed by at most one '+', then at most one '?', then at most one '*'. */
  function Repeated(str: string, pos: nat): (r: Parsed)
    requires pos <= |str|
    ensures r.Success? ==> pos < r.value.1 <= |str|
    decreases |str| - pos, 1
  {
    match Atomic(str, pos)
    case Failure(err) => Failure(err)
    case Success((p0, i0)) =>
      if Peek(str, i0) == NUL then Success((p0, i0))
      else
        var (p1, i1) := if Peek(str, i0) == '+' then (Plus(p0), i0 + 1) else (p0, i0);
        var (p2, i2) := if Peek(str, i1) == '?' then (Question(p1), i1 + 1) else (p1, i1);
        var (p3, i3) := if Peek(str, i2) == '*' then (Asterisk(p2), i2 + 1) else (p2, i2);
        Success((p3, i3))
  }

  /** The loop of parseConcatenation: fold further repetitions into p1 until the terminator, '|' or ')'. */
  function ConcatRest(str: string, p1: Pattern, pos: nat): (r: Parsed)
    requires pos <= |str|
    ensures r.Success? ==> pos <= r.value.1 <= |str|
    ensures r.Success? ==> var c := Peek(str, r.value.1); c == NUL || c == '|' || c == ')'
    decreases |str| - pos, 2
  {
    var c := Peek(str, pos);
    if c != NUL && c != '|' && c != ')' then
      match Repeated(str, pos)
      case Failure(err) => Failure(err)
      case Success((p2, i)) => ConcatRest(str, Concatenation(p1, p2), i)
    else Success((p1, pos))
  }

  /** parseConcatenation: one or more repetitions, folded to the left. */
  function Concatenated(str: string, pos: nat): (r: Parsed)
    requires pos <= |str|
    ensures r.Success? ==> pos < r.value.1 <= |str|
    ensures r.Success? ==> var c := Peek(str, r.value.1); c == NUL || c == '|' || c == ')'
    decreases |str| - pos, 3
  {
    match Repeated(str, pos)
    case Failure(err) => Failure(err)
    case Success((p1, i)) => ConcatRest(str, p1, i)
  }

  /**
   * The loop of parseAlternation, entered on a '|': step over the operator,
   * fold the next concatenation into p1, and repeat until the terminator or
   * ')'; then consume a ')' if there is one.
   */
  function AltRest(str: string, p1: Pattern, pos: nat): (r: Parsed)
    requires pos <= |str|
    ensures r.Success? ==> pos <= r.value.1 <= |str|
    decreases |str| - pos, 4
  {
    var c := Peek(str, pos);
    if c != NUL && c != ')' then
      match Concatenated(str, pos + 1)
      case Failure(err) => Failure(err)
      case Success((p2, i)) => AltRest(str, Alternation(p1, p2), i)
    else if c == ')' then Success((p1, pos + 1))
    else Success((p1, pos))
  }

  /** parseAlternation: a concatenation, and the alternation loop only if a '|' follows it. */
  function Alternated(str: string, pos: nat): (r: Parsed)
    requires pos <= |str|
    ensures r.Success? ==> pos < r.value.1 <= |str|
    decreases |str| - pos, 5
  {
    match Concatenated(str, pos)
    case Failure(err) => Failure(err)
    case Success((p1, i)) => if Peek(str, i) == '|' then AltRest(str, p1, i) else Success((p1, i))
  }

  /** parsePattern: an alternation that must reach the terminator. */
  function PatternParse(str: string): (r: Result<Pattern, ParseError>)
    ensures r.Success? ==> Alternated(str, 0).Success? && Alternated(str, 0).value.0 == r.value
  {
    match Alternated(str, 0)
    case Failure(err) => Failure(err)
    case Success((p, i)) => if Peek(str, i) != NUL then Failure(InvalidPattern) else Success(p)
  }

  // ---------------------------------------------------------------------
  // The parser as the source writes it

  method ParseAtomicPattern(str: string, pos: nat) returns (r: Parsed)
    requires pos <= |str|
    ensures r == Atomic(str, pos)
    decreases |str| - pos, 0
  {
    var c := Peek(str, pos);
    if Ordinary(c) {
      return Success((Literal(c), pos + 1));
    }
    if c == '.' {
      return Success((Dot, pos + 1));
    }
    if c == '^' {
      return Success((Start, pos + 1));
    }
    if c == '$' {
      return Success((End, pos + 1));
    }
    if c == '[' {
      var chars: seq<char> := [];
      var i := pos + 1;
      while Peek(str, i) != NUL && Peek(str, i) != ']'
        invariant pos + 1 <= i <= |str|
        invariant chars == str[pos + 1..i]
        invariant ClassEnd(str, i) == ClassEnd(str, pos + 1)
        decreases |str| - i
      {
        chars := chars + [str[i]];
        i := i + 1;
      }
      if Peek(str, i) == ']' {
        return Success((CharClass(chars), i + 1));
      }
      return Failure(InvalidPattern);
    }
    if c == '(' {
      r := ParseAlternation(str, pos + 1);
      return;
    }
    return Failure(InvalidPattern);
  }

  method ParseRepetition(str: string, pos: nat) returns (r: Parsed)
    requires pos <= |str|
    ensures r == Repeated(str, pos)
    decreases |str| - pos, 1
  {
    var atom := ParseAtomicPattern(str, pos);
    if atom.Failure? {
      return atom;
    }
    var (p, i) := atom.value;
    if Peek(str, i) != NUL {
      if Peek(str, i) == '+' {
        p := Plus(p);
        i := i + 1;
      }
      if Peek(str, i) == '?' {
        p := Question(p);
        i := i + 1;
      }
      if Peek(str, i) == '*' {
        p := Asterisk(p);
        i := i + 1;
      }
    }
    return Success((p, i));
  }

  method ParseConcatenation(str: string, pos: nat) returns (r: Parsed)
    requires pos <= |str|
    ensures r == Concatenated(str, pos)
    decreases |str| - pos, 3
  {
    var first := ParseRepetition(str, pos);
    if first.Failure? {
      return first;
    }
    var (p1, i) := first.value;
    while Peek(str, i) != NUL && Peek(str, i) != '|' && Peek(str, i) != ')'
      invariant pos < i <= |str|
      invariant ConcatRest(str, p1, i) == Concatenated(str, pos)
      decreases |str| - i
    {
      var next := ParseRepetition(str, i);
      if next.Failure? {
        return next;
      }
      var (p2, j) := next.value;
      p1, i := Concatenation(p1, p2), j;
    }
    return Success((p1, i));
  }

  method ParseAlternation(str: string, pos: nat) returns (r: Parsed)
    requires pos <= |str|
    ensures r == Alternated(str, pos)
    decreases |str| - pos, 5
  {
    var first := ParseConcatenation(str, pos);
    if first.Failure? {
      return first;
    }
    var (p1, i) := first.value;
    if Peek(str, i) == '|' {
      while Peek(str, i) != NUL && Peek(str, i) != ')'
        invariant pos < i <= |str|
        invariant AltRest(str, p1, i) == Alternated(str, pos)
        decreases |str| - i
      {
        var next := ParseConcatenation(str, i + 1);
        if next.Failure? {
          return next;
        }
        var (p2, j) := next.value;
        p1, i := Alternation(p1, p2), j;
      }
      if Peek(str, i) == ')' {
        i := i + 1;
      }
    }
    return Success((p1, i));
  }

  method ParsePattern(str: string) returns (r: Result<Pattern, ParseError>)
    ensures r == PatternParse(str)
  {
    var alt := ParseAlternation(str, 0);
    if alt.Failure? {
      return Failure(alt.error);
    }
    var (p, i) := alt.value;
    if Peek(str, i) != NUL {
      return Failure(InvalidPattern);
    }
    return Success(p);
  }
}
