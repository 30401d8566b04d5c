/**
 * The in-memory word list of the spell checker (p3/wordlist.c): a fixed table
 * of MAX_WORDS entries and a count, the lookup a document word goes through,
 * and the step that validates one word read from a word-list file and adds it.
 */
module WordList {
  import opened Wrappers

  /** lookupWord's answer for a word spelled as listed whose checked letter is uppercase. */
  const PRONOUN := 2
  /** lookupWord's answer for a word spelled as listed whose checked letter is not uppercase. */
  const NON_PRONOUN := 1
  /** lookupWord's answer for a word that is not listed. */
  const WORD_NOT_FOUND := 0
  /** Rows in the word table. */
  const MAX_WORDS := 40000

  /** Why readWords stops: the table is over-full, or the word at the given count has a bad character. */
  datatype WordError = TooManyWords | InvalidWord(count: int)

  /** wordChar: a letter a-z or A-Z, or an apostrophe. */
  predicate WordChar(ch: char)
  {
    ('a' <= ch <= 'z') || ('A' <= ch <= 'Z') || ch == '\''
  }

  /** The apostrophe is a word character; digits, blanks, hyphens and the terminator are not. */
  lemma WordCharSeparators(ch: char)
    ensures ch == '\'' ==> WordChar(ch)
    ensures '0' <= ch <= '9' || ch == ' ' || ch == '\t' || ch == '\n' || ch == '-' || ch == '\0' ==> !WordChar(ch)
  {
  }

  /** Every character of `word` may appear in a word. */
  predicate AllWordChars(word: string)
  {
    forall i :: 0 <= i < |word| ==> WordChar(word[i])
  }

  /** Character `i` of `word` as the C string holds it: the terminating NUL at position |word|. */
  function CharAt(word: string, i: nat): char
    requires i <= |word|
  {
    if i < |word| then word[i] else '\0'
  }

  /** The position of the first entry of `words` equal to `word`. */
  function IndexOf(words: seq<string>, word: string): (i: nat)
    requires word in words
    ensures i < |words| && words[i] == word
    ensures forall j :: 0 <= j < i ==> words[j] != word
  {
    if words[0] == word then 0 else 1 + IndexOf(words[1..], word)
  }

  /**
   * The list after a valid word is added: the very first word is stored at
   * index 0 and then appended once more; later a word already listed is not
   * appended again.
   */
  function Inserted(words: seq<string>, word: string): seq<string>
  {
    if words == [] then [word, word]
    else if word in words then words
    else words + [word]
  }

  /**
   * The shape every list built by readWords has: empty, or the first word
   * twice followed by words that differ from each other and from it.
   */
  ghost predicate WellFormed(words: seq<string>)
  {
    words == [] ||
    (|words| >= 2 && words[0] == words[1] &&
     forall i, j :: 1 <= i < j < |words| ==> words[i] != words[j])
  }

  /** Adding a word keeps the list well-formed, keeps every entry in place and lists the word. */
  lemma InsertedWellFormed(words: seq<string>, word: string)
    requires WellFormed(words)
    ensures WellFormed(Inserted(words, word))
    ensures word in Inserted(words, word)
    ensures words <= Inserted(words, word)
  {
    if words != [] && word !in words {
      var ws := words + [word];
      forall i, j | 1 <= i < j < |ws|
        ensures ws[i] != ws[j]
      {
        if j == |words| {
          assert ws[i] == words[i];
        }
      }
    }
  }

  /** Adding a word adds exactly that word to the set of listed words. */
  lemma InsertedWords(words: seq<string>, word: string, other: string)
    ensures other in Inserted(words, word) <==> other in words || other == word
  {
    if words != [] && word !in words {
      if other in words {
        var k :| 0 <= k < |words| && words[k] == other;
        assert (words + [word])[k] == other;
      }
      if other in words + [word] {
        var k :| 0 <= k < |words| + 1 && (words + [word])[k] == other;
        assert k < |words| ==> words[k] == other;
      }
    }
  }

  /**
   * lookupWord indexes the word with the list position of its entry, so a
   * short word listed late is read past its terminator: here "d" is found
   * at position 4 of a list readWords builds.
   */
  lemma LookupReadsPastShortWord()
    ensures var words := Inserted(Inserted(Inserted(Inserted([], "a"), "b"), "c"), "d");
            WellFormed(words) && "d" in words && IndexOf(words, "d") > |"d"|
  {
    var words := Inserted(Inserted(Inserted(Inserted([], "a"), "b"), "c"), "d");
    assert words == ["a", "a", "b", "c", "d"];
    assert words[4] == "d";
  }

  /** The global word table (wordList) and the number of entries in use (count). */
  class WordTable {
    const table: array<string>
    var count: int

    /** The entries in use. */
    function Words(): seq<string>
      reads this, table
      requires 0 <= count <= table.Length
    {
      table[..count]
    }

    /** The table before any word is read: MAX_WORDS empty rows and a count of zero. */
    constructor ()
      ensures table.Length == MAX_WORDS && count == 0 && Words() == []
      ensures fresh(table)
    {
      table := new string[MAX_WORDS](_ => "");
      count := 0;
    }

    /**
     * lookupWord: 0 when no entry equals `word` (or `word` is empty, since
     * the character test is inside a loop over the word's length); otherwise
     * 2 or 1 as the character of `word` at the position of the first equal
     * entry is or is not uppercase.  That position indexes the word, so it
     * must lie within the word or on its terminator.
     */
    method LookupWord(word: string) returns (r: int)
      requires 0 <= count <= table.Length
      requires word != [] && word in Words() ==> IndexOf(Words(), word) <= |word|
      ensures r == WORD_NOT_FOUND <==> word == [] || word !in Words()
      ensures word != [] && word in Words() ==>
                var ch := CharAt(word, IndexOf(Words(), word));
                r == if 'A' <= ch <= 'Z' then PRONOUN else NON_PRONOUN
    {
      for i := 0 to count
        invariant word != [] ==> forall j :: 0 <= j < i ==> table[j] != word
      {
        if table[i] == word {
          var length := |word|;
          if 0 < length {
            assert Words()[i] == word;
            var ch := CharAt(word, i);
            if 'A' <= ch <= 'Z' {
              return PRONOUN;
            } else {
              return NON_PRONOUN;
            }
          }
        }
      }
      assert word != [] ==> forall j :: 0 <= j < count ==> Words()[j] != word;
      return WORD_NOT_FOUND;
    }

    /**
     * One turn of readWords' loop, for a word the file supplied: a count
     * above MAX_WORDS or a character wordChar rejects stops reading and
     * changes nothing; otherwise the word is added as Inserted says.  A new
     * word goes to row `count`, so there must be one.
     */
    method AddWord(word: string) returns (r: Result<(), WordError>)
      requires table.Length == MAX_WORDS && 0 <= count
      requires count <= MAX_WORDS && AllWordChars(word) && word !in table[..count] ==> count < MAX_WORDS
      modifies this, table
      ensures old(count) > MAX_WORDS ==> r == Failure(TooManyWords) && count == old(count) && unchanged(table)
      ensures old(count) <= MAX_WORDS && !AllWordChars(word) ==>
                r == Failure(InvalidWord(old(count))) && count == old(count) && unchanged(table)
      ensures old(count) <= MAX_WORDS && AllWordChars(word) ==>
                r == Success(()) && 0 <= count <= table.Length && table[..count] == Inserted(old(table[..count]), word)
    {
      var duplicate := false;
      if count > MAX_WORDS {
        return Failure(TooManyWords);
      }
      for i := 0 to |word|
        invariant forall k :: 0 <= k < i ==> WordChar(word[k])
      {
        if !WordChar(word[i]) {
          return Failure(InvalidWord(count));
        }
      }
      ghost var before := table[..count];
      if count == 0 {
        table[0] := word;
        count := count + 1;
      } else {
        for i := 0 to count
          invariant duplicate <==> word in table[..i]
        {
          if table[i] == word {
            duplicate := true;
          }
          assert table[..i + 1] == table[..i] + [table[i]];
        }
        assert table[..count] == before;
      }
      if !duplicate {
        table[count] := word;
        count := count + 1;
        assert table[..count] == table[..count - 1] + [word];
      }
      return Success(());
    }
  }
}
