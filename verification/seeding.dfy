/** `set_initial_guessed_letters`: the guesses the game starts with. */
module Seeding {
  import opened PyStr

  /** The list after the first `n` positions of the word: position i adds its
      letter when that letter's first occurrence in the whole word is at an
      odd index. */
  function SeededUpTo(word: string, n: nat): seq<char>
    requires n <= |word|
  {
    if n == 0 then []
    else SeededUpTo(word, n - 1) + (if Find(word, word[n - 1]) % 2 == 1 then [word[n - 1]] else [])
  }

  /** The list `set_initial_guessed_letters` returns. */
  function Seeded(word: string): seq<char> {
    SeededUpTo(word, |word|)
  }

  /** The letter `c` occurs in `word` and its first occurrence is at an odd index. */
  predicate FirstAtOdd(word: string, c: char) {
    c in word && Find(word, c) % 2 == 1
  }

  /** The append loop of `set_initial_guessed_letters`. */
  method SetInitialGuessedLetters(word: string) returns (guessed: seq<char>)
    ensures guessed == Seeded(word)
    ensures forall c :: c in guessed <==> FirstAtOdd(word, c)
  {
    guessed := [];
    for i := 0 to |word|
      invariant guessed == SeededUpTo(word, i)
    {
      var letter := word[i];
      if Find(word, letter) % 2 == 1 {
        guessed := guessed + [letter];
      }
    }
    forall c ensures c in guessed <==> FirstAtOdd(word, c) {
      SeededMembership(word, c);
    }
  }

  lemma SeededUpToStep(word: string, n: nat, c: char)
    requires 0 < n <= |word|
    ensures multiset(SeededUpTo(word, n))[c] == multiset(SeededUpTo(word, n - 1))[c] +
      if word[n - 1] == c && Find(word, c) % 2 == 1 then 1 else 0
  {
    var letter := word[n - 1];
    var added := if Find(word, letter) % 2 == 1 then [letter] else [];
    assert SeededUpTo(word, n) == SeededUpTo(word, n - 1) + added;
    assert multiset(added)[c] == if letter == c && Find(word, c) % 2 == 1 then 1 else 0;
  }

  lemma PrefixCountStep(word: string, n: nat, c: char)
    requires 0 < n <= |word|
    ensures multiset(word[..n])[c] == multiset(word[..n - 1])[c] + if word[n - 1] == c then 1 else 0
  {
    assert word[..n] == word[..n - 1] + [word[n - 1]];
  }

  lemma {:induction false} SeededUpToCount(word: string, n: nat, c: char)
    requires n <= |word|
    ensures multiset(SeededUpTo(word, n))[c] ==
      if Find(word, c) % 2 == 1 then multiset(word[..n])[c] else 0
  {
    if n > 0 {
      SeededUpToCount(word, n - 1, c);
      SeededUpToStep(word, n, c);
      PrefixCountStep(word, n, c);
    }
  }

  /** Every occurrence of a letter whose first index is odd is appended, and
      nothing else: a letter may appear in the list more than once. */
  lemma SeededCount(word: string, c: char)
    ensures multiset(Seeded(word))[c] == if FirstAtOdd(word, c) then multiset(word)[c] else 0
  {
    SeededUpToCount(word, |word|, c);
    assert word[..|word|] == word;
  }

  /** A letter is seeded iff it occurs and its first occurrence is at an odd
      index; a letter first seen at an even index is never seeded, even when it
      also occupies an odd index. */
  lemma SeededMembership(word: string, c: char)
    ensures c in Seeded(word) <==> FirstAtOdd(word, c)
  {
    SeededCount(word, c);
    assert c in word <==> multiset(word)[c] > 0;
    assert c in Seeded(word) <==> multiset(Seeded(word))[c] > 0;
  }

  /** The first letter of a word is never seeded: its first index is 0. */
  lemma FirstLetterNotSeeded(word: string)
    requires word != []
    ensures word[0] !in Seeded(word)
  {
    SeededMembership(word, word[0]);
    assert Find(word, word[0]) == 0;
  }
}
