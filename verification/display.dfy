/** `display_word`: the masked form of the target word shown before each turn. */
module Display {
  import opened PyStr

  /** The character at index `i` is shown literally: its index is odd or it
      has been guessed. */
  predicate Shown(word: string, guessed: seq<char>, i: nat)
    requires i < |word|
  {
    i % 2 == 1 || word[i] in guessed
  }

  /** What index `i` of the word turns into: the letter itself or `_`. */
  function Cell(word: string, guessed: seq<char>, i: nat): char
    requires i < |word|
  {
    if Shown(word, guessed, i) then word[i] else '_'
  }

  /** The accumulator after the first `n` letters: each cell followed by a space. */
  function Spaced(word: string, guessed: seq<char>, n: nat): string
    requires n <= |word|
  {
    if n == 0 then [] else Spaced(word, guessed, n - 1) + [Cell(word, guessed, n - 1), ' ']
  }

  /** The value `display_word` returns. */
  function Masked(word: string, guessed: seq<char>): string {
    Strip(Spaced(word, guessed, |word|))
  }

  /** `word` with a single space between consecutive characters (`" ".join(word)`). */
  function Joined(word: string): string {
    if |word| <= 1 then word else [word[0], ' '] + Joined(word[1..])
  }

  /** The accumulator loop of `display_word`, then the final `strip()`. */
  method DisplayWord(word: string, guessed: seq<char>) returns (display: string)
    ensures display == Masked(word, guessed)
    ensures NoSpace(word) ==> |display| == if word == [] then 0 else 2 * |word| - 1
  {
    display := "";
    for index := 0 to |word|
      invariant display == Spaced(word, guessed, index)
    {
      var letter := word[index];
      if index % 2 == 1 || letter in guessed {
        display := display + [letter, ' '];
      } else {
        display := display + "_ ";
      }
    }
    display := Strip(display);
    if NoSpace(word) {
      MaskedLayout(word, guessed);
    }
  }

  lemma {:induction false} SpacedLayout(word: string, guessed: seq<char>, n: nat)
    requires n <= |word|
    ensures |Spaced(word, guessed, n)| == 2 * n
    ensures forall k :: 0 <= k < 2 * n ==>
      Spaced(word, guessed, n)[k] == if k % 2 == 0 then Cell(word, guessed, k / 2) else ' '
  {
    if n > 0 {
      SpacedLayout(word, guessed, n - 1);
      var prev, cur := Spaced(word, guessed, n - 1), Spaced(word, guessed, n);
      assert cur == prev + [Cell(word, guessed, n - 1), ' '];
      forall k | 0 <= k < 2 * n
        ensures cur[k] == if k % 2 == 0 then Cell(word, guessed, k / 2) else ' '
      {
        if k < 2 * n - 2 {
          assert cur[k] == prev[k];
        } else if k == 2 * n - 2 {
          assert k / 2 == n - 1;
        }
      }
    }
  }

  /** For a word without whitespace, `strip()` removes only the final space:
      the display has 2n-1 characters, the cell for letter i at position 2i
      and a single space at every odd position. */
  lemma MaskedLayout(word: string, guessed: seq<char>)
    requires NoSpace(word)
    ensures |Masked(word, guessed)| == if word == [] then 0 else 2 * |word| - 1
    ensures forall k :: 0 <= k < |Masked(word, guessed)| ==>
      Masked(word, guessed)[k] == if k % 2 == 0 then Cell(word, guessed, k / 2) else ' '
  {
    var n := |word|;
    var sp := Spaced(word, guessed, n);
    SpacedLayout(word, guessed, n);
    if n > 0 {
      var t := sp[..2 * n - 1];
      assert IsSpace(sp[|sp| - 1]);
      assert sp[..|sp| - 1] == t;
      assert !IsSpace(t[|t| - 1]) by {
        assert t[|t| - 1] == Cell(word, guessed, n - 1);
      }
      assert TrimEnd(sp) == t;
      assert !IsSpace(t[0]) by {
        assert t[0] == Cell(word, guessed, 0);
      }
      assert Masked(word, guessed) == t;
    }
  }

  /** Guessing more letters never hides a character that was shown. */
  lemma MaskedMonotone(word: string, fewer: seq<char>, more: seq<char>)
    requires NoSpace(word)
    requires forall c :: c in fewer ==> c in more
    ensures |Masked(word, more)| == |Masked(word, fewer)|
    ensures forall k :: 0 <= k < |Masked(word, fewer)| && Masked(word, fewer)[k] != '_' ==>
      Masked(word, more)[k] == Masked(word, fewer)[k]
  {
    MaskedLayout(word, fewer);
    MaskedLayout(word, more);
  }

  /** With no guesses exactly the letters at odd indices are shown. */
  lemma MaskedWithoutGuesses(word: string)
    requires NoSpace(word)
    ensures |Masked(word, [])| == if word == [] then 0 else 2 * |word| - 1
    ensures forall k :: 0 <= k < |Masked(word, [])| && k % 2 == 0 ==>
      Masked(word, [])[k] == if (k / 2) % 2 == 1 then word[k / 2] else '_'
  {
    MaskedLayout(word, []);
  }

  lemma {:induction false} JoinedLayout(word: string)
    ensures |Joined(word)| == if word == [] then 0 else 2 * |word| - 1
    ensures forall k :: 0 <= k < |Joined(word)| ==>
      Joined(word)[k] == if k % 2 == 0 then word[k / 2] else ' '
  {
    if |word| > 1 {
      JoinedLayout(word[1..]);
      var j := Joined(word);
      forall k | 0 <= k < |j|
        ensures j[k] == if k % 2 == 0 then word[k / 2] else ' '
      {
        if k >= 2 {
          assert j[k] == Joined(word[1..])[k - 2];
        }
      }
    }
  }

  /** Once every letter of the word is guessed, the display is the word with
      its letters separated by single spaces. */
  lemma MaskedAllGuessed(word: string, guessed: seq<char>)
    requires NoSpace(word)
    requires forall i :: 0 <= i < |word| ==> word[i] in guessed
    ensures Masked(word, guessed) == Joined(word)
  {
    MaskedLayout(word, guessed);
    JoinedLayout(word);
    var m, j := Masked(word, guessed), Joined(word);
    forall k | 0 <= k < |m|
      ensures m[k] == j[k]
    {
      if k % 2 == 0 {
        assert Shown(word, guessed, k / 2);
      }
    }
  }
}
