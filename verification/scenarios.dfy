/** Whole games on concrete words. */
module Scenarios {
  import opened PyStr
  import opened Display
  import opened Seeding
  import opened Hangman

  lemma CatSeeded()
    ensures Seeded("cat") == "a"
  {
    assert Find("cat", 'c') == 0;
    assert Find("at", 'a') == 0;
    assert Find("cat", 'a') == 1;
    assert Find("t", 't') == 0;
    assert Find("at", 't') == 1;
    assert Find("cat", 't') == 2;
    assert SeededUpTo("cat", 1) == [];
    assert SeededUpTo("cat", 2) == "a";
  }

  lemma ThreeLetterDisplay(word: string, guessed: seq<char>)
    requires |word| == 3 && NoSpace(word)
    ensures Masked(word, guessed) ==
      [Cell(word, guessed, 0), ' ', Cell(word, guessed, 1), ' ', Cell(word, guessed, 2)]
  {
    MaskedLayout(word, guessed);
    var m := Masked(word, guessed);
    assert m[0] == Cell(word, guessed, 0);
    assert m[1] == ' ';
    assert m[2] == Cell(word, guessed, 1);
    assert m[3] == ' ';
    assert m[4] == Cell(word, guessed, 2);
  }

  /** "cat": only "a" is seeded, so the first display is "_ a _". */
  lemma CatFirstDisplay()
    ensures Masked("cat", Seeded("cat")) == "_ a _"
  {
    CatSeeded();
    ThreeLetterDisplay("cat", "a");
  }

  /** "cat" after guessing "c": "c a _". */
  lemma CatSecondDisplay()
    ensures Masked("cat", Seeded("cat") + ['c']) == "c a _"
  {
    CatSeeded();
    assert Seeded("cat") + ['c'] == "ac";
    ThreeLetterDisplay("cat", "ac");
    assert 'c' in "ac" && 't' !in "ac";
  }

  /** "cat": guessing "c" then "t" wins with no attempt used. */
  lemma CatIsWon()
    ensures Run("cat", State(Seeded("cat"), 0), ["c", "t"]) == Session(true, State("act", 0), [])
  {
    CatSeeded();
    assert Lower("c") == "c";
    assert Next("cat", State("a", 0), "c") == Turn(Correct, State("ac", 0));
    assert !Covers("ac", "cat") by { assert "cat"[2] !in "ac"; }
    assert Lower("t") == "t";
    assert Next("cat", State("ac", 0), "t") == Turn(Correct, State("act", 0));
    assert Covers("act", "cat");
    assert ["c", "t"][1..] == ["t"];
    assert ["t"][1..] == [];
  }

  /** One miss: a fresh lower-case letter absent from the word costs an attempt
      and does not end the game. */
  lemma MissStep(word: string, s: State, inputs: seq<string>)
    requires s.attempts < MaxAttempts
    requires !Covers(s.guessed, word)
    requires inputs != [] && |inputs[0]| == 1
    requires 'a' <= inputs[0][0] <= 'z' && inputs[0][0] !in word && inputs[0][0] !in s.guessed
    ensures Run(word, s, inputs) == Run(word, State(s.guessed + [inputs[0][0]], s.attempts + 1), inputs[1..])
  {
    var c := inputs[0][0];
    assert Lower(inputs[0]) == [c];
    assert Next(word, s, inputs[0]) == Turn(Incorrect, State(s.guessed + [c], s.attempts + 1));
  }

  /** A lower-case letter that is in neither the word nor the given list. */
  predicate FreshMiss(word: string, guessed: seq<char>, line: string) {
    |line| == 1 && 'a' <= line[0] <= 'z' && line[0] !in word && line[0] !in guessed
  }

  /** Lines that are distinct fresh misses, one per remaining attempt, end the
      game lost, with all input read. */
  lemma {:induction false} MissesLose(word: string, s: State, inputs: seq<string>)
    requires s.attempts + |inputs| == MaxAttempts
    requires !Covers(s.guessed, word)
    requires forall i :: 0 <= i < |inputs| ==> FreshMiss(word, s.guessed, inputs[i])
    requires forall i, j :: 0 <= i < j < |inputs| ==> inputs[i] != inputs[j]
    ensures !Run(word, s, inputs).won && Lost(Run(word, s, inputs))
    ensures Run(word, s, inputs).unread == []
    decreases |inputs|
  {
    if inputs != [] {
      var c := inputs[0][0];
      var after := State(s.guessed + [c], s.attempts + 1);
      MissStep(word, s, inputs);
      forall i | 0 <= i < |inputs[1..]|
        ensures FreshMiss(word, after.guessed, inputs[1..][i])
      {
        assert inputs[1..][i] == inputs[i + 1] != inputs[0];
        assert FreshMiss(word, s.guessed, inputs[i + 1]);
      }
      MissesLose(word, after, inputs[1..]);
    }
  }

  /** "bat" with six letters that are not in it: the sixth miss ends the loop
      and the loss is reported. */
  lemma BatIsLost()
    ensures Lost(Run("bat", State(Seeded("bat"), 0), ["x", "y", "z", "q", "j", "k"]))
  {
    assert Seeded("bat") == "a" by {
      assert Find("bat", 'b') == 0;
      assert Find("at", 'a') == 0;
      assert Find("bat", 'a') == 1;
      assert Find("t", 't') == 0;
      assert Find("at", 't') == 1;
      assert Find("bat", 't') == 2;
      assert SeededUpTo("bat", 1) == [];
      assert SeededUpTo("bat", 2) == "a";
    }
    var inputs := ["x", "y", "z", "q", "j", "k"];
    assert !Covers("a", "bat") by { assert "bat"[0] !in "a"; }
    assert forall i :: 0 <= i < |inputs| ==> FreshMiss("bat", "a", inputs[i]);
    MissesLose("bat", State("a", 0), inputs);
  }

  /** "12" and "ab" are not single letters; "A" is lower-cased before it is checked. */
  lemma InputValidation(s: State)
    ensures Next("cat", s, "12") == Turn(Invalid, s)
    ensures Next("cat", s, "ab") == Turn(Invalid, s)
    ensures Next("cat", State("a", 0), "A") == Turn(AlreadyGuessed, State("a", 0))
  {
    assert Lower("12") == "12";
    assert Lower("A") == "a";
  }
}
