/** The game loop of `hangman`: validating a guess, recording it, counting
    misses, and deciding win and loss. Console output is not modelled; each
    turn consumes the next line of a given input sequence. */
module Hangman {
  import opened PyStr
  import opened Display
  import opened Seeding

  /** `max_attempts`: the number of incorrect guesses that ends the game. */
  const MaxAttempts: nat := 6

  /** The mutable game state: the guessed-letters list and the miss counter. */
  datatype State = State(guessed: seq<char>, attempts: nat)

  /** What one line of input did. */
  datatype Outcome = Invalid | AlreadyGuessed | Correct | Incorrect

  datatype Turn = Turn(outcome: Outcome, after: State)

  /** How the loop ended: `won` when it left through the `break` after a win;
      `unread` is the input that was never read. */
  datatype Session = Session(won: bool, final: State, unread: seq<string>)

  /** `set(word).issubset(set(guessed))`. */
  predicate Covers(guessed: seq<char>, word: string) {
    forall i :: 0 <= i < |word| ==> word[i] in guessed
  }

  /** The lower-cased line is a single alphabetic character. */
  predicate IsLetterGuess(guess: string) {
    |guess| == 1 && IsAlpha(guess[0])
  }

  /** The loss report after the loop: `attempts == max_attempts`. */
  predicate Lost(r: Session) {
    r.final.attempts == MaxAttempts
  }

  /** One pass through the loop body up to (not including) the win check. */
  function Next(word: string, s: State, input: string): (t: Turn)
    // bad input and repeated letters are rejected and change nothing
    ensures t.outcome == Invalid <==> !IsLetterGuess(Lower(input))
    ensures t.outcome == AlreadyGuessed <==> IsLetterGuess(Lower(input)) && Lower(input)[0] in s.guessed
    ensures t.outcome in {Invalid, AlreadyGuessed} ==> t.after == s
    // an accepted guess is a new letter, appended exactly once
    ensures t.outcome in {Correct, Incorrect} ==>
      Lower(input)[0] !in s.guessed && t.after.guessed == s.guessed + [Lower(input)[0]]
    // a miss is a letter absent from the word, and only a miss costs an attempt
    ensures t.outcome == Incorrect <==> t.outcome in {Correct, Incorrect} && Lower(input)[0] !in word
    ensures t.after.attempts == if t.outcome == Incorrect then s.attempts + 1 else s.attempts
    // a miss never completes the word
    ensures !Covers(s.guessed, word) && Covers(t.after.guessed, word) ==> t.outcome == Correct
  {
    var guess := Lower(input);
    if |guess| != 1 || !IsAlpha(guess[0]) then Turn(Invalid, s)
    else if guess[0] in s.guessed then Turn(AlreadyGuessed, s)
    else if guess[0] !in word then Turn(Incorrect, State(s.guessed + [guess[0]], s.attempts + 1))
    else Turn(Correct, State(s.guessed + [guess[0]], s.attempts))
  }

  /** The `while attempts < max_attempts` loop run on a sequence of input lines. */
  function Run(word: string, s: State, inputs: seq<string>): (r: Session)
    requires s.attempts <= MaxAttempts
    ensures s.attempts <= r.final.attempts <= MaxAttempts
    ensures s.guessed <= r.final.guessed
    ensures |r.unread| <= |inputs| && r.unread == inputs[|inputs| - |r.unread|..]
    ensures r.won ==> Covers(r.final.guessed, word)
    // from a state not yet won, the loop ends won exactly when the word gets covered
    ensures !Covers(s.guessed, word) ==> (r.won <==> Covers(r.final.guessed, word))
    // the loop only stops early on a win or the last miss
    ensures !r.won && r.final.attempts < MaxAttempts ==> r.unread == []
    decreases |inputs|
  {
    if s.attempts >= MaxAttempts then Session(false, s, inputs)
    else if inputs == [] then Session(false, s, [])
    else
      var t := Next(word, s, inputs[0]);
      if t.outcome in {Correct, Incorrect} && Covers(t.after.guessed, word) then
        Session(true, t.after, inputs[1..])
      else
        Run(word, t.after, inputs[1..])
  }

  /** Repeating any line right away changes nothing the second time. */
  lemma RepeatIsIdempotent(word: string, s: State, input: string)
    ensures Next(word, Next(word, s, input).after, input).after == Next(word, s, input).after
    ensures Next(word, s, input).outcome in {Correct, Incorrect} ==>
      Next(word, Next(word, s, input).after, input).outcome == AlreadyGuessed
  {
    var t := Next(word, s, input);
    if t.outcome in {Correct, Incorrect} {
      assert Lower(input)[0] in t.after.guessed;
    }
  }

  /** From a state that is not yet won unless no attempt was used, a detected
      win always leaves at least one attempt. */
  lemma {:induction false} WinLeavesAttempts(word: string, s: State, inputs: seq<string>)
    requires s.attempts <= MaxAttempts
    requires Covers(s.guessed, word) ==> s.attempts == 0
    ensures Run(word, s, inputs).won ==> Run(word, s, inputs).final.attempts < MaxAttempts
    decreases |inputs|
  {
    if s.attempts < MaxAttempts && inputs != [] {
      var t := Next(word, s, inputs[0]);
      if !(t.outcome in {Correct, Incorrect} && Covers(t.after.guessed, word)) {
        WinLeavesAttempts(word, t.after, inputs[1..]);
      }
    }
  }

  /** A non-empty word is never won before the first guess. */
  lemma SeededNotWon(word: string)
    requires word != []
    ensures !Covers(Seeded(word), word)
  {
    FirstLetterNotSeeded(word);
  }

  /** Before the first guess, letter i is shown iff i is odd or the first
      occurrence of that letter is at an odd index. */
  lemma FirstDisplay(word: string)
    ensures forall i :: 0 <= i < |word| ==>
      (Shown(word, Seeded(word), i) <==> i % 2 == 1 || Find(word, word[i]) % 2 == 1)
  {
    forall i | 0 <= i < |word|
      ensures Shown(word, Seeded(word), i) <==> i % 2 == 1 || Find(word, word[i]) % 2 == 1
    {
      SeededMembership(word, word[i]);
    }
  }

  /** From the start of a game, the win `break` and the loss report never
      both happen, and a game that is neither won nor lost has read all input. */
  lemma WinAndLossExclusive(word: string, inputs: seq<string>)
    ensures !(Run(word, State(Seeded(word), 0), inputs).won && Lost(Run(word, State(Seeded(word), 0), inputs)))
    ensures var r := Run(word, State(Seeded(word), 0), inputs);
      !r.won && !Lost(r) ==> r.unread == []
  {
    WinLeavesAttempts(word, State(Seeded(word), 0), inputs);
  }

  /** The game's mutable state, as the locals of `hangman` hold it. */
  class Game {
    const word: string
    var guessed: seq<char>
    var attempts: nat

    function Snapshot(): State
      reads this
    {
      State(guessed, attempts)
    }

    /** Seeds the guesses and starts the miss counter at 0. */
    constructor (word: string)
      ensures this.word == word && Snapshot() == State(Seeded(word), 0)
    {
      var seeded := SetInitialGuessedLetters(word);
      this.word := word;
      guessed := seeded;
      attempts := 0;
    }

    /** Reads one line: lower-case, validate, reject repeats, append, count a miss. */
    method Step(input: string) returns (outcome: Outcome)
      modifies this
      ensures Turn(outcome, Snapshot()) == Next(word, old(Snapshot()), input)
    {
      var guess := Lower(input);
      if |guess| != 1 || !IsAlpha(guess[0]) {
        return Invalid;
      }
      if guess[0] in guessed {
        return AlreadyGuessed;
      }
      guessed := guessed + [guess[0]];
      if guess[0] !in word {
        attempts := attempts + 1;
        return Incorrect;
      }
      return Correct;
    }
  }

  /** `hangman` on a fixed target word: the loop with its `continue`s and the
      win `break`, then the loss check. */
  method Play(word: string, inputs: seq<string>) returns (won: bool, lost: bool, final: State)
    ensures won == Run(word, State(Seeded(word), 0), inputs).won
    ensures final == Run(word, State(Seeded(word), 0), inputs).final
    ensures lost <==> final.attempts == MaxAttempts
    ensures final.attempts <= MaxAttempts
    ensures won ==> Covers(final.guessed, word) && !lost
    ensures word != [] ==> (won <==> Covers(final.guessed, word))
  {
    var game := new Game(word);
    ghost var session := Run(word, game.Snapshot(), inputs);
    var k := 0;
    won := false;
    while game.attempts < MaxAttempts
      invariant k <= |inputs|
      invariant game.attempts <= MaxAttempts
      invariant session == Run(word, game.Snapshot(), inputs[k..])
      decreases |inputs| - k
    {
      if k == |inputs| {
        break;
      }
      var outcome := game.Step(inputs[k]);
      k := k + 1;
      if outcome == Invalid || outcome == AlreadyGuessed {
        continue;
      }
      if Covers(game.guessed, word) {
        won := true;
        assert session == Session(true, game.Snapshot(), inputs[k..]);
        break;
      }
    }
    lost := game.attempts == MaxAttempts;
    final := game.Snapshot();
    WinAndLossExclusive(word, inputs);
    if word != [] {
      SeededNotWon(word);
    }
  }
}
