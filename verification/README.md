# Hangman game state, verified

A Dafny model of the game logic of a console Hangman game
(`hangman_game.py`). The target word is a parameter; the player's input
is a finite sequence of lines. The model covers:

- **Display** (`display_word`). The masked word is built one letter at a time
  in an accumulator loop. A letter is shown if its index is odd or it has been
  guessed; otherwise it is shown as `_`. Every entry is followed by a space,
  and the result is `strip()`ped.
- **Seeding** (`set_initial_guessed_letters`). The starting guess list gets a
  letter once for every position whose letter first occurs (`str.find`) at an
  odd index.
- **Turns and the game loop** (`hangman`). Each line is lower-cased and must
  be one alphabetic character. A letter already in the list is rejected.
  Otherwise the letter is appended, and a letter absent from the word costs an
  attempt. After each accepted guess, the game is won if every letter of the
  word is in the list. The loop runs while `attempts < 6`, and the loss is
  reported when `attempts == 6`.

Modules:

- `PyStr` (`pystr.dfy`): the Python string primitives the game uses.
- `Display` (`display.dfy`): `display_word`.
- `Seeding` (`seeding.dfy`): `set_initial_guessed_letters`.
- `Hangman` (`game.dfy`): the turn function `Next` and the loop function
  `Run`, which are the specification. It also holds the class `Game`, with
  the guess list and counter as fields that `Step` updates in place, and the
  method `Play`, which runs the loop with its `continue`s and `break`.
- `Scenarios` (`scenarios.dfy`): whole games on concrete words.

The model follows the code in three places where a reader might expect
something else:

- The docstring of `set_initial_guessed_letters` (hangman_game.py:87) speaks
  of "odd positions". However, the code seeds a letter only when its *first*
  occurrence is at an odd index. So in `"aab"` nothing is seeded
  (`Seeding.SeededMembership`).
- The guessed letters might be expected to form a set. The code keeps them in
  a list, and seeding appends a letter once per occurrence, so duplicates are
  possible (`Seeding.SeededCount`). A turn never appends a letter that is
  already in the list.
- A loss might be expected to require that the game was not won. The code
  checks only `attempts == max_attempts` after the loop. The model keeps that
  check and proves that it can never fire after a win
  (`Hangman.WinAndLossExclusive`).

## Model

| member | source | states |
|---|---|---|
| `PyStr.LowerChar` | hangman_game.py:127 | an upper-case ASCII letter maps to its own lower-case letter; every other character is unchanged; no upper-case letter remains |
| `PyStr.Lower` | hangman_game.py:127 | `str.lower` keeps the length and lower-cases every character |
| `PyStr.TrimEnd` | hangman_game.py:82 | the result is a prefix of the input that does not end in whitespace, and everything removed is whitespace |
| `PyStr.TrimStart` | hangman_game.py:82 | the result is a suffix of the input that does not start with whitespace, and everything removed is whitespace |
| `PyStr.Strip` | hangman_game.py:82 | `strip()` is no longer than its input and neither starts nor ends with whitespace (`IsSpace` is Python's whitespace set) |
| `PyStr.StripIsSlice` | hangman_game.py:82 | `strip()` is the slice of its input that is left once the leading and the trailing whitespace are removed: everything cut off before and after it is whitespace, so together with `Strip`'s contract the result is determined |
| `PyStr.Find` | hangman_game.py:91 | `find` gives -1 exactly when the character is absent; otherwise the index of an occurrence with no earlier occurrence |
| `Display.DisplayWord` | hangman_game.py:72-82 | the accumulator loop followed by `strip()` returns the masked word; for a word without whitespace its length is 2n-1 (0 for the empty word) |
| `Display.SpacedLayout` | hangman_game.py:76-81 | after n letters the accumulator holds 2n characters: the cell for letter i at 2i and a space at 2i+1 |
| `Display.MaskedLayout` | hangman_game.py:76-82 | for a word without whitespace, `strip()` removes only the final space: length 2n-1, letter i's cell (the letter if its index is odd or it was guessed, else `_`) at 2i, a space at every odd position |
| `Display.MaskedMonotone` | hangman_game.py:78-81 | adding guesses never hides a character: every non-`_` character of the display stays the same |
| `Display.MaskedWithoutGuesses` | hangman_game.py:78-81 | with no guesses, letter i is shown iff i is odd, and `_` is shown otherwise |
| `Display.MaskedAllGuessed` | hangman_game.py:78-82 | once every letter is guessed, the display is the word's letters joined by single spaces |
| `Seeding.SetInitialGuessedLetters` | hangman_game.py:85-93 | the append loop returns the seeded list, and a letter is in it iff its first occurrence is at an odd index |
| `Seeding.SeededUpToCount` | hangman_game.py:89-93 | after n positions, a letter appears once per occurrence in the first n positions if its first index is odd, and not at all otherwise |
| `Seeding.SeededCount` | hangman_game.py:89-93 | a letter appears in the seeded list as often as it occurs in the word if its first index is odd, and never otherwise |
| `Seeding.SeededMembership` | hangman_game.py:89-93 | a letter is seeded iff it occurs in the word and its first occurrence is at an odd index |
| `Seeding.FirstLetterNotSeeded` | hangman_game.py:91 | the first letter of a non-empty word is never seeded |
| `Hangman.Next` | hangman_game.py:127-146 | input that is not one letter after lower-casing (`IsLetterGuess`, line 130), and a letter already in the list, change nothing. An accepted letter is new and appended once. The counter rises by 1 exactly when the letter is not in the word, and is otherwise unchanged. A miss never completes the word (`Covers`, the subset test of line 151) |
| `Hangman.Run` | hangman_game.py:121-155 | the counter never decreases and never exceeds 6, and the list only grows. From a state that is not yet won, the loop ends won iff the guesses cover every letter of the word (`Covers`, line 151). The loop stops early only on a win or the sixth miss; otherwise all input is read. `Lost` is the line-158 test `attempts == 6` on the result |
| `Hangman.RepeatIsIdempotent` | hangman_game.py:136-142 | entering the same line again changes nothing, and a letter just accepted is then rejected as already guessed |
| `Hangman.WinLeavesAttempts` | hangman_game.py:145-158 | from a state that is already won only if no attempt was used, a detected win leaves the counter below 6 |
| `Hangman.SeededNotWon` | hangman_game.py:151 | a game on a non-empty word does not start won |
| `Hangman.FirstDisplay` | hangman_game.py:78 | before the first guess, letter i is shown iff i is odd or that letter first occurs at an odd index |
| `Hangman.WinAndLossExclusive` | hangman_game.py:151-158 | from the start of a game, the win `break` and the loss report never both happen; a game that is neither won nor lost has read all its input |
| `Hangman.Game.constructor` | hangman_game.py:110-114 | a new game holds the seeded list and a counter of 0 |
| `Hangman.Game.Step` | hangman_game.py:127-146 | one line updates the list and counter in place exactly as `Next` says, and returns its outcome |
| `Hangman.Play` | hangman_game.py:106-161 | the loop ends as `Run` says. The loss is reported iff the counter is 6, and the counter never exceeds 6. A win means every letter is guessed and no loss is reported. For a non-empty word, the game is won iff every letter is guessed |
| `Scenarios.CatSeeded` | hangman_game.py:85-93 | for "cat" the seeded list is "a" |
| `Scenarios.CatFirstDisplay` | hangman_game.py:72-82 | the first display for "cat" is "_ a _" |
| `Scenarios.CatSecondDisplay` | hangman_game.py:72-82 | after guessing "c" the display for "cat" is "c a _" |
| `Scenarios.CatIsWon` | hangman_game.py:121-155 | guessing "c" then "t" on "cat" wins with no attempt used |
| `Scenarios.MissesLose` | hangman_game.py:121-158 | distinct new letters that are absent from the word, one per remaining attempt, end the game lost without a win |
| `Scenarios.BatIsLost` | hangman_game.py:121-158 | six misses on "bat" lose the game |
| `Scenarios.InputValidation` | hangman_game.py:127-139 | "12" and "ab" are invalid and change nothing; "A" is lower-cased and rejected once "a" is guessed |

## Left out

- Loading WordNet at import time (hangman_game.py:12-18) is network and file I/O.
- `wordnet_synsets` and `get_word_meaning` (hangman_game.py:21-41) only look up and print dictionary data.
- `choose_word` (hangman_game.py:44-69) is not modelled: it depends on a random-word library, WordNet and `random.randint`. The target word is a parameter instead, and any string is accepted, including non-letters.
- All `print` and `input` calls, and their message text, are left out. Each turn reads the next element of a finite input sequence. When the sequence runs out, `Play` stops and reports neither a win nor a loss; the program itself would wait for input, or fail at end of file.
- PyStr.Lower: handles only ASCII letters. Python's Unicode case mapping, which can change a string's length, is not modelled.
- PyStr.IsAlpha: only ASCII letters count as alphabetic. Python's `isalpha` also accepts other Unicode letters, which the model treats as invalid input.
- `Display.MaskedLayout`, `Display.MaskedMonotone`, `Display.MaskedWithoutGuesses` and `Display.MaskedAllGuessed` assume the word contains no whitespace. For other words, `strip()` can also remove shown letters. `Display.DisplayWord` itself places no such requirement.
