# Wordle solver core, modelled in Dafny

This project models the constraint filter of a Wordle-style solving
assistant. A *guess* is a word with one feedback status per letter: Correct
(right letter, right place), Incorrect (letter absent) or Miss (letter
present elsewhere). The *solver* holds a fixed dictionary and an ordered
history of guesses. On demand it returns the dictionary words that are still
consistent with every guess, in dictionary order.

Files:

- `outcomes.dfy`: `Option`, `Result`, `Outcome`, and the error conditions.
  The Python code raises exceptions for these.
- `guesses.dfy`: `LetterStatus`, `Letter`, `Guess`, and decoding of a word
  and its `c`/`i`/`m` feedback string (`FromMap`). An encoder `MapOf` is
  its partner in a round-trip lemma.
- `constraints.dfy`: the sets that `_keep_word` builds from the history,
  the four-check predicate `KeepWord`, and the order-preserving filter
  `Candidates`. A reference predicate `Consistent` says letter by letter
  what a guess demands of a word. `KeepWordIsConsistency` proves that the
  set-based filter and the reference agree on every word.
- `solver.dfy`: the `Solver` class. Its `history` field is changed in place
  by `AddGuess`, `RemoveGuess`, `RemoveGuessByWord` and `ClearGuesses`.
  `Solve` reads the dictionary and the history.
- `scenarios.dfy`: concrete histories. One shows that adding a guess can
  bring a rejected word back. The other is the `apple`/`ciiim` usage
  example.

Some of what the code does may be unexpected. The model follows the code:

- One might expect adding a guess to only shrink the candidate list. It does not. A character
  marked Correct or Miss by a later guess leaves the incorrect characters,
  so a word rejected earlier can pass again. `Scenarios.AddingGuessCanWiden`
  proves this on the dictionary `["ba"]`.
- One might expect decoding to require the word and the feedback string to
  have equal length. It does not. It pairs the positions both strings have, like Python's `zip`.
- One might expect a `Letter` to lower-case its character. Lower-casing
  happens in `from_map`, not when a `Letter` is built.
  A `Letter` holds whatever character it was given.
- One might expect guesses to be non-empty. Nothing requires it.

Calling `Solve` twice without a change in between gives the same sequence.
This needs no lemma, because `Solve` is a function of the solver's fields.

## Model

| member | source | states |
|---|---|---|
| `Guesses.Guess.Word` | solver.py:41-43 | The word has one character per letter, the letter's character at each position. |
| `Guesses.Guess.Length` | solver.py:45-46 | `len(guess)`, the number of letters, equals the length of the guessed word. |
| `Guesses.WordOf` | solver.py:43 | Joining the letters' characters gives a string as long as the letters, with letter k's character at position k. |
| `Guesses.Lower` | solver.py:36 | The result is never an upper-case ASCII letter. `A`-`Z` map to `a`-`z`. Every other character is unchanged. |
| `Guesses.StatusOf` | solver.py:26-30 | The table recognises exactly `c`, `i` and `m`. Every key is lower-case, so feedback must be lower-cased before the lookup. |
| `Guesses.MapChar` | solver.py:26-30 | The encoding character of each status is lower-case, and the `c`/`i`/`m` table decodes it back to that status. |
| `Guesses.FromMap` | solver.py:32-39 | Succeeds iff every paired feedback character, lower-cased, is `c`, `i` or `m`. On success there is one letter per paired position, min(\|word\|, \|feedback\|) in all. Each letter holds the lower-cased word character and the decoded status. On failure the error names the first unrecognised feedback character, lower-cased. |
| `Guesses.RoundTrip` | solver.py:26-39 | Encoding a lower-case guess as its word and its feedback string, then decoding, gives the same guess. |
| `Guesses.DecodedIsLowerCase` | solver.py:36 | A decoded guess is lower-case. Its word is the lower-cased input word, position by position. |
| `Constraints.AllLetters` | solver.py:95 | A letter is in the set iff it occurs at some position of some guess in the history. |
| `Constraints.CorrectChars` | solver.py:97-101 | A character is in the set iff some letter of the history marks it Correct. |
| `Constraints.MissChars` | solver.py:103-105 | A character is in the set iff some letter of the history marks it Miss. |
| `Constraints.IncorrectChars` | solver.py:107-113 | A character is in the set iff some letter marks it Incorrect and no letter marks it Correct or Miss. |
| `Constraints.CorrectPositions` | solver.py:115-120 | A (character, position) pair is in the set iff some guess has a Correct letter with that character at that position. |
| `Constraints.MissPositions` | solver.py:122-127 | A (character, position) pair is in the set iff some guess has a Miss letter with that character at that position. |
| `Constraints.KeepWord` | solver.py:94-134 | The four checks. A word that passes contains every Correct and every Miss character, and no incorrect character. |
| `Constraints.PositionsFit` | solver.py:115-132 | Every Correct or Miss position lies inside any word at least as long as every guess. So the `word[i]` lookups are in range. |
| `Constraints.ConfirmedNotIncorrect` | solver.py:97-113 | A character is in the Correct or Miss characters exactly when some letter of the history marks it Correct or Miss. Such a character is never among the incorrect characters. |
| `Constraints.IncorrectCharsIff` | solver.py:107-113 | A character is incorrect iff some letter marks it Incorrect and no letter marks it Correct or Miss. |
| `Constraints.KeepWordIsConsistency` | solver.py:94-134 | Fix a history and a word. The four checks all pass exactly when every letter of every guess agrees with the word. A Correct letter must match the word at its position. A Miss letter must differ there and occur elsewhere in the word. An Incorrect letter may occur in the word only if another letter marks it Correct or Miss. |
| `Constraints.Candidates` | solver.py:91-92 | The result is a subsequence of the dictionary: entries deleted, order kept. Every word in it passes the four checks. |
| `Constraints.CandidatesCount` | solver.py:91-92 | A word that passes appears in the result as many times as in the dictionary. A word that fails appears zero times. |
| `Constraints.EmptyHistoryKeepsAll` | solver.py:88-92 | With no guesses, the result is the whole dictionary in its order. |
| `Constraints.NoneKept` | solver.py:91-92 | If every dictionary word fails the checks, the result is empty. |
| `Scenarios.IncorrectRejects` | solver.py:107-130 | A history with only Incorrect `a` and `b` rejects `ba`. |
| `Scenarios.MissKeeps` | solver.py:107-134 | Add a guess with `a` and `b` as Miss, and `ba` passes all four checks. |
| `Scenarios.AddingGuessCanWiden` | solver.py:88-134 | Adding a guess can enlarge the result: `["ba"]` filters to `[]` before and to `["ba"]` after. |
| `Scenarios.AppleDecodes` | solver.py:32-39 | `apple` with `ciiim` decodes to a Correct, p, p, l Incorrect, and e Miss. |
| `Scenarios.AppleIncorrect` | solver.py:107-113 | After that guess, `p` and `l` are incorrect characters. |
| `Scenarios.AppleRejects` | solver.py:129-134 | Each of `apple`, `angle`, `ankle` and `adobe` fails one of the four checks against that guess. |
| `Scenarios.AppleExample` | solver.py:88-134 | The dictionary `["apple", "angle", "ankle", "adobe"]` filters to the empty list after that guess. |
| `Solving.Validate` | solver.py:136-138 | A guess passes iff its length equals the word length. Otherwise the error carries the expected and actual lengths. |
| `Solving.IndexOf` | solver.py:86 | The search of `list.remove` returns the first position holding the guess. It returns nothing iff the guess is absent. |
| `Solving.FirstWithWord` | solver.py:83 | Returns the guess at the first position whose word equals the given string. It returns nothing iff no guess has that word. |
| `Solving.RemoveByWordTargetsFirstMatch` | solver.py:81-86 | Let k be the first position whose word equals the string. The search by word returns the guess at k. Removing that guess by value deletes position k too, because no earlier entry equals it. |
| `Solving.Solver.constructor` | solver.py:51-60 | The new solver holds the dictionary and the initial guesses. Its word length is the first word's length. |
| `Solving.Solver.Create` | solver.py:51-60 | An empty dictionary fails with EmptyDictionary. Otherwise construction succeeds iff every initial guess has the first word's length. On failure the error carries the first mismatching guess's length. A success is a fresh, valid solver holding the given words and guesses. |
| `Solving.Solver.Guesses` | solver.py:69-71 | Returns the history as a value, which the caller cannot use to change the solver. |
| `Solving.Solver.WordLength` | solver.py:73-75 | The word length is the length of the first dictionary word. |
| `Solving.Solver.AddGuess` | solver.py:77-79 | A guess of the wrong length fails with GuessLengthMismatch and leaves the history unchanged. Otherwise the history gains the guess at its end. All guesses keep the word length. |
| `Solving.Solver.RemoveGuess` | solver.py:81-86 | Succeeds iff the guess is in the history. On success, the first equal entry is deleted and the others keep their order. On failure, GuessNotFound is returned and the history is unchanged. |
| `Solving.Solver.RemoveGuessByWord` | solver.py:81-84 | Succeeds iff some entry's word equals the string. On success, the first such entry is deleted and the others keep their order. On failure, GuessNotFound is returned and the history is unchanged. |
| `Solving.Solver.ClearGuesses` | solver.py:88-89 | The history becomes empty. The filter over the dictionary with that history is then the whole dictionary, whatever the words' lengths, and so is `Solve`. |
| `Solving.Solver.Solve` | solver.py:91-92 | Returns the filter over the dictionary with the current history. The result is a subsequence of the dictionary, and every word in it passes the four checks. |

## Left out

- `Solver.from_file` (solver.py:62-67) reads the dictionary from a file. Construction takes the words as a sequence instead.
- main.py: the terminal interface, its input loop and colouring. It is not part of this model.
- Guesses.Lower: only ASCII `A`-`Z` are lower-cased. Python's `str.lower` also folds other Unicode letters.
- Solving.Solver.Solve: requires every dictionary word to be at least as long as the word length. The code does not check this. A shorter word could make `word[i]` raise IndexError.
- Constraints.KeepWord: requires no guess to be longer than the word, for the same reason.
- Exception kinds (KeyError, IndexError, ValueError, StopIteration) are replaced by the `Error` values InvalidMapCharacter, EmptyDictionary, GuessLengthMismatch and GuessNotFound.
- Solving.Solver.RemoveGuess: returns GuessNotFound where the code's `list.remove` raises ValueError.
- Aliasing is not modelled. `self._possible_words = possible_words` (solver.py:54) keeps the caller's dictionary list, and `guesses or []` (solver.py:55) keeps the caller's non-empty guess list. Later changes the caller makes to either list would show up in the solver. Here the dictionary is a `const` value and the history an owned value.
- The position constraints are built as lists in the code and as sets here. Only membership matters to `all`, so the order and duplicates of those lists do not change the result.
