# Wordle solver engine, modelled in Dafny

The program plays five-letter Wordle without end. Each round it picks a
guess and sends it to a game object. The game answers with one status per
letter: green, yellow, gray, or error. The program then narrows its set of
candidate words to those that fit the answer.

This model covers the engine of `wordle.cpp`. There are five parts:

- the letter-frequency table over the word list;
- the score of a word under that table;
- the arg-max over the scores;
- the four-tier choice of which words compete;
- the per-round state update: clear stale yellows, a look-ahead pass that
  records greens and yellows, five pruning erases, removal of the guess, and
  the reset when a new game starts.

Files:

- `words.dfy` (module `Words`): `std::string::find`, with `npos` read as -1
  (the value the source gets when it casts `npos` to `int`), and the
  distinct letters of a word.
- `heuristic.dfy` (module `Heuristic`): `letterFrequencies`,
  `hasAllYellows`, `hasUniqueLetters`, `wordRankings`, `bestCandidate` and
  `findBestCandidate`. Each is a method with loops, proved against a
  specification function.
- `engine.dfy` (module `Engine`): the `Status` datatype, the pruning rules
  (once as the source writes them with `find`, once in plain terms, and a
  lemma that the two agree), and class `Solver`.
  - `Solver` holds `possibleWords`, `possibleWordsBackup`, `letterFreqs`,
    `greens`, `yellows` and `numGuesses`.
  - `ChooseGuess` is the guess choice at the top of the loop.
  - `Step` is the rest of the loop body.
- `oracle.dfy` (module `Oracle`): a reference definition of Wordle scoring.
  It is the usual rule. The game library is not part of this model. The
  module proves that a round scored this way never prunes the secret
  (`SecretSurvives`). `PlayRound` runs one whole round against a secret.

Behaviour of the code that is easy to misread:

- A word's score adds the table value of every position, so a repeated
  letter counts once per occurrence (`wordle.cpp:69-71`).
- The frequency table is computed once, over the full list
  (`wordle.cpp:144`), and stays fixed while the set shrinks.
- `hasAllYellows` is false for an empty yellow set (`wordle.cpp:42-44`).
  So tiers 1 and 2 are empty until a yellow is known.
- A round whose statuses are all `Error` still removes the guess and still
  increments `numGuesses` (`wordle.cpp:224-225`).
- When no candidate scores above 0, the selector returns `""`
  (`wordle.cpp:79-87`).
- Among equally ranked words, the result is whichever the set iteration
  reaches first.

## Model

| member | source | states |
|---|---|---|
| Words.FindFrom | wordle.cpp:198-199 | `word.find(c, from)`: the first index at or after `from` holding `c`, or -1 exactly when no such index exists |
| Words.Find | wordle.cpp:31 | `word.find(c)` is -1 exactly when `c` is absent; otherwise it is the first index holding `c` |
| Words.FindFromAt | wordle.cpp:198-199 | a search from `i` stops at `i` exactly when the word has the letter at `i` (the green erase's test) |
| Words.CharsOfCard | wordle.cpp:55-61 | a word has at most as many distinct letters as positions, with equality exactly when no letter repeats |
| Heuristic.ZeroTable | wordle.cpp:25-28 | the table starts with exactly the keys 'A'..'Z', each 0 |
| Heuristic.CountWord | wordle.cpp:29-35 | counting one new word adds 1 to each letter the word contains and leaves the other letters alone |
| Heuristic.LetterFrequencies | wordle.cpp:24-37 | keys are exactly 'A'..'Z'; each value is the number of words containing the letter at least once, between 0 and the set's size |
| Heuristic.ContainingBound | wordle.cpp:29-35 | a letter's count is at most the number of words |
| Heuristic.HasAllYellows | wordle.cpp:41-51 | true exactly when the yellow set is non-empty and every yellow occurs in the word |
| Heuristic.HasUniqueLetters | wordle.cpp:55-61 | true exactly when the word has five distinct characters |
| Heuristic.UniqueLettersOfFive | wordle.cpp:55-61 | for a five-letter word, "five distinct characters" means no letter repeats |
| Heuristic.WordScore | wordle.cpp:68-71 | a word's score sums the table value of every position; a letter missing from the table counts 0, as `std::map::operator[]` gives |
| Heuristic.WordRankings | wordle.cpp:64-74 | keys are exactly the candidates; each value is the candidate's score with repeats counted again |
| Heuristic.ScoreAppend | wordle.cpp:69-71 | scores add up over concatenation, so every occurrence of a letter contributes |
| Heuristic.ScoreAtLeastLength | wordle.cpp:69-71 | when every letter of a word has table value at least 1, the score is at least the word's length |
| Heuristic.ScoreBounds | wordle.cpp:69-71 | with table values in 0..n, a score lies in 0..length*n |
| Heuristic.BestCandidate | wordle.cpp:77-88 | the result is `""` or a candidate; if some candidate ranks above 0, the result ranks above 0 and at least as high as every candidate; if none does, the result is `""` |
| Heuristic.TierPrecedence | wordle.cpp:93-128 | the chosen tier is the first non-empty one of the four (unfolding the definition); with no yellows, tiers 1 and 2 are empty; a non-empty set gives a non-empty tier |
| Heuristic.FindBestCandidate | wordle.cpp:93-128 | the result is `""` or a word of the set, and it is a best-ranked word of the first non-empty tier |
| Heuristic.ListedWordsScorePositive | wordle.cpp:144 | with the table built over the list, every upper-case word of the list scores at least its length |
| Heuristic.SelectionNonEmpty | wordle.cpp:125-127 | the selector never returns `""` while the set is non-empty and all its words are upper-case five-letter words of the list |
| Engine.GreensGrow | wordle.cpp:182-188 | the look-ahead keeps every old green, adds only this round's greens, and records every one of them |
| Engine.NoGreensRecordNothing | wordle.cpp:182-188 | a round with no green status leaves the greens unchanged |
| Engine.GreensStayInRange | wordle.cpp:182-188 | recorded green positions stay within 0..4 |
| Engine.YellowsOfHeuristicRound | wordle.cpp:173-187 | after a round with more than three earlier guesses, the yellows are exactly the letters reported yellow in that round |
| Engine.KeepIffRule | wordle.cpp:196-221 | each erase written with `find` keeps exactly the words that follow its status's rule; the gray-with-greens rule looks only at the first occurrence |
| Engine.PrunedNext | wordle.cpp:191-223 | each erase filters the survivors of the erases before it; before the first erase nothing is removed |
| Engine.PrunedIffConsistent | wordle.cpp:191-223 | after the five erases, a word survives exactly when it follows the rule of every non-error position |
| Engine.ErrorRoundKeepsAll | wordle.cpp:191-223 | a round whose statuses are all `Error` erases nothing |
| Engine.Solver.constructor | wordle.cpp:141-147 | the working set and the backup are the list; the table is computed over the list; greens, yellows and the counter start empty or 0 |
| Engine.Solver.ChooseGuess | wordle.cpp:154-164 | FADES, BROWN, MIGHT, PLUCK for counters 0 to 3; after that, `""` or a best-ranked word of the first non-empty tier of the working set |
| Engine.Solver.LookAhead | wordle.cpp:182-188 | every green position and yellow letter of the round is recorded before any erase |
| Engine.Solver.Prune | wordle.cpp:191-223 | the working set becomes its survivors of the five erases; re-recording greens changes nothing |
| Engine.Solver.Step | wordle.cpp:168-232 | a reset round restores the backup and clears greens, yellows and the counter; any other round prunes, removes the guess, adds 1 to the counter, grows the greens and keeps yellows only from this round once past the opening script |
| Oracle.SecretFollowsRule | wordle.cpp:177-221 | the secret follows every position's rule of its own feedback, given the greens recorded so far are true of it |
| Oracle.GreensStayTrue | wordle.cpp:182-188 | greens recorded from the secret's feedback stay true of the secret |
| Oracle.SecretSurvives | wordle.cpp:177-225 | when a round's statuses are the secret's feedback, the secret survives the erases and the guess's removal |
| Oracle.SeedyAgainstScent | wordle.cpp:177-181 | SEEDY against SCENT gives the first E gray and the second green; the look-ahead keeps SCENT, and without it the gray E would erase SCENT |
| Oracle.PlayRound | wordle.cpp:150-232 | one round against a secret: a win, or a game that ended without one, restores the backup and clears greens, yellows and the counter; otherwise the secret stays among the candidates, the greens stay true of it, and the counter grows by 1 |

## Left out

- Reading the word list from a file (`createWordSet`, `wordle.cpp:12-21`).
  It is file I/O. The list is the constructor's parameter.
- Words of a length other than five. The source indexes `word[i]` for
  `i < 5` without checking, so the constructor requires five-letter words.
- The `cs19_wordle::Wordle` game object (`guess`, `total_games`, `wins`,
  `previous_word`). It is an external library whose source is not part of
  this model. `Step` takes its outputs as inputs: the five statuses and
  whether the game count changed during the guess. `Step` requires the
  guess to have a letter at every position whose status is not `Error`,
  because those are the only positions the look-ahead and the erases
  read. The scoring rule in `Oracle` is an assumption about the library.
  It is used to state soundness and to score the guess in `PlayRound`.
- Oracle.PlayRound: when the game ends without a win is the library's
  rule, so it is a parameter (`lost`), not derived from the round count.
- The infinite `while (true)` loop. The model is one round (`Step`,
  `PlayRound`). The properties kept across rounds are the class invariant
  `Valid` and, in `PlayRound`, "the secret is a candidate and the greens are
  true of it".
- The ANSI colour map and all console output. They are presentation only.
- Hash-set iteration order. Every loop over a set takes an arbitrary next
  element.
- Heuristic.BestCandidate: does not say which of several equally ranked words
  is returned, because the source takes the first one its unordered-set
  iteration reaches.
- 32-bit `int` overflow of counts and scores. Integers are unbounded here.
  The source's values stay below five times the list size, far below the
  `int` range for any real word list.
