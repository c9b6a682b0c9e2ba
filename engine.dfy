/**
 The round controller and constraint filter of the solver: the state kept
 across rounds (the working word set, its backup, the frequency table, the
 known green positions, the known yellow letters and the guess counter),
 the choice of the next guess and the update from one round's feedback.

 The game object is not modelled: the feedback of a round (`result`) and
 whether the game's total changed during the guess (`gameChanged`) are
 inputs of `Step`.
 */
module Engine {
  import opened Words
  import opened Heuristic

  /** The status the game reports for one letter of a guess. */
  datatype Status = Green | Yellow | Gray | Error

  /** A round's feedback has five statuses, and the guess has a letter at
      every position whose status is not `Error` (the only positions at
      which the round reads the guess). */
  predicate WellFormed(guess: string, result: seq<Status>)
  {
    |result| == 5 && forall i :: 0 <= i < 5 && result[i] != Error ==> i < |guess|
  }

  /** `greens[L]` read without inserting: no positions for an unseen letter. */
  function Get(greens: map<char, set<int>>, L: char): set<int>
  {
    if L in greens then greens[L] else {}
  }

  // ---------------------------------------------------------------------
  // The look-ahead pass

  /** Letters reported yellow below position `k`. */
  function YellowLetters(guess: string, result: seq<Status>, k: nat): set<char>
    requires WellFormed(guess, result) && k <= 5
  {
    set j | 0 <= j < k && result[j] == Yellow :: guess[j]
  }

  /** `greens` after the look-ahead pass has visited the positions below
      `k`: each green position is inserted into its letter's set. */
  function RecordGreens(greens: map<char, set<int>>, guess: string, result: seq<Status>, k: nat)
    : map<char, set<int>>
    requires WellFormed(guess, result) && k <= 5
  {
    if k == 0 then greens
    else
      var before := RecordGreens(greens, guess, result, k - 1);
      if result[k - 1] == Green then before[guess[k - 1] := Get(before, guess[k - 1]) + {k - 1}]
      else before
  }

  /** `yellows` after recording the yellow letters below `k`. */
  function RecordYellows(yellows: set<char>, guess: string, result: seq<Status>, k: nat): set<char>
    requires WellFormed(guess, result) && k <= 5
  {
    yellows + YellowLetters(guess, result, k)
  }

  /** Yellows are dropped at the start of every round after the opening
      script. */
  function ClearedYellows(yellows: set<char>, numGuesses: nat): set<char>
  {
    if numGuesses > 3 then {} else yellows
  }

  /** Every recorded green position is a position of a five-letter word. */
  predicate GreensInRange(greens: map<char, set<int>>)
  {
    forall L, p :: L in greens && p in greens[L] ==> 0 <= p < 5
  }

  /** Recording greens only adds: every old position stays, every new one
      is a green of this round, and every green of this round is recorded. */
  lemma {:induction false} GreensGrow(greens: map<char, set<int>>, guess: string, result: seq<Status>, k: nat)
    requires WellFormed(guess, result) && k <= 5
    ensures forall L :: L in greens ==>
              L in RecordGreens(greens, guess, result, k) &&
              greens[L] <= RecordGreens(greens, guess, result, k)[L]
    ensures forall L, p {:trigger p in RecordGreens(greens, guess, result, k)[L]} ::
              (L in RecordGreens(greens, guess, result, k) &&
               p in RecordGreens(greens, guess, result, k)[L] && p !in Get(greens, L)) ==>
              0 <= p < k && result[p] == Green && guess[p] == L
    ensures forall p :: 0 <= p < k && result[p] == Green ==>
              guess[p] in RecordGreens(greens, guess, result, k) &&
              p in RecordGreens(greens, guess, result, k)[guess[p]]
    ensures forall L :: L in RecordGreens(greens, guess, result, k) && L !in greens ==>
              exists p :: 0 <= p < k && result[p] == Green && guess[p] == L
  {
    if k > 0 {
      GreensGrow(greens, guess, result, k - 1);
    }
  }

  /** A pass over positions none of which is green records nothing. */
  lemma {:induction false} NoGreensRecordNothing(greens: map<char, set<int>>, guess: string,
                                                 result: seq<Status>, k: nat)
    requires WellFormed(guess, result) && k <= 5
    requires forall j :: 0 <= j < k ==> result[j] != Green
    ensures RecordGreens(greens, guess, result, k) == greens
  {
    if k > 0 {
      NoGreensRecordNothing(greens, guess, result, k - 1);
    }
  }

  /** Greens recorded in range stay in range. */
  lemma GreensStayInRange(greens: map<char, set<int>>, guess: string, result: seq<Status>, k: nat)
    requires WellFormed(guess, result) && GreensInRange(greens) && k <= 5
    ensures GreensInRange(RecordGreens(greens, guess, result, k))
  {
    var after := RecordGreens(greens, guess, result, k);
    GreensGrow(greens, guess, result, k);
    forall L, p | L in after && p in after[L]
      ensures 0 <= p < 5
    {
      if p in Get(greens, L) {
        assert L in greens && p in greens[L];
      }
    }
  }

  /** After a round of heuristic play the yellows are exactly the letters
      reported yellow in that round. */
  lemma YellowsOfHeuristicRound(yellows: set<char>, numGuesses: nat, guess: string, result: seq<Status>)
    requires WellFormed(guess, result) && numGuesses > 3
    ensures forall c :: c in RecordYellows(ClearedYellows(yellows, numGuesses), guess, result, 5) <==>
              exists j :: 0 <= j < 5 && result[j] == Yellow && guess[j] == c
  {
  }

  // ---------------------------------------------------------------------
  // The pruning rules

  /** Whether the erase for position `i` (letter `L`, status `st`) keeps
      `w`, written with `find` as the round writes it. */
  predicate Keep(w: string, i: nat, L: char, st: Status, greens: map<char, set<int>>, yellows: set<char>)
    requires i < |w|
  {
    match st
    case Green => FindFrom(w, L, i) == i
    case Yellow => !(w[i] == L || Find(w, L) == -1)
    case Gray =>
      if L !in greens && L !in yellows then Find(w, L) == -1
      else if L !in yellows then Find(w, L) in greens[L]
      else true
    case Error => true
  }

  /** The words of `words` kept by the erases of positions below `k`. */
  function Pruned(words: set<string>, guess: string, result: seq<Status>,
                  greens: map<char, set<int>>, yellows: set<char>, k: nat): set<string>
    requires WellFormed(guess, result) && k <= 5
    requires forall w :: w in words ==> |w| == 5
  {
    set w | w in words &&
      forall j :: 0 <= j < k && result[j] != Error ==> Keep(w, j, guess[j], result[j], greens, yellows)
  }

  /** Each erase of the pruning pass filters the survivors of the
      previous ones by that position's rule. */
  lemma PrunedNext(words: set<string>, guess: string, result: seq<Status>,
                   greens: map<char, set<int>>, yellows: set<char>, i: nat)
    requires WellFormed(guess, result) && i < 5
    requires forall w :: w in words ==> |w| == 5
    ensures Pruned(words, guess, result, greens, yellows, 0) == words
    ensures Pruned(words, guess, result, greens, yellows, i + 1) ==
              set w | w in Pruned(words, guess, result, greens, yellows, i) &&
                (result[i] == Error || Keep(w, i, guess[i], result[i], greens, yellows))
  {
  }

  /** The meaning of each status for a surviving word, stated without
      `find`: green fixes the letter, yellow places it elsewhere, gray with
      no knowledge excludes it, gray with known greens puts its first
      occurrence at a known green, gray with a known yellow says nothing. */
  predicate FollowsRule(w: string, i: nat, L: char, st: Status, greens: map<char, set<int>>, yellows: set<char>)
    requires i < |w|
  {
    match st
    case Green => w[i] == L
    case Yellow => w[i] != L && L in w
    case Gray =>
      if L !in greens && L !in yellows then L !in w
      else if L !in yellows then
        exists p :: 0 <= p < |w| && w[p] == L && p in greens[L] && forall j :: 0 <= j < p ==> w[j] != L
      else true
    case Error => true
  }

  /** A word follows the rule of every non-error position of the round. */
  predicate Consistent(w: string, guess: string, result: seq<Status>,
                       greens: map<char, set<int>>, yellows: set<char>)
    requires WellFormed(guess, result) && |w| == 5
  {
    forall j :: 0 <= j < 5 && result[j] != Error ==> FollowsRule(w, j, guess[j], result[j], greens, yellows)
  }

  /** The erase written with `find` keeps exactly the words that follow the
      rule. */
  lemma KeepIffRule(w: string, i: nat, L: char, st: Status, greens: map<char, set<int>>, yellows: set<char>)
    requires i < |w|
    requires GreensInRange(greens)
    ensures Keep(w, i, L, st, greens, yellows) <==> FollowsRule(w, i, L, st, greens, yellows)
  {
    match st
    case Green => FindFromAt(w, L, i);
    case Yellow =>
    case Gray =>
      if L in greens && L !in yellows {
        var f := Find(w, L);
        if f in greens[L] {
          assert f != -1 && 0 <= f < |w| && w[f] == L;
        }
        if FollowsRule(w, i, L, st, greens, yellows) {
          var p :| 0 <= p < |w| && w[p] == L && p in greens[L] && forall j :: 0 <= j < p ==> w[j] != L;
          assert f == p;
        }
      }
    case Error =>
  }

  /** After the five erases, the survivors are exactly the words that are
      consistent with the round's feedback. */
  lemma PrunedIffConsistent(words: set<string>, guess: string, result: seq<Status>,
                            greens: map<char, set<int>>, yellows: set<char>, w: string)
    requires WellFormed(guess, result) && GreensInRange(greens)
    requires forall v :: v in words ==> |v| == 5
    ensures w in Pruned(words, guess, result, greens, yellows, 5) <==>
              w in words && Consistent(w, guess, result, greens, yellows)
  {
    if w in words {
      forall j | 0 <= j < 5 && result[j] != Error
        ensures Keep(w, j, guess[j], result[j], greens, yellows) <==>
                FollowsRule(w, j, guess[j], result[j], greens, yellows)
      {
        KeepIffRule(w, j, guess[j], result[j], greens, yellows);
      }
    }
  }

  /** A round whose feedback is all `Error` keeps every word. */
  lemma ErrorRoundKeepsAll(words: set<string>, guess: string, result: seq<Status>,
                           greens: map<char, set<int>>, yellows: set<char>)
    requires |result| == 5 && forall i :: 0 <= i < 5 ==> result[i] == Error
    requires forall w :: w in words ==> |w| == 5
    ensures Pruned(words, guess, result, greens, yellows, 5) == words
  {
  }

  /** The opening script. */
  function Opening(numGuesses: nat): string
    requires numGuesses < 4
  {
    if numGuesses == 0 then "FADES"
    else if numGuesses == 1 then "BROWN"
    else if numGuesses == 2 then "MIGHT"
    else "PLUCK"
  }

  // ---------------------------------------------------------------------
  // The solver state

  class Solver {
    /** The full word list, restored at every new game. */
    const possibleWordsBackup: set<string>
    /** The frequency table, computed once over the full list. */
    const letterFreqs: map<char, int>
    /** The words still consistent with this game's feedback. */
    var possibleWords: set<string>
    /** For each letter, the positions reported green this game. */
    var greens: map<char, set<int>>
    /** Letters reported yellow and not yet dropped. */
    var yellows: set<char>
    /** Guesses taken in this game. */
    var numGuesses: nat

    ghost predicate Valid()
      reads this
    {
      && (forall w :: w in possibleWordsBackup ==> |w| == 5)
      && possibleWords <= possibleWordsBackup
      && letterFreqs.Keys == Alphabet
      && (forall c :: c in Alphabet ==> letterFreqs[c] == |Containing(possibleWordsBackup, c)|)
      && GreensInRange(greens)
    }

    /** The state before the first guess, for a list of five-letter words. */
    constructor (words: set<string>)
      requires forall w :: w in words ==> |w| == 5
      ensures Valid()
      ensures possibleWordsBackup == words && possibleWords == words
      ensures greens == map[] && yellows == {} && numGuesses == 0
    {
      var freqs := LetterFrequencies(words);
      possibleWordsBackup := words;
      letterFreqs := freqs;
      possibleWords := words;
      greens := map[];
      yellows := {};
      numGuesses := 0;
    }

    /** The guess of the coming round: the opening script for the first four
        guesses, then the selector over the working set. */
    method ChooseGuess() returns (guess: string)
      ensures numGuesses < 4 ==> guess == Opening(numGuesses)
      ensures numGuesses >= 4 ==> guess == "" || guess in possibleWords
      ensures numGuesses >= 4 ==>
                IsBestCandidate(SelectedTier(possibleWords, yellows),
                                Rankings(SelectedTier(possibleWords, yellows), letterFreqs), guess)
    {
      if numGuesses == 0 {
        guess := "FADES";
      } else if numGuesses == 1 {
        guess := "BROWN";
      } else if numGuesses == 2 {
        guess := "MIGHT";
      } else if numGuesses == 3 {
        guess := "PLUCK";
      } else {
        guess := FindBestCandidate(possibleWords, yellows, letterFreqs);
      }
    }

    /** The look-ahead pass: record every green position and every yellow
        letter of the round before anything is pruned. */
    method LookAhead(guess: string, result: seq<Status>)
      requires WellFormed(guess, result)
      modifies this`greens, this`yellows
      ensures greens == RecordGreens(old(greens), guess, result, 5)
      ensures yellows == RecordYellows(old(yellows), guess, result, 5)
    {
      for i := 0 to 5
        invariant greens == RecordGreens(old(greens), guess, result, i)
        invariant yellows == RecordYellows(old(yellows), guess, result, i)
      {
        if result[i] == Green {
          greens := greens[guess[i] := Get(greens, guess[i]) + {i}];
        } else if result[i] == Yellow {
          yellows := yellows + {guess[i]};
        }
      }
    }

    /** The pruning pass: one erase per position, by its status.  The green
        positions are already recorded, so recording them again changes
        nothing. */
    method Prune(guess: string, result: seq<Status>)
      requires WellFormed(guess, result)
      requires forall w :: w in possibleWords ==> |w| == 5
      requires forall p :: 0 <= p < 5 && result[p] == Green ==> guess[p] in greens && p in greens[guess[p]]
      modifies this`possibleWords, this`greens
      ensures greens == old(greens)
      ensures possibleWords == Pruned(old(possibleWords), guess, result, greens, yellows, 5)
    {
      PrunedNext(possibleWords, guess, result, greens, yellows, 0);
      for i := 0 to 5
        invariant greens == old(greens)
        invariant possibleWords == Pruned(old(possibleWords), guess, result, greens, yellows, i)
      {
        PrunedNext(old(possibleWords), guess, result, greens, yellows, i);
        match result[i]
        case Green =>
          var L := guess[i];
          assert Get(greens, L) + {i} == greens[L];
          greens := greens[L := Get(greens, L) + {i}];
          assert greens == old(greens);
          possibleWords := set w | w in possibleWords && !(FindFrom(w, L, i) != i);
        case Yellow =>
          var L := guess[i];
          possibleWords := set w | w in possibleWords && !(w[i] == L || Find(w, L) == -1);
        case Gray =>
          var L := guess[i];
          if L !in greens && L !in yellows {
            possibleWords := set w | w in possibleWords && !(Find(w, L) != -1);
          } else if L !in yellows {
            possibleWords := set w | w in possibleWords && !(Find(w, L) !in greens[L]);
          }
        case Error =>
      }
    }

    /** One round after the guess: drop stale yellows, record this round's
        greens and yellows, then either prune the working set and remove the
        guess, or start over when the game changed. */
    method Step(guess: string, result: seq<Status>, gameChanged: bool)
      requires Valid()
      requires WellFormed(guess, result)
      modifies this
      ensures Valid()
      ensures gameChanged ==>
                possibleWords == possibleWordsBackup && greens == map[] && yellows == {} && numGuesses == 0
      ensures !gameChanged ==>
                && greens == RecordGreens(old(greens), guess, result, 5)
                && yellows == RecordYellows(ClearedYellows(old(yellows), old(numGuesses)), guess, result, 5)
                && possibleWords == Pruned(old(possibleWords), guess, result, greens, yellows, 5) - {guess}
                && numGuesses == old(numGuesses) + 1
      ensures !gameChanged ==> possibleWords <= old(possibleWords) && guess !in possibleWords
    {
      if numGuesses > 3 {
        yellows := {};
      }
      LookAhead(guess, result);
      GreensGrow(old(greens), guess, result, 5);
      GreensStayInRange(old(greens), guess, result, 5);
      if !gameChanged {
        Prune(guess, result);
        possibleWords := possibleWords - {guess};
        numGuesses := numGuesses + 1;
      } else {
        possibleWords := possibleWordsBackup;
        yellows := {};
        numGuesses := 0;
        greens := map[];
      }
    }
  }
}
