/**
 A reference definition of the feedback a Wordle game gives, used to state
 what the pruning achieves: when the statuses of a round are those of the
 secret word, the secret survives the round.  The game library itself is
 not part of this model; the rule below is the usual one (a letter is green
 where it matches, and the remaining copies of a letter in the guess are
 yellow from left to right while the secret has unmatched copies left).
 */
module Oracle {
  import opened Words
  import opened Engine

  /** The positions below `n` where `a` has `L` and `b` does not. */
  function Misplaced(a: string, b: string, L: char, n: nat): nat
    requires n <= |a| && n <= |b|
  {
    if n == 0 then 0
    else Misplaced(a, b, L, n - 1) + (if a[n - 1] == L && b[n - 1] != L then 1 else 0)
  }

  /** The status of position `i` of `guess` against `secret`. */
  function StatusAt(secret: string, guess: string, i: nat): Status
    requires |secret| == 5 && |guess| == 5 && i < 5
  {
    if guess[i] == secret[i] then Green
    else if Misplaced(guess, secret, guess[i], i) < Misplaced(secret, guess, guess[i], 5) then Yellow
    else Gray
  }

  /** The five statuses of `guess` against `secret`. */
  function Feedback(secret: string, guess: string): seq<Status>
    requires |secret| == 5 && |guess| == 5
  {
    [StatusAt(secret, guess, 0), StatusAt(secret, guess, 1), StatusAt(secret, guess, 2),
     StatusAt(secret, guess, 3), StatusAt(secret, guess, 4)]
  }

  /** The recorded greens are true of `secret`: every letter has some
      position, each in range and holding that letter in the secret. */
  predicate GreensAgree(greens: map<char, set<int>>, secret: string)
    requires |secret| == 5
  {
    forall L :: L in greens ==>
      greens[L] != {} && forall p :: p in greens[L] ==> 0 <= p < 5 && secret[p] == L
  }

  /** A count is positive when it has a witness. */
  lemma {:induction false} MisplacedPositive(a: string, b: string, L: char, n: nat, j: nat)
    requires n <= |a| && n <= |b| && j < n
    requires a[j] == L && b[j] != L
    ensures Misplaced(a, b, L, n) >= 1
  {
    if j < n - 1 {
      MisplacedPositive(a, b, L, n - 1, j);
    }
  }

  /** A positive count has a witness. */
  lemma {:induction false} MisplacedWitness(a: string, b: string, L: char, n: nat)
    requires n <= |a| && n <= |b| && Misplaced(a, b, L, n) >= 1
    ensures exists j :: 0 <= j < n && a[j] == L && b[j] != L
  {
    if !(a[n - 1] == L && b[n - 1] != L) {
      MisplacedWitness(a, b, L, n - 1);
    }
  }

  /** Among the positions where `a` has `L` and `b` does not, the first one
      has none before it. */
  lemma {:induction false} FirstMisplaced(a: string, b: string, L: char, i: nat)
    requires i < |a| && i < |b| && a[i] == L && b[i] != L
    ensures exists k :: 0 <= k <= i && a[k] == L && b[k] != L && Misplaced(a, b, L, k) == 0
  {
    if Misplaced(a, b, L, i) != 0 {
      MisplacedWitness(a, b, L, i);
      var j :| 0 <= j < i && a[j] == L && b[j] != L;
      FirstMisplaced(a, b, L, j);
    }
  }

  /** A copy of the guess's letter at `i` that the secret holds at `q`, where
      the guess has another letter, leaves some copy in the guess yellow. */
  lemma UnmatchedCopyReported(secret: string, guess: string, i: nat, q: nat)
    requires |secret| == 5 && |guess| == 5 && i < 5 && q < 5
    requires guess[i] != secret[i] && secret[q] == guess[i] && guess[q] != guess[i]
    ensures exists k :: 0 <= k < 5 && guess[k] == guess[i] && Feedback(secret, guess)[k] == Yellow
  {
    var L := guess[i];
    MisplacedPositive(secret, guess, L, 5, q);
    FirstMisplaced(guess, secret, L, i);
    var k :| 0 <= k <= i && guess[k] == L && secret[k] != L && Misplaced(guess, secret, L, k) == 0;
    assert Feedback(secret, guess)[k] == Yellow;
  }

  /** The secret follows the rule of position `i` of its own feedback. */
  lemma SecretFollowsRule(secret: string, guess: string, greens: map<char, set<int>>,
                          yellows: set<char>, numGuesses: nat, i: nat)
    requires |secret| == 5 && |guess| == 5 && i < 5
    requires GreensAgree(greens, secret)
    ensures var result := Feedback(secret, guess);
            FollowsRule(secret, i, guess[i], result[i],
                        RecordGreens(greens, guess, result, 5),
                        RecordYellows(ClearedYellows(yellows, numGuesses), guess, result, 5))
  {
    var result := Feedback(secret, guess);
    var G := RecordGreens(greens, guess, result, 5);
    var Y := RecordYellows(ClearedYellows(yellows, numGuesses), guess, result, 5);
    var L := guess[i];
    GreensGrow(greens, guess, result, 5);
    if result[i] == Yellow {
      MisplacedWitness(secret, guess, L, 5);
    } else if result[i] == Gray && L !in Y && L in secret {
      var q := Find(secret, L);
      if guess[q] != L {
        UnmatchedCopyReported(secret, guess, i, q);
        assert false;
      }
      assert result[q] == Green;
    } else if result[i] == Gray && L !in Y {
      // A letter the secret lacks has no recorded green either.
      if L in G {
        if L in greens {
          var p :| p in greens[L];
        } else {
          var p :| 0 <= p < 5 && result[p] == Green && guess[p] == L;
        }
      }
    }
  }

  /** The recorded greens of a round stay true of the secret. */
  lemma GreensStayTrue(secret: string, guess: string, greens: map<char, set<int>>)
    requires |secret| == 5 && |guess| == 5
    requires GreensAgree(greens, secret)
    ensures GreensAgree(RecordGreens(greens, guess, Feedback(secret, guess), 5), secret)
  {
    var result := Feedback(secret, guess);
    var G := RecordGreens(greens, guess, result, 5);
    GreensGrow(greens, guess, result, 5);
    forall L | L in G
      ensures G[L] != {} && forall p :: p in G[L] ==> 0 <= p < 5 && secret[p] == L
    {
      if L in greens {
        var p :| p in greens[L];
        assert p in G[L];
      } else {
        var p :| 0 <= p < 5 && result[p] == Green && guess[p] == L;
        assert p in G[L];
      }
    }
  }

  /** Soundness of a round: when the statuses are those of the secret, the
      secret survives the pruning and the removal of the guess, and the
      recorded greens stay true of it. */
  lemma SecretSurvives(words: set<string>, secret: string, guess: string,
                       greens: map<char, set<int>>, yellows: set<char>, numGuesses: nat)
    requires |secret| == 5 && |guess| == 5
    requires forall w :: w in words ==> |w| == 5
    requires secret in words && secret != guess
    requires GreensAgree(greens, secret)
    ensures var result := Feedback(secret, guess);
            var greens' := RecordGreens(greens, guess, result, 5);
            var yellows' := RecordYellows(ClearedYellows(yellows, numGuesses), guess, result, 5);
            && secret in Pruned(words, guess, result, greens', yellows', 5) - {guess}
            && GreensAgree(greens', secret)
  {
    var result := Feedback(secret, guess);
    var G := RecordGreens(greens, guess, result, 5);
    var Y := RecordYellows(ClearedYellows(yellows, numGuesses), guess, result, 5);
    GreensStayTrue(secret, guess, greens);
    forall i | 0 <= i < 5 && result[i] != Error
      ensures FollowsRule(secret, i, guess[i], result[i], G, Y)
    {
      SecretFollowsRule(secret, guess, greens, yellows, numGuesses, i);
    }
    PrunedIffConsistent(words, guess, result, G, Y, secret);
  }

  /** The repeated-letter case: "SEEDY" against "SCENT" reports the first E
      gray and the second green.  The look-ahead records the green E before
      the gray one is pruned, so "SCENT" survives; without it, the gray E
      with no recorded greens would erase every word containing E. */
  lemma SeedyAgainstScent(words: set<string>)
    requires "SCENT" in words && forall w :: w in words ==> |w| == 5
    ensures Feedback("SCENT", "SEEDY") == [Green, Gray, Green, Gray, Gray]
    ensures var result := [Green, Gray, Green, Gray, Gray];
            "SCENT" in Pruned(words, "SEEDY", result,
                              RecordGreens(map[], "SEEDY", result, 5),
                              RecordYellows({}, "SEEDY", result, 5), 5)
    ensures !Keep("SCENT", 1, 'E', Gray, map[], {})
  {
    var secret, guess := "SCENT", "SEEDY";
    assert Misplaced(guess, secret, 'E', 1) == 0;
    assert Misplaced(secret, guess, 'E', 5) == 0;
    assert Misplaced(secret, guess, 'D', 5) == 0;
    assert Misplaced(secret, guess, 'Y', 5) == 0;
    SecretSurvives(words, secret, guess, map[], {}, 0);
  }

  /** A whole round against a secret, with the reference feedback: the
      solver picks its guess and the game scores a five-letter guess or
      rejects any other with `Error` statuses.  The game ends, and the solver
      resets, when the guess is the secret or when `lost` says the game ended
      without a win (its rule for that is the library's).  While the game
      lasts, the secret stays among the candidates and the greens stay true
      of it. */
  method PlayRound(s: Solver, secret: string, lost: bool) returns (guess: string)
    requires s.Valid() && |secret| == 5
    requires secret in s.possibleWords && GreensAgree(s.greens, secret)
    modifies s
    ensures s.Valid()
    ensures guess == secret || lost ==>
              && s.possibleWords == s.possibleWordsBackup && s.greens == map[] && s.yellows == {}
              && s.numGuesses == 0
    ensures guess != secret && !lost ==> secret in s.possibleWords && GreensAgree(s.greens, secret)
    ensures guess != secret && !lost ==> s.numGuesses == old(s.numGuesses) + 1
  {
    guess := s.ChooseGuess();
    var errors := [Error, Error, Error, Error, Error];
    var result := if |guess| == 5 then Feedback(secret, guess) else errors;
    if guess == secret || lost {
      s.Step(guess, result, true);
    } else if |guess| == 5 {
      SecretSurvives(s.possibleWords, secret, guess, s.greens, s.yellows, s.numGuesses);
      s.Step(guess, result, false);
    } else {
      NoGreensRecordNothing(s.greens, guess, errors, 5);
      ErrorRoundKeepsAll(s.possibleWords, guess, errors, RecordGreens(s.greens, guess, errors, 5),
                         RecordYellows(ClearedYellows(s.yellows, s.numGuesses), guess, errors, 5));
      s.Step(guess, errors, false);
    }
  }
}
