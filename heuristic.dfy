/**
 The guess-selection heuristic of the solver: a letter-frequency table over
 the word list, a score per word summing the table over the word's
 characters, the arg-max over the scores, and the four-tier fallback that
 decides which words compete.  Each operation is a loop over its inputs, as
 in the source; each is proved against a specification function.
 */
module Heuristic {
  import opened Words

  /** `m[k]` of a `std::map<K, int>`: a missing key reads as 0. */
  function Lookup<K>(m: map<K, int>, k: K): int
  {
    if k in m then m[k] else 0
  }

  // ---------------------------------------------------------------------
  // Letter-frequency table

  /** The words of `words` that contain `c` at least once. */
  function Containing(words: set<string>, c: char): set<string>
  {
    set w | w in words && c in w
  }

  /** A subset has no more elements than its superset. */
  lemma {:induction false} SubsetCard<T>(a: set<T>, b: set<T>)
    requires a <= b
    ensures |a| <= |b|
    decreases b
  {
    if a != {} {
      var x :| x in a;
      SubsetCard(a - {x}, b - {x});
    }
  }

  /** A frequency lies between 0 and the number of words. */
  lemma ContainingBound(words: set<string>, c: char)
    ensures 0 <= |Containing(words, c)| <= |words|
  {
    SubsetCard(Containing(words, c), words);
  }

  /** Adding one new word adds one to the count of each letter it contains. */
  lemma ContainingAdd(done: set<string>, w: string, c: char)
    requires w !in done
    ensures |Containing(done + {w}, c)| == |Containing(done, c)| + (if c in w then 1 else 0)
  {
    if c in w {
      assert Containing(done + {w}, c) == Containing(done, c) + {w};
    } else {
      assert Containing(done + {w}, c) == Containing(done, c);
    }
  }

  /** The table before any word is counted: 0 for each letter. */
  method ZeroTable() returns (freqs: map<char, int>)
    ensures freqs.Keys == Alphabet
    ensures forall c :: c in freqs ==> freqs[c] == 0
  {
    freqs := map[];
    var c := 'A';
    while c <= 'Z'
      invariant 'A' <= c <= '['
      invariant forall d :: d in freqs <==> 'A' <= d < c
      invariant forall d :: d in freqs ==> freqs[d] == 0
    {
      freqs := freqs[c := 0];
      c := (c as int + 1) as char;
    }
  }

  /** One pass of the inner loop of `letterFrequencies`: count `word` in the
      table of `done`. */
  method CountWord(freqs: map<char, int>, ghost done: set<string>, word: string)
    returns (freqs': map<char, int>)
    requires word !in done
    requires freqs.Keys == Alphabet
    requires forall d :: d in Alphabet ==> freqs[d] == |Containing(done, d)|
    ensures freqs'.Keys == Alphabet
    ensures forall d :: d in Alphabet ==> freqs'[d] == |Containing(done + {word}, d)|
  {
    freqs' := freqs;
    var c := 'A';
    while c <= 'Z'
      invariant 'A' <= c <= '['
      invariant freqs'.Keys == Alphabet
      invariant forall d :: 'A' <= d < c ==> freqs'[d] == |Containing(done + {word}, d)|
      invariant forall d :: c <= d <= 'Z' ==> freqs'[d] == |Containing(done, d)|
    {
      ContainingAdd(done, word, c);
      if Find(word, c) != -1 {
        freqs' := freqs'[c := freqs'[c] + 1];
      }
      c := (c as int + 1) as char;
    }
  }

  /** The table of `letterFrequencies`: one entry per letter 'A' .. 'Z',
      counting the words that contain the letter (not its occurrences). */
  method LetterFrequencies(words: set<string>) returns (freqs: map<char, int>)
    ensures freqs.Keys == Alphabet
    ensures forall c :: c in Alphabet ==> freqs[c] == |Containing(words, c)|
    ensures forall c :: c in Alphabet ==> 0 <= freqs[c] <= |words|
  {
    freqs := ZeroTable();
    var rest, done := words, {};
    while rest != {}
      invariant rest + done == words && rest !! done
      invariant freqs.Keys == Alphabet
      invariant forall d :: d in Alphabet ==> freqs[d] == |Containing(done, d)|
      decreases rest
    {
      var word :| word in rest;
      freqs := CountWord(freqs, done, word);
      rest, done := rest - {word}, done + {word};
    }
    forall d | d in Alphabet
      ensures 0 <= freqs[d] <= |words|
    {
      ContainingBound(words, d);
    }
  }

  // ---------------------------------------------------------------------
  // Word filters

  /** `hasAllYellows`: false for an empty set of yellows, otherwise every
      yellow occurs in the word. */
  predicate AllYellowsIn(word: string, yellows: set<char>)
  {
    yellows != {} && forall y :: y in yellows ==> y in word
  }

  method HasAllYellows(word: string, yellows: set<char>) returns (b: bool)
    ensures b <==> AllYellowsIn(word, yellows)
  {
    if yellows == {} {
      return false;
    }
    var rest := yellows;
    while rest != {}
      invariant rest <= yellows
      invariant forall y :: y in yellows - rest ==> y in word
      decreases rest
    {
      var yellow :| yellow in rest;
      if Find(word, yellow) == -1 {
        return false;
      }
      rest := rest - {yellow};
    }
    return true;
  }

  /** `hasUniqueLetters`: the word has exactly five distinct characters. */
  predicate UniqueLetters(word: string)
  {
    |CharsOf(word)| == 5
  }

  /** For a five-letter word, five distinct characters means no letter
      repeats. */
  lemma UniqueLettersOfFive(word: string)
    requires |word| == 5
    ensures UniqueLetters(word) <==> Distinct(word)
  {
    CharsOfCard(word);
  }

  method HasUniqueLetters(word: string) returns (b: bool)
    ensures b <==> UniqueLetters(word)
  {
    var letters: set<char> := {};
    for i := 0 to |word|
      invariant letters == CharsOf(word[..i])
    {
      assert word[..i + 1] == word[..i] + [word[i]];
      letters := letters + {word[i]};
    }
    assert word[..|word|] == word;
    b := |letters| == 5;
  }

  // ---------------------------------------------------------------------
  // Scores

  /** The score of `word`: the table value of each character, summed over
      every position, so a repeated letter counts once per occurrence. */
  function Score(word: string, freqs: map<char, int>): int
  {
    if |word| == 0 then 0
    else Score(word[..|word| - 1], freqs) + Lookup(freqs, word[|word| - 1])
  }

  /** Scores add up over concatenation: the score does not depend on how a
      word is split. */
  lemma {:induction false} ScoreAppend(u: string, v: string, freqs: map<char, int>)
    ensures Score(u + v, freqs) == Score(u, freqs) + Score(v, freqs)
    decreases |v|
  {
    if |v| > 0 {
      var v' := v[..|v| - 1];
      assert (u + v)[..|u + v| - 1] == u + v';
      ScoreAppend(u, v', freqs);
    } else {
      assert u + v == u;
    }
  }

  /** Every character of a word whose table value is at least one adds at
      least one to its score; values are never negative. */
  lemma {:induction false} ScoreAtLeastLength(word: string, freqs: map<char, int>)
    requires forall i :: 0 <= i < |word| ==> Lookup(freqs, word[i]) >= 1
    ensures Score(word, freqs) >= |word|
  {
    if |word| > 0 {
      ScoreAtLeastLength(word[..|word| - 1], freqs);
    }
  }

  /** With table values between 0 and `n`, a score lies between 0 and
      `|word| * n`. */
  lemma {:induction false} ScoreBounds(word: string, freqs: map<char, int>, n: nat)
    requires forall c :: c in freqs ==> 0 <= freqs[c] <= n
    ensures 0 <= Score(word, freqs) <= |word| * n
  {
    if |word| > 0 {
      ScoreBounds(word[..|word| - 1], freqs, n);
      assert (|word| - 1) * n + n == |word| * n;
    }
  }

  /** The ranking map of `wordRankings`: the candidates' scores. */
  function Rankings(candidates: set<string>, freqs: map<char, int>): map<string, int>
  {
    map w | w in candidates :: Score(w, freqs)
  }

  method WordScore(word: string, freqs: map<char, int>) returns (s: int)
    ensures s == Score(word, freqs)
  {
    s := 0;
    for i := 0 to |word|
      invariant s == Score(word[..i], freqs)
    {
      assert word[..i + 1][..i] == word[..i];
      s := s + Lookup(freqs, word[i]);
    }
    assert word[..|word|] == word;
  }

  /** `wordRankings`: exactly the candidates as keys, each with its score. */
  method WordRankings(candidates: set<string>, freqs: map<char, int>) returns (ranks: map<string, int>)
    ensures ranks.Keys == candidates
    ensures forall w :: w in candidates ==> ranks[w] == Score(w, freqs)
  {
    ranks := map[];
    var rest := candidates;
    while rest != {}
      invariant rest <= candidates
      invariant ranks.Keys == candidates - rest
      invariant forall w :: w in ranks ==> ranks[w] == Score(w, freqs)
      decreases rest
    {
      var candidate :| candidate in rest;
      var s := WordScore(candidate, freqs);
      ranks := ranks[candidate := s];
      rest := rest - {candidate};
    }
  }

  // ---------------------------------------------------------------------
  // Arg-max

  /** What `bestCandidate` promises: the result is `""` or a candidate; when
      some candidate ranks above 0 it is one of highest rank, and it is `""`
      when none does.  Which of several equal maxima is taken is left open. */
  predicate IsBestCandidate(candidates: set<string>, ranks: map<string, int>, r: string)
  {
    && (r == "" || r in candidates)
    && ((exists w :: w in candidates && Lookup(ranks, w) > 0) ==>
          r in candidates && Lookup(ranks, r) > 0 &&
          forall w :: w in candidates ==> Lookup(ranks, w) <= Lookup(ranks, r))
    && ((forall w :: w in candidates ==> Lookup(ranks, w) <= 0) ==> r == "")
  }

  method BestCandidate(candidates: set<string>, ranks: map<string, int>) returns (best: string)
    ensures IsBestCandidate(candidates, ranks, best)
  {
    var max := 0;
    best := "";
    var rest, done := candidates, {};
    while rest != {}
      invariant rest + done == candidates && rest !! done
      invariant (max == 0 && best == "") || (best in done && Lookup(ranks, best) == max > 0)
      invariant forall w :: w in done ==> Lookup(ranks, w) <= max
      decreases rest
    {
      var word :| word in rest;
      if Lookup(ranks, word) > max {
        max := Lookup(ranks, word);
        best := word;
      }
      rest, done := rest - {word}, done + {word};
    }
  }

  // ---------------------------------------------------------------------
  // Tiered selection

  /** Tier 1: five distinct letters and every yellow. */
  function Tier1(words: set<string>, yellows: set<char>): set<string>
  {
    set w | w in words && UniqueLetters(w) && AllYellowsIn(w, yellows)
  }

  /** Tier 2: every yellow. */
  function Tier2(words: set<string>, yellows: set<char>): set<string>
  {
    set w | w in words && AllYellowsIn(w, yellows)
  }

  /** Tier 3: five distinct letters. */
  function Tier3(words: set<string>): set<string>
  {
    set w | w in words && UniqueLetters(w)
  }

  /** The first non-empty tier, the whole set as tier 4. */
  function SelectedTier(words: set<string>, yellows: set<char>): (t: set<string>)
    ensures t <= words
  {
    if Tier1(words, yellows) != {} then Tier1(words, yellows)
    else if Tier2(words, yellows) != {} then Tier2(words, yellows)
    else if Tier3(words) != {} then Tier3(words)
    else words
  }

  /** The first three clauses unfold `SelectedTier`'s order of tiers, for
      callers; the last two are the facts it implies: with no yellows the
      first two tiers are empty, and a non-empty set gives a non-empty tier. */
  lemma TierPrecedence(words: set<string>, yellows: set<char>)
    ensures Tier1(words, yellows) != {} ==> SelectedTier(words, yellows) == Tier1(words, yellows)
    ensures Tier1(words, yellows) == {} && Tier2(words, yellows) != {} ==>
              SelectedTier(words, yellows) == Tier2(words, yellows)
    ensures Tier1(words, yellows) == {} && Tier2(words, yellows) == {} && Tier3(words) != {} ==>
              SelectedTier(words, yellows) == Tier3(words)
    ensures yellows == {} ==> Tier1(words, yellows) == {} && Tier2(words, yellows) == {}
    ensures words != {} ==> SelectedTier(words, yellows) != {}
  {
  }

  /** `findBestCandidate`: the best-ranked word of the first non-empty tier,
      ranked by the given table. */
  method FindBestCandidate(possibleWords: set<string>, yellows: set<char>, freqs: map<char, int>)
    returns (r: string)
    ensures r == "" || r in possibleWords
    ensures IsBestCandidate(SelectedTier(possibleWords, yellows),
                            Rankings(SelectedTier(possibleWords, yellows), freqs), r)
  {
    var candidates: set<string> := {};
    var rest := possibleWords;
    while rest != {}
      invariant rest <= possibleWords
      invariant candidates == Tier1(possibleWords - rest, yellows)
      decreases rest
    {
      var word :| word in rest;
      var u := HasUniqueLetters(word);
      var y := HasAllYellows(word, yellows);
      if u && y {
        candidates := candidates + {word};
      }
      rest := rest - {word};
    }
    assert possibleWords - rest == possibleWords;
    if candidates != {} {
      var ranks := WordRankings(candidates, freqs);
      assert ranks == Rankings(candidates, freqs);
      r := BestCandidate(candidates, ranks);
      return;
    }
    rest := possibleWords;
    while rest != {}
      invariant rest <= possibleWords
      invariant candidates == Tier2(possibleWords - rest, yellows)
      decreases rest
    {
      var word :| word in rest;
      var y := HasAllYellows(word, yellows);
      if y {
        candidates := candidates + {word};
      }
      rest := rest - {word};
    }
    assert possibleWords - rest == possibleWords;
    if candidates != {} {
      var ranks := WordRankings(candidates, freqs);
      assert ranks == Rankings(candidates, freqs);
      r := BestCandidate(candidates, ranks);
      return;
    }
    rest := possibleWords;
    while rest != {}
      invariant rest <= possibleWords
      invariant candidates == Tier3(possibleWords - rest)
      decreases rest
    {
      var word :| word in rest;
      var u := HasUniqueLetters(word);
      if u {
        candidates := candidates + {word};
      }
      rest := rest - {word};
    }
    assert possibleWords - rest == possibleWords;
    if candidates != {} {
      var ranks := WordRankings(candidates, freqs);
      assert ranks == Rankings(candidates, freqs);
      r := BestCandidate(candidates, ranks);
      return;
    }
    var ranks := WordRankings(possibleWords, freqs);
    assert ranks == Rankings(possibleWords, freqs);
    r := BestCandidate(possibleWords, ranks);
  }

  /** With the table taken over a word list, every upper-case five-letter word
      of that list scores at least 5, so the selector returns `""` only when
      it has no word to choose from. */
  lemma ListedWordsScorePositive(list: set<string>, freqs: map<char, int>, w: string)
    requires forall c :: c in Alphabet ==> c in freqs && freqs[c] == |Containing(list, c)|
    requires w in list
    requires forall i :: 0 <= i < |w| ==> w[i] in Alphabet
    ensures Score(w, freqs) >= |w|
  {
    forall i | 0 <= i < |w|
      ensures Lookup(freqs, w[i]) >= 1
    {
      assert w in Containing(list, w[i]);
    }
    ScoreAtLeastLength(w, freqs);
  }

  /** The selector returns a real word whenever the candidate set is
      non-empty and all its words are upper-case five-letter words of the
      list the table was built from. */
  lemma SelectionNonEmpty(list: set<string>, freqs: map<char, int>,
                          possibleWords: set<string>, yellows: set<char>, r: string)
    requires forall c :: c in Alphabet ==> c in freqs && freqs[c] == |Containing(list, c)|
    requires possibleWords <= list && possibleWords != {}
    requires forall w, i :: w in possibleWords && 0 <= i < |w| ==> w[i] in Alphabet
    requires forall w :: w in possibleWords ==> |w| == 5
    requires IsBestCandidate(SelectedTier(possibleWords, yellows),
                             Rankings(SelectedTier(possibleWords, yellows), freqs), r)
    ensures r in SelectedTier(possibleWords, yellows)
    ensures r in possibleWords
  {
    var t := SelectedTier(possibleWords, yellows);
    TierPrecedence(possibleWords, yellows);
    var w :| w in t;
    ListedWordsScorePositive(list, freqs, w);
    assert Lookup(Rankings(t, freqs), w) > 0;
  }
}
