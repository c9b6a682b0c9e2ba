/**
 Character-level helpers shared by the solver: the upper-case alphabet the
 frequency table is keyed by, `std::string::find` with `npos` read as -1
 (the value the solver obtains when it casts `npos` to `int`), and the set
 of distinct letters of a word.
 */
module Words {

  /** The letters 'A' .. 'Z', codes 65 .. 90. */
  const Alphabet: set<char> := set c: char | 'A' <= c <= 'Z'

  /** `w.find(c, from)`: the first index at or after `from` holding `c`, or -1. */
  function FindFrom(w: string, c: char, from: nat): (r: int)
    ensures r == -1 || (from <= r < |w| && w[r] == c)
    ensures r != -1 ==> forall j :: from <= j < r ==> w[j] != c
    ensures r == -1 <==> forall j :: from <= j < |w| ==> w[j] != c
    decreases |w| - from
  {
    if from >= |w| then -1
    else if w[from] == c then from
    else FindFrom(w, c, from + 1)
  }

  /** `w.find(c)`: the index of the first occurrence of `c` in `w`, or -1. */
  function Find(w: string, c: char): (r: int)
    ensures r == -1 <==> c !in w
    ensures r != -1 ==> 0 <= r < |w| && w[r] == c && forall j :: 0 <= j < r ==> w[j] != c
  {
    FindFrom(w, c, 0)
  }

  /** A search started at `i` stops at `i` exactly when `w[i]` is `c`. */
  lemma FindFromAt(w: string, c: char, i: nat)
    requires i < |w|
    ensures FindFrom(w, c, i) == i <==> w[i] == c
  {
  }

  /** The set of distinct characters of `w`. */
  function CharsOf(w: string): set<char>
  {
    set c | c in w
  }

  /** No character occurs twice in `w`. */
  predicate Distinct(w: string)
  {
    forall i, j :: 0 <= i < j < |w| ==> w[i] != w[j]
  }

  /** A word has as many distinct characters as positions exactly when no
      character repeats. */
  lemma {:induction false} CharsOfCard(w: string)
    ensures |CharsOf(w)| <= |w|
    ensures |CharsOf(w)| == |w| <==> Distinct(w)
  {
    if |w| > 0 {
      var p, c := w[..|w| - 1], w[|w| - 1];
      CharsOfCard(p);
      assert w == p + [c];
      assert CharsOf(w) == CharsOf(p) + {c};
      if c in p {
        var k :| 0 <= k < |p| && p[k] == c;
        assert w[k] == w[|w| - 1];
        assert !Distinct(w);
      } else {
        assert |CharsOf(w)| == |CharsOf(p)| + 1;
        assert Distinct(w) <==> Distinct(p);
      }
    }
  }
}
