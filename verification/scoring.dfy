/**
 * Letter scoring as highlight_grid does it. Each position of the guess is Exact (dark
 * green) when it matches the target at that position, otherwise Present (orange) when the
 * letter occurs anywhere in the target, otherwise Absent (no colour set). There is no
 * budget per letter: a repeated guess letter is credited at every occurrence.
 *
 * The standard two-pass scoring (exact matches first, then presence matches drawn from
 * the letters left over) is defined alongside as a reference, to state exactly how the
 * engine's rule relates to it.
 */
module Scoring {

  datatype LetterClass = Exact | Present | Absent

  /** The class of position i of word against target. */
  function Classify(word: string, target: string, i: nat): LetterClass
    requires i < |word| && i < |target|
  {
    if word[i] == target[i] then Exact
    else if word[i] in target then Present
    else Absent
  }

  /** The class of every position of a guess. */
  function Score(word: string, target: string): seq<LetterClass>
    requires |word| == |target|
  {
    seq(|word|, i requires 0 <= i < |word| => Classify(word, target, i))
  }

  /** The `correct` flag of highlight_grid: no position was anything but Exact. */
  predicate AllExact(classes: seq<LetterClass>) {
    forall i :: 0 <= i < |classes| ==> classes[i] == Exact
  }

  /** A board is solved by a guess exactly when the guess is its target word. */
  lemma AllExactIffTarget(word: string, target: string)
    requires |word| == |target|
    ensures AllExact(Score(word, target)) <==> word == target
  {
    if AllExact(Score(word, target)) {
      forall i | 0 <= i < |word|
        ensures word[i] == target[i]
      {
        assert Score(word, target)[i] == Exact;
      }
    }
  }

  /**
   * A position is credited (Exact or Present) exactly when its letter occurs in the
   * target, and Present only ever marks a letter that is in the wrong place.
   */
  lemma CreditedIffInTarget(word: string, target: string, i: nat)
    requires |word| == |target| && i < |word|
    ensures Score(word, target)[i] != Absent <==> word[i] in target
    ensures Score(word, target)[i] == Present ==> word[i] != target[i]
  {
  }

  /** An example of the engine crediting a letter twice: LLAMA against LEMON. */
  lemma RepeatedLetterCreditedTwice()
    ensures Score("LLAMA", "LEMON") == [Exact, Present, Absent, Present, Absent]
  {
  }

  // ---------------------------------------------------------------------------
  // Reference: standard two-pass scoring.

  /** The letters of target[i..] at positions where word does not match exactly. */
  function Unmatched(word: string, target: string, i: nat): multiset<char>
    requires |word| == |target| && i <= |word|
    decreases |word| - i
  {
    if i == |word| then multiset{}
    else (if word[i] == target[i] then multiset{} else multiset{target[i]}) + Unmatched(word, target, i + 1)
  }

  /** The second pass: positions not matched exactly draw on the budget of unmatched letters. */
  function PresencePass(word: string, target: string, i: nat, budget: multiset<char>): (r: seq<LetterClass>)
    requires |word| == |target| && i <= |word|
    ensures |r| == |word| - i
    decreases |word| - i
  {
    if i == |word| then []
    else if word[i] == target[i] then [Exact] + PresencePass(word, target, i + 1, budget)
    else if budget[word[i]] > 0 then [Present] + PresencePass(word, target, i + 1, budget - multiset{word[i]})
    else [Absent] + PresencePass(word, target, i + 1, budget)
  }

  /** Standard scoring: each target letter is credited at most once. */
  function TwoPassScore(word: string, target: string): seq<LetterClass>
    requires |word| == |target|
  {
    PresencePass(word, target, 0, Unmatched(word, target, 0))
  }

  /** a credits no more than b: the same class, or Absent where b says Present. */
  predicate CreditsAtMost(a: LetterClass, b: LetterClass) {
    a == b || (a == Absent && b == Present)
  }

  /** The unmatched letters are some of the target's letters. */
  lemma {:induction false} UnmatchedWithinTarget(word: string, target: string, i: nat)
    requires |word| == |target| && i <= |word|
    ensures Unmatched(word, target, i) <= multiset(target[i..])
    decreases |word| - i
  {
    if i < |word| {
      UnmatchedWithinTarget(word, target, i + 1);
      assert target[i..] == [target[i]] + target[i + 1..];
    }
  }

  lemma {:induction false} PresencePassWithinScore(word: string, target: string, i: nat, budget: multiset<char>)
    requires |word| == |target| && i <= |word|
    requires budget <= multiset(target)
    ensures |PresencePass(word, target, i, budget)| == |word| - i
    ensures forall k :: i <= k < |word| ==> CreditsAtMost(PresencePass(word, target, i, budget)[k - i], Score(word, target)[k])
    decreases |word| - i
  {
    if i < |word| {
      var next := if word[i] != target[i] && budget[word[i]] > 0 then budget - multiset{word[i]} else budget;
      PresencePassWithinScore(word, target, i + 1, next);
      var rest := PresencePass(word, target, i + 1, next);
      var first := if word[i] == target[i] then Exact else if budget[word[i]] > 0 then Present else Absent;
      var here := PresencePass(word, target, i, budget);
      assert here == [first] + rest;
      if first == Present {
        assert word[i] in multiset(target);
      }
      forall k | i <= k < |word|
        ensures CreditsAtMost(here[k - i], Score(word, target)[k])
      {
        if k > i {
          assert here[k - i] == rest[k - (i + 1)];
        }
      }
    }
  }

  /**
   * The engine never credits less than standard scoring: the two agree on Exact, and
   * every Present of standard scoring is a Present of the engine.
   */
  lemma TwoPassCreditsAtMostScore(word: string, target: string)
    requires |word| == |target|
    ensures |TwoPassScore(word, target)| == |word|
    ensures forall k :: 0 <= k < |word| ==> CreditsAtMost(TwoPassScore(word, target)[k], Score(word, target)[k])
  {
    UnmatchedWithinTarget(word, target, 0);
    assert target[0..] == target;
    PresencePassWithinScore(word, target, 0, Unmatched(word, target, 0));
  }

  /** No letter occurs twice in w. */
  predicate DistinctLetters(w: string) {
    forall i, j :: 0 <= i < j < |w| ==> w[i] != w[j]
  }

  /** A letter that no exact match uses keeps its full target count among the unmatched letters. */
  lemma {:induction false} UnmatchedCount(word: string, target: string, i: nat, x: char)
    requires |word| == |target| && i <= |word|
    requires forall k :: i <= k < |word| && word[k] == target[k] ==> target[k] != x
    ensures Unmatched(word, target, i)[x] == multiset(target[i..])[x]
    decreases |word| - i
  {
    if i < |word| {
      UnmatchedCount(word, target, i + 1, x);
      assert target[i..] == [target[i]] + target[i + 1..];
    }
  }

  lemma {:induction false} PresencePassAgrees(word: string, target: string, i: nat, budget: multiset<char>)
    requires |word| == |target| && i <= |word| && DistinctLetters(word)
    requires forall j :: i <= j < |word| && word[j] != target[j] ==> (budget[word[j]] > 0 <==> word[j] in target)
    ensures PresencePass(word, target, i, budget) == Score(word, target)[i..]
    decreases |word| - i
  {
    if i < |word| {
      var next := if word[i] != target[i] && budget[word[i]] > 0 then budget - multiset{word[i]} else budget;
      forall j | i + 1 <= j < |word| && word[j] != target[j]
        ensures next[word[j]] > 0 <==> word[j] in target
      {
        assert word[j] != word[i];
      }
      PresencePassAgrees(word, target, i + 1, next);
      assert Score(word, target)[i..] == [Score(word, target)[i]] + Score(word, target)[i + 1..];
    }
  }

  /** For a guess without repeated letters the engine's scoring is the standard one. */
  lemma ScoreIsTwoPassForDistinctLetters(word: string, target: string)
    requires |word| == |target| && DistinctLetters(word)
    ensures Score(word, target) == TwoPassScore(word, target)
  {
    forall j | 0 <= j < |word| && word[j] != target[j]
      ensures Unmatched(word, target, 0)[word[j]] > 0 <==> word[j] in target
    {
      forall k | 0 <= k < |word| && word[k] == target[k]
        ensures target[k] != word[j]
      {
        assert k != j;
      }
      UnmatchedCount(word, target, 0, word[j]);
      assert target[0..] == target;
    }
    PresencePassAgrees(word, target, 0, Unmatched(word, target, 0));
    assert Score(word, target)[0..] == Score(word, target);
  }

  /** A letter all of whose target occurrences are exact matches is left out of the budget. */
  lemma {:induction false} UnmatchedMissing(word: string, target: string, i: nat, x: char)
    requires |word| == |target| && i <= |word|
    requires forall k :: i <= k < |word| && target[k] == x ==> word[k] == x
    ensures Unmatched(word, target, i)[x] == 0
    decreases |word| - i
  {
    if i < |word| {
      UnmatchedMissing(word, target, i + 1, x);
    }
  }

  /** Once the budget has no copy of a letter left, a later misplaced copy of it is Absent. */
  lemma {:induction false} SpentLetterAbsent(word: string, target: string, i: nat, budget: multiset<char>, k: nat)
    requires |word| == |target| && i <= k < |word|
    requires budget[word[k]] == 0 && word[k] != target[k]
    ensures PresencePass(word, target, i, budget)[k - i] == Absent
    decreases |word| - i
  {
    var next := if word[i] != target[i] && budget[word[i]] > 0 then budget - multiset{word[i]} else budget;
    var first := if word[i] == target[i] then Exact else if budget[word[i]] > 0 then Present else Absent;
    assert PresencePass(word, target, i, budget) == [first] + PresencePass(word, target, i + 1, next);
    if i < k {
      SpentLetterAbsent(word, target, i + 1, next, k);
    }
  }

  /**
   * Where the two scorings part: a letter that occurs once in the target and is matched
   * exactly at j, guessed again at k, is Present for the engine but Absent for standard scoring.
   */
  lemma RepeatCreditedOnlyByEngine(word: string, target: string, j: nat, k: nat)
    requires |word| == |target| && j < |word| && k < |word| && j != k
    requires word[j] == target[j] && word[k] == word[j]
    requires forall m :: 0 <= m < |target| && target[m] == word[j] ==> m == j
    ensures Score(word, target)[k] == Present
    ensures TwoPassScore(word, target)[k] == Absent
  {
    assert word[k] in target;
    UnmatchedMissing(word, target, 0, word[k]);
    SpentLetterAbsent(word, target, 0, Unmatched(word, target, 0), k);
  }

  /** With a repeated letter the two differ: standard scoring credits the one L of LEMON once. */
  lemma TwoPassDiffersOnRepeatedLetter()
    ensures TwoPassScore("LLAMA", "LEMON")[1] == Absent
    ensures TwoPassScore("LLAMA", "LEMON") != Score("LLAMA", "LEMON")
  {
    RepeatCreditedOnlyByEngine("LLAMA", "LEMON", 0, 1);
  }
}
