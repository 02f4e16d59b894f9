/**
  The civic quiz: choices are shuffled for display, answers are graded against the shuffled
  position kept in a cache, and a session is scored and paid once.
 */
module CivicQuiz {

  import opened Basics
  import opened Wrappers
  import opened SeededShuffle

  datatype Question = Question(id: string, choices: seq<string>, answerIndex: int)

  // ---------- The shuffle ----------

  /** The values of `Math.random`, by the index of the loop that draws them. */
  ghost predicate IsRandom(random: nat -> real) {
    forall i :: 0.0 <= random(i) < 1.0
  }

  /** The position that a random number picks: all positions up to the index have an equal share of the interval. */
  function Pick(random: nat -> real, i: nat): (j: nat)
    requires IsRandom(random)
    ensures j <= i
    ensures j as real <= random(i) * (i + 1) as real < (j + 1) as real
  {
    LessThanAll(random(i), (i + 1) as real);
    FloorBelow(random(i) * (i + 1) as real, i + 1);
    (random(i) * (i + 1) as real).Floor
  }

  /** A choice of a position, not above it, for every index. */
  predicate ArePicks(picks: seq<nat>) {
    forall i | 0 <= i < |picks| :: picks[i] <= i
  }

  function PicksOf(random: nat -> real, n: nat): (picks: seq<nat>)
    requires IsRandom(random)
    ensures |picks| == n && ArePicks(picks) && forall i | 0 <= i < n :: picks[i] == Pick(random, i)
  {
    seq(n, i requires 0 <= i < n && IsRandom(random) => Pick(random, i))
  }

  /** The swaps from index `i` down to 1. */
  function Drawn<T>(s: seq<T>, picks: seq<nat>, i: int): (r: seq<T>)
    requires i < |s| <= |picks| && ArePicks(picks)
    ensures |r| == |s|
    decreases i
  {
    if i <= 0 then s else Drawn(Swapped(s, i, picks[i]), picks, i - 1)
  }

  lemma {:induction false} DrawnKeepsElements<T>(s: seq<T>, picks: seq<nat>, i: int)
    requires i < |s| <= |picks| && ArePicks(picks)
    ensures multiset(Drawn(s, picks, i)) == multiset(s)
    decreases i
  {
    if i > 0 {
      SwapKeepsElements(s, i, picks[i]);
      DrawnKeepsElements(Swapped(s, i, picks[i]), picks, i - 1);
    }
  }

  /** The elements above the index stay where they are. */
  lemma {:induction false} DrawnLeavesAbove<T>(s: seq<T>, picks: seq<nat>, i: int, k: nat)
    requires i < k < |s| <= |picks| && ArePicks(picks)
    ensures Drawn(s, picks, i)[k] == s[k]
    decreases i
  {
    if i > 0 {
      DrawnLeavesAbove(Swapped(s, i, picks[i]), picks, i - 1, k);
    }
  }

  /** The picks above the index play no part. */
  lemma {:induction false} DrawnFromBelow<T>(s: seq<T>, picks: seq<nat>, other: seq<nat>, i: int)
    requires i < |s| <= |picks| && |s| <= |other| && ArePicks(picks) && ArePicks(other)
    requires forall k | 0 < k <= i :: picks[k] == other[k]
    ensures Drawn(s, picks, i) == Drawn(s, other, i)
    decreases i
  {
    if i > 0 {
      DrawnFromBelow(Swapped(s, i, picks[i]), picks, other, i - 1);
    }
  }

  lemma DrawnDone<T>(s: seq<T>, picks: seq<nat>, i: int)
    requires i < |s| <= |picks| && ArePicks(picks) && i <= 0
    ensures Drawn(s, picks, i) == s
  {
  }

  lemma DrawnStep<T>(s: seq<T>, picks: seq<nat>, i: nat)
    requires 0 < i < |s| <= |picks| && ArePicks(picks)
    ensures Drawn(s, picks, i) == Drawn(Swapped(s, i, picks[i]), picks, i - 1)
  {
  }

  lemma SwappedAt<T>(s: seq<T>, i: nat, j: nat)
    requires j <= i < |s|
    ensures |Swapped(s, i, j)| == |s| && Swapped(s, i, j)[i] == s[j]
    ensures forall k | i < k < |s| :: Swapped(s, i, j)[k] == s[k]
  {
  }

  /** The element that ends at the index is the one picked. */
  lemma DrawnAtIndex<T>(s: seq<T>, picks: seq<nat>, i: nat)
    requires 0 < i < |s| <= |picks| && ArePicks(picks)
    ensures Drawn(s, picks, i)[i] == s[picks[i]]
  {
    hide Drawn, Swapped;
    SwappedAt(s, i, picks[i]);
    DrawnStep(s, picks, i);
    DrawnLeavesAbove(Swapped(s, i, picks[i]), picks, i - 1, i);
  }

  /** Different picks give different orders. */
  lemma {:induction false} DrawnOnce<T>(s: seq<T>, picks: seq<nat>, other: seq<nat>, i: int)
    requires i < |s| <= |picks| && |s| <= |other| && ArePicks(picks) && ArePicks(other) && Distinct(s)
    requires Drawn(s, picks, i) == Drawn(s, other, i)
    ensures forall k | 0 <= k <= i :: picks[k] == other[k]
    decreases i
  {
    if i > 0 {
      hide Drawn, Swapped;
      DrawnAtIndex(s, picks, i);
      DrawnAtIndex(s, other, i);
      assert picks[i] == other[i];
      var next := Swapped(s, i, picks[i]);
      SwapKeepsElements(s, i, picks[i]);
      DistinctPermutation(s, next);
      DrawnStep(s, picks, i);
      DrawnStep(s, other, i);
      DrawnOnce(next, picks, other, i - 1);
    }
  }

  /** One more pick, at the index. */
  lemma PickAdded<T>(s: seq<T>, rest: seq<nat>, i: nat, j: nat)
    requires 0 < i < |s| == |rest| && j <= i && ArePicks(rest)
    ensures ArePicks(rest[i := j]) && Drawn(s, rest[i := j], i) == Drawn(Swapped(s, i, j), rest, i - 1)
  {
    hide Swapped;
    SwappedAt(s, i, j);
    DrawnFromBelow(Swapped(s, i, j), rest, rest[i := j], i - 1);
  }

  /** The element at index `i` of a permutation that agrees above it is found at or below it. */
  lemma FoundBelow<T>(s: seq<T>, t: seq<T>, i: nat) returns (j: nat)
    requires i < |s| == |t| && multiset(s) == multiset(t)
    requires forall k | i < k < |s| :: s[k] == t[k]
    ensures j <= i && s[j] == t[i]
  {
    assert s == s[..i + 1] + s[i + 1..] && t == t[..i + 1] + t[i + 1..] && s[i + 1..] == t[i + 1..];
    assert multiset(s[..i + 1]) == multiset(s) - multiset(s[i + 1..]);
    assert multiset(t[..i + 1]) == multiset(t) - multiset(t[i + 1..]);
    assert t[..i + 1][i] in multiset(t[..i + 1]);
    assert t[i] in multiset(s[..i + 1]);
    j :| 0 <= j <= i && s[..i + 1][j] == t[i];
  }

  /** A permutation that agrees above the index. */
  ghost predicate AgreesAbove<T>(s: seq<T>, t: seq<T>, i: int) {
    |s| == |t| && multiset(s) == multiset(t) && forall k | 0 <= k < |s| && k > i :: s[k] == t[k]
  }

  lemma OneMoreAgrees<T>(s: seq<T>, t: seq<T>, i: nat) returns (j: nat)
    requires i < |s| && AgreesAbove(s, t, i)
    ensures j <= i && AgreesAbove(Swapped(s, i, j), t, i - 1)
  {
    hide Swapped;
    j := FoundBelow(s, t, i);
    SwappedAt(s, i, j);
    SwapKeepsElements(s, i, j);
  }

  lemma AllAgree<T>(s: seq<T>, t: seq<T>, i: int)
    requires i <= 0 && AgreesAbove(s, t, i)
    ensures s == t
  {
    if s != [] {
      var _ := FoundBelow(s, t, 0);
    }
  }

  /** The picks that lead to a given order. */
  lemma {:induction false} PicksFor<T>(s: seq<T>, t: seq<T>, i: int) returns (picks: seq<nat>)
    requires i < |s| && AgreesAbove(s, t, i)
    ensures |picks| == |s| && ArePicks(picks) && Drawn(s, picks, i) == t
    decreases i
  {
    if i <= 0 {
      AllAgree(s, t, i);
      picks := seq(|s|, k => 0);
    } else {
      hide AgreesAbove, ArePicks, Swapped, Drawn;
      var j := OneMoreAgrees(s, t, i);
      SwappedAt(s, i, j);
      var rest := PicksFor(Swapped(s, i, j), t, i - 1);
      picks := rest[i := j];
      PickAdded(s, rest, i, j);
    }
  }

  /** The picks that turn a list into `t`. */
  ghost predicate LeadsTo<T>(s: seq<T>, picks: seq<nat>, t: seq<T>) {
    |picks| == |s| && ArePicks(picks) && Drawn(s, picks, |s| - 1) == t
  }

  lemma LeadsToAtMostOnce<T>(s: seq<T>, picks: seq<nat>, other: seq<nat>, t: seq<T>)
    requires Distinct(s) && LeadsTo(s, picks, t) && LeadsTo(s, other, t)
    ensures picks == other
  {
    hide Drawn, ArePicks, Distinct;
    DrawnOnce(s, picks, other, |s| - 1);
  }

  lemma LeadsToPermutation<T>(s: seq<T>, picks: seq<nat>, t: seq<T>)
    requires LeadsTo(s, picks, t)
    ensures multiset(t) == multiset(s)
  {
    DrawnKeepsElements(s, picks, |s| - 1);
  }

  lemma PicksExist<T>(s: seq<T>, t: seq<T>) returns (picks: seq<nat>)
    requires multiset(s) == multiset(t)
    ensures LeadsTo(s, picks, t)
  {
    hide Drawn, ArePicks;
    assert |multiset(s)| == |s| && |multiset(t)| == |t|;
    picks := PicksFor(s, t, |s| - 1);
  }

  /**
    Of different elements every order comes from exactly one choice of picks: so all orders are
    equally likely when the random numbers are uniform.
   */
  lemma EveryOrderIsDrawnOnce<T>(s: seq<T>, t: seq<T>)
    requires Distinct(s)
    ensures (exists picks :: LeadsTo(s, picks, t)) <==> multiset(t) == multiset(s)
    ensures forall picks, other | LeadsTo(s, picks, t) && LeadsTo(s, other, t) :: picks == other
  {
    hide LeadsTo, Distinct;
    if multiset(t) == multiset(s) {
      var _ := PicksExist(s, t);
    }
    forall picks | LeadsTo(s, picks, t) ensures multiset(t) == multiset(s) {
      LeadsToPermutation(s, picks, t);
    }
    forall picks, other | LeadsTo(s, picks, t) && LeadsTo(s, other, t) ensures picks == other {
      LeadsToAtMostOnce(s, picks, other, t);
    }
  }

  /** `shuffleArray`: the permutation that the random numbers pick. */
  method ShuffleArray<T>(items: seq<T>, random: nat -> real) returns (shuffled: seq<T>)
    requires IsRandom(random)
    ensures shuffled == Drawn(items, PicksOf(random, |items|), |items| - 1)
    ensures multiset(shuffled) == multiset(items)
  {
    hide Pick, PicksOf, ArePicks, Drawn;
    var n := |items|;
    var result := new T[n](k requires 0 <= k < n => items[k]);
    assert result[..] == items;
    ghost var picks := PicksOf(random, n);
    DrawnKeepsElements(items, picks, n - 1);
    var i := n - 1;
    while i > 0
      invariant i < n && (n > 0 ==> i >= 0)
      invariant Drawn(result[..], picks, i) == Drawn(items, picks, n - 1)
    {
      ghost var before := result[..];
      var j := Pick(random, i);
      result[i], result[j] := result[j], result[i];
      assert result[..] == Swapped(before, i, j);
      DrawnStep(before, picks, i);
      i := i - 1;
    }
    DrawnDone(result[..], picks, i);
    shuffled := result[..];
  }

  /** `indexOf` */
  function IndexOf(choices: seq<string>, text: string): (i: int)
    ensures i == -1 ==> text !in choices
    ensures i != -1 ==> 0 <= i < |choices| && choices[i] == text && text !in choices[..i]
  {
    IndexFrom(choices, text, 0)
  }

  function IndexFrom(choices: seq<string>, text: string, k: nat): (i: int)
    requires k <= |choices| && text !in choices[..k]
    ensures i == -1 ==> text !in choices
    ensures i != -1 ==> 0 <= i < |choices| && choices[i] == text && text !in choices[..i]
    decreases |choices| - k
  {
    if k == |choices| then assert choices[..k] == choices; -1
    else if choices[k] == text then k
    else assert choices[..k + 1] == choices[..k] + [choices[k]]; IndexFrom(choices, text, k + 1)
  }

  predicate InRange(q: Question) {
    0 <= q.answerIndex < |q.choices|
  }

  /** The text of the right answer. */
  function CorrectText(q: Question): string
    requires InRange(q)
  {
    q.choices[q.answerIndex]
  }

  /** What `shuffleChoicesAndRecalculateIndex` does once the order of the choices is drawn. */
  function Reindexed(q: Question, shuffled: seq<string>): Question {
    var newIndex := if InRange(q) then IndexOf(shuffled, CorrectText(q)) else -1;
    q.(choices := shuffled, answerIndex := if newIndex >= 0 then newIndex else q.answerIndex)
  }

  /** A version of `q` that may be shown: the same choices in any order, pointing at the right one. */
  ghost predicate Shows(shown: Question, q: Question) {
    && shown.id == q.id
    && multiset(shown.choices) == multiset(q.choices)
    && (InRange(q) ==> InRange(shown) && CorrectText(shown) == CorrectText(q))
  }

  lemma ReindexedShows(q: Question, shuffled: seq<string>)
    requires multiset(shuffled) == multiset(q.choices)
    ensures Shows(Reindexed(q, shuffled), q)
  {
    if InRange(q) {
      assert CorrectText(q) in multiset(q.choices);
      assert CorrectText(q) in shuffled;
    }
  }

  /** `shuffleChoicesAndRecalculateIndex` */
  method ShuffleChoices(q: Question, random: nat -> real) returns (shown: Question)
    requires IsRandom(random)
    ensures Shows(shown, q)
    ensures shown.id == q.id && multiset(shown.choices) == multiset(q.choices)
    ensures |q.choices| > 1 ==> shown.choices == Drawn(q.choices, PicksOf(random, |q.choices|), |q.choices| - 1)
    ensures 0 <= q.answerIndex < |q.choices| ==>
              && 0 <= shown.answerIndex < |shown.choices|
              && shown.choices[shown.answerIndex] == q.choices[q.answerIndex]
              && q.choices[q.answerIndex] !in shown.choices[..shown.answerIndex]
    ensures |q.choices| <= 1 || !(0 <= q.answerIndex < |q.choices|) ==> shown.answerIndex == q.answerIndex
  {
    hide Drawn, PicksOf;
    if |q.choices| <= 1 {
      return q;
    }
    var shuffled := ShuffleArray(q.choices, random);
    ReindexedShows(q, shuffled);
    shown := Reindexed(q, shuffled);
  }

  // ---------- Grading ----------

  /** An entry of the answers map of a session. */
  datatype Meta = Meta(answerIndex: int, correctChoice: string)

  /** `trim().toLowerCase()` is left abstract. */
  predicate SameText(fold: string -> string, a: string, b: string) {
    fold(a) == fold(b)
  }

  /** The test of `answerSessionQuestion`. */
  predicate IsCorrect(fold: string -> string, expected: Meta, index: Option<int>, text: Option<string>) {
    || index == Some(expected.answerIndex)
    || (text.Some? && expected.correctChoice != "" && SameText(fold, text.value, expected.correctChoice))
  }

  function MetaOf(q: Question): Meta {
    Meta(q.answerIndex, if InRange(q) then CorrectText(q) else "")
  }

  /** The right choice is listed once. */
  ghost predicate CorrectOnce(q: Question)
    requires InRange(q)
  {
    multiset(q.choices)[CorrectText(q)] == 1
  }

  lemma SeveralMeansTwoIndices<T>(s: seq<T>, i: nat) returns (j: nat)
    requires i < |s| && multiset(s)[s[i]] != 1
    ensures j < |s| && j != i && s[j] == s[i]
  {
    var rest := s[..i] + s[i + 1..];
    assert s == s[..i] + [s[i]] + s[i + 1..];
    assert multiset(s) == multiset(rest) + multiset{s[i]};
    assert s[i] in rest;
    var k :| 0 <= k < |rest| && rest[k] == s[i];
    j := if k < i then k else k + 1;
  }

  /**
    An answer by position, graded against the shuffled position, is right when the text shown
    there is the right one: for every position if and only if the right text is listed once.
   */
  lemma GradingCommutesWithShuffling(fold: string -> string, q: Question, shown: Question)
    requires InRange(q) && Shows(shown, q)
    ensures (forall i | 0 <= i < |shown.choices| ::
               IsCorrect(fold, MetaOf(shown), Some(i), None) <==> shown.choices[i] == CorrectText(q))
            <==> CorrectOnce(q)
  {
    var right := shown.answerIndex;
    assert multiset(shown.choices)[CorrectText(q)] == multiset(q.choices)[CorrectText(q)];
    if CorrectOnce(q) {
      forall i | 0 <= i < |shown.choices|
        ensures IsCorrect(fold, MetaOf(shown), Some(i), None) <==> shown.choices[i] == CorrectText(q)
      {
        if i != right && shown.choices[i] == CorrectText(q) {
          OnceMeansOneIndex(shown.choices, if i < right then i else right, if i < right then right else i);
        }
      }
    } else {
      var j := SeveralMeansTwoIndices(shown.choices, right);
      assert !IsCorrect(fold, MetaOf(shown), Some(j), None);
    }
  }

  /** The right choice listed twice: shown at both positions, graded right at one. */
  lemma RightChoiceTwice(fold: string -> string)
    ensures var q := Question("q", ["yes", "yes", "no"], 0);
            && InRange(q) && Shows(q, q) && !CorrectOnce(q)
            && q.choices[1] == CorrectText(q) && !IsCorrect(fold, MetaOf(q), Some(1), None)
  {
    OnceMeansOneIndex(["yes", "yes", "no"], 0, 1);
  }

  /**
    Without the answers map the position is graded against the stored order: that agrees with the
    text shown if and only if the shuffle has left the right choice where it was.
   */
  lemma GradingWithoutTheMap(fold: string -> string, q: Question, shown: Question)
    requires InRange(q) && Shows(shown, q) && CorrectOnce(q)
    ensures (forall i | 0 <= i < |shown.choices| ::
               IsCorrect(fold, MetaOf(q), Some(i), None) <==> shown.choices[i] == CorrectText(q))
            <==> shown.answerIndex == q.answerIndex
  {
    GradingCommutesWithShuffling(fold, q, shown);
    assert IsCorrect(fold, MetaOf(shown), Some(shown.answerIndex), None);
    if shown.answerIndex != q.answerIndex {
      assert !IsCorrect(fold, MetaOf(q), Some(shown.answerIndex), None);
    }
  }

  /** The two choices changed places and the map is gone: the wrong one is graded right. */
  lemma WrongChoiceWithoutTheMap(fold: string -> string)
    ensures var q, shown := Question("q", ["yes", "no"], 0), Question("q", ["no", "yes"], 1);
            && InRange(q) && Shows(shown, q) && CorrectOnce(q)
            && shown.choices[0] != CorrectText(q) && IsCorrect(fold, MetaOf(q), Some(0), None)
  {
    var q, shown := Question("q", ["yes", "no"], 0), Question("q", ["no", "yes"], 1);
    assert multiset(q.choices) == multiset{"yes", "no"} && multiset(shown.choices) == multiset{"no", "yes"};
  }

  /** An answer by text is graded the same with the map, without it, and however the choices are shown. */
  lemma TextAnswersIgnoreOrder(fold: string -> string, q: Question, shown: Question, text: string)
    requires InRange(q) && Shows(shown, q)
    ensures IsCorrect(fold, MetaOf(shown), None, Some(text)) == IsCorrect(fold, MetaOf(q), None, Some(text))
    ensures IsCorrect(fold, MetaOf(shown), None, Some(text)) <==>
            q.choices[q.answerIndex] != "" && fold(text) == fold(q.choices[q.answerIndex])
  {
  }

  // ---------- Scoring ----------

  function CountTrue(bits: seq<bool>): nat {
    if bits == [] then 0 else CountTrue(bits[..|bits| - 1]) + if bits[|bits| - 1] then 1 else 0
  }

  lemma {:induction false} CountTrueIs(bits: seq<bool>)
    ensures CountTrue(bits) == multiset(bits)[true]
  {
    if bits != [] {
      var before, last := bits[..|bits| - 1], bits[|bits| - 1];
      CountTrueIs(before);
      assert bits == before + [last];
    }
  }

  /** `n` right answers in a row, starting at `i`. */
  ghost predicate Streak(bits: seq<bool>, i: nat, n: nat) {
    i + n <= |bits| && forall k | i <= k < i + n :: bits[k]
  }

  /** The length of the longest streak. */
  ghost predicate IsLongestStreak(bits: seq<bool>, n: nat) {
    && (exists i: nat :: Streak(bits, i, n))
    && (forall i: nat, l: nat | Streak(bits, i, l) :: l <= n)
  }

  lemma {:induction false} StreakIsPartOfScore(bits: seq<bool>, i: nat, n: nat)
    requires Streak(bits, i, n)
    ensures n <= CountTrue(bits) <= |bits|
  {
    if bits != [] {
      var before := bits[..|bits| - 1];
      if i + n <= |before| {
        StreakIsPartOfScore(before, i, n);
      } else if n > 0 {
        StreakIsPartOfScore(before, i, n - 1);
      } else {
        StreakIsPartOfScore(before, 0, 0);
      }
    }
  }

  datatype Score = Score(score: nat, streakMax: nat, xpEarned: nat)

  /** 10 points a right answer, and a bonus for a streak of three or of five. */
  function Xp(score: nat, streakMax: nat): nat {
    score * 10 + if streakMax >= 5 then 15 else if streakMax >= 3 then 10 else 0
  }

  ghost predicate IsScoreOf(r: Score, bits: seq<bool>) {
    r.score == CountTrue(bits) && IsLongestStreak(bits, r.streakMax) && r.xpEarned == Xp(r.score, r.streakMax)
  }

  /** The score of a list of answers is unique and bounded. */
  lemma ScoreBounds(r: Score, other: Score, bits: seq<bool>)
    requires IsScoreOf(r, bits) && IsScoreOf(other, bits)
    ensures r == other
    ensures r.streakMax <= r.score <= |bits| && r.xpEarned <= 10 * |bits| + 15
  {
    var i: nat :| Streak(bits, i, r.streakMax);
    var j: nat :| Streak(bits, j, other.streakMax);
    StreakIsPartOfScore(bits, i, r.streakMax);
  }

  /** The streaks of `bits` and one more answer: the old ones, and those that the answer prolongs. */
  lemma StreakSnoc(bits: seq<bool>, b: bool, i: nat, n: nat)
    requires n > 0
    ensures Streak(bits + [b], i, n) <==>
            Streak(bits, i, n) || (i + n == |bits| + 1 && b && Streak(bits, i, n - 1))
  {
    var more := bits + [b];
    assert more[|bits|] == b;
    assert forall k | 0 <= k < |bits| :: more[k] == bits[k];
    if Streak(more, i, n) && i + n == |more| {
      assert more[i + n - 1];
      assert forall k | i <= k < i + n - 1 :: bits[k] == more[k];
    }
  }

  /** Where the loop stands: the best streak so far, and the length of the one that is running. */
  ghost predicate LoopState(bits: seq<bool>, current: nat, best: nat) {
    && current <= |bits| && Streak(bits, |bits| - current, current)
    && (forall i: nat, n: nat | Streak(bits, i, n) && i + n == |bits| :: n <= current)
    && IsLongestStreak(bits, best)
  }

  lemma NoStreakYet()
    ensures LoopState([], 0, 0)
  {
    assert Streak([], 0, 0);
  }

  lemma LoopStep(bits: seq<bool>, b: bool, current: nat, best: nat)
    requires LoopState(bits, current, best)
    ensures b ==> LoopState(bits + [b], current + 1, Max(best, current + 1))
    ensures !b ==> LoopState(bits + [b], 0, best)
  {
    var more := bits + [b];
    var current', best' := if b then current + 1 else 0, if b then Max(best, current + 1) else best;
    forall i: nat, n: nat | Streak(more, i, n) ensures n <= best' && (i + n == |more| ==> n <= current') {
      if n > 0 {
        StreakSnoc(bits, b, i, n);
        if !Streak(bits, i, n) {
          assert Streak(bits, i, n - 1) && i + (n - 1) == |bits|;
        }
      }
    }
    var start: nat :| Streak(bits, start, best);
    assert Streak(more, start, best);
    assert Streak(more, |more| - current', current');
  }

  lemma StreakIsSlice(bits: seq<bool>, i: nat, j: nat)
    requires i <= j <= |bits|
    ensures Streak(bits, i, j - i) <==> false !in bits[i..j]
  {
    if false !in bits[i..j] {
      forall k | i <= k < j ensures bits[k] {
        assert bits[i..j][k - i] == bits[k];
      }
    }
  }

  lemma LongestSlice(bits: seq<bool>, n: nat)
    requires IsLongestStreak(bits, n)
    ensures exists i, j | 0 <= i <= j <= |bits| :: j - i == n && false !in bits[i..j]
    ensures forall i, j | 0 <= i <= j <= |bits| && false !in bits[i..j] :: j - i <= n
  {
    var start: nat :| Streak(bits, start, n);
    StreakIsSlice(bits, start, start + n);
    assert false !in bits[start..start + n];
    forall i, j | 0 <= i <= j <= |bits| && false !in bits[i..j] ensures j - i <= n {
      StreakIsSlice(bits, i, j);
    }
  }

  /** The computation of `finishSession`. */
  method ComputeScore(answers: seq<bool>) returns (r: Score)
    ensures IsScoreOf(r, answers)
    ensures r.xpEarned == 10 * r.score + if r.streakMax >= 5 then 15 else if r.streakMax >= 3 then 10 else 0
    ensures r.score == multiset(answers)[true]
    ensures exists i, j | 0 <= i <= j <= |answers| :: j - i == r.streakMax && false !in answers[i..j]
    ensures forall i, j | 0 <= i <= j <= |answers| && false !in answers[i..j] :: j - i <= r.streakMax
  {
    hide IsLongestStreak, Streak;
    CountTrueIs(answers);
    var score := CountTrue(answers);
    var currentStreak: nat, maxStreak: nat := 0, 0;
    NoStreakYet();
    assert answers[..0] == [];
    for i := 0 to |answers|
      invariant LoopState(answers[..i], currentStreak, maxStreak)
    {
      hide LoopState;
      assert answers[..i + 1] == answers[..i] + [answers[i]];
      LoopStep(answers[..i], answers[i], currentStreak, maxStreak);
      if answers[i] {
        currentStreak := currentStreak + 1;
        maxStreak := Max(maxStreak, currentStreak);
      } else {
        currentStreak := 0;
      }
    }
    assert answers[..|answers|] == answers;
    var streakBonus := if maxStreak >= 5 then 15 else if maxStreak >= 3 then 10 else 0;
    r := Score(score, maxStreak, score * 10 + streakBonus);
    LongestSlice(answers, maxStreak);
  }
}
