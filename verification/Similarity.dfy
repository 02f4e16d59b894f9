/**
  The two similarity scores and their combination, over exact rationals.
 */
module Similarity {

  import opened Basics
  import opened EditDistance
  import opened Bigrams
  import opened TextNormalizer

  // ---------- The scores of two canonical texts ----------

  /** Dice-Sorensen coefficient on bigrams. */
  function Dice(s: string, t: string): real {
    if s == t then 1.0
    else if |s| < 2 || |t| < 2 then 0.0
    else 2.0 * Shared(s, t) as real / (|s| + |t| - 2) as real
  }

  /** One minus the edit distance relative to the longer text. */
  function Levenshtein(s: string, t: string): real {
    if |s| == 0 || |t| == 0 then (if |s| == |t| then 1.0 else 0.0)
    else (Max(|s|, |t|) - Distance(s, t)) as real / Max(|s|, |t|) as real
  }

  /** The combined score of two raw texts. */
  function Combined(fold: string -> string, a: string, b: string): real {
    var s, t := Normalize(fold, a, false), Normalize(fold, b, false);
    MaxReal(Dice(s, t), Levenshtein(s, t))
  }

  // ---------- The methods ----------

  /** `calculateDiceSimilarity` */
  method CalculateDice(fold: string -> string, str1: string, str2: string) returns (score: real)
    ensures score == Dice(Normalize(fold, str1, false), Normalize(fold, str2, false))
    // equal texts score 1, short ones 0; otherwise twice the shared bigrams over all bigrams
    ensures var s, t := Normalize(fold, str1, false), Normalize(fold, str2, false);
            && (s == t ==> score == 1.0)
            && (s != t && (|s| < 2 || |t| < 2) ==> score == 0.0)
            && (s != t && |s| >= 2 && |t| >= 2 ==>
                  score * (|s| - 1 + |t| - 1) as real == 2.0 * |BigramsOf(s) * BigramsOf(t)| as real)
  {
    hide BigramsOf, Normalize;
    var s1 := Normalize(fold, str1, false);
    var s2 := Normalize(fold, str2, false);
    if s1 == s2 {
      return 1.0;
    }
    if |s1| < 2 || |s2| < 2 {
      return 0.0;
    }
    var b1 := CountBigrams(s1);
    var b2 := CountBigrams(s2);
    var intersection := CountShared(b1, b2, BigramsOf(s1), BigramsOf(s2));
    var total := |s1| - 1 + (|s2| - 1);
    score := if total > 0 then 2.0 * intersection as real / total as real else 0.0;
    QuotientTimes(2.0 * intersection as real, total as real);
  }

  lemma QuotientTimes(a: real, b: real)
    requires b != 0.0
    ensures a / b * b == a
  {
  }

  ghost function Longer(s: string, t: string): (n: nat)
    ensures n >= |s| && n >= |t| && (n == |s| || n == |t|)
  {
    Max(|s|, |t|)
  }

  lemma LevenshteinCases(s: string, t: string)
    ensures |s| == 0 && |t| == 0 ==> Levenshtein(s, t) == 1.0
    ensures (|s| == 0) != (|t| == 0) ==> Levenshtein(s, t) == 0.0
    ensures |s| > 0 && |t| > 0 ==>
              Levenshtein(s, t) == (Max(|s|, |t|) - Distance(s, t)) as real / Max(|s|, |t|) as real
  {
    hide Distance;
  }

  /** `calculateLevenshteinSimilarity` */
  method CalculateLevenshtein(fold: string -> string, str1: string, str2: string) returns (score: real)
    ensures score == Levenshtein(Normalize(fold, str1, false), Normalize(fold, str2, false))
    // an empty text scores 1 with itself and 0 otherwise; d edits cost d parts of the longer length
    ensures var s, t := Normalize(fold, str1, false), Normalize(fold, str2, false);
            && (s == "" && t == "" ==> score == 1.0)
            && ((s == "") != (t == "") ==> score == 0.0)
            && (s != "" && t != "" ==>
                  exists d: nat :: IsShortest(s, t, d) && score * Longer(s, t) as real == (Longer(s, t) - d) as real)
  {
    hide Distance, Normalize, IsShortest, Levenshtein;
    var s1 := Normalize(fold, str1, false);
    var s2 := Normalize(fold, str2, false);
    var m, n := |s1|, |s2|;
    LevenshteinCases(s1, s2);
    if m == 0 {
      return if n == 0 then 1.0 else 0.0;
    }
    if n == 0 {
      return 0.0;
    }
    var d := FillMatrix(s1, s2);
    assert s1[..m] == s1 && s2[..n] == s2;
    DistanceIsShortest(s1, s2, d[m, n]);
    var maxLen := Max(m, n);
    score := (maxLen - d[m, n]) as real / maxLen as real;
    assert IsShortest(s1, s2, d[m, n]);
    QuotientTimes((maxLen - d[m, n]) as real, maxLen as real);
  }

  /** `getCombinedSimilarity` */
  method GetCombinedSimilarity(fold: string -> string, textA: string, textB: string) returns (score: real)
    ensures score == Combined(fold, textA, textB)
    ensures var s, t := Normalize(fold, textA, false), Normalize(fold, textB, false);
            score >= Dice(s, t) && score >= Levenshtein(s, t) && (score == Dice(s, t) || score == Levenshtein(s, t))
  {
    hide Dice, Levenshtein;
    var dice := CalculateDice(fold, textA, textB);
    var levenshtein := CalculateLevenshtein(fold, textA, textB);
    score := MaxReal(dice, levenshtein);
  }

  // ---------- Laws of the scores ----------

  lemma RatioInUnit(a: int, b: int)
    requires 0 <= a <= b && b > 0
    ensures 0.0 <= a as real / b as real <= 1.0
    ensures a as real / b as real == 1.0 <==> a == b
  {
    var q := a as real / b as real;
    assert q * b as real == a as real;
  }

  lemma SharedBounds(s: string, t: string)
    ensures Shared(s, t) == Shared(t, s)
    ensures Shared(s, t) <= Max(|s| - 1, 0)
    ensures Shared(s, t) <= Max(|t| - 1, 0)
  {
    hide BigramsOf;
    CardSplit(BigramsOf(s), BigramsOf(t));
    CardSplit(BigramsOf(t), BigramsOf(s));
    BigramCount(s);
    BigramCount(t);
  }

  /** Two texts share as many bigrams as both have exactly when they have the same bigrams. */
  lemma SharedIsFull(s: string, t: string)
    requires |s| >= 2 && |t| >= 2
    ensures 2 * Shared(s, t) == |s| + |t| - 2 <==> BigramsOf(s) == BigramsOf(t)
  {
    hide BigramsOf;
    var x, y := BigramsOf(s), BigramsOf(t);
    BigramCount(s);
    BigramCount(t);
    SharedBounds(s, t);
    CardSplit(x, y);
    CardSplit(y, x);
    if x == y {
      assert x * y == x;
    }
    if |x - y| == 0 && |y - x| == 0 {
      assert x == (x * y) + (x - y);
      assert y == (y * x) + (y - x);
    }
  }

  /** Dice is symmetric, lies in [0,1], and is 1 exactly for equal texts or equal bigrams. */
  lemma DiceLaws(s: string, t: string)
    ensures Dice(s, t) == Dice(t, s)
    ensures 0.0 <= Dice(s, t) <= 1.0
    ensures Dice(s, t) == 1.0 <==> s == t || (|s| >= 2 && |t| >= 2 && BigramsOf(s) == BigramsOf(t))
  {
    hide BigramsOf;
    SharedBounds(s, t);
    if s != t && |s| >= 2 && |t| >= 2 {
      SharedIsFull(s, t);
      RatioInUnit(2 * Shared(s, t), |s| + |t| - 2);
    }
  }

  /** The Levenshtein score is symmetric, lies in [0,1], and is 1 exactly for equal texts. */
  lemma LevenshteinLaws(s: string, t: string)
    ensures Levenshtein(s, t) == Levenshtein(t, s)
    ensures 0.0 <= Levenshtein(s, t) <= 1.0
    ensures Levenshtein(s, t) == 1.0 <==> s == t
  {
    DistanceSymmetric(s, t);
    DistanceBounds(s, t);
    DistanceZero(s, t);
    if |s| > 0 && |t| > 0 {
      RatioInUnit(Max(|s|, |t|) - Distance(s, t), Max(|s|, |t|));
    }
  }

  /**
    The combined score is symmetric and lies in [0,1].  It is 1 exactly when the canonical texts
    are equal or, both having two characters or more, have the same bigrams.
   */
  lemma CombinedLaws(fold: string -> string, a: string, b: string)
    ensures Combined(fold, a, b) == Combined(fold, b, a)
    ensures 0.0 <= Combined(fold, a, b) <= 1.0
    ensures var s, t := Normalize(fold, a, false), Normalize(fold, b, false);
            Combined(fold, a, b) == 1.0 <==>
            s == t || (|s| >= 2 && |t| >= 2 && BigramsOf(s) == BigramsOf(t))
  {
    hide BigramsOf, Dice, Levenshtein, Normalize;
    var s, t := Normalize(fold, a, false), Normalize(fold, b, false);
    DiceLaws(s, t);
    LevenshteinLaws(s, t);
  }

  /** The q-gram lemma as a bound between the scores: d edits cost Dice at most 4d / (|s|+|t|-2). */
  lemma DiceOfCloseTexts(s: string, t: string)
    requires |s| >= 2 && |t| >= 2
    ensures Dice(s, t) >= 1.0 - (4 * Distance(s, t)) as real / (|s| + |t| - 2) as real
  {
    hide Shared, Distance;
    QGramLemma(s, t);
    var total, d := |s| + |t| - 2, Distance(s, t);
    if s != t {
      assert 2 * Shared(s, t) >= total - 4 * d;
      QuotientBound(2 * Shared(s, t), d, total);
    } else {
      QuotientBound(total, d, total);
    }
  }

  lemma Cancel(p: real, q: real, factor: real)
    requires factor > 0.0 && p * factor >= q * factor
    ensures p >= q
  {
  }

  lemma QuotientBound(a: int, d: nat, total: int)
    requires total > 0 && a >= total - 4 * d
    ensures a as real / total as real >= 1.0 - (4 * d) as real / total as real
  {
    var x, y := a as real / total as real, (4 * d) as real / total as real;
    assert x * total as real == a as real;
    assert y * total as real == (4 * d) as real;
    assert (x + y) * total as real == x * total as real + y * total as real;
    Cancel(x + y, 1.0, total as real);
  }

  // ---------- Exact copies ----------

  predicate Kept(w: string) {
    |w| > 1 && w !in STOP_WORDS
  }

  lemma {:induction false} KeepWordsFilters(words: seq<string>)
    ensures |KeepWords(words)| <= |words|
    ensures KeepWords(words) == words <==> forall w | w in words :: Kept(w)
  {
    if words != [] {
      var w, rest := words[0], words[1..];
      KeepWordsFilters(rest);
      assert words == [w] + rest;
      assert forall v :: v in words <==> v == w || v in rest;
      if Kept(w) {
        assert KeepWords(words)[1..] == KeepWords(rest);
      }
    }
  }

  lemma {:induction false} KeepWordsShorter(words: seq<string>)
    requires AreWords(words)
    ensures |Join(KeepWords(words))| <= |Join(words)|
    ensures KeepWords(words) != words ==> |Join(KeepWords(words))| < |Join(words)|
  {
    if words != [] {
      assert IsWord(words[0]);
      var w, rest := words[0], words[1..];
      KeepWordsShorter(rest);
      KeepWordsFilters(rest);
      assert words == [w] + rest;
      if Kept(w) {
        assert KeepWords(words)[1..] == KeepWords(rest);
      }
    }
  }

  /**
    The input is scored without its stop words and one-letter words, the stored text with them:
    an exact copy scores 1 if and only if the text has no word of that kind.
   */
  lemma ExactCopyScoresOne(fold: string -> string, text: string)
    requires FoldKeepsPlain(fold) && text != ""
    ensures Combined(fold, Normalize(fold, text), text) == 1.0 <==>
            forall w | w in Runs(fold(text)) :: Kept(w)
  {
    hide BigramsOf, Normalize, Combined;
    var words := Runs(fold(text));
    var s, t := Normalize(fold, text), Normalize(fold, text, false);
    NormalizeIdempotent(fold, text, true);
    NormalizeIsJoinedWords(fold, text);
    RunsAreWords(fold(text));
    KeepWordsFilters(words);
    KeepWordsShorter(words);
    CombinedLaws(fold, s, text);
    BigramCount(s);
    BigramCount(t);
  }

  /** The first word of a text is its first run. */
  lemma {:induction false} FirstRun(w: string, rest: string)
    requires IsWord(w)
    ensures Runs(w + " " + rest) == [w] + Runs(rest)
    decreases |w|
  {
    var s := w + " " + rest;
    if |w| == 1 {
      assert s[1..] == " " + rest && (" " + rest)[1..] == rest;
      assert [w[0]] == w;
    } else {
      assert s[1..] == w[1..] + " " + rest;
      FirstRun(w[1..], rest);
      assert [w[0]] + w[1..] == w;
    }
  }

  /**
    An exact copy of any stored text that begins with a word of one letter or one of the twenty stop
    words scores less than 1; a copy of a single other word scores 1.
   */
  lemma CopyWithAStopWord(fold: string -> string, word: string, rest: string)
    requires FoldKeepsPlain(fold) && IsWord(word) && Plain(rest)
    ensures var text := word + " " + rest;
            var dropped := |word| == 1 || word in {
              "ny", "dia", "ka", "fa", "sy", "no", "ho", "an", "ary", "raha",
              "toy", "toa", "koa", "aza", "moa", "re", "ve", "ity", "ireo", "izany"
            };
            && (dropped ==> Combined(fold, Normalize(fold, text), text) < 1.0)
            && (!dropped && rest == "" ==> Combined(fold, Normalize(fold, text), text) == 1.0)
  {
    hide Combined, Normalize, Runs;
    var text := word + " " + rest;
    assert Plain(text) && fold(text) == text;
    FirstRun(word, rest);
    assert word in Runs(fold(text));
    NoRuns();
    ExactCopyScoresOne(fold, text);
    CombinedLaws(fold, Normalize(fold, text), text);
  }

  lemma NoRuns()
    ensures Runs("") == []
  {
  }
}
