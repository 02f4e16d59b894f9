/**
  Two stored texts and one submitted text for which the verdict of `detectDuplicate` depends on the
  order of the rows: one text scores exactly the default threshold, the other rounds to it.
 */
module DuplicateEdge {

  import opened Basics
  import opened Bigrams
  import opened DuplicateScan
  import opened EditDistance
  import opened Similarity
  import opened TextNormalizer
  import opened Wrappers

  const SUBMITTED := "abcdefghij"
  const EXACT := "abcdefgxyz"
  const NEAR := "abcdefghizyxwvu"

  // ---------- Single words are canonical ----------

  lemma WordIsTrimmed(w: string)
    requires IsWord(w)
    ensures Trim(w) == w
  {
  }

  lemma WordIsNormal(fold: string -> string, w: string)
    requires FoldKeepsPlain(fold) && IsWord(w) && |w| > 1 && w !in STOP_WORDS
    ensures Normalize(fold, w, false) == w && Normalize(fold, w) == w
  {
    hide Clean, Split, KeepWords, FoldKeepsPlain, Canonical, NoBlank;
    JoinIsCanonical([w]);
    CleanKeepsCanonical(fold, w);
    SplitWord(w, "");
    KeepWordsFixed([w]);
  }

  lemma TextsAreWords(fold: string -> string)
    requires FoldKeepsPlain(fold)
    ensures forall w | w in {SUBMITTED, EXACT, NEAR} ::
              Normalize(fold, w, false) == w && Normalize(fold, w) == w && Trim(w) == w
  {
    forall w | w in {SUBMITTED, EXACT, NEAR}
      ensures Normalize(fold, w, false) == w && Normalize(fold, w) == w && Trim(w) == w
    {
      assert IsWord(w) && w !in STOP_WORDS;
      WordIsNormal(fold, w);
      WordIsTrimmed(w);
    }
  }

  // ---------- Bounds from characters and from common prefixes ----------

  /** An edit removes at most one character. */
  lemma EditRemovesOne<T>(s: seq<T>, e: Edit<T>)
    requires e.Fits(s)
    ensures |multiset(s) - multiset(e.Apply(s))| <= 1
  {
    var p, m, m', q := EditShape(s, e);
    assert multiset(s) - multiset(e.Apply(s)) <= multiset(m);
    CardMonotone(multiset(s) - multiset(e.Apply(s)), multiset(m));
  }

  lemma {:induction false} ScriptRemoves<T>(s: seq<T>, p: seq<Edit<T>>, t: seq<T>)
    requires Turns(s, p, t)
    ensures |multiset(s) - multiset(t)| <= |p|
    decreases |p|
  {
    if p == [] {
      assert multiset(s) - multiset(t) == multiset{};
    } else {
      var s' := p[0].Apply(s);
      EditRemovesOne(s, p[0]);
      ScriptRemoves(s', p[1..], t);
      CardTriangle(multiset(s), multiset(s'), multiset(t));
    }
  }

  /** The characters that only one of two texts has are no more than the edits between them. */
  lemma CharacterLoss<T>(s: seq<T>, t: seq<T>)
    ensures |multiset(s) - multiset(t)| <= Distance(s, t)
  {
    var p := ShortestScript(s, t);
    ScriptRemoves(s, p, t);
  }

  /** Texts that agree up to a tail of `n` characters are at most `n` apart. */
  lemma {:induction false} CommonPrefix(p: string, q: string, r: string)
    requires |q| == |r|
    ensures Distance(p + q, p + r) <= |q|
    decreases |q|
  {
    if q == "" {
      assert p + q == p && p + r == p;
      DistanceZero(p, p);
    } else {
      var n := |q| - 1;
      assert (p + q)[..|p + q| - 1] == p + q[..n] && (p + r)[..|p + r| - 1] == p + r[..n];
      CommonPrefix(p, q[..n], r[..n]);
    }
  }

  /** Texts that differ in a tail of as many new characters are exactly that far apart. */
  lemma TailDistance(p: string, q: string, r: string)
    requires |q| == |r| && forall c | c in q :: c !in r
    ensures Distance(p + q, p + r) == |q|
  {
    hide Distance;
    CommonPrefix(p, q, r);
    CharacterLoss(p + q, p + r);
    forall c | c in multiset(q) ensures c !in multiset(r) {
      assert c in q;
    }
    assert multiset(p + q) - multiset(p + r) == multiset(q);
  }

  /** A bigram of a text is made of characters of the text. */
  lemma {:induction false} BigramCharacters(s: string, g: string)
    requires g in BigramsOf(s)
    ensures |g| == 2 && g[0] in s && g[1] in s
    decreases |s|
  {
    if g in BigramsOf(s[..|s| - 1]) {
      BigramCharacters(s[..|s| - 1], g);
    } else {
      assert g == [s[|s| - 2], s[|s| - 1]];
    }
  }

  /**
    When the tails have no character in common with the other text, the shared bigrams are those of
    the common prefix.
   */
  lemma SharedPrefix(p: string, q: string, r: string)
    requires forall c | c in q :: c !in p && c !in r
    ensures Shared(p + q, p + r) == Max(|p| - 1, 0)
  {
    hide BigramsOf;
    var x, y, z := BigramsOf(p), BigramsOf(p + q), BigramsOf(p + r);
    BigramsOfConcat(p, q);
    BigramsOfConcat(p, r);
    BigramCount(p);
    forall g ensures (y * z)[g] == x[g] {
      NewBigrams(p, q, g);
      if g in z && y[g] > x[g] {
        BigramCharacters(p + r, g);
      }
    }
    assert y * z == x;
  }

  /** A bigram that occurs more often in a continuation ends with a character of the continuation. */
  lemma {:induction false} NewBigrams(p: string, q: string, g: string)
    ensures BigramsOf(p)[g] <= BigramsOf(p + q)[g]
    ensures BigramsOf(p)[g] < BigramsOf(p + q)[g] ==> |g| == 2 && g[1] in q
    decreases |q|
  {
    if q == "" {
      assert p + q == p;
    } else {
      var n := |q| - 1;
      NewBigrams(p, q[..n], g);
      assert p + q == (p + q[..n]) + [q[n]];
      BigramsOfSnoc(p + q[..n], q[n]);
    }
  }

  // ---------- The scores ----------

  lemma ExactIsThreeApart()
    ensures Distance(SUBMITTED, EXACT) == 3 && Shared(SUBMITTED, EXACT) == 6
  {
    hide Distance, Shared;
    assert SUBMITTED == "abcdefg" + "hij" && EXACT == "abcdefg" + "xyz";
    TailDistance("abcdefg", "hij", "xyz");
    SharedPrefix("abcdefg", "hij", "xyz");
  }

  lemma NearIsFar()
    ensures Distance(SUBMITTED, NEAR) >= 5 && Shared(SUBMITTED, NEAR) == 8
  {
    hide Distance, Shared;
    assert SUBMITTED == "abcdefghi" + "j" && NEAR == "abcdefghi" + "zyxwvu";
    SharedPrefix("abcdefghi", "j", "zyxwvu");
    DistanceBounds(SUBMITTED, NEAR);
  }

  lemma ScoreOf(fold: string -> string, s: string, t: string)
    requires Normalize(fold, s, false) == s && Normalize(fold, t, false) == t && s != t && |s| >= 2 && |t| >= 2
    ensures Combined(fold, s, t) ==
            MaxReal(2.0 * Shared(s, t) as real / (|s| + |t| - 2) as real,
                    (Max(|s|, |t|) - Distance(s, t)) as real / Max(|s|, |t|) as real)
  {
    hide Normalize, Shared, Distance;
  }

  lemma ExactScore(fold: string -> string)
    requires FoldKeepsPlain(fold)
    ensures Combined(fold, SUBMITTED, EXACT) == 0.7
  {
    hide Normalize, Shared, Distance, Combined, FoldKeepsPlain;
    TextsAreWords(fold);
    ExactIsThreeApart();
    assert SUBMITTED[9] != EXACT[9];
    ScoreOf(fold, SUBMITTED, EXACT);
  }

  /** Here the bigrams decide: the lengths alone put the edit distance at five or more of fifteen. */
  lemma NearScore(fold: string -> string)
    requires FoldKeepsPlain(fold)
    ensures Combined(fold, SUBMITTED, NEAR) == 16.0 / 23.0
  {
    hide Normalize, Shared, Distance, Combined, FoldKeepsPlain;
    TextsAreWords(fold);
    NearIsFar();
    ScoreOf(fold, SUBMITTED, NEAR);
    var d: int := Distance(SUBMITTED, NEAR);
    assert (15 - d) as real / 15.0 <= 10.0 / 15.0;
  }

  // ---------- The two orders ----------

  const EXACT_ROW := Row("1", EXACT)
  const NEAR_ROW := Row("2", NEAR)

  lemma TwoTargets(a: Row, b: Row)
    ensures Candidates([a, b], []) == [Target(a.id, MalagasyItem, a.text), Target(b.id, MalagasyItem, b.text)]
  {
    assert [a, b][..1] == [a] && [a][..0] == [];
    assert TargetsOf([a], MalagasyItem) == [Target(a.id, MalagasyItem, a.text)];
  }

  lemma TwoScores(fold: string -> string, x: Target, y: Target)
    ensures Scores(fold, SUBMITTED, [x, y]) == [Combined(fold, SUBMITTED, x.title), Combined(fold, SUBMITTED, y.title)]
  {
    hide Combined;
    assert [x, y][..1] == [x] && [x][..0] == [];
    assert Scores(fold, SUBMITTED, [x]) == [Combined(fold, SUBMITTED, x.title)];
  }

  /** The same submission against the same two rows, in two orders, with opposite verdicts. */
  method OppositeVerdicts(fold: string -> string) returns (exactFirst: DetectionResult, nearFirst: DetectionResult)
    requires FoldKeepsPlain(fold)
    ensures exactFirst.isDuplicate && !nearFirst.isDuplicate
  {
    hide Combined, Normalize, Scores, Candidates, ReachesThreshold, FoldKeepsPlain;
    var exact, near := Target("1", MalagasyItem, EXACT), Target("2", MalagasyItem, NEAR);
    TextsAreWords(fold);
    ExactScore(fold);
    NearScore(fold);
    TwoTargets(EXACT_ROW, NEAR_ROW);
    TwoTargets(NEAR_ROW, EXACT_ROW);
    TwoScores(fold, exact, near);
    TwoScores(fold, near, exact);
    assert Round(16.0 / 23.0) == 0.7 && Round(0.7) == 0.7;
    EdgeDependsOnOrder(0.7, 16.0 / 23.0);
    exactFirst := DetectDuplicate(fold, SUBMITTED, [EXACT_ROW, NEAR_ROW], []);
    nearFirst := DetectDuplicate(fold, SUBMITTED, [NEAR_ROW, EXACT_ROW], []);
  }
}
