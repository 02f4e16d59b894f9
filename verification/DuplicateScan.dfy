/**
  `detectDuplicate`: a scan of two lists of rows that compares each raw score with a best score
  already rounded to two decimals.
 */
module DuplicateScan {

  import opened Basics
  import opened Wrappers
  import opened Similarity
  import opened TextNormalizer

  datatype TargetType = MalagasyItem | Contribution

  /** A fetched row: an official item or a community contribution. */
  datatype Row = Row(id: string, text: string)

  datatype Target = Target(id: string, kind: TargetType, title: string)

  datatype DetectionResult = DetectionResult(isDuplicate: bool, score: real, target: Option<Target>)

  const NO_MATCH := DetectionResult(false, 0.0, None)

  // ---------- Rounding to two decimals ----------

  /** `Math.round(score * 100)`, rounding halves up. */
  function Percent(score: real): int {
    (score * 100.0 + 0.5).Floor
  }

  /** `Math.round(score * 100) / 100` */
  function Round(score: real): real {
    Percent(score) as real / 100.0
  }

  lemma RoundMonotone(a: real, b: real)
    requires a <= b
    ensures Round(a) <= Round(b)
  {
    assert a * 100.0 + 0.5 <= b * 100.0 + 0.5;
    assert Percent(a) <= Percent(b);
    assert Percent(a) as real <= Percent(b) as real;
  }

  lemma RoundZero()
    ensures Round(0.0) == 0.0
  {
    assert (0.5).Floor == 0;
  }

  lemma RoundTwice(a: real)
    ensures Round(Round(a)) == Round(a)
  {
    var p := Percent(a);
    assert Round(a) * 100.0 == p as real;
    assert (p as real + 0.5).Floor == p;
  }

  lemma RoundNear(a: real)
    ensures Round(a) - 0.005 <= a < Round(a) + 0.005
  {
  }

  /** A multiple of 0.01, as every threshold the application uses is. */
  ghost predicate IsHundredth(t: real) {
    Round(t) == t
  }

  // ---------- What the scan is meant to find ----------

  /** The rows the second loop looks at: serialised JSON texts are skipped. */
  predicate Scanned(kind: TargetType, row: Row) {
    kind == MalagasyItem || !(|row.text| > 0 && row.text[0] == '{')
  }

  /** The scanned rows of both lists, in scan order. */
  function Candidates(items: seq<Row>, contributions: seq<Row>): seq<Target> {
    TargetsOf(items, MalagasyItem) + TargetsOf(contributions, Contribution)
  }

  function TargetsOf(rows: seq<Row>, kind: TargetType): seq<Target> {
    if rows == [] then []
    else
      var last := rows[|rows| - 1];
      TargetsOf(rows[..|rows| - 1], kind)
      + if Scanned(kind, last) then [Target(last.id, kind, last.text)] else []
  }

  /** The raw scores of the candidates, in scan order. */
  function Scores(fold: string -> string, input: string, targets: seq<Target>): (scores: seq<real>)
    ensures |scores| == |targets|
  {
    if targets == [] then []
    else Scores(fold, input, targets[..|targets| - 1])
         + [Combined(fold, input, targets[|targets| - 1].title)]
  }

  /** The greatest score; zero when there is none. */
  function Greatest(scores: seq<real>): real {
    if scores == [] then 0.0
    else MaxReal(Greatest(scores[..|scores| - 1]), scores[|scores| - 1])
  }

  lemma {:induction false} GreatestBounds(scores: seq<real>)
    ensures Greatest(scores) >= 0.0
    ensures forall i | 0 <= i < |scores| :: scores[i] <= Greatest(scores)
    ensures Greatest(scores) == 0.0 || Greatest(scores) in scores
  {
    if scores != [] {
      GreatestBounds(scores[..|scores| - 1]);
    }
  }

  // ---------- The scan ----------

  /** One iteration of either loop: the raw score against the rounded best. */
  function Consider(best: DetectionResult, target: Target, score: real, threshold: real): DetectionResult {
    if score > best.score
    then DetectionResult(score >= threshold, Round(score), Some(target))
    else best
  }

  /** The scan as a fold over the candidates. */
  function Scan(targets: seq<Target>, scores: seq<real>, threshold: real): DetectionResult
    requires |targets| == |scores|
  {
    if targets == [] then NO_MATCH
    else
      var n := |targets| - 1;
      Consider(Scan(targets[..n], scores[..n], threshold), targets[n], scores[n], threshold)
  }

  /** The position of the reported target, if any: the last accepted candidate. */
  ghost predicate Reports(result: DetectionResult, targets: seq<Target>, scores: seq<real>, k: nat)
    requires |targets| == |scores|
  {
    && k < |targets|
    && result.target == Some(targets[k])
    && Round(scores[k]) == result.score
  }

  /**
    Despite the rounding, the final score is the rounding of the true maximum, and the reported
    target is within 0.01 of it.
   */
  lemma {:induction false} ScanFindsMaximum(targets: seq<Target>, scores: seq<real>, threshold: real)
      returns (k: Option<nat>)
    requires |targets| == |scores|
    ensures var result, m := Scan(targets, scores, threshold), Greatest(scores);
            && result.score == Round(m)
            && (k == None <==> m == 0.0)
            && (k == None ==> result == NO_MATCH)
            && (k.Some? ==>
                  && Reports(result, targets, scores, k.value)
                  && m - 0.01 < scores[k.value] <= m
                  && result.isDuplicate == (scores[k.value] >= threshold))
  {
    if targets == [] {
      k := None;
      RoundZero();
    } else {
      var n := |targets| - 1;
      k := ScanFindsMaximum(targets[..n], scores[..n], threshold);
      var m, x := Greatest(scores[..n]), scores[n];
      GreatestBounds(scores[..n]);
      RoundZero();
      RoundTwice(m);
      RoundNear(m);
      RoundNear(x);
      if x > Round(m) {
        k := Some(n);
        if x <= m {
          RoundMonotone(x, m);
          RoundMonotone(Round(m), x);
        }
      } else if m < x {
        RoundMonotone(m, x);
        RoundMonotone(x, Round(m));
        if k.Some? {
          RoundNear(scores[k.value]);
        }
      }
    }
  }

  // ---------- The verdict ----------

  /** The first score that rounds to `t`. */
  ghost function FirstRoundingTo(scores: seq<real>, t: real): Option<real> {
    if scores == [] then None
    else if FirstRoundingTo(scores[..|scores| - 1], t).Some? then FirstRoundingTo(scores[..|scores| - 1], t)
    else if Round(scores[|scores| - 1]) == t then Some(scores[|scores| - 1])
    else None
  }

  lemma {:induction false} FirstRoundingBounds(scores: seq<real>, t: real)
    ensures var f := FirstRoundingTo(scores, t);
            f.Some? ==> Round(f.value) == t && f.value <= Greatest(scores)
  {
    if scores != [] {
      FirstRoundingBounds(scores[..|scores| - 1], t);
    }
  }

  /** The condition under which the scan reports a duplicate, for a threshold in hundredths. */
  ghost predicate ReachesThreshold(scores: seq<real>, t: real) {
    || Greatest(scores) > t
    || (Greatest(scores) == t && FirstRoundingTo(scores, t) == Some(t))
  }

  /** Two different hundredths are at least 0.01 apart. */
  lemma HundredthsApart(m: real, t: real)
    requires IsHundredth(t) && Round(m) < t
    ensures m < t - 0.005
  {
    RoundNear(m);
    assert Percent(m) < Percent(t);
  }

  lemma VerdictStep(scores: seq<real>, t: real, best: DetectionResult, target: Target)
    requires scores != [] && IsHundredth(t) && t > 0.0
    requires var before := scores[..|scores| - 1];
             && best.score == Round(Greatest(before))
             && (best.isDuplicate <==> ReachesThreshold(before, t))
             && (FirstRoundingTo(before, t) == None ==> Round(Greatest(before)) != t)
    ensures Consider(best, target, scores[|scores| - 1], t).isDuplicate <==> ReachesThreshold(scores, t)
    ensures FirstRoundingTo(scores, t) == None ==> Round(Greatest(scores)) != t
  {
    var before, x := scores[..|scores| - 1], scores[|scores| - 1];
    var m := Greatest(before);
    FirstRoundingBounds(before, t);
    if Round(m) < t {
      HundredthsApart(m, t);
    } else {
      RoundMonotone(t, Round(m));
    }
    if FirstRoundingTo(before, t).Some? {
      RoundMonotone(FirstRoundingTo(before, t).value, m);
    }
    if m <= t {
      RoundMonotone(m, t);
    }
  }

  /**
    For a threshold that is a positive multiple of 0.01 the verdict is exact except on one edge:
    when the maximum equals the threshold, it depends on which of the scores rounding to the
    threshold comes first.
   */
  lemma {:induction false} VerdictIsExact(targets: seq<Target>, scores: seq<real>, threshold: real)
    requires |targets| == |scores|
    requires IsHundredth(threshold) && threshold > 0.0
    ensures Scan(targets, scores, threshold).isDuplicate <==> ReachesThreshold(scores, threshold)
    ensures FirstRoundingTo(scores, threshold) == None ==> Round(Greatest(scores)) != threshold
  {
    if targets == [] {
      RoundZero();
    } else {
      var n := |targets| - 1;
      VerdictIsExact(targets[..n], scores[..n], threshold);
      var _ := ScanFindsMaximum(targets[..n], scores[..n], threshold);
      VerdictStep(scores, threshold, Scan(targets[..n], scores[..n], threshold), targets[n]);
    }
  }

  /**
    The edge itself: of two scores that both round to the threshold, one equal to it and one below,
    the verdict is positive exactly when the equal one is scanned first.
   */
  lemma EdgeDependsOnOrder(t: real, below: real)
    requires IsHundredth(t) && t > 0.0 && below < t && Round(below) == t
    ensures ReachesThreshold([t, below], t) && !ReachesThreshold([below, t], t)
  {
    assert [t, below][..1] == [t] && [below, t][..1] == [below];
    assert Greatest([t]) == t && Greatest([below]) == MaxReal(0.0, below);
    assert FirstRoundingTo([t], t) == Some(t) && FirstRoundingTo([below], t) == Some(below);
  }

  // ---------- The method ----------

  /** The input of the scan, or nothing when the text is too short to be checked. */
  function ScanInput(fold: string -> string, textMg: string): Option<string> {
    if textMg == "" || |Trim(textMg)| < 8 then None else Some(Normalize(fold, textMg))
  }

  lemma ScanSnoc(targets: seq<Target>, scores: seq<real>, target: Target, score: real, threshold: real)
    requires |targets| == |scores|
    ensures Scan(targets + [target], scores + [score], threshold) ==
            Consider(Scan(targets, scores, threshold), target, score, threshold)
  {
    assert (targets + [target])[..|targets|] == targets;
    assert (scores + [score])[..|scores|] == scores;
  }

  lemma ScoresSnoc(fold: string -> string, input: string, targets: seq<Target>, target: Target)
    ensures Scores(fold, input, targets + [target]) ==
            Scores(fold, input, targets) + [Combined(fold, input, target.title)]
  {
    assert (targets + [target])[..|targets|] == targets;
  }

  /** The state of the scan after some candidates. */
  ghost predicate ScannedSoFar(fold: string -> string, input: string, threshold: real, targets: seq<Target>,
                               best: DetectionResult)
  {
    best == Scan(targets, Scores(fold, input, targets), threshold)
  }

  lemma ConsiderNext(fold: string -> string, input: string, threshold: real, targets: seq<Target>,
                     best: DetectionResult, target: Target)
    requires ScannedSoFar(fold, input, threshold, targets, best)
    ensures ScannedSoFar(fold, input, threshold, targets + [target],
                         Consider(best, target, Combined(fold, input, target.title), threshold))
  {
    ScoresSnoc(fold, input, targets, target);
    ScanSnoc(targets, Scores(fold, input, targets), target, Combined(fold, input, target.title), threshold);
  }

  lemma TargetsSnoc(rows: seq<Row>, i: nat, kind: TargetType)
    requires i < |rows|
    ensures TargetsOf(rows[..i + 1], kind) ==
            if Scanned(kind, rows[i]) then TargetsOf(rows[..i], kind) + [Target(rows[i].id, kind, rows[i].text)]
            else TargetsOf(rows[..i], kind)
  {
    assert rows[..i + 1][..i] == rows[..i];
  }

  lemma ScannedNothing(fold: string -> string, input: string, threshold: real)
    ensures ScannedSoFar(fold, input, threshold, [], NO_MATCH)
  {
  }

  /** One of the two loops, from a scan of `before` on. */
  method ScanRows(fold: string -> string, input: string, threshold: real, rows: seq<Row>, kind: TargetType,
                  best: DetectionResult, ghost before: seq<Target>)
    returns (bestMatch: DetectionResult)
    requires ScannedSoFar(fold, input, threshold, before, best)
    ensures ScannedSoFar(fold, input, threshold, before + TargetsOf(rows, kind), bestMatch)
  {
    hide Combined, ScannedSoFar, Scan;
    bestMatch := best;
    assert before + [] == before;
    for i := 0 to |rows|
      invariant ScannedSoFar(fold, input, threshold, before + TargetsOf(rows[..i], kind), bestMatch)
    {
      TargetsSnoc(rows, i, kind);
      var row := rows[i];
      if !Scanned(kind, row) {
        continue;
      }
      ghost var target, done := Target(row.id, kind, row.text), before + TargetsOf(rows[..i], kind);
      ConsiderNext(fold, input, threshold, done, bestMatch, target);
      assert done + [target] == before + TargetsOf(rows[..i + 1], kind);
      var score := GetCombinedSimilarity(fold, input, row.text);
      if score > bestMatch.score {
        bestMatch := DetectionResult(score >= threshold, Round(score), Some(Target(row.id, kind, row.text)));
      }
    }
    assert rows[..|rows|] == rows;
  }

  /**
    What the result of a scan tells about the raw scores: the score is the rounded maximum, the
    target is within 0.01 of it, a positive verdict never undercuts the threshold, a clear
    maximum is always reported, and for thresholds in hundredths the verdict is exact.
   */
  ghost predicate Faithful(targets: seq<Target>, scores: seq<real>, threshold: real, result: DetectionResult)
    requires |targets| == |scores|
  {
    var m := Greatest(scores);
    && result.score == Round(m)
    && (m == 0.0 ==> result == NO_MATCH)
    && (m > 0.0 ==> exists k: nat :: Reports(result, targets, scores, k) && m - 0.01 < scores[k] <= m)
    && (result.isDuplicate ==> m >= threshold)
    && (m > 0.0 && m >= threshold + 0.01 ==> result.isDuplicate)
    && (IsHundredth(threshold) && threshold > 0.0 ==>
          (result.isDuplicate <==> ReachesThreshold(scores, threshold)))
  }

  lemma ScanIsFaithful(targets: seq<Target>, scores: seq<real>, threshold: real)
    requires |targets| == |scores|
    ensures Faithful(targets, scores, threshold, Scan(targets, scores, threshold))
  {
    hide Scan, ReachesThreshold, Round, IsHundredth;
    var k := ScanFindsMaximum(targets, scores, threshold);
    GreatestBounds(scores);
    if IsHundredth(threshold) && threshold > 0.0 {
      VerdictIsExact(targets, scores, threshold);
    }
    assert k.Some? ==> Reports(Scan(targets, scores, threshold), targets, scores, k.value);
  }

  // ---------- Which rows count ----------

  lemma {:induction false} TargetsContents(rows: seq<Row>, kind: TargetType)
    ensures forall r | r in rows && Scanned(kind, r) :: Target(r.id, kind, r.text) in TargetsOf(rows, kind)
    ensures forall t | t in TargetsOf(rows, kind) ::
              exists r | r in rows :: Scanned(kind, r) && t == Target(r.id, kind, r.text)
  {
    if rows != [] {
      var before, last := rows[..|rows| - 1], rows[|rows| - 1];
      TargetsContents(before, kind);
      assert forall r :: r in rows <==> r in before || r == last;
    }
  }

  lemma {:induction false} ScoresOfTargets(fold: string -> string, input: string, targets: seq<Target>)
    ensures forall k | 0 <= k < |targets| :: Scores(fold, input, targets)[k] == Combined(fold, input, targets[k].title)
  {
    hide Combined;
    if targets != [] {
      ScoresOfTargets(fold, input, targets[..|targets| - 1]);
    }
  }

  /** No row that is compared scores more than the reported score, rounded. */
  lemma NothingScoresMore(fold: string -> string, input: string, targets: seq<Target>, threshold: real,
                          result: DetectionResult, t: Target)
    requires Faithful(targets, Scores(fold, input, targets), threshold, result) && t in targets
    ensures Round(Combined(fold, input, t.title)) <= result.score
  {
    hide Combined, Scores, Round, ReachesThreshold, IsHundredth;
    var scores := Scores(fold, input, targets);
    var k :| 0 <= k < |targets| && targets[k] == t;
    ScoresOfTargets(fold, input, targets);
    GreatestBounds(scores);
    RoundMonotone(scores[k], Greatest(scores));
  }

  /** The reported target is one of those compared, with the reported score; without one there is no match. */
  lemma ReportedIsCompared(fold: string -> string, input: string, targets: seq<Target>, threshold: real,
                           result: DetectionResult)
    requires Faithful(targets, Scores(fold, input, targets), threshold, result)
    ensures result.target.Some? ==>
              && result.target.value in targets
              && result.score == Round(Combined(fold, input, result.target.value.title))
    ensures result.target == None ==> !result.isDuplicate && result.score == 0.0
  {
    hide Combined, Scores, Round, ReachesThreshold, IsHundredth, Greatest;
    var scores := Scores(fold, input, targets);
    ScoresOfTargets(fold, input, targets);
    GreatestBounds(scores);
    if Greatest(scores) > 0.0 {
      var k: nat :| Reports(result, targets, scores, k);
    }
  }

  /** `detectDuplicate`, with the fetched rows as arguments. */
  method DetectDuplicate(fold: string -> string, textMg: string, items: seq<Row>, contributions: seq<Row>,
                         threshold: real := 0.7)
    returns (bestMatch: DetectionResult)
    ensures ScanInput(fold, textMg) == None ==> bestMatch == NO_MATCH
    ensures ScanInput(fold, textMg).Some? ==>
              var targets := Candidates(items, contributions);
              Faithful(targets, Scores(fold, ScanInput(fold, textMg).value, targets), threshold, bestMatch)
    // a text that is too short matches nothing
    ensures textMg == "" || |Trim(textMg)| < 8 ==> bestMatch == DetectionResult(false, 0.0, None)
    // every item, and every contribution that is not serialised JSON, is compared
    ensures textMg != "" && |Trim(textMg)| >= 8 ==>
              forall r | r in items || (r in contributions && !(|r.text| > 0 && r.text[0] == '{')) ::
                Round(Combined(fold, Normalize(fold, textMg), r.text)) <= bestMatch.score
    // the reported target is one of these rows
    ensures bestMatch.target.Some? ==>
              var t := bestMatch.target.value;
              && bestMatch.score == Round(Combined(fold, Normalize(fold, textMg), t.title))
              && match t.kind
                 case MalagasyItem => exists r | r in items :: t.id == r.id && t.title == r.text
                 case Contribution => exists r | r in contributions ::
                   t.id == r.id && t.title == r.text && !(|r.text| > 0 && r.text[0] == '{')
    ensures bestMatch.target == None ==> !bestMatch.isDuplicate && bestMatch.score == 0.0
  {
    hide Faithful, Normalize, Combined, Scan, Scores, Round, TargetsOf;
    if textMg == "" || |Trim(textMg)| < 8 {
      return NO_MATCH;
    }
    var cleanInput := Normalize(fold, textMg);
    ScannedNothing(fold, cleanInput, threshold);
    bestMatch := ScanRows(fold, cleanInput, threshold, items, MalagasyItem, NO_MATCH, []);
    assert [] + TargetsOf(items, MalagasyItem) == TargetsOf(items, MalagasyItem);
    bestMatch := ScanRows(fold, cleanInput, threshold, contributions, Contribution, bestMatch,
                          TargetsOf(items, MalagasyItem));
    ghost var targets := Candidates(items, contributions);
    ScanIsFaithful(targets, Scores(fold, cleanInput, targets), threshold);
    TargetsContents(items, MalagasyItem);
    TargetsContents(contributions, Contribution);
    ReportedIsCompared(fold, cleanInput, targets, threshold, bestMatch);
    forall t | t in targets ensures Round(Combined(fold, cleanInput, t.title)) <= bestMatch.score {
      NothingScoresMore(fold, cleanInput, targets, threshold, bestMatch, t);
    }
    forall r | r in items || (r in contributions && !(|r.text| > 0 && r.text[0] == '{'))
      ensures Round(Combined(fold, cleanInput, r.text)) <= bestMatch.score
    {
      if r in items {
        assert Target(r.id, MalagasyItem, r.text) in targets;
      } else {
        assert Target(r.id, Contribution, r.text) in targets;
      }
    }
  }
}
