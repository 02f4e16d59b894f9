/**
  The edit distance behind `calculateLevenshteinSimilarity`.

  The reference notion is the length of a script of single-element insertions, deletions and
  substitutions, each applied anywhere in the current text.  `Distance` is the recurrence the
  matrix is filled with; the module proves that the two agree and that the result is a metric.
 */
module EditDistance {

  import opened Basics

  /** One edit, applied at an index of the current text. */
  datatype Edit<T> =
    | Insert(at: nat, item: T)
    | Delete(at: nat)
    | Substitute(at: nat, item: T)
  {
    predicate Fits(s: seq<T>) {
      match this
      case Insert(at, _) => at <= |s|
      case Delete(at) => at < |s|
      case Substitute(at, _) => at < |s|
    }

    function Apply(s: seq<T>): seq<T>
      requires Fits(s)
    {
      match this
      case Insert(at, item) => s[..at] + [item] + s[at..]
      case Delete(at) => s[..at] + s[at + 1..]
      case Substitute(at, item) => s[..at] + [item] + s[at + 1..]
    }
  }

  /** The edits of `script`, applied in order, turn `s` into `t`. */
  predicate Turns<T(==)>(s: seq<T>, script: seq<Edit<T>>, t: seq<T>)
    decreases |script|
  {
    if script == [] then s == t
    else script[0].Fits(s) && Turns(script[0].Apply(s), script[1..], t)
  }

  /** The recurrence of the matrix, on the last elements of the two texts. */
  function Distance<T(==)>(s: seq<T>, t: seq<T>): nat
    decreases |s| + |t|
  {
    if |s| == 0 then |t|
    else if |t| == 0 then |s|
    else
      var s', t' := s[..|s| - 1], t[..|t| - 1];
      var cost := if s[|s| - 1] == t[|t| - 1] then 0 else 1;
      Min(Min(Distance(s', t) + 1, Distance(s, t') + 1), Distance(s', t') + cost)
  }

  // ---------- A script of that length exists ----------

  lemma TurnsNothing<T>(s: seq<T>, t: seq<T>)
    ensures Turns(s, [], t) <==> s == t
  {
  }

  lemma TurnsFirst<T>(s: seq<T>, e: Edit<T>, p: seq<Edit<T>>, t: seq<T>)
    ensures Turns(s, [e] + p, t) <==> e.Fits(s) && Turns(e.Apply(s), p, t)
  {
    assert ([e] + p)[1..] == p;
  }

  /** Running two scripts one after the other. */
  lemma {:induction false} TurnsConcat<T>(s: seq<T>, p: seq<Edit<T>>, t: seq<T>, q: seq<Edit<T>>, u: seq<T>)
    requires Turns(s, p, t) && Turns(t, q, u)
    ensures Turns(s, p + q, u)
    decreases |p|
  {
    hide Turns;
    if p == [] {
      TurnsNothing(s, t);
      assert p + q == q;
    } else {
      var e, rest := p[0], p[1..];
      assert p == [e] + rest;
      TurnsFirst(s, e, rest, t);
      TurnsConcat(e.Apply(s), rest, t, q, u);
      assert p + q == [e] + (rest + q);
      TurnsFirst(s, e, rest + q, u);
    }
  }

  lemma ApplyUnderSuffix<T>(e: Edit<T>, s: seq<T>, c: T)
    requires e.Fits(s)
    ensures e.Fits(s + [c]) && e.Apply(s + [c]) == e.Apply(s) + [c]
  {
    match e
    case Insert(at, _) => assert (s + [c])[at..] == s[at..] + [c];
    case Delete(at) => assert (s + [c])[at + 1..] == s[at + 1..] + [c];
    case Substitute(at, _) => assert (s + [c])[at + 1..] == s[at + 1..] + [c];
  }

  /** A script keeps working when the text carries one more element at its end. */
  lemma {:induction false} TurnsUnderSuffix<T>(s: seq<T>, p: seq<Edit<T>>, t: seq<T>, c: T)
    requires Turns(s, p, t)
    ensures Turns(s + [c], p, t + [c])
    decreases |p|
  {
    if p != [] {
      var e := p[0];
      TurnsUnderSuffix(e.Apply(s), p[1..], t, c);
      ApplyUnderSuffix(e, s, c);
    }
  }

  lemma TurnsLast<T>(s: seq<T>, p: seq<Edit<T>>, t: seq<T>, e: Edit<T>)
    requires Turns(s, p, t) && e.Fits(t)
    ensures Turns(s, p + [e], e.Apply(t))
  {
    assert Turns(e.Apply(t), [], e.Apply(t));
    TurnsFirst(t, e, [], e.Apply(t));
    assert [e] + [] == [e];
    TurnsConcat(s, p, t, [e], e.Apply(t));
  }

  lemma SubstituteLast<T>(s: seq<T>, c: T)
    requires |s| > 0
    ensures Substitute(|s| - 1, c).Apply(s) == s[..|s| - 1] + [c]
  {
  }

  lemma DeleteLast<T>(s: seq<T>)
    requires |s| > 0
    ensures Edit<T>.Delete(|s| - 1).Apply(s) == s[..|s| - 1]
  {
  }

  lemma InsertLast<T>(t: seq<T>)
    requires |t| > 0
    ensures Insert(|t| - 1, t[|t| - 1]).Apply(t[..|t| - 1]) == t
  {
  }

  /** A shortest script, read off the recurrence. */
  lemma {:induction false} ShortestScript<T>(s: seq<T>, t: seq<T>) returns (p: seq<Edit<T>>)
    ensures Turns(s, p, t)
    ensures |p| == Distance(s, t)
    decreases |s| + |t|
  {
    if |s| == 0 && |t| == 0 {
      p := [];
    } else if |s| == 0 {
      p := AppendLast(s, t);
    } else if |t| == 0 {
      p := DropLast(s, t);
    } else {
      var s', t' := s[..|s| - 1], t[..|t| - 1];
      if Distance(s, t) == Distance(s', t) + 1 {
        p := DropLast(s, t);
      } else if Distance(s, t) == Distance(s, t') + 1 {
        p := AppendLast(s, t);
      } else {
        p := MatchLast(s, t);
      }
    }
  }

  /** A script between two texts also serves when both are followed by the same element. */
  lemma MatchSame<T>(s: seq<T>, q: seq<Edit<T>>, t: seq<T>)
    requires |s| > 0 && |t| > 0 && s[|s| - 1] == t[|t| - 1] && Turns(s[..|s| - 1], q, t[..|t| - 1])
    ensures Turns(s, q, t)
  {
    hide Turns;
    TurnsUnderSuffix(s[..|s| - 1], q, t[..|t| - 1], t[|t| - 1]);
    assert s == s[..|s| - 1] + [s[|s| - 1]] && t == t[..|t| - 1] + [t[|t| - 1]];
  }

  /** Otherwise the last element is substituted first. */
  lemma MatchOther<T>(s: seq<T>, q: seq<Edit<T>>, t: seq<T>)
    requires |s| > 0 && |t| > 0 && Turns(s[..|s| - 1], q, t[..|t| - 1])
    ensures Turns(s, [Substitute(|s| - 1, t[|t| - 1])] + q, t)
  {
    hide Turns;
    var c := t[|t| - 1];
    TurnsUnderSuffix(s[..|s| - 1], q, t[..|t| - 1], c);
    assert t == t[..|t| - 1] + [c];
    SubstituteLast(s, c);
    TurnsFirst(s, Substitute(|s| - 1, c), q, t);
  }

  lemma {:induction false} MatchLast<T>(s: seq<T>, t: seq<T>) returns (p: seq<Edit<T>>)
    requires |s| > 0 && |t| > 0
    ensures Turns(s, p, t)
    ensures |p| == Distance(s[..|s| - 1], t[..|t| - 1]) + if s[|s| - 1] == t[|t| - 1] then 0 else 1
    decreases |s| + |t|, 0
  {
    hide Turns, Distance;
    p := ShortestScript(s[..|s| - 1], t[..|t| - 1]);
    if s[|s| - 1] == t[|t| - 1] {
      MatchSame(s, p, t);
    } else {
      MatchOther(s, p, t);
      p := [Substitute(|s| - 1, t[|t| - 1])] + p;
    }
  }

  lemma {:induction false} DropLast<T>(s: seq<T>, t: seq<T>) returns (p: seq<Edit<T>>)
    requires |s| > 0
    ensures Turns(s, p, t)
    ensures |p| == Distance(s[..|s| - 1], t) + 1
    decreases |s| + |t|, 0
  {
    var s' := s[..|s| - 1];
    var q := ShortestScript(s', t);
    var e := Edit<T>.Delete(|s| - 1);
    DeleteLast(s);
    TurnsFirst(s, e, q, t);
    p := [e] + q;
  }

  lemma {:induction false} AppendLast<T>(s: seq<T>, t: seq<T>) returns (p: seq<Edit<T>>)
    requires |t| > 0
    ensures Turns(s, p, t)
    ensures |p| == Distance(s, t[..|t| - 1]) + 1
    decreases |s| + |t|, 0
  {
    var t' := t[..|t| - 1];
    var q := ShortestScript(s, t');
    var e := Insert(|t| - 1, t[|t| - 1]);
    InsertLast(t);
    TurnsLast(s, q, t', e);
    p := q + [e];
  }

  // ---------- No shorter script exists ----------

  /** Dropping the last element of the first text changes the distance by at most one. */
  lemma {:induction false} LastStep<T>(s: seq<T>, b: seq<T>)
    requires |s| > 0
    ensures Distance(s[..|s| - 1], b) <= Distance(s, b) + 1
    ensures Distance(s, b) <= Distance(s[..|s| - 1], b) + 1
    decreases |b|
  {
    if |b| > 0 {
      LastStep(s, b[..|b| - 1]);
    }
  }

  /** Replacing the last element of the first text changes the distance by at most one. */
  lemma {:induction false} ReplaceLastStep<T>(s: seq<T>, c: T, b: seq<T>)
    requires |s| > 0
    ensures Distance(s, b) <= Distance(s[..|s| - 1] + [c], b) + 1
    decreases |b|
  {
    var v := s[..|s| - 1] + [c];
    assert v[..|v| - 1] == s[..|s| - 1];
    if |b| > 0 {
      ReplaceLastStep(s, c, b[..|b| - 1]);
    }
  }

  /** `x` and `y` differ in their last element only, or one is the other with one more element. */
  ghost predicate OneEditApart<T>(x: seq<T>, y: seq<T>) {
    || (|x| > 0 && x[..|x| - 1] == y)
    || (|y| > 0 && y[..|y| - 1] == x)
    || (|x| > 0 && |y| > 0 && x[..|x| - 1] == y[..|y| - 1])
  }

  /** One edit at the end changes the distance by at most one. */
  lemma EditAtTheEnd<T>(x: seq<T>, y: seq<T>, b: seq<T>)
    requires OneEditApart(x, y)
    ensures Distance(x, b) <= Distance(y, b) + 1
  {
    hide Distance;
    if |x| > 0 && x[..|x| - 1] == y {
      LastStep(x, b);
    } else if |y| > 0 && y[..|y| - 1] == x {
      LastStep(y, b);
    } else {
      ReplaceLastStep(x, y[|y| - 1], b);
      assert x[..|x| - 1] + [y[|y| - 1]] == y;
    }
  }

  /** The distance between an empty text and another. */
  lemma DistanceOfEmpty<T>(s: seq<T>)
    ensures Distance(s, []) == |s|
  {
  }

  /** One edit in front of a common suffix changes the distance by at most one. */
  lemma {:induction false} EditUnderSuffix<T>(x: seq<T>, y: seq<T>, w: seq<T>, b: seq<T>)
    requires OneEditApart(x, y)
    ensures Distance(x + w, b) <= Distance(y + w, b) + 1
    decreases |w| + |b|
  {
    hide Distance;
    if |w| == 0 {
      assert x + w == x && y + w == y;
      EditAtTheEnd(x, y, b);
    } else if |b| == 0 {
      assert b == [] && |x| <= |y| + 1;
      DistanceOfEmpty(x + w);
      DistanceOfEmpty(y + w);
    } else {
      hide OneEditApart;
      var w' := w[..|w| - 1];
      EditUnderSuffix(x, y, w', b);
      EditUnderSuffix(x, y, w, b[..|b| - 1]);
      EditUnderSuffix(x, y, w', b[..|b| - 1]);
      SuffixParts(x, w);
      SuffixParts(y, w);
      SameLastStep(x + w, y + w, b);
    }
  }

  lemma SuffixParts<T>(x: seq<T>, w: seq<T>)
    requires |w| > 0
    ensures |x + w| > 0 && (x + w)[..|x + w| - 1] == x + w[..|w| - 1]
    ensures (x + w)[|x + w| - 1] == w[|w| - 1]
  {
  }

  /** The recurrence, for two texts that are not empty. */
  lemma {:induction false} Recurrence<T>(s: seq<T>, t: seq<T>)
    requires |s| > 0 && |t| > 0
    ensures Distance(s, t) ==
            Min(Min(Distance(s[..|s| - 1], t) + 1, Distance(s, t[..|t| - 1]) + 1),
                Distance(s[..|s| - 1], t[..|t| - 1]) + if s[|s| - 1] == t[|t| - 1] then 0 else 1)
  {
  }

  /** The recurrence keeps a gap of one, when the last elements are the same. */
  lemma SameLastStep<T>(u: seq<T>, v: seq<T>, b: seq<T>)
    requires |u| > 0 && |v| > 0 && |b| > 0 && u[|u| - 1] == v[|v| - 1]
    requires Distance(u[..|u| - 1], b) <= Distance(v[..|v| - 1], b) + 1
    requires Distance(u, b[..|b| - 1]) <= Distance(v, b[..|b| - 1]) + 1
    requires Distance(u[..|u| - 1], b[..|b| - 1]) <= Distance(v[..|v| - 1], b[..|b| - 1]) + 1
    ensures Distance(u, b) <= Distance(v, b) + 1
  {
    hide Distance;
    Recurrence(u, b);
    Recurrence(v, b);
  }

  /** One edit saves at most one unit of distance. */
  lemma EditStep<T>(s: seq<T>, e: Edit<T>, b: seq<T>)
    requires e.Fits(s)
    ensures Distance(s, b) <= Distance(e.Apply(s), b) + 1
  {
    var x, y, w;
    match e {
      case Insert(at, c) => x, y, w := s[..at], s[..at] + [c], s[at..];
      case Delete(at) => x, y, w := s[..at + 1], s[..at], s[at + 1..];
      case Substitute(at, c) => x, y, w := s[..at + 1], s[..at] + [c], s[at + 1..];
    }
    assert s == x + w;
    assert e.Apply(s) == y + w;
    assert OneEditApart(x, y) by {
      match e {
        case Insert(at, c) => assert y[..|y| - 1] == x;
        case Delete(at) => assert x[..|x| - 1] == y;
        case Substitute(at, c) => assert x[..|x| - 1] == y[..|y| - 1];
      }
    }
    EditUnderSuffix(x, y, w, b);
  }

  lemma {:induction false} DistanceToItself<T>(s: seq<T>)
    ensures Distance(s, s) == 0
    decreases |s|
  {
    if |s| > 0 {
      DistanceToItself(s[..|s| - 1]);
    }
  }

  /** No script is shorter than the distance. */
  lemma {:induction false} NoShorterScript<T>(s: seq<T>, p: seq<Edit<T>>, t: seq<T>)
    requires Turns(s, p, t)
    ensures Distance(s, t) <= |p|
    decreases |p|
  {
    if p == [] {
      DistanceToItself(s);
    } else {
      NoShorterScript(p[0].Apply(s), p[1..], t);
      EditStep(s, p[0], t);
    }
  }

  /** `d` is the length of a shortest script from `s` to `t`. */
  ghost predicate IsShortest<T(!new)>(s: seq<T>, t: seq<T>, d: nat) {
    && (exists p :: Turns(s, p, t) && |p| == d)
    && (forall p :: Turns(s, p, t) ==> d <= |p|)
  }

  /** The recurrence computes the length of a shortest edit script, and nothing else does. */
  lemma DistanceIsShortest<T(!new)>(s: seq<T>, t: seq<T>, d: nat)
    ensures IsShortest(s, t, d) <==> d == Distance(s, t)
  {
    var p := ShortestScript(s, t);
    forall q | Turns(s, q, t) ensures Distance(s, t) <= |q| {
      NoShorterScript(s, q, t);
    }
  }

  // ---------- The distance is a metric ----------

  lemma {:induction false} DistanceZero<T>(s: seq<T>, t: seq<T>)
    ensures Distance(s, t) == 0 <==> s == t
  {
    if s == t {
      DistanceToItself(s);
    } else {
      var p := ShortestScript(s, t);
      assert p != [];
    }
  }

  lemma {:induction false} DistanceSymmetric<T>(s: seq<T>, t: seq<T>)
    ensures Distance(s, t) == Distance(t, s)
    decreases |s| + |t|
  {
    if |s| > 0 && |t| > 0 {
      DistanceSymmetric(s[..|s| - 1], t);
      DistanceSymmetric(s, t[..|t| - 1]);
      DistanceSymmetric(s[..|s| - 1], t[..|t| - 1]);
    }
  }

  lemma {:induction false} DistanceTriangle<T>(s: seq<T>, t: seq<T>, u: seq<T>)
    ensures Distance(s, u) <= Distance(s, t) + Distance(t, u)
  {
    var p := ShortestScript(s, t);
    var q := ShortestScript(t, u);
    TurnsConcat(s, p, t, q, u);
    NoShorterScript(s, p + q, u);
  }

  lemma {:induction false} DistanceBounds<T>(s: seq<T>, t: seq<T>)
    ensures Max(|s| - |t|, |t| - |s|) <= Distance(s, t) <= Max(|s|, |t|)
    decreases |s| + |t|
  {
    if |s| > 0 && |t| > 0 {
      DistanceBounds(s[..|s| - 1], t);
      DistanceBounds(s, t[..|t| - 1]);
      DistanceBounds(s[..|s| - 1], t[..|t| - 1]);
    }
  }

  // ---------- The matrix ----------

  /** One cell of the recurrence, in terms of prefixes. */
  lemma CellStep<T>(s: seq<T>, t: seq<T>, i: nat, j: nat)
    requires 1 <= i <= |s| && 1 <= j <= |t|
    ensures Distance(s[..i], t[..j]) ==
            Min(Min(Distance(s[..i - 1], t[..j]) + 1, Distance(s[..i], t[..j - 1]) + 1),
                Distance(s[..i - 1], t[..j - 1]) + if s[i - 1] == t[j - 1] then 0 else 1)
  {
    assert s[..i][..i - 1] == s[..i - 1];
    assert t[..j][..j - 1] == t[..j - 1];
  }

  lemma DistanceToEmpty<T>(s: seq<T>, t: seq<T>)
    ensures forall i | 0 <= i <= |s| :: Distance(s[..i], t[..0]) == i
    ensures forall j | 0 <= j <= |t| :: Distance(s[..0], t[..j]) == j
  {
  }

  lemma MatrixIsShortest<T(!new)>(s: seq<T>, t: seq<T>)
    ensures forall i, j | 0 <= i <= |s| && 0 <= j <= |t| ::
              IsShortest(s[..i], t[..j], Distance(s[..i], t[..j]))
  {
    forall i, j | 0 <= i <= |s| && 0 <= j <= |t|
      ensures IsShortest(s[..i], t[..j], Distance(s[..i], t[..j]))
    {
      DistanceIsShortest(s[..i], t[..j], Distance(s[..i], t[..j]));
    }
  }

  /**
    The matrix of `calculateLevenshteinSimilarity`, filled in place: every cell ends up as the
    length of a shortest script between the two prefixes it stands for.
   */
  method FillMatrix<T(==, !new)>(s: seq<T>, t: seq<T>) returns (d: array2<int>)
    ensures fresh(d) && d.Length0 == |s| + 1 && d.Length1 == |t| + 1
    ensures forall i, j | 0 <= i <= |s| && 0 <= j <= |t| ::
              d[i, j] >= 0 && IsShortest(s[..i], t[..j], d[i, j])
  {
    hide Distance;
    hide IsShortest;
    var m, n := |s|, |t|;
    d := new int[m + 1, n + 1]((i, j) => 0);
    for i := 0 to m + 1
      invariant forall k | 0 <= k < i :: d[k, 0] == k
    {
      d[i, 0] := i;
    }
    for j := 0 to n + 1
      invariant forall k | 0 <= k <= m :: d[k, 0] == k
      invariant forall k | 0 <= k < j :: d[0, k] == k
    {
      d[0, j] := j;
    }
    DistanceToEmpty(s, t);
    for i := 1 to m + 1
      invariant forall k | 0 <= k <= m :: d[k, 0] == k
      invariant forall k, l | 0 <= k < i && 0 <= l <= n :: d[k, l] == Distance(s[..k], t[..l])
    {
      for j := 1 to n + 1
        invariant forall k | 0 <= k <= m :: d[k, 0] == k
        invariant forall k, l | 0 <= k < i && 0 <= l <= n :: d[k, l] == Distance(s[..k], t[..l])
        invariant forall l | 0 <= l < j :: d[i, l] == Distance(s[..i], t[..l])
      {
        var cost := if s[i - 1] == t[j - 1] then 0 else 1;
        CellStep(s, t, i, j);
        d[i, j] := Min(Min(d[i - 1, j] + 1, d[i, j - 1] + 1), d[i - 1, j - 1] + cost);
      }
    }
    MatrixIsShortest(s, t);
  }
}
