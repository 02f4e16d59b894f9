/**
  The bigram counting behind `calculateDiceSimilarity`: what the loops over the count maps
  compute, and the q-gram lemma that ties it to the edit distance.
 */
module Bigrams {

  import opened Basics
  import opened EditDistance

  /** The adjacent pairs of a text, with multiplicity. */
  function BigramsOf<T(==)>(s: seq<T>): multiset<seq<T>> {
    if |s| < 2 then multiset{}
    else BigramsOf(s[..|s| - 1]) + multiset{[s[|s| - 2], s[|s| - 1]]}
  }

  lemma {:induction false} BigramsArePairs<T>(s: seq<T>)
    ensures |s| >= 2 ==> BigramsOf(s) == multiset(seq(|s| - 1, i requires 0 <= i < |s| - 1 => [s[i], s[i + 1]]))
  {
    if |s| >= 2 {
      var before := s[..|s| - 1];
      BigramsArePairs(before);
      var pairs := seq(|s| - 1, i requires 0 <= i < |s| - 1 => [s[i], s[i + 1]]);
      assert pairs == pairs[..|s| - 2] + [[s[|s| - 2], s[|s| - 1]]];
      assert pairs[..|s| - 2] == if |s| == 2 then [] else seq(|before| - 1, i requires 0 <= i < |before| - 1 => [before[i], before[i + 1]]);
    }
  }

  /** How many bigrams two texts share. */
  function Shared<T(==)>(s: seq<T>, t: seq<T>): nat {
    |BigramsOf(s) * BigramsOf(t)|
  }

  // ---------- Cardinalities of multisets ----------

  lemma CardMonotone<X>(a: multiset<X>, b: multiset<X>)
    requires a <= b
    ensures |b - a| == |b| - |a|
  {
    assert b == a + (b - a);
  }

  lemma CardSplit<X>(a: multiset<X>, b: multiset<X>)
    ensures |a * b| == |a| - |a - b|
    ensures a * b == b * a
  {
    assert a == (a * b) + (a - b);
  }

  lemma CardTriangle<X>(a: multiset<X>, b: multiset<X>, c: multiset<X>)
    ensures |a - c| <= |a - b| + |b - c|
  {
    assert a - c <= (a - b) + (b - c);
    CardMonotone(a - c, (a - b) + (b - c));
  }

  // ---------- Bigrams of a concatenation ----------

  lemma {:induction false} BigramCount<T>(s: seq<T>)
    ensures |BigramsOf(s)| == Max(|s| - 1, 0)
    decreases |s|
  {
    if |s| >= 2 {
      BigramCount(s[..|s| - 1]);
    }
  }

  /** The bigram gained by appending `c` to `s`: none when `s` is empty. */
  function Gained<T(==)>(s: seq<T>, c: T): multiset<seq<T>> {
    if s == [] then multiset{} else multiset{[s[|s| - 1], c]}
  }

  lemma BigramsOfSnoc<T>(s: seq<T>, c: T)
    ensures BigramsOf(s + [c]) == BigramsOf(s) + Gained(s, c)
  {
    var t := s + [c];
    assert t[..|t| - 1] == s;
    if s != [] {
      assert t[|t| - 2] == s[|s| - 1] && t[|t| - 1] == c;
    }
  }

  lemma SumMonotone<X>(a: multiset<X>, b: multiset<X>, c: multiset<X>, g: multiset<X>, h: multiset<X>)
    requires a + b <= c && g <= h
    ensures a + (b + g) <= c + h
  {
  }

  lemma BigramsOfShort<T>(s: seq<T>)
    requires |s| < 2
    ensures BigramsOf(s) == multiset{}
  {
  }

  lemma GainedAfterPrefix<T>(p: seq<T>, q: seq<T>, c: T)
    ensures Gained(q, c) <= Gained(p + q, c)
  {
    if q != [] {
      assert (p + q)[|p + q| - 1] == q[|q| - 1];
    }
  }

  lemma {:induction false} ConcatStep<T>(p: seq<T>, q: seq<T>, c: T, q': seq<T>)
    requires q' == q + [c]
    requires BigramsOf(p) + BigramsOf(q) <= BigramsOf(p + q)
    ensures BigramsOf(p) + BigramsOf(q') <= BigramsOf(p + q')
  {
    hide BigramsOf;
    BigramsOfSnoc(q, c);
    BigramsOfSnoc(p + q, c);
    assert p + q' == p + q + [c];
    GainedAfterPrefix(p, q, c);
    SumMonotone(BigramsOf(p), BigramsOf(q), BigramsOf(p + q), Gained(q, c), Gained(p + q, c));
  }

  lemma {:induction false} BigramsOfConcat<T>(p: seq<T>, q: seq<T>)
    ensures BigramsOf(p) + BigramsOf(q) <= BigramsOf(p + q)
    decreases |q|
  {
    hide BigramsOf;
    if |q| == 0 {
      assert p + q == p;
      BigramsOfShort(q);
    } else {
      BigramsOfConcat(p, q[..|q| - 1]);
      ConcatStep(p, q[..|q| - 1], q[|q| - 1], q);
    }
  }

  /** What survives when the part between `p` and `q` is replaced by at most one element. */
  lemma BigramsAround<T>(p: seq<T>, m: seq<T>, q: seq<T>)
    requires |m| <= 1
    ensures BigramsOf(p) + BigramsOf(q) <= BigramsOf(p + m + q)
    ensures |BigramsOf(p + m + q)| <= |BigramsOf(p) + BigramsOf(q)| + 1 + |m|
  {
    hide BigramsOf;
    BigramsOfConcat(m, q);
    BigramsOfConcat(p, m + q);
    assert p + m + q == p + (m + q);
    BigramCount(p);
    BigramCount(q);
    BigramCount(p + m + q);
  }

  // ---------- The q-gram lemma ----------

  /** An edit replaces at most one element by at most one element. */
  lemma EditShape<T>(s: seq<T>, e: Edit<T>) returns (p: seq<T>, m: seq<T>, m': seq<T>, q: seq<T>)
    requires e.Fits(s)
    ensures |m| <= 1 && |m'| <= 1
    ensures s == p + m + q && e.Apply(s) == p + m' + q
  {
    p := s[..e.at];
    match e {
      case Insert(at, c) => m, m', q := [], [c], s[at..];
      case Delete(at) => m, m', q := [s[at]], [], s[at + 1..];
      case Substitute(at, c) => m, m', q := [s[at]], [c], s[at + 1..];
    }
  }

  /** One edit destroys at most two bigrams. */
  lemma {:induction false} EditLoss<T>(s: seq<T>, e: Edit<T>)
    requires e.Fits(s)
    ensures |BigramsOf(s) - BigramsOf(e.Apply(s))| <= 2
  {
    hide BigramsOf;
    var p, m, m', q := EditShape(s, e);
    BigramsAround(p, m, q);
    BigramsAround(p, m', q);
    var kept := BigramsOf(p) + BigramsOf(q);
    CardMonotone(kept, BigramsOf(s));
    CardMonotone(BigramsOf(s) - BigramsOf(e.Apply(s)), BigramsOf(s) - kept);
  }

  /** A script of k edits destroys at most 2k bigrams. */
  lemma {:induction false} ScriptLoss<T>(s: seq<T>, p: seq<Edit<T>>, t: seq<T>)
    requires Turns(s, p, t)
    ensures |BigramsOf(s) - BigramsOf(t)| <= 2 * |p|
    decreases |p|
  {
    if p == [] {
      assert BigramsOf(s) - BigramsOf(t) == multiset{};
    } else {
      var s' := p[0].Apply(s);
      EditLoss(s, p[0]);
      ScriptLoss(s', p[1..], t);
      CardTriangle(BigramsOf(s), BigramsOf(s'), BigramsOf(t));
    }
  }

  /** The q-gram lemma: texts within d edits share all but 2d of the bigrams of either text. */
  lemma QGramLemma<T>(s: seq<T>, t: seq<T>)
    ensures Shared(s, t) >= Max(|s|, |t|) - 1 - 2 * Distance(s, t)
  {
    var p := ShortestScript(s, t);
    ScriptLoss(s, p, t);
    CardSplit(BigramsOf(s), BigramsOf(t));
    BigramCount(s);
    var q := ShortestScript(t, s);
    DistanceSymmetric(s, t);
    ScriptLoss(t, q, s);
    CardSplit(BigramsOf(t), BigramsOf(s));
    BigramCount(t);
  }

  // ---------- The counting loops ----------

  /** `counts` is the map from bigrams to their number of occurrences in `b`. */
  ghost predicate CountsOf<X(!new)>(counts: map<X, nat>, b: multiset<X>) {
    && (forall g :: g in counts <==> g in b)
    && (forall g | g in counts :: counts[g] == b[g])
  }

  /** `getBigrams`: one pass over the text, incrementing the count of each slice. */
  method CountBigrams<T(==, !new)>(s: seq<T>) returns (bigrams: map<seq<T>, nat>)
    ensures CountsOf(bigrams, BigramsOf(s))
  {
    hide BigramsOf;
    bigrams := map[];
    var i := 0;
    BigramsOfShort(s[..Min(|s|, 1)]);
    while i < |s| - 1
      invariant 0 <= i <= Max(|s| - 1, 0)
      invariant CountsOf(bigrams, BigramsOf(s[..Min(|s|, i + 1)]))
    {
      var bigram := s[i..i + 2];
      CountOneMore(bigrams, BigramsOf(s[..i + 1]), bigram);
      BigramsOfSnoc(s[..i + 1], s[i + 1]);
      assert s[..i + 1] + [s[i + 1]] == s[..i + 2];
      assert bigram == [s[i], s[i + 1]];
      bigrams := bigrams[bigram := (if bigram in bigrams then bigrams[bigram] else 0) + 1];
      i := i + 1;
    }
    assert s[..Min(|s|, i + 1)] == s;
  }

  lemma CountOneMore<X(!new)>(counts: map<X, nat>, b: multiset<X>, g: X)
    requires CountsOf(counts, b)
    ensures CountsOf(counts[g := (if g in counts then counts[g] else 0) + 1], b + multiset{g})
  {
  }

  /** The loop over the entries of the first map: it adds up the shared occurrences. */
  method CountShared<X(==, !new)>(b1: map<X, nat>, b2: map<X, nat>, ghost m1: multiset<X>, ghost m2: multiset<X>)
    returns (intersection: nat)
    requires CountsOf(b1, m1) && CountsOf(b2, m2)
    ensures intersection == |m1 * m2|
  {
    intersection := 0;
    var rest := b1.Keys;
    ghost var seen: multiset<X> := multiset{};
    while rest != {}
      invariant rest <= b1.Keys
      invariant intersection == |seen|
      invariant forall g :: seen[g] == if g in b1 && g !in rest then (m1 * m2)[g] else 0
    {
      var bigram :| bigram in rest;
      rest := rest - {bigram};
      if bigram in b2 {
        var shared := if b1[bigram] < b2[bigram] then b1[bigram] else b2[bigram];
        intersection := intersection + shared;
        seen := seen[bigram := shared];
      }
    }
    assert seen == m1 * m2;
  }
}
