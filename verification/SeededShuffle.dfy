/**
  `seededShuffle`: a Fisher-Yates shuffle driven by a 32-bit string hash and a linear
  congruential generator, and the pagination of its result.
 */
module SeededShuffle {

  import opened Basics

  /** A UTF-16 code unit, as `charCodeAt` returns it. */
  type CodeUnit = x: int | 0 <= x < 0x1_0000

  // ---------- The hash ----------

  /** The conversion to a signed 32-bit integer that `<<` and `|` perform. */
  function ToInt32(x: int): (r: int)
    ensures -0x8000_0000 <= r < 0x8000_0000
  {
    (x + 0x8000_0000) % 0x1_0000_0000 - 0x8000_0000
  }

  /** One round of the hash loop: `(hash << 5) - hash + code`, then `| 0`. */
  function HashRound(hash: int, code: CodeUnit): int {
    ToInt32(ToInt32(hash * 32) - hash + code)
  }

  /** The base-31 polynomial of the seed, over the integers. */
  function Polynomial(seed: seq<CodeUnit>): nat {
    if seed == [] then 0 else 31 * Polynomial(seed[..|seed| - 1]) + seed[|seed| - 1]
  }

  /** Numbers that differ by a multiple of 2^32 convert to the same value. */
  lemma SameInt32(x: int, y: int, k: int)
    requires x == y + k * 0x1_0000_0000
    ensures ToInt32(x) == ToInt32(y)
  {
  }

  lemma Int32Quotient(x: int) returns (k: int)
    ensures ToInt32(x) == x + k * 0x1_0000_0000
  {
    k := -((x + 0x8000_0000) / 0x1_0000_0000);
  }

  lemma HashRoundIsPolynomial(p: int, code: CodeUnit)
    ensures HashRound(ToInt32(p), code) == ToInt32(31 * p + code)
  {
    var k := Int32Quotient(p);
    var hash := ToInt32(p);
    var l := Int32Quotient(hash * 32);
    SameInt32(ToInt32(hash * 32) - hash + code, 31 * p + code, 31 * k + l);
  }

  lemma PolynomialSnoc(seed: seq<CodeUnit>, i: nat)
    requires i < |seed|
    ensures Polynomial(seed[..i + 1]) == 31 * Polynomial(seed[..i]) + seed[i]
  {
    assert seed[..i + 1][..i] == seed[..i];
  }

  method Hash(seed: seq<CodeUnit>) returns (hash: int)
    ensures hash == ToInt32(Polynomial(seed))
  {
    hash := 0;
    assert Polynomial(seed[..0]) == 0 && ToInt32(0) == 0;
    hide ToInt32, Polynomial;
    for i := 0 to |seed|
      invariant hash == ToInt32(Polynomial(seed[..i]))
    {
      HashRoundIsPolynomial(Polynomial(seed[..i]), seed[i]);
      PolynomialSnoc(seed, i);
      hash := ToInt32(hash * 32) - hash + seed[i];
      hash := ToInt32(hash);
    }
    assert seed[..|seed|] == seed;
  }

  // ---------- The generator ----------

  /** JavaScript's `%`: the sign of the remainder is the sign of the dividend. */
  function Remainder(a: int, b: int): int
    requires b > 0
  {
    if a >= 0 then a % b else -(-a % b)
  }

  function Abs(x: int): nat {
    if x < 0 then -x else x
  }

  /** One call of `random`, as the new value of `hash`. */
  function Advance(hash: int): int {
    Remainder(hash * 9301 + 49297, 233280)
  }

  /** `Math.floor(Math.abs(random()) * (i + 1))`, with `hash` already advanced. */
  function SwapIndex(hash: int, i: nat): int {
    (Abs(hash) as real / 233280.0 * (i + 1) as real).Floor
  }

  /** A value the hash may have: any 32-bit integer at first, smaller than the modulus later. */
  ghost predicate IsSeed(hash: int) {
    -0x8000_0000 <= hash < 0x8000_0000
  }

  /** No product leaves the integers that a double represents exactly, and the generator stays small. */
  lemma GeneratorIsExact(hash: int)
    requires IsSeed(hash)
    ensures Abs(hash * 9301 + 49297) < 0x20_0000_0000_0000
    ensures Abs(Advance(hash)) < 233280 && IsSeed(Advance(hash))
  {
  }

  lemma LessThanAll(x: real, n: real)
    requires 0.0 <= x < 1.0 && n > 0.0
    ensures 0.0 <= x * n < n
  {
  }

  lemma SwapIndexInRange(hash: int, i: nat)
    requires Abs(hash) < 233280
    ensures 0 <= SwapIndex(hash, i) <= i
  {
    var x := Abs(hash) as real / 233280.0;
    var n := (i + 1) as real;
    assert 0.0 <= x < 1.0;
    assert n >= 1.0;
    LessThanAll(x, n);
    FloorBelow(x * n, i + 1);
  }

  lemma FloorBelow(y: real, n: nat)
    requires 0.0 <= y < n as real
    ensures 0 <= y.Floor < n
  {
    assert y.Floor as real < n as real;
  }

  /** `next` is the value after `hash`: congruent to 9301 hash + 49297 modulo 233280, with its sign. */
  ghost predicate Follows(hash: int, next: int) {
    && -233280 < next < 233280
    && (hash * 9301 + 49297 >= 0 ==> next >= 0)
    && (hash * 9301 + 49297 <= 0 ==> next <= 0)
    && exists q: int :: hash * 9301 + 49297 == 233280 * q + next
  }

  lemma AdvanceFollows(hash: int)
    ensures Follows(hash, Advance(hash))
  {
    var n := hash * 9301 + 49297;
    if n >= 0 {
      assert n == 233280 * (n / 233280) + n % 233280;
    } else {
      assert -n == 233280 * (-n / 233280) + -n % 233280;
      assert n == 233280 * -(-n / 233280) + Advance(hash);
    }
  }

  /** Only one value follows another. */
  lemma FollowerIsUnique(hash: int, next: int, other: int)
    requires Follows(hash, next) && Follows(hash, other)
    ensures next == other
  {
    var p: int :| hash * 9301 + 49297 == 233280 * p + next;
    var q: int :| hash * 9301 + 49297 == 233280 * q + other;
    assert 233280 * (p - q) == other - next;
  }

  /** `j` is the position that the value `next` picks among 0..i. */
  ghost predicate Picks(next: int, i: nat, j: int) {
    j * 233280 <= (if next < 0 then -next else next) * (i + 1) < (j + 1) * 233280
  }

  lemma SwapIndexPicks(hash: int, i: nat)
    ensures Picks(hash, i, SwapIndex(hash, i))
  {
    var a, j := Abs(hash), SwapIndex(hash, i);
    var x := a as real / 233280.0 * (i + 1) as real;
    assert a as real / 233280.0 * 233280.0 == a as real;
    assert x * 233280.0 == a as real * (i + 1) as real;
    assert a as real * (i + 1) as real == (a * (i + 1)) as real;
    assert j as real <= x < (j + 1) as real;
    assert (j * 233280) as real <= (a * (i + 1)) as real < ((j + 1) * 233280) as real;
  }

  // ---------- The shuffle ----------

  function Swapped<T>(s: seq<T>, i: nat, j: nat): seq<T>
    requires i < |s| && j < |s|
  {
    s[i := s[j]][j := s[i]]
  }

  /** The swaps from index `i` down to 1. */
  function ShuffleFrom<T>(s: seq<T>, hash: int, i: int): (r: seq<T>)
    requires i < |s| && IsSeed(hash)
    ensures |r| == |s|
    decreases i
  {
    if i <= 0 then s
    else
      GeneratorIsExact(hash);
      var next := Advance(hash);
      SwapIndexInRange(next, i);
      ShuffleFrom(Swapped(s, i, SwapIndex(next, i)), next, i - 1)
  }

  /** The order in which the service lists `s` for a seed. */
  function Shuffled<T>(s: seq<T>, seed: seq<CodeUnit>): (r: seq<T>)
    ensures |r| == |s|
  {
    ShuffleFrom(s, ToInt32(Polynomial(seed)), |s| - 1)
  }

  lemma SwapKeepsElements<T>(s: seq<T>, i: nat, j: nat)
    requires i < |s| && j < |s|
    ensures multiset(Swapped(s, i, j)) == multiset(s)
  {
    assert s == s[i := s[i]][j := s[j]];
  }

  /** The shuffle neither loses nor repeats an element. */
  lemma {:induction false} ShuffleKeepsElements<T>(s: seq<T>, hash: int, i: int)
    requires i < |s| && IsSeed(hash)
    ensures multiset(ShuffleFrom(s, hash, i)) == multiset(s)
    decreases i
  {
    if i > 0 {
      GeneratorIsExact(hash);
      var next := Advance(hash);
      SwapIndexInRange(next, i);
      var j := SwapIndex(next, i);
      SwapKeepsElements(s, i, j);
      ShuffleKeepsElements(Swapped(s, i, j), next, i - 1);
    }
  }

  /** `t` is `s` with the elements at `i` and `j` exchanged. */
  ghost predicate Exchanged<T(!new)>(s: seq<T>, t: seq<T>, i: nat, j: nat) {
    && i < |s| && j < |s| && |t| == |s|
    && t[i] == s[j] && t[j] == s[i]
    && forall k | 0 <= k < |s| && k != i && k != j :: t[k] == s[k]
  }

  /**
    `lists` are the states of the shuffle from index `i` down to 1: each comes from the one before by
    exchanging the element at the index with the one that the next value of the generator picks.
   */
  ghost predicate IsShuffle<T(!new)>(lists: seq<seq<T>>, hash: int, i: int)
    decreases i
  {
    if i <= 0 then |lists| == 1
    else
      |lists| > 1 && exists next: int, j: nat ::
        Follows(hash, next) && Picks(next, i, j) && Exchanged(lists[0], lists[1], i, j) && IsShuffle(lists[1..], next, i - 1)
  }

  lemma SwapExchanges<T(!new)>(s: seq<T>, i: nat, j: nat)
    requires i < |s| && j < |s|
    ensures Exchanged(s, Swapped(s, i, j), i, j)
  {
  }

  /** The states that lead from `s` to its shuffle. */
  lemma {:induction false} ShuffleIsDrawn<T(!new)>(s: seq<T>, hash: int, i: int) returns (lists: seq<seq<T>>)
    requires i < |s| && IsSeed(hash)
    ensures IsShuffle(lists, hash, i)
    ensures lists != [] && lists[0] == s && lists[|lists| - 1] == ShuffleFrom(s, hash, i)
    decreases i
  {
    if i <= 0 {
      lists := [s];
    } else {
      hide Advance, SwapIndex, Follows, Picks, Swapped, Exchanged;
      GeneratorIsExact(hash);
      var next := Advance(hash);
      SwapIndexInRange(next, i);
      var j := SwapIndex(next, i);
      var rest := ShuffleIsDrawn(Swapped(s, i, j), next, i - 1);
      AdvanceFollows(hash);
      SwapIndexPicks(next, i);
      SwapExchanges(s, i, j);
      lists := [s] + rest;
      assert lists[1..] == rest && lists[1] == Swapped(s, i, j);
    }
  }

  /** The shuffle of a list for a seed is drawn from the hash of the seed. */
  lemma ShuffledIsDrawn<T(!new)>(list: seq<T>, seed: seq<CodeUnit>)
    ensures exists lists: seq<seq<T>> ::
              && IsShuffle(lists, ToInt32(Polynomial(seed)), |list| - 1)
              && lists != [] && lists[0] == list && lists[|lists| - 1] == Shuffled(list, seed)
  {
    hide ShuffleFrom, IsShuffle;
    var lists := ShuffleIsDrawn(list, ToInt32(Polynomial(seed)), |list| - 1);
  }

  /** Three elements and the seed `x`: the generator draws 232297 and 4334, which pick the positions 2 and 0. */
  lemma ShuffleOfThree<T(!new)>(a: T, b: T, c: T)
    ensures Shuffled([a, b, c], [120]) == [b, a, c]
  {
    assert Polynomial([120]) == 120 by {
      assert [120][..0] == [];
    }
    assert ToInt32(120) == 120;
    assert Advance(120) == 232297 && Advance(232297) == 4334;
    SwapIndexPicks(232297, 2);
    SwapIndexPicks(4334, 1);
    assert SwapIndex(232297, 2) == 2 && SwapIndex(4334, 1) == 0;
    assert Swapped([a, b, c], 2, 2) == [a, b, c] && Swapped([a, b, c], 1, 0) == [b, a, c];
    assert ShuffleFrom([b, a, c], 4334, 0) == [b, a, c];
    assert ShuffleFrom([a, b, c], 232297, 1) == [b, a, c];
  }

  /** `seededShuffle`: the result depends on the list and the seed only and is a permutation of the list. */
  method Shuffle<T(!new)>(list: seq<T>, seed: seq<CodeUnit>) returns (shuffled: seq<T>)
    ensures shuffled == Shuffled(list, seed)
    ensures multiset(shuffled) == multiset(list)
    ensures exists lists: seq<seq<T>> ::
              && IsShuffle(lists, ToInt32(Polynomial(seed)), |list| - 1)
              && lists != [] && lists[0] == list && lists[|lists| - 1] == shuffled
  {
    hide SwapIndex, IsShuffle;
    ShuffledIsDrawn(list, seed);
    var hash := Hash(seed);
    var n := |list|;
    var result := new T[n](k requires 0 <= k < n => list[k]);
    assert result[..] == list;
    ShuffledIsPermutation(list, seed);
    var i := n - 1;
    while i > 0
      invariant i < n && (n > 0 ==> i >= 0) && IsSeed(hash)
      invariant ShuffleFrom(result[..], hash, i) == Shuffled(list, seed)
    {
      GeneratorIsExact(hash);
      ghost var before := result[..];
      hash := Remainder(hash * 9301 + 49297, 233280);
      SwapIndexInRange(hash, i);
      var j := SwapIndex(hash, i);
      result[i], result[j] := result[j], result[i];
      assert result[..] == Swapped(before, i, j);
      i := i - 1;
    }
    shuffled := result[..];
  }

  // ---------- Pagination ----------

  function OrDefault(n: int, default: int): int {
    if n == 0 then default else n
  }

  datatype Pagination = Pagination(page: int, limit: int, skip: int)

  /** `calculatePagination`; an absent parameter is passed as 0. */
  function CalculatePagination(page: int, limit: int): (p: Pagination)
    ensures p.page >= 1 && 1 <= p.limit <= 100 && p.skip == (p.page - 1) * p.limit
    // an absent page is the first, an absent limit 20; what is in range is kept, the rest is clamped
    ensures page > 0 ==> p.page == page
    ensures page <= 0 ==> p.page == 1
    ensures 1 <= limit <= 100 ==> p.limit == limit
    ensures limit == 0 ==> p.limit == 20
    ensures limit < 0 ==> p.limit == 1
    ensures limit > 100 ==> p.limit == 100
  {
    var page := Max(1, OrDefault(page, 1));
    var limit := Min(100, Max(1, OrDefault(limit, 20)));
    Pagination(page, limit, (page - 1) * limit)
  }

  /** `Math.ceil(total / limit) || 1` */
  function TotalPages(total: nat, limit: nat): nat
    requires limit > 0
  {
    OrDefault((total + limit - 1) / limit, 1)
  }

  /** No page more is announced than needed: the last one has something, unless nothing is listed. */
  lemma LastPageIsNeeded(total: nat, limit: nat)
    requires limit > 0
    ensures total == 0 ==> TotalPages(total, limit) == 1
    ensures total > 0 ==>
              && TotalPages(total, limit) >= 1
              && (TotalPages(total, limit) - 1) * limit < total <= TotalPages(total, limit) * limit
  {
    var q := (total + limit - 1) / limit;
    var rest := (total + limit - 1) % limit;
    assert total + limit - 1 == q * limit + rest && 0 <= rest < limit;
    assert (q - 1) * limit == q * limit - limit;
    if q <= 0 {
      MoreIsMore(0, -q, limit);
      assert q * limit <= 0;
    }
  }

  /** JavaScript's `slice`, whose bounds are clamped to the length. */
  function Slice<T>(s: seq<T>, from: nat, to: nat): seq<T>
    requires from <= to
  {
    s[Min(from, |s|)..Min(to, |s|)]
  }

  function Page<T>(s: seq<T>, page: nat, limit: nat): seq<T>
    requires page >= 1
  {
    PageBounds(page, limit);
    Slice(s, (page - 1) * limit, (page - 1) * limit + limit)
  }

  lemma PageBounds(page: nat, limit: nat)
    requires page >= 1
    ensures (page - 1) * limit >= 0
    ensures (page - 1) * limit + limit == page * limit
  {
  }

  /** The first `n` pages, one after the other. */
  function Pages<T>(s: seq<T>, limit: nat, n: nat): seq<T> {
    if n == 0 then [] else Pages(s, limit, n - 1) + Page(s, n, limit)
  }

  lemma PageIsSlice<T>(s: seq<T>, page: nat, limit: nat)
    requires page >= 1
    ensures 0 <= (page - 1) * limit <= page * limit
    ensures Page(s, page, limit) == s[Min((page - 1) * limit, |s|)..Min(page * limit, |s|)]
  {
    PageBounds(page, limit);
  }

  lemma AdjacentSlices<T>(s: seq<T>, a: nat, b: nat)
    requires a <= b <= |s|
    ensures s[..a] + s[a..b] == s[..b]
  {
  }

  lemma {:induction false} PagesArePrefix<T>(s: seq<T>, limit: nat, n: nat)
    ensures n * limit >= 0
    ensures Pages(s, limit, n) == s[..Min(n * limit, |s|)]
  {
    if n > 0 {
      hide Page;
      PagesArePrefix(s, limit, n - 1);
      PageBounds(n, limit);
      PageIsSlice(s, n, limit);
      AdjacentSlices(s, Min((n - 1) * limit, |s|), Min(n * limit, |s|));
    }
  }

  lemma EnoughPages(total: nat, limit: nat)
    requires limit > 0
    ensures TotalPages(total, limit) * limit >= total
  {
    var q := (total + limit - 1) / limit;
    assert (total + limit - 1) == q * limit + (total + limit - 1) % limit;
  }

  /**
    Going through all pages of a seed shows every listed element exactly once, in shuffled order,
    and no page after the last announced one has anything.
   */
  lemma AllPagesShowEverythingOnce<T>(list: seq<T>, seed: seq<CodeUnit>, limit: nat)
    requires limit > 0
    ensures var all := Pages(Shuffled(list, seed), limit, TotalPages(|list|, limit));
            all == Shuffled(list, seed) && multiset(all) == multiset(list)
    ensures forall page | page > TotalPages(|list|, limit) :: Page(Shuffled(list, seed), page, limit) == []
  {
    hide Shuffled, ShuffleFrom, TotalPages, Page;
    var s, n := Shuffled(list, seed), TotalPages(|list|, limit);
    EnoughPages(|list|, limit);
    PagesArePrefix(s, limit, n);
    ShuffledIsPermutation(list, seed);
    forall page | page > n ensures Page(s, page, limit) == [] {
      NothingAfter(s, n, page, limit);
    }
  }

  lemma ShuffledIsPermutation<T>(list: seq<T>, seed: seq<CodeUnit>)
    ensures multiset(Shuffled(list, seed)) == multiset(list)
  {
    ShuffleKeepsElements(list, ToInt32(Polynomial(seed)), |list| - 1);
  }

  lemma NothingAfter<T>(s: seq<T>, n: nat, page: nat, limit: nat)
    requires n * limit >= |s| && page > n
    ensures Page(s, page, limit) == []
  {
    PageBounds(page, limit);
    MoreIsMore(n, page - 1, limit);
  }

  lemma MoreIsMore(a: nat, b: nat, factor: nat)
    requires a <= b
    ensures a * factor <= b * factor
  {
  }

  // ---------- Restoring the order of a page ----------

  /** The rows of a page in the order of its ids, skipping ids without a row. */
  function InOrder<R>(ids: seq<string>, rows: map<string, R>): seq<R> {
    if ids == [] then []
    else
      var last := ids[|ids| - 1];
      InOrder(ids[..|ids| - 1], rows) + if last in rows then [rows[last]] else []
  }

  /** `new Map(rows.map(r => [r.id, r]))` */
  function ById<R>(fetched: seq<R>, idOf: R -> string): map<string, R> {
    if fetched == [] then map[]
    else ById(fetched[..|fetched| - 1], idOf)[idOf(fetched[|fetched| - 1]) := fetched[|fetched| - 1]]
  }

  /** The second half of the seeded branch of `findAll`: a map by id, read along the ids of the page. */
  method Reorder<R>(pageIds: seq<string>, fetched: seq<R>, idOf: R -> string) returns (ordered: seq<R>)
    ensures ordered == InOrder(pageIds, ById(fetched, idOf))
  {
    var itemMap: map<string, R> := map[];
    for i := 0 to |fetched|
      invariant itemMap == ById(fetched[..i], idOf)
    {
      assert fetched[..i + 1][..i] == fetched[..i];
      itemMap := itemMap[idOf(fetched[i]) := fetched[i]];
    }
    assert fetched[..|fetched|] == fetched;
    ordered := [];
    for k := 0 to |pageIds|
      invariant ordered == InOrder(pageIds[..k], itemMap)
    {
      assert pageIds[..k + 1][..k] == pageIds[..k];
      if pageIds[k] in itemMap {
        ordered := ordered + [itemMap[pageIds[k]]];
      }
    }
    assert pageIds[..|pageIds|] == pageIds;
  }

  ghost predicate DistinctIds<R>(rows: seq<R>, idOf: R -> string) {
    forall i, j | 0 <= i < j < |rows| :: idOf(rows[i]) != idOf(rows[j])
  }

  lemma {:induction false} ByIdContents<R>(fetched: seq<R>, idOf: R -> string)
    requires DistinctIds(fetched, idOf)
    ensures forall r | r in fetched :: idOf(r) in ById(fetched, idOf) && ById(fetched, idOf)[idOf(r)] == r
    ensures forall id | id in ById(fetched, idOf) :: ById(fetched, idOf)[id] in fetched && idOf(ById(fetched, idOf)[id]) == id
  {
    if fetched != [] {
      var before := fetched[..|fetched| - 1];
      ByIdContents(before, idOf);
      assert forall r :: r in fetched <==> r in before || r == fetched[|fetched| - 1];
    }
  }

  lemma {:induction false} InOrderComplete<R>(ids: seq<string>, rows: map<string, R>)
    requires forall id | id in ids :: id in rows
    ensures |InOrder(ids, rows)| == |ids|
    ensures forall k | 0 <= k < |ids| :: InOrder(ids, rows)[k] == rows[ids[k]]
  {
    if ids != [] {
      var before := ids[..|ids| - 1];
      assert ids[|ids| - 1] in ids;
      assert forall id | id in before :: id in ids;
      InOrderComplete(before, rows);
    }
  }

  /**
    The database may return the rows of a page in any order: if it returns a row for each id of
    the page, the reordered rows are the rows of the page in shuffled order.
   */
  lemma PageIsRestored<R>(pageIds: seq<string>, fetched: seq<R>, idOf: R -> string)
    requires DistinctIds(fetched, idOf)
    requires forall id | id in pageIds :: exists r | r in fetched :: idOf(r) == id
    ensures var ordered := InOrder(pageIds, ById(fetched, idOf));
            && |ordered| == |pageIds|
            && forall k | 0 <= k < |pageIds| :: ordered[k] in fetched && idOf(ordered[k]) == pageIds[k]
  {
    ByIdContents(fetched, idOf);
    InOrderComplete(pageIds, ById(fetched, idOf));
  }
}
