/**
  Badges: a check unlocks the badges whose threshold is reached and pays experience points, which
  may in turn reach the threshold of further badges.  Repeating the check computes a least set.
 */
module Badges {

  import opened Basics

  datatype Category = STREAK | PROVERBS | GAMES | COMMUNITY | CIVIC | XP | ALL

  datatype Badge = Badge(id: string, category: Category, targetValue: nat, xpReward: nat)

  /** The figures of a user other than the experience points. */
  datatype Metrics = Metrics(streak: nat, proverbs: nat, contributions: nat, duels: nat, soloGames: nat)

  datatype Profile = Profile(totalXp: real, unlocked: set<string>)

  // ---------- The metrics ----------

  /** `Math.ceil` */
  function Ceil(x: real): int {
    -((-x).Floor)
  }

  function CurrentValue(b: Badge, m: Metrics, currentXp: int): int {
    match b.category
    case STREAK => m.streak
    case XP => currentXp
    case PROVERBS => m.proverbs
    case COMMUNITY => m.contributions
    case GAMES => if b.id == "duel_winner" then m.duels else m.soloGames + m.duels
    case CIVIC => Min(currentXp / 60, b.targetValue)
    case ALL => 0
  }

  predicate Reached(b: Badge, m: Metrics, totalXp: real) {
    CurrentValue(b, m, Ceil(totalXp)) >= b.targetValue
  }

  lemma CeilBounds(x: real)
    ensures (Ceil(x) - 1) as real < x <= Ceil(x) as real
  {
  }

  /** When a badge is reached, by category; experience counts rounded up. */
  lemma ReachedByCategory(b: Badge, m: Metrics, totalXp: real)
    ensures b.category == STREAK ==> (Reached(b, m, totalXp) <==> m.streak >= b.targetValue)
    ensures b.category == PROVERBS ==> (Reached(b, m, totalXp) <==> m.proverbs >= b.targetValue)
    ensures b.category == COMMUNITY ==> (Reached(b, m, totalXp) <==> m.contributions >= b.targetValue)
    ensures b.category == GAMES && b.id == "duel_winner" ==> (Reached(b, m, totalXp) <==> m.duels >= b.targetValue)
    ensures b.category == GAMES && b.id != "duel_winner" ==>
              (Reached(b, m, totalXp) <==> m.soloGames + m.duels >= b.targetValue)
    ensures b.category == XP ==> (Reached(b, m, totalXp) <==> totalXp > (b.targetValue - 1) as real)
    ensures b.category == CIVIC ==> (Reached(b, m, totalXp) <==> totalXp > (60 * b.targetValue - 1) as real)
    ensures b.category == ALL ==> (Reached(b, m, totalXp) <==> b.targetValue == 0)
  {
    CeilBounds(totalXp);
    CeilAbove(totalXp, b.targetValue);
    CeilAbove(totalXp, 60 * b.targetValue);
  }

  lemma CeilAbove(x: real, n: int)
    ensures Ceil(x) >= n <==> x > (n - 1) as real
  {
    CeilBounds(x);
    if Ceil(x) >= n {
      assert (Ceil(x) - 1) as real >= (n - 1) as real;
    }
  }

  /** The figure behind a value, by category; sixty points of experience are one unit of CIVIC. */
  ghost predicate ValueColumns(b: Badge, m: Metrics, totalXp: real, v: int) {
    && (b.category == STREAK ==> v == m.streak)
    && (b.category == PROVERBS ==> v == m.proverbs)
    && (b.category == COMMUNITY ==> v == m.contributions)
    && (b.category == GAMES ==> v == m.duels + if b.id == "duel_winner" then 0 else m.soloGames)
    && (b.category == ALL ==> v == 0)
    && (b.category == XP ==> (v - 1) as real < totalXp <= v as real)
    && (b.category == CIVIC ==>
          && v <= b.targetValue && (60 * v - 1) as real < totalXp
          && (v < b.targetValue ==> totalXp <= (60 * v + 59) as real))
  }

  lemma ValuesByCategory(b: Badge, m: Metrics, totalXp: real)
    ensures ValueColumns(b, m, totalXp, CurrentValue(b, m, Ceil(totalXp)))
  {
    CeilBounds(totalXp);
    var v := CurrentValue(b, m, Ceil(totalXp));
    if b.category == CIVIC {
      CeilAbove(totalXp, 60 * v);
      CeilAbove(totalXp, 60 * v + 60);
    }
  }

  lemma ReachedMonotone(b: Badge, m: Metrics, xp: real, more: real)
    requires xp <= more && Reached(b, m, xp)
    ensures Reached(b, m, more)
  {
    assert (-more).Floor <= (-xp).Floor;
  }

  // ---------- One check ----------

  /** The badges that a check unlocks, in catalogue order. */
  function NewBadges(catalog: seq<Badge>, m: Metrics, p: Profile): seq<Badge> {
    if catalog == [] then []
    else
      var b, before := catalog[|catalog| - 1], NewBadges(catalog[..|catalog| - 1], m, p);
      if Reached(b, m, p.totalXp) && b.id !in p.unlocked then before + [b] else before
  }

  function Ids(badges: seq<Badge>): set<string> {
    set b | b in badges :: b.id
  }

  /** The rewards of the badges of `catalog` whose id is in `ids`. */
  function Rewards(catalog: seq<Badge>, ids: set<string>): nat {
    if catalog == [] then 0
    else
      var b := catalog[|catalog| - 1];
      Rewards(catalog[..|catalog| - 1], ids) + if b.id in ids then b.xpReward else 0
  }

  function Check(catalog: seq<Badge>, m: Metrics, p: Profile): Profile {
    var ids := Ids(NewBadges(catalog, m, p));
    Profile(p.totalXp + Rewards(catalog, ids) as real, p.unlocked + ids)
  }

  ghost predicate DistinctIds(catalog: seq<Badge>) {
    forall i, j | 0 <= i < j < |catalog| :: catalog[i].id != catalog[j].id
  }

  lemma {:induction false} NewBadgesContents(catalog: seq<Badge>, m: Metrics, p: Profile)
    ensures forall b :: b in NewBadges(catalog, m, p) <==>
              b in catalog && Reached(b, m, p.totalXp) && b.id !in p.unlocked
  {
    if catalog != [] {
      var before, last := catalog[..|catalog| - 1], catalog[|catalog| - 1];
      NewBadgesContents(before, m, p);
      assert forall b :: b in catalog <==> b in before || b == last;
    }
  }

  lemma {:induction false} RewardsMonotone(catalog: seq<Badge>, a: set<string>, b: set<string>)
    requires a <= b
    ensures Rewards(catalog, a) <= Rewards(catalog, b)
  {
    if catalog != [] {
      RewardsMonotone(catalog[..|catalog| - 1], a, b);
    }
  }

  lemma {:induction false} RewardsOfUnion(catalog: seq<Badge>, a: set<string>, b: set<string>)
    requires a !! b
    ensures Rewards(catalog, a + b) == Rewards(catalog, a) + Rewards(catalog, b)
  {
    if catalog != [] {
      RewardsOfUnion(catalog[..|catalog| - 1], a, b);
    }
  }

  // ---------- Closed sets ----------

  /** The experience of a user who started as `p` and holds the badges `s`. */
  function XpWith(catalog: seq<Badge>, p: Profile, s: set<string>): real {
    p.totalXp + Rewards(catalog, s - p.unlocked) as real
  }

  /** Nothing outside `s` is reached by somebody who holds `s`. */
  ghost predicate Closed(catalog: seq<Badge>, m: Metrics, p: Profile, s: set<string>) {
    && p.unlocked <= s
    && forall b | b in catalog && Reached(b, m, XpWith(catalog, p, s)) :: b.id in s
  }

  /** The smallest closed set: what the rules entitle a user to. */
  ghost predicate IsLeastClosed(catalog: seq<Badge>, m: Metrics, p: Profile, s: set<string>) {
    Closed(catalog, m, p, s) && forall t | Closed(catalog, m, p, t) :: s <= t
  }

  /** On the way: everything held is part of every closed set, and the experience is accounted for. */
  ghost predicate Entitled(catalog: seq<Badge>, m: Metrics, start: Profile, p: Profile) {
    && start.unlocked <= p.unlocked
    && p.totalXp == XpWith(catalog, start, p.unlocked)
    && forall t | Closed(catalog, m, start, t) :: p.unlocked <= t
  }

  lemma CheckKeepsEntitled(catalog: seq<Badge>, m: Metrics, start: Profile, p: Profile)
    requires Entitled(catalog, m, start, p)
    ensures Entitled(catalog, m, start, Check(catalog, m, p))
  {
    var gained := NewBadges(catalog, m, p);
    NewBadgesContents(catalog, m, p);
    var after := p.unlocked + Ids(gained);
    RewardsOfUnion(catalog, p.unlocked - start.unlocked, Ids(gained));
    assert after - start.unlocked == (p.unlocked - start.unlocked) + Ids(gained);
    forall t | Closed(catalog, m, start, t) ensures after <= t {
      assert p.unlocked <= t;
      RewardsMonotone(catalog, p.unlocked - start.unlocked, t - start.unlocked);
      forall b | b in gained ensures b.id in t {
        ReachedMonotone(b, m, p.totalXp, XpWith(catalog, start, t));
      }
    }
  }

  lemma StableIsLeast(catalog: seq<Badge>, m: Metrics, start: Profile, p: Profile)
    requires Entitled(catalog, m, start, p) && NewBadges(catalog, m, p) == []
    ensures IsLeastClosed(catalog, m, start, p.unlocked)
  {
    NewBadgesContents(catalog, m, p);
    forall b | b in catalog && Reached(b, m, XpWith(catalog, start, p.unlocked)) ensures b.id in p.unlocked {
      assert b !in NewBadges(catalog, m, p);
    }
  }

  // ---------- Repeating the check ----------

  function Locked(catalog: seq<Badge>, p: Profile): set<string> {
    Ids(catalog) - p.unlocked
  }

  lemma {:induction false} CheckShrinksLocked(catalog: seq<Badge>, m: Metrics, p: Profile)
    requires NewBadges(catalog, m, p) != []
    ensures |Locked(catalog, Check(catalog, m, p))| < |Locked(catalog, p)|
  {
    var gained := NewBadges(catalog, m, p);
    NewBadgesContents(catalog, m, p);
    var id := gained[0].id;
    assert id in Locked(catalog, p);
    assert Locked(catalog, Check(catalog, m, p)) <= Locked(catalog, p) - {id};
    SubsetSize(Locked(catalog, Check(catalog, m, p)), Locked(catalog, p) - {id});
  }

  /** The profile after `n` checks. */
  function Checks(catalog: seq<Badge>, m: Metrics, p: Profile, n: nat): Profile
    decreases n
  {
    if n == 0 then p else Checks(catalog, m, Check(catalog, m, p), n - 1)
  }

  /** A profile that the check no longer changes, reached by repeating the check. */
  function Settle(catalog: seq<Badge>, m: Metrics, p: Profile): Profile
    decreases |Locked(catalog, p)|
  {
    if NewBadges(catalog, m, p) == [] then p
    else
      CheckShrinksLocked(catalog, m, p);
      Settle(catalog, m, Check(catalog, m, p))
  }

  lemma {:induction false} SettleIsEntitled(catalog: seq<Badge>, m: Metrics, start: Profile, p: Profile)
    requires Entitled(catalog, m, start, p)
    ensures Entitled(catalog, m, start, Settle(catalog, m, p))
    ensures NewBadges(catalog, m, Settle(catalog, m, p)) == []
    decreases |Locked(catalog, p)|
  {
    if NewBadges(catalog, m, p) != [] {
      CheckShrinksLocked(catalog, m, p);
      CheckKeepsEntitled(catalog, m, start, p);
      SettleIsEntitled(catalog, m, start, Check(catalog, m, p));
    }
  }

  lemma {:induction false} SettledInTime(catalog: seq<Badge>, m: Metrics, p: Profile) returns (n: nat)
    ensures n <= |Locked(catalog, p)|
    ensures Checks(catalog, m, p, n) == Settle(catalog, m, p)
    decreases |Locked(catalog, p)|
  {
    hide NewBadges, Check, Locked;
    if NewBadges(catalog, m, p) == [] {
      n := 0;
    } else {
      CheckShrinksLocked(catalog, m, p);
      var k := SettledInTime(catalog, m, Check(catalog, m, p));
      n := k + 1;
    }
  }

  lemma StartsEntitled(catalog: seq<Badge>, m: Metrics, p: Profile)
    ensures Entitled(catalog, m, p, p)
  {
    assert p.unlocked - p.unlocked == {};
    RewardsOfNothing(catalog);
  }

  /**
    With the other metrics fixed, at most as many checks as there are locked badges, and one more
    that finds nothing, end in the least closed set of badges; the experience has grown by exactly
    the rewards of the badges unlocked on the way.
   */
  lemma {:induction false} RepeatedChecksReachLeastClosedSet(catalog: seq<Badge>, m: Metrics, p: Profile) returns (n: nat)
    ensures n <= |Locked(catalog, p)|
    ensures var end := Checks(catalog, m, p, n);
            && NewBadges(catalog, m, end) == []
            && IsLeastClosed(catalog, m, p, end.unlocked)
            && end.totalXp == p.totalXp + Rewards(catalog, end.unlocked - p.unlocked) as real
  {
    n := SettledInTime(catalog, m, p);
    StartsEntitled(catalog, m, p);
    SettleIsEntitled(catalog, m, p, p);
    StableIsLeast(catalog, m, p, Settle(catalog, m, p));
  }

  lemma {:induction false} RewardsOfNothing(catalog: seq<Badge>)
    ensures Rewards(catalog, {}) == 0
  {
    if catalog != [] {
      RewardsOfNothing(catalog[..|catalog| - 1]);
    }
  }

  // ---------- The order of the catalogue does not matter ----------

  lemma {:induction false} RewardsOfConcat(a: seq<Badge>, b: seq<Badge>, ids: set<string>)
    ensures Rewards(a + b, ids) == Rewards(a, ids) + Rewards(b, ids)
    decreases |b|
  {
    if b == [] {
      assert a + b == a;
    } else {
      assert (a + b)[..|a + b| - 1] == a + b[..|b| - 1];
      RewardsOfConcat(a, b[..|b| - 1], ids);
    }
  }

  lemma WithoutOne<X>(a: seq<X>, last: X, x: seq<X>, y: seq<X>)
    requires multiset(a + [last]) == multiset(x + [last] + y)
    ensures multiset(a) == multiset(x + y)
  {
    assert multiset(a + [last]) == multiset(a) + multiset{last};
    assert multiset(x + [last] + y) == multiset(x) + multiset{last} + multiset(y);
    assert multiset(x + y) == multiset(x) + multiset(y);
    assert multiset(a) == multiset(a + [last]) - multiset{last};
  }

  lemma RewardsAround(x: seq<Badge>, b: Badge, y: seq<Badge>, ids: set<string>)
    ensures Rewards(x + [b] + y, ids) == Rewards(x + y, ids) + if b.id in ids then b.xpReward else 0
  {
    RewardsOfConcat(x + [b], y, ids);
    RewardsOfConcat(x, y, ids);
    assert (x + [b])[..|x|] == x;
  }

  /** The last element of a list, found in a permutation of it. */
  lemma Locate<X>(a: seq<X>, b: seq<X>) returns (x: seq<X>, y: seq<X>)
    requires a != [] && multiset(a) == multiset(b)
    ensures b == x + [a[|a| - 1]] + y
    ensures multiset(a[..|a| - 1]) == multiset(x + y)
  {
    var last := a[|a| - 1];
    assert last in multiset(a);
    var i :| 0 <= i < |b| && b[i] == last;
    x, y := b[..i], b[i + 1..];
    assert a == a[..|a| - 1] + [last];
    assert b == x + [last] + y;
    WithoutOne(a[..|a| - 1], last, x, y);
  }

  lemma NothingLeft<X>(a: seq<X>, b: seq<X>)
    requires a == [] && multiset(a) == multiset(b)
    ensures b == []
  {
    assert |multiset(b)| == |b|;
  }

  lemma RewardsSnoc(catalog: seq<Badge>, ids: set<string>)
    requires catalog != []
    ensures var b := catalog[|catalog| - 1];
            Rewards(catalog, ids) == Rewards(catalog[..|catalog| - 1], ids) + if b.id in ids then b.xpReward else 0
  {
  }

  lemma {:induction false} RewardsOfPermutation(a: seq<Badge>, b: seq<Badge>, ids: set<string>)
    requires multiset(a) == multiset(b)
    ensures Rewards(a, ids) == Rewards(b, ids)
    decreases |a|
  {
    hide Rewards;
    if a == [] {
      NothingLeft(a, b);
    } else {
      var x, y := Locate(a, b);
      RewardsOfPermutation(a[..|a| - 1], x + y, ids);
      RewardsAround(x, a[|a| - 1], y, ids);
      RewardsSnoc(a, ids);
    }
  }

  /** Reordering the catalogue changes neither the badges nor the experience that a user ends with. */
  lemma OrderOfCatalogIsIrrelevant(catalog: seq<Badge>, other: seq<Badge>, m: Metrics, p: Profile)
    requires multiset(catalog) == multiset(other)
    ensures Settle(catalog, m, p) == Settle(other, m, p)
  {
    hide Settle, Rewards, NewBadges, Closed;
    StartsEntitled(catalog, m, p);
    StartsEntitled(other, m, p);
    SettleIsEntitled(catalog, m, p, p);
    SettleIsEntitled(other, m, p, p);
    var s, t := Settle(catalog, m, p), Settle(other, m, p);
    StableIsLeast(catalog, m, p, s);
    StableIsLeast(other, m, p, t);
    SameClosedSets(catalog, other, m, p, t.unlocked);
    SameClosedSets(other, catalog, m, p, s.unlocked);
    assert s.unlocked == t.unlocked;
    RewardsOfPermutation(catalog, other, s.unlocked - p.unlocked);
  }

  lemma SameClosedSets(catalog: seq<Badge>, other: seq<Badge>, m: Metrics, p: Profile, s: set<string>)
    requires multiset(catalog) == multiset(other) && Closed(other, m, p, s)
    ensures Closed(catalog, m, p, s)
  {
    RewardsOfPermutation(catalog, other, s - p.unlocked);
    forall b | b in catalog ensures b in other {
      assert b in multiset(catalog);
    }
  }

  // ---------- The progress bar ----------

  /** `progressPercent`: rounded, halves up, and capped at 100. */
  function ProgressPercent(value: int, target: nat): int
    requires target > 0
  {
    Min(100, (Min(value, target) as real / target as real * 100.0 + 0.5).Floor)
  }

  /**
    The bar of a locked badge can be full: it shows 100 exactly when at least 99.5 percent of the
    target is reached.
   */
  lemma FullBarBeforeTheTarget(value: nat, target: nat)
    requires target > 0
    ensures 0 <= ProgressPercent(value, target) <= 100
    ensures ProgressPercent(value, target) == 100 <==> 200 * value >= 199 * target
  {
    var part := Min(value, target);
    var q := part as real / target as real;
    assert q * target as real == part as real;
    CompareQuotient(q, part as real, target as real, 0.995);
    CompareQuotient(q, part as real, target as real, 0.0);
    FloorAt(q * 100.0 + 0.5, 100);
    FloorAt(q * 100.0 + 0.5, 0);
  }

  /** The bar shows the percentage of the target, at most 100, rounded to the nearest whole number and halves up. */
  lemma BarIsRounded(value: int, target: nat)
    requires target > 0
    ensures RightBar(ProgressPercent(value, target), value, target)
  {
    var part := Min(value, target);
    var q := part as real / target as real;
    assert q * target as real == part as real;
    var p := (q * 100.0 + 0.5).Floor;
    var low, high := (2 * p - 1) as real / 200.0, (2 * p + 1) as real / 200.0;
    CompareQuotient(q, part as real, target as real, low);
    CompareQuotient(q, part as real, target as real, high);
    ScaledBound(part, target, 2 * p - 1);
    ScaledBound(part, target, 2 * p + 1);
    AtMostHundred(part, target, p);
  }

  ghost predicate RightBar(percent: int, value: int, target: nat) {
    (2 * percent - 1) * target <= 200 * Min(value, target) < (2 * percent + 1) * target
  }

  lemma ScaledBound(part: int, target: nat, k: int)
    ensures part as real >= k as real / 200.0 * target as real <==> k * target <= 200 * part
  {
    assert k as real / 200.0 * target as real * 200.0 == (k * target) as real;
  }

  lemma AtMostHundred(part: int, target: nat, p: int)
    requires part <= target && target > 0
    ensures (2 * p - 1) * target <= 200 * part ==> p <= 100
  {
    if p > 100 {
      assert (2 * p - 1) * target >= 201 * target;
    }
  }

  /** A badge for a thousand points: with 995 of them it is locked, and its bar is full. */
  lemma FullBarOfALockedBadge(b: Badge, m: Metrics)
    requires b.category == XP && b.targetValue == 1000
    ensures !Reached(b, m, 995.0)
    ensures ProgressPercent(CurrentValue(b, m, Ceil(995.0)), b.targetValue) == 100
  {
    assert (-995.0).Floor == -995;
    FullBarBeforeTheTarget(995, 1000);
  }

  lemma CompareQuotient(q: real, part: real, target: real, bound: real)
    requires target > 0.0 && q * target == part
    ensures q >= bound <==> part >= bound * target
  {
    assert (q - bound) * target == part - bound * target;
    ProductSign(q - bound, target);
  }

  lemma ProductSign(x: real, factor: real)
    requires factor > 0.0
    ensures x * factor >= 0.0 <==> x >= 0.0
  {
  }

  lemma FloorAt(x: real, n: int)
    ensures x.Floor >= n <==> x >= n as real
  {
  }

  // ---------- The service ----------

  datatype BadgeProgress = BadgeProgress(badge: Badge, currentValue: int, isUnlocked: bool, progressPercent: int)

  datatype CheckResult = CheckResult(newlyUnlocked: seq<Badge>, totalUnlockedCount: nat, earnedBonusXp: nat)

  /** How many badges of the catalogue are in a set. */
  function CountIn(catalog: seq<Badge>, ids: set<string>): nat {
    if catalog == [] then 0
    else CountIn(catalog[..|catalog| - 1], ids) + if catalog[|catalog| - 1].id in ids then 1 else 0
  }

  function Held(catalog: seq<Badge>, ids: set<string>): set<Badge> {
    set b | b in catalog && b.id in ids
  }

  lemma HeldSnoc(catalog: seq<Badge>, last: Badge, ids: set<string>)
    ensures Held(catalog + [last], ids) == Held(catalog, ids) + if last.id in ids then {last} else {}
    ensures DistinctIds(catalog + [last]) ==> DistinctIds(catalog) && last !in Held(catalog, ids)
  {
    var all := catalog + [last];
    assert all[|catalog|] == last && forall i | 0 <= i < |catalog| :: all[i] == catalog[i];
    assert forall b :: b in all <==> b in catalog || b == last;
  }

  lemma {:induction false} CountInIs(catalog: seq<Badge>, ids: set<string>)
    requires DistinctIds(catalog)
    ensures CountIn(catalog, ids) == |Held(catalog, ids)|
  {
    if catalog == [] {
      assert Held(catalog, ids) == {};
    } else {
      hide Held, DistinctIds;
      var before, last := catalog[..|catalog| - 1], catalog[|catalog| - 1];
      assert catalog == before + [last];
      HeldSnoc(before, last, ids);
      CountInIs(before, ids);
    }
  }

  /** The rewards of a list of badges. */
  function TotalReward(badges: seq<Badge>): nat {
    if badges == [] then 0 else TotalReward(badges[..|badges| - 1]) + badges[|badges| - 1].xpReward
  }

  lemma {:induction false} RewardsOfNewBadges(catalog: seq<Badge>, m: Metrics, p: Profile, ids: set<string>)
    requires forall b | b in catalog :: b.id in ids <==> Reached(b, m, p.totalXp) && b.id !in p.unlocked
    ensures TotalReward(NewBadges(catalog, m, p)) == Rewards(catalog, ids)
  {
    if catalog != [] {
      var before, last := catalog[..|catalog| - 1], catalog[|catalog| - 1];
      assert last in catalog;
      assert forall b | b in before :: b in catalog;
      RewardsOfNewBadges(before, m, p, ids);
      TotalRewardSnoc(NewBadges(before, m, p), last);
    }
  }

  lemma TotalRewardSnoc(badges: seq<Badge>, b: Badge)
    ensures TotalReward(badges + [b]) == TotalReward(badges) + b.xpReward
  {
    assert (badges + [b])[..|badges|] == badges;
  }

  lemma NewBadgesSnoc(catalog: seq<Badge>, i: nat, m: Metrics, p: Profile)
    requires i < |catalog|
    ensures NewBadges(catalog[..i + 1], m, p) ==
            if Reached(catalog[i], m, p.totalXp) && catalog[i].id !in p.unlocked
            then NewBadges(catalog[..i], m, p) + [catalog[i]] else NewBadges(catalog[..i], m, p)
  {
    assert catalog[..i + 1][..i] == catalog[..i];
  }

  lemma IdsOfNewBadges(catalog: seq<Badge>, m: Metrics, p: Profile)
    requires DistinctIds(catalog)
    ensures forall b | b in catalog ::
              b.id in Ids(NewBadges(catalog, m, p)) <==> Reached(b, m, p.totalXp) && b.id !in p.unlocked
  {
    NewBadgesContents(catalog, m, p);
  }

  class BadgesService {
    const catalog: seq<Badge>
    var totalXp: real
    var unlocked: set<string>

    function Current(): Profile
      reads this
    {
      Profile(totalXp, unlocked)
    }

    constructor (catalog: seq<Badge>, totalXp: real, unlocked: set<string>)
      ensures this.catalog == catalog && Current() == Profile(totalXp, unlocked)
    {
      this.catalog, this.totalXp, this.unlocked := catalog, totalXp, unlocked;
    }

    /** `getUserBadges` */
    method GetUserBadges(m: Metrics) returns (results: seq<BadgeProgress>)
      requires forall b | b in catalog :: b.targetValue > 0
      ensures |results| == |catalog|
      ensures forall i | 0 <= i < |catalog| ::
                var b, r := catalog[i], results[i];
                && r.badge == b && r.isUnlocked == (b.id in unlocked)
                && r.currentValue == CurrentValue(b, m, Ceil(totalXp))
                && (b.category == STREAK ==> r.currentValue == m.streak)
                && (b.category == PROVERBS ==> r.currentValue == m.proverbs)
                && (b.category == COMMUNITY ==> r.currentValue == m.contributions)
                && (b.category == GAMES ==> r.currentValue == m.duels + if b.id == "duel_winner" then 0 else m.soloGames)
                && (b.category == ALL ==> r.currentValue == 0)
                && (b.category == XP ==> (r.currentValue - 1) as real < totalXp <= r.currentValue as real)
                && (b.category == CIVIC ==>
                      && r.currentValue <= b.targetValue && (60 * r.currentValue - 1) as real < totalXp
                      && (r.currentValue < b.targetValue ==> totalXp <= (60 * r.currentValue + 59) as real))
                && var p, t := r.progressPercent, b.targetValue;
                  (2 * p - 1) * t <= 200 * Min(r.currentValue, t) < (2 * p + 1) * t
    {
      hide CurrentValue, Ceil, ProgressPercent;
      results := [];
      var currentXp := Ceil(totalXp);
      for i := 0 to |catalog|
        invariant |results| == i
        invariant forall k | 0 <= k < i ::
                    && results[k].badge == catalog[k]
                    && results[k].currentValue == CurrentValue(catalog[k], m, Ceil(totalXp))
                    && results[k].isUnlocked == (catalog[k].id in unlocked)
                    && RightBar(results[k].progressPercent, results[k].currentValue, catalog[k].targetValue)
      {
        var b := catalog[i];
        assert b in catalog;
        var currentValue := CurrentValue(b, m, currentXp);
        BarIsRounded(currentValue, b.targetValue);
        results := results + [BadgeProgress(b, currentValue, b.id in unlocked, ProgressPercent(currentValue, b.targetValue))];
      }
      forall i | 0 <= i < |catalog| ensures ValueColumns(catalog[i], m, totalXp, results[i].currentValue) {
        ValuesByCategory(catalog[i], m, totalXp);
      }
    }

    /** `checkAndUnlockBadges` */
    method CheckAndUnlockBadges(m: Metrics) returns (result: CheckResult)
      requires DistinctIds(catalog) && forall b | b in catalog :: b.targetValue > 0
      modifies this
      ensures Current() == Check(catalog, m, old(Current()))
      ensures result.newlyUnlocked == NewBadges(catalog, m, old(Current()))
      ensures forall b :: b in result.newlyUnlocked <==>
                b in catalog && b.id !in old(unlocked) && Reached(b, m, old(totalXp))
      ensures unlocked == old(unlocked) + set b | b in result.newlyUnlocked :: b.id
      ensures result.earnedBonusXp == TotalReward(result.newlyUnlocked)
      ensures totalXp == old(totalXp) + result.earnedBonusXp as real
      ensures result.totalUnlockedCount == |set b | b in catalog && b.id in unlocked|
    {
      hide NewBadges, TotalReward, Ids, CurrentValue;
      NothingNew(m, Current());
      var badges := GetUserBadges(m);
      var newlyUnlocked := [];
      var earnedBonusXp := 0;
      ghost var start := Current();
      for i := 0 to |badges|
        invariant newlyUnlocked == NewBadges(catalog[..i], m, start)
        invariant earnedBonusXp == TotalReward(newlyUnlocked)
        invariant totalXp == start.totalXp + earnedBonusXp as real
        invariant unlocked == start.unlocked + Ids(newlyUnlocked)
      {
        NewBadgesSnoc(catalog, i, m, start);
        var badge := badges[i].badge;
        if badges[i].currentValue >= badge.targetValue && !badges[i].isUnlocked {
          IdsSnoc(newlyUnlocked, badge);
          TotalRewardSnoc(newlyUnlocked, badge);
          unlocked := unlocked + {badge.id};
          if badge.xpReward > 0 {
            totalXp := totalXp + badge.xpReward as real;
            earnedBonusXp := earnedBonusXp + badge.xpReward;
          }
          newlyUnlocked := newlyUnlocked + [badge];
        }
      }
      assert catalog[..|badges|] == catalog;
      NewBadgesContents(catalog, m, start);
      IdsMeaning(newlyUnlocked);
      IdsOfNewBadges(catalog, m, start);
      RewardsOfNewBadges(catalog, m, start, Ids(newlyUnlocked));
      CountInIs(catalog, unlocked);
      var totalUnlockedCount := CountIn(catalog, unlocked);
      result := CheckResult(newlyUnlocked, totalUnlockedCount, earnedBonusXp);
    }
  }

  lemma NothingNew(m: Metrics, p: Profile)
    ensures NewBadges([], m, p) == [] && TotalReward([]) == 0 && Ids([]) == {}
  {
  }

  lemma IdsMeaning(badges: seq<Badge>)
    ensures Ids(badges) == set b | b in badges :: b.id
  {
  }

  lemma IdsSnoc(badges: seq<Badge>, b: Badge)
    ensures Ids(badges + [b]) == Ids(badges) + {b.id}
  {
    assert forall c :: c in badges + [b] <==> c in badges || c == b;
  }
}
