/**
  The reward ledger of an event: `awardSingleReward` and its two callers, the rewards for
  completion inside `submitProgress` and `distributeRewards`.

  A caller reads the rewards once and awards from that snapshot, so the winner cap is tested
  against a count that the awards of the same call have already made stale.
 */
module EventRewards {

  import opened Basics
  import opened Wrappers

  type RewardId = string
  type UserId = string

  datatype Criteria = COMPLETION | TOP_1 | TOP_3 | OTHER

  /** What a reward pays; a physical lot or an empty amount pays nothing here. */
  datatype Payment = Xp(amount: real) | Coins(coins: nat) | Grants(badge: string) | Nothing

  /** A reward row; `maxWinners` 0 stands for a null or zero column: no cap. */
  datatype Reward = Reward(id: RewardId, criteria: Criteria, maxWinners: nat, claimsCount: nat, payment: Payment)

  datatype Claim = Claim(reward: RewardId, user: UserId)

  datatype Ledger = Ledger(
    rewards: map<RewardId, Reward>,
    claims: seq<Claim>,
    xp: map<UserId, real>,
    coins: map<UserId, nat>,
    badges: set<(UserId, string)>)

  /** One call of `awardSingleReward`: a snapshot of the reward and a user. */
  datatype Attempt = Attempt(reward: Reward, user: UserId)

  // ---------- awardSingleReward ----------

  predicate Claimed(l: Ledger, id: RewardId, u: UserId) {
    Claim(id, u) in l.claims
  }

  predicate Capped(r: Reward) {
    r.maxWinners != 0 && r.claimsCount >= r.maxWinners
  }

  function XpOf(l: Ledger, u: UserId): real {
    if u in l.xp then l.xp[u] else 0.0
  }

  function CoinsOf(l: Ledger, u: UserId): nat {
    if u in l.coins then l.coins[u] else 0
  }

  function Pay(l: Ledger, payment: Payment, u: UserId): Ledger {
    match payment
    case Xp(amount) => if amount > 0.0 then l.(xp := l.xp[u := XpOf(l, u) + amount]) else l
    case Coins(coins) => l.(coins := l.coins[u := CoinsOf(l, u) + coins])
    case Grants(badge) => l.(badges := l.badges + {(u, badge)})
    case Nothing => l
  }

  function Award(l: Ledger, a: Attempt): Ledger {
    var id := a.reward.id;
    if Claimed(l, id, a.user) || Capped(a.reward) || id !in l.rewards then l
    else
      var r := l.rewards[id];
      Pay(l.(rewards := l.rewards[id := r.(claimsCount := r.claimsCount + 1)],
             claims := l.claims + [Claim(id, a.user)]),
          a.reward.payment, a.user)
  }

  function AwardAll(l: Ledger, attempts: seq<Attempt>): Ledger {
    if attempts == [] then l
    else Award(AwardAll(l, attempts[..|attempts| - 1]), attempts[|attempts| - 1])
  }

  // ---------- The callers ----------

  /** The rewards of the event in the order the database returns them. */
  ghost predicate IsListing(l: Ledger, order: seq<RewardId>) {
    && (forall id :: id in order <==> id in l.rewards)
    && (forall i, j | 0 <= i < j < |order| :: order[i] != order[j])
  }

  function Fetch(l: Ledger, order: seq<RewardId>): (snapshot: seq<Reward>)
    requires forall id | id in order :: id in l.rewards
    ensures |snapshot| == |order|
    ensures forall i | 0 <= i < |order| :: snapshot[i] == l.rewards[order[i]]
  {
    if order == [] then [] else Fetch(l, order[..|order| - 1]) + [l.rewards[order[|order| - 1]]]
  }

  /** The rewards of the snapshot that pass a test, each tried for one user. */
  function AttemptsFor(snapshot: seq<Reward>, u: UserId, test: Criteria -> bool): seq<Attempt> {
    if snapshot == [] then []
    else
      var r := snapshot[|snapshot| - 1];
      AttemptsFor(snapshot[..|snapshot| - 1], u, test) + if test(r.criteria) then [Attempt(r, u)] else []
  }

  predicate OnCompletion(c: Criteria) {
    c == COMPLETION
  }

  predicate Eligible(rank: nat, c: Criteria) {
    || (rank == 1 && (c == TOP_1 || c == TOP_3))
    || (rank <= 3 && c == TOP_3)
  }

  function RankTest(rank: nat): Criteria -> bool {
    c => Eligible(rank, c)
  }

  /** The attempts of `distributeRewards` over the ranked users. */
  function BoardAttempts(snapshot: seq<Reward>, board: seq<UserId>): seq<Attempt> {
    if board == [] then []
    else BoardAttempts(snapshot, board[..|board| - 1])
         + AttemptsFor(snapshot, board[|board| - 1], RankTest(|board|))
  }

  datatype Call =
    | Complete(user: UserId, order: seq<RewardId>)
    | Distribute(board: seq<UserId>, order: seq<RewardId>)
    | AddReward(reward: Reward)

  /** The answers of the database are possible ones: all rewards, ranked users without repetition. */
  ghost predicate Possible(l: Ledger, call: Call) {
    match call
    case Complete(_, order) => IsListing(l, order)
    case Distribute(board, order) =>
      && IsListing(l, order)
      && (forall i, j | 0 <= i < j < |board| :: board[i] != board[j])
    case AddReward(r) => r.id !in l.rewards && r.claimsCount == 0
  }

  function AttemptsOf(l: Ledger, call: Call): seq<Attempt>
    requires Possible(l, call)
  {
    match call
    case Complete(u, order) => AttemptsFor(Fetch(l, order), u, OnCompletion)
    case Distribute(board, order) => BoardAttempts(Fetch(l, order), board)
    case AddReward(_) => []
  }

  function Apply(l: Ledger, call: Call): Ledger
    requires Possible(l, call)
  {
    if call.AddReward? then l.(rewards := l.rewards[call.reward.id := call.reward])
    else AwardAll(l, AttemptsOf(l, call))
  }

  // ---------- The ledger balances ----------

  function Rows(claims: seq<Claim>, id: RewardId): nat {
    if claims == [] then 0
    else Rows(claims[..|claims| - 1], id) + if claims[|claims| - 1].reward == id then 1 else 0
  }

  /** What a user should have received: the payments of the user's claims. */
  ghost function EarnedXp(rewards: map<RewardId, Reward>, claims: seq<Claim>, u: UserId): real {
    if claims == [] then 0.0
    else
      var c := claims[|claims| - 1];
      EarnedXp(rewards, claims[..|claims| - 1], u)
      + if c.user == u && c.reward in rewards && rewards[c.reward].payment.Xp? && rewards[c.reward].payment.amount > 0.0
        then rewards[c.reward].payment.amount else 0.0
  }

  ghost function EarnedCoins(rewards: map<RewardId, Reward>, claims: seq<Claim>, u: UserId): nat {
    if claims == [] then 0
    else
      var c := claims[|claims| - 1];
      EarnedCoins(rewards, claims[..|claims| - 1], u)
      + if c.user == u && c.reward in rewards && rewards[c.reward].payment.Coins?
        then rewards[c.reward].payment.coins else 0
  }

  /** Every count is the number of claim rows, and nobody claims a reward twice. */
  ghost predicate CountsBalance(l: Ledger) {
    && (forall id | id in l.rewards :: l.rewards[id].id == id && l.rewards[id].claimsCount == Rows(l.claims, id))
    && (forall c | c in l.claims :: c.reward in l.rewards)
    && (forall i, j | 0 <= i < j < |l.claims| :: l.claims[i] != l.claims[j])
  }

  /** Every balance is what the claims of its owner pay. */
  ghost predicate PaymentsBalance(l: Ledger) {
    && (forall u :: XpOf(l, u) == EarnedXp(l.rewards, l.claims, u))
    && (forall u :: CoinsOf(l, u) == EarnedCoins(l.rewards, l.claims, u))
  }

  predicate GrantedBy(rewards: map<RewardId, Reward>, c: Claim, b: (UserId, string)) {
    c.user == b.0 && c.reward in rewards && rewards[c.reward].payment == Grants(b.1)
  }

  /** The badges granted are those of the claims. */
  ghost predicate BadgesBalance(l: Ledger) {
    forall b :: b in l.badges <==> exists c :: c in l.claims && GrantedBy(l.rewards, c, b)
  }

  ghost predicate Balanced(l: Ledger) {
    CountsBalance(l) && PaymentsBalance(l) && BadgesBalance(l)
  }

  /** Claims grant the same badges under terms that differ in counts only. */
  lemma GrantedUnderSameTerms(rewards: map<RewardId, Reward>, later: map<RewardId, Reward>, claims: seq<Claim>)
    requires SameTerms(rewards, later) && forall c | c in claims :: c.reward in rewards
    ensures forall c, b | c in claims :: GrantedBy(rewards, c, b) <==> GrantedBy(later, c, b)
  {
  }

  /** Two versions of the reward table that differ in counts only, or in rewards not claimed. */
  ghost predicate SameTerms(rewards: map<RewardId, Reward>, later: map<RewardId, Reward>) {
    forall id | id in rewards ::
      id in later && rewards[id].payment == later[id].payment && rewards[id].criteria == later[id].criteria
      && rewards[id].maxWinners == later[id].maxWinners && rewards[id].claimsCount <= later[id].claimsCount
  }

  lemma {:induction false} EarnedUnderSameTerms(rewards: map<RewardId, Reward>, later: map<RewardId, Reward>,
                                                claims: seq<Claim>, u: UserId)
    requires SameTerms(rewards, later)
    requires forall c | c in claims :: c.reward in rewards
    ensures EarnedXp(rewards, claims, u) == EarnedXp(later, claims, u)
    ensures EarnedCoins(rewards, claims, u) == EarnedCoins(later, claims, u)
  {
    if claims != [] {
      assert claims[|claims| - 1] in claims;
      EarnedUnderSameTerms(rewards, later, claims[..|claims| - 1], u);
    }
  }

  lemma {:induction false} NoRowsYet(claims: seq<Claim>, id: RewardId)
    requires forall c | c in claims :: c.reward != id
    ensures Rows(claims, id) == 0
  {
    if claims != [] {
      assert claims[|claims| - 1] in claims;
      NoRowsYet(claims[..|claims| - 1], id);
    }
  }

  /** The snapshot an attempt carries has the terms of the stored reward; its count may be stale. */
  ghost predicate Current(l: Ledger, a: Attempt) {
    var r := a.reward;
    r.id in l.rewards && r.payment == l.rewards[r.id].payment && r.criteria == l.rewards[r.id].criteria
    && r.maxWinners == l.rewards[r.id].maxWinners && r.claimsCount <= l.rewards[r.id].claimsCount
  }

  lemma AwardTerms(l: Ledger, a: Attempt)
    ensures SameTerms(l.rewards, Award(l, a).rewards)
    ensures Award(l, a).rewards.Keys == l.rewards.Keys
  {
  }

  /** A payment touches neither the rewards nor the claims. */
  lemma AwardShape(l: Ledger, a: Attempt)
    ensures var after, id := Award(l, a), a.reward.id;
            || after == l
            || (&& id in l.rewards && !Claimed(l, id, a.user)
                && after.claims == l.claims + [Claim(id, a.user)]
                && after.rewards == l.rewards[id := l.rewards[id].(claimsCount := l.rewards[id].claimsCount + 1)])
  {
  }

  lemma RowsSnoc(claims: seq<Claim>, c: Claim, id: RewardId)
    ensures Rows(claims + [c], id) == Rows(claims, id) + if c.reward == id then 1 else 0
  {
    assert (claims + [c])[..|claims|] == claims;
  }

  lemma AwardKeepsCounts(l: Ledger, a: Attempt)
    requires CountsBalance(l)
    ensures CountsBalance(Award(l, a))
  {
    hide Award, Rows;
    AwardShape(l, a);
    var after, c := Award(l, a), Claim(a.reward.id, a.user);
    if after != l {
      forall id ensures Rows(after.claims, id) == Rows(l.claims, id) + if c.reward == id then 1 else 0 {
        RowsSnoc(l.claims, c, id);
      }
    }
  }

  lemma EarnedSnoc(rewards: map<RewardId, Reward>, claims: seq<Claim>, c: Claim, u: UserId)
    requires c.reward in rewards
    ensures var payment := rewards[c.reward].payment;
            && EarnedXp(rewards, claims + [c], u) == EarnedXp(rewards, claims, u)
               + (if c.user == u && payment.Xp? && payment.amount > 0.0 then payment.amount else 0.0)
            && EarnedCoins(rewards, claims + [c], u) == EarnedCoins(rewards, claims, u)
               + if c.user == u && payment.Coins? then payment.coins else 0
  {
    assert (claims + [c])[..|claims|] == claims;
  }

  lemma AwardPaysOne(l: Ledger, a: Attempt, u: UserId)
    requires Balanced(l) && Current(l, a)
    ensures var after := Award(l, a);
            && XpOf(after, u) == EarnedXp(after.rewards, after.claims, u)
            && CoinsOf(after, u) == EarnedCoins(after.rewards, after.claims, u)
  {
    hide Rows, EarnedXp, EarnedCoins, BadgesBalance;
    var after := Award(l, a);
    AwardShape(l, a);
    if after != l {
      AwardTerms(l, a);
      EarnedUnderSameTerms(l.rewards, after.rewards, l.claims, u);
      EarnedSnoc(after.rewards, l.claims, Claim(a.reward.id, a.user), u);
    }
  }

  lemma AwardKeepsPayments(l: Ledger, a: Attempt)
    requires Balanced(l) && Current(l, a)
    ensures PaymentsBalance(Award(l, a))
  {
    hide Award, Balanced, Current, XpOf, CoinsOf, EarnedXp, EarnedCoins;
    forall u ensures XpOf(Award(l, a), u) == EarnedXp(Award(l, a).rewards, Award(l, a).claims, u)
                  && CoinsOf(Award(l, a), u) == EarnedCoins(Award(l, a).rewards, Award(l, a).claims, u) {
      AwardPaysOne(l, a, u);
    }
  }

  lemma AwardKeepsBadges(l: Ledger, a: Attempt)
    requires CountsBalance(l) && BadgesBalance(l) && Current(l, a)
    ensures BadgesBalance(Award(l, a))
  {
    hide Rows;
    var after, c := Award(l, a), Claim(a.reward.id, a.user);
    if after.claims != l.claims {
      AwardTerms(l, a);
      GrantedUnderSameTerms(l.rewards, after.rewards, l.claims);
      assert after.claims == l.claims + [c];
      assert forall d :: d in after.claims <==> d in l.claims || d == c;
      forall b ensures b in after.badges <==> b in l.badges || GrantedBy(after.rewards, c, b) {
      }
      forall b ensures b in after.badges <==> exists d :: d in after.claims && GrantedBy(after.rewards, d, b) {
        if b in l.badges {
          var d :| d in l.claims && GrantedBy(l.rewards, d, b);
          assert d in after.claims && GrantedBy(after.rewards, d, b);
        } else if GrantedBy(after.rewards, c, b) {
          assert c in after.claims;
        }
      }
    }
  }

  lemma {:induction false} AwardAllBalances(l: Ledger, attempts: seq<Attempt>)
    requires Balanced(l) && forall a | a in attempts :: Current(l, a)
    ensures Balanced(AwardAll(l, attempts))
    ensures SameTerms(l.rewards, AwardAll(l, attempts).rewards)
    ensures AwardAll(l, attempts).rewards.Keys == l.rewards.Keys
  {
    if attempts != [] {
      var n := |attempts| - 1;
      AwardAllBalances(l, attempts[..n]);
      assert attempts[n] in attempts;
      AwardKeepsCounts(AwardAll(l, attempts[..n]), attempts[n]);
      AwardKeepsPayments(AwardAll(l, attempts[..n]), attempts[n]);
      AwardKeepsBadges(AwardAll(l, attempts[..n]), attempts[n]);
      AwardTerms(AwardAll(l, attempts[..n]), attempts[n]);
    }
  }

  // ---------- How many claims one call makes ----------

  /** The users to whom one call gives reward `id`. */
  ghost function Winners(l: Ledger, attempts: seq<Attempt>, id: RewardId): set<UserId> {
    set a | a in attempts && a.reward.id == id && !Capped(a.reward) && !Claimed(l, id, a.user) :: a.user
  }

  lemma WinnersSnoc(l: Ledger, attempts: seq<Attempt>, id: RewardId)
    requires attempts != []
    ensures var a := attempts[|attempts| - 1];
            Winners(l, attempts, id) ==
            Winners(l, attempts[..|attempts| - 1], id)
            + if a.reward.id == id && !Capped(a.reward) && !Claimed(l, id, a.user) then {a.user} else {}
  {
    var before, a := attempts[..|attempts| - 1], attempts[|attempts| - 1];
    assert forall b :: b in attempts <==> b in before || b == a;
  }

  /** The count of a reward grows by exactly its winners, and exactly they are added to the claims. */
  lemma {:induction false} AwardAllExactly(l: Ledger, attempts: seq<Attempt>, id: RewardId)
    requires id in l.rewards
    ensures var after := AwardAll(l, attempts);
            && id in after.rewards
            && after.rewards[id].claimsCount == l.rewards[id].claimsCount + |Winners(l, attempts, id)|
            && (forall u :: Claimed(after, id, u) <==> Claimed(l, id, u) || u in Winners(l, attempts, id))
  {
    if attempts != [] {
      var n := |attempts| - 1;
      AwardAllExactly(l, attempts[..n], id);
      WinnersSnoc(l, attempts, id);
      AwardOne(AwardAll(l, attempts[..n]), attempts[n], id);
    }
  }

  lemma AwardOne(l: Ledger, a: Attempt, id: RewardId)
    requires id in l.rewards
    ensures var after := Award(l, a);
            var hit := a.reward.id == id && !Capped(a.reward) && !Claimed(l, id, a.user);
            && id in after.rewards
            && after.rewards[id].claimsCount == l.rewards[id].claimsCount + (if hit then 1 else 0)
            && (forall u :: Claimed(after, id, u) <==> Claimed(l, id, u) || (hit && u == a.user))
  {
  }

  // ---------- Which attempts a caller makes ----------

  lemma {:induction false} AttemptsForContents(snapshot: seq<Reward>, u: UserId, test: Criteria -> bool)
    ensures forall a :: a in AttemptsFor(snapshot, u, test) <==>
              a.user == u && a.reward in snapshot && test(a.reward.criteria)
  {
    if snapshot != [] {
      var before, r := snapshot[..|snapshot| - 1], snapshot[|snapshot| - 1];
      AttemptsForContents(before, u, test);
      assert forall b :: b in snapshot <==> b in before || b == r;
    }
  }

  /** The user stands on the board at a rank that the criteria reward. */
  ghost predicate RankedFor(board: seq<UserId>, u: UserId, c: Criteria) {
    exists k | 0 <= k < |board| :: board[k] == u && Eligible(k + 1, c)
  }

  lemma {:induction false} BoardContents(snapshot: seq<Reward>, board: seq<UserId>)
    ensures forall a :: a in BoardAttempts(snapshot, board) <==>
              a.reward in snapshot && RankedFor(board, a.user, a.reward.criteria)
  {
    if board != [] {
      var n := |board| - 1;
      BoardContents(snapshot, board[..n]);
      AttemptsForContents(snapshot, board[n], RankTest(n + 1));
      forall u, c ensures RankedFor(board, u, c) <==>
                          RankedFor(board[..n], u, c) || (u == board[n] && Eligible(n + 1, c)) {
      }
    }
  }

  lemma FetchContents(l: Ledger, order: seq<RewardId>)
    requires IsListing(l, order) && CountsBalance(l)
    ensures forall r: Reward :: r in Fetch(l, order) <==> r.id in l.rewards && r == l.rewards[r.id]
  {
    var snapshot := Fetch(l, order);
    forall r: Reward | r.id in l.rewards && r == l.rewards[r.id] ensures r in snapshot {
      var i :| 0 <= i < |order| && order[i] == r.id;
      assert snapshot[i] == r;
    }
  }

  /** The users to whom a call may give a reward with these criteria. */
  ghost predicate Candidate(call: Call, u: UserId, c: Criteria) {
    match call
    case Complete(user, _) => u == user && c == COMPLETION
    case Distribute(board, _) => RankedFor(board, u, c)
    case AddReward(_) => false
  }

  /** A call tries every reward, as it is at the start, for every candidate. */
  lemma CallContents(l: Ledger, call: Call)
    requires Possible(l, call) && CountsBalance(l)
    ensures forall a :: a in AttemptsOf(l, call) <==>
              && a.reward.id in l.rewards && a.reward == l.rewards[a.reward.id]
              && Candidate(call, a.user, a.reward.criteria)
  {
    match call {
      case Complete(u, order) =>
        FetchContents(l, order);
        AttemptsForContents(Fetch(l, order), u, OnCompletion);
      case Distribute(board, order) =>
        FetchContents(l, order);
        BoardContents(Fetch(l, order), board);
      case AddReward(_) =>
    }
  }

  /** One call gives an uncapped reward to all candidates without a claim, and a capped one to nobody. */
  lemma CallWinners(l: Ledger, call: Call, id: RewardId)
    requires Possible(l, call) && CountsBalance(l) && id in l.rewards
    ensures forall u :: u in Winners(l, AttemptsOf(l, call), id) <==>
              !Capped(l.rewards[id]) && !Claimed(l, id, u) && Candidate(call, u, l.rewards[id].criteria)
  {
    CallContents(l, call);
    var attempts := AttemptsOf(l, call);
    forall u | !Capped(l.rewards[id]) && !Claimed(l, id, u) && Candidate(call, u, l.rewards[id].criteria)
      ensures u in Winners(l, attempts, id)
    {
      assert Attempt(l.rewards[id], u) in attempts;
    }
  }

  // ---------- Who gets what ----------

  /**
    A reward below its cap, or without one, goes to the first of the board if it is for the first,
    to the first three if it is for the podium, and to nobody in a distribution otherwise.
   */
  lemma ClaimsAfterDistribution(l: Ledger, board: seq<UserId>, order: seq<RewardId>, id: RewardId)
    requires Possible(l, Distribute(board, order)) && CountsBalance(l) && id in l.rewards
    ensures var r, after := l.rewards[id], Apply(l, Distribute(board, order));
            forall u :: Claim(id, u) in after.claims <==>
              || Claim(id, u) in l.claims
              || (&& (r.maxWinners == 0 || r.claimsCount < r.maxWinners)
                  && match r.criteria
                     case TOP_1 => |board| > 0 && u == board[0]
                     case TOP_3 => exists k | 0 <= k < |board| && k < 3 :: board[k] == u
                     case COMPLETION => false
                     case OTHER => false)
  {
    hide AttemptsOf, AwardAll, CountsBalance, IsListing;
    var call, r := Distribute(board, order), l.rewards[id];
    var after := Apply(l, call);
    AwardAllExactly(l, AttemptsOf(l, call), id);
    CallWinners(l, call, id);
    forall u ensures Claim(id, u) in after.claims <==> Claimed(l, id, u) || (!Capped(r) && RankedFor(board, u, r.criteria)) {
      assert Claim(id, u) in after.claims <==> Claimed(after, id, u);
    }
    forall u ensures RankedFor(board, u, TOP_1) <==> |board| > 0 && u == board[0] {
      if |board| > 0 && u == board[0] {
        assert Eligible(0 + 1, TOP_1);
      }
    }
    forall u ensures RankedFor(board, u, TOP_3) <==> exists k | 0 <= k < |board| && k < 3 :: board[k] == u {
      if k :| 0 <= k < |board| && k < 3 && board[k] == u {
        assert Eligible(k + 1, TOP_3);
      }
    }
  }

  /** A completed participation earns exactly the rewards for completion below their cap. */
  lemma ClaimsAfterCompletion(l: Ledger, user: UserId, order: seq<RewardId>, id: RewardId)
    requires Possible(l, Complete(user, order)) && CountsBalance(l) && id in l.rewards
    ensures var r, after := l.rewards[id], Apply(l, Complete(user, order));
            forall u :: Claim(id, u) in after.claims <==>
              || Claim(id, u) in l.claims
              || (&& u == user && r.criteria == COMPLETION
                  && (r.maxWinners == 0 || r.claimsCount < r.maxWinners))
  {
    hide AttemptsOf, AwardAll, CountsBalance, IsListing;
    var call, r := Complete(user, order), l.rewards[id];
    var after := Apply(l, call);
    AwardAllExactly(l, AttemptsOf(l, call), id);
    CallWinners(l, call, id);
    forall u ensures Claim(id, u) in after.claims <==>
                     Claimed(l, id, u) || (!Capped(r) && u == user && r.criteria == COMPLETION) {
      assert Claim(id, u) in after.claims <==> Claimed(after, id, u);
    }
  }

  // ---------- Caps ----------

  /** How far the count of a reward may exceed its cap. */
  function Slack(c: Criteria): nat {
    if c == TOP_3 then 2 else 0
  }

  ghost predicate RespectsCaps(l: Ledger) {
    forall id | id in l.rewards && l.rewards[id].maxWinners != 0 ::
      l.rewards[id].claimsCount <= l.rewards[id].maxWinners + Slack(l.rewards[id].criteria)
  }

  /** At most one winner of a completion or first-place reward per call, at most three of a podium reward. */
  lemma FewWinners(l: Ledger, call: Call, id: RewardId)
    requires Possible(l, call) && CountsBalance(l) && id in l.rewards
    ensures |Winners(l, AttemptsOf(l, call), id)| <= 1 + Slack(l.rewards[id].criteria)
  {
    CallWinners(l, call, id);
    var winners := Winners(l, AttemptsOf(l, call), id);
    match call {
      case Complete(u, _) =>
        assert winners <= {u};
        SubsetSize(winners, {u});
      case Distribute(board, _) =>
        if l.rewards[id].criteria == TOP_3 {
          var podium := if |board| < 3 then board else board[..3];
          assert forall u | u in winners :: u in podium;
          Few(winners, podium);
        } else if board != [] {
          assert winners <= {board[0]};
          SubsetSize(winners, {board[0]});
        } else {
          assert winners == {};
        }
      case AddReward(_) =>
        assert winners == {};
    }
  }

  lemma {:induction false} Few(users: set<UserId>, listed: seq<UserId>)
    requires forall u | u in users :: u in listed
    ensures |users| <= |listed|
    decreases |listed|
  {
    if listed == [] {
      assert users == {};
    } else {
      var last := listed[|listed| - 1];
      Few(users - {last}, listed[..|listed| - 1]);
      assert users <= (users - {last}) + {last};
      SubsetSize(users, (users - {last}) + {last});
    }
  }

  lemma AddedKeepsBadges(l: Ledger, reward: Reward)
    requires CountsBalance(l) && BadgesBalance(l) && reward.id !in l.rewards
    ensures BadgesBalance(l.(rewards := l.rewards[reward.id := reward]))
  {
    hide Rows;
    GrantedUnderSameTerms(l.rewards, l.rewards[reward.id := reward], l.claims);
  }

  lemma CallStep(l: Ledger, call: Call)
    requires Possible(l, call) && Balanced(l) && RespectsCaps(l)
    ensures Balanced(Apply(l, call)) && RespectsCaps(Apply(l, call))
    ensures SameTerms(l.rewards, Apply(l, call).rewards)
  {
    var after := Apply(l, call);
    if call.AddReward? {
      NoRowsYet(l.claims, call.reward.id);
      AddedKeepsBadges(l, call.reward);
      forall u ensures XpOf(after, u) == EarnedXp(after.rewards, after.claims, u)
                    && CoinsOf(after, u) == EarnedCoins(after.rewards, after.claims, u) {
        EarnedUnderSameTerms(l.rewards, after.rewards, l.claims, u);
      }
    } else {
      var attempts := AttemptsOf(l, call);
      CallContents(l, call);
      AwardAllBalances(l, attempts);
      forall id | id in after.rewards && after.rewards[id].maxWinners != 0
        ensures after.rewards[id].claimsCount <= after.rewards[id].maxWinners + Slack(after.rewards[id].criteria)
      {
        AwardAllExactly(l, attempts, id);
        FewWinners(l, call, id);
        CallWinners(l, call, id);
        if Capped(l.rewards[id]) {
          assert Winners(l, attempts, id) == {};
        }
      }
    }
  }

  // ---------- Runs ----------

  ghost predicate PossibleRun(l: Ledger, calls: seq<Call>)
    decreases |calls|
  {
    calls == [] || (Possible(l, calls[0]) && PossibleRun(Apply(l, calls[0]), calls[1..]))
  }

  ghost function Run(l: Ledger, calls: seq<Call>): Ledger
    requires PossibleRun(l, calls)
    decreases |calls|
  {
    if calls == [] then l else Run(Apply(l, calls[0]), calls[1..])
  }

  /** Over every run the ledger balances, and no cap is exceeded by more than its slack. */
  lemma {:induction false} LedgerOverRuns(l: Ledger, calls: seq<Call>)
    requires PossibleRun(l, calls) && Balanced(l) && RespectsCaps(l)
    ensures Balanced(Run(l, calls)) && RespectsCaps(Run(l, calls))
    decreases |calls|
  {
    if calls != [] {
      CallStep(l, calls[0]);
      LedgerOverRuns(Apply(l, calls[0]), calls[1..]);
    }
  }

  // ---------- Distributing rewards ----------

  /** The first three users of the board who have no claim on the reward yet. */
  ghost function NewOnPodium(l: Ledger, board: seq<UserId>, id: RewardId): set<UserId> {
    set u | u in (if |board| < 3 then board else board[..3]) && !Claimed(l, id, u)
  }

  /**
    A podium reward exceeds its cap in one distribution if and only if it was below the cap and
    has fewer places left than there are new users on the podium.
   */
  lemma PodiumOvershoot(l: Ledger, board: seq<UserId>, order: seq<RewardId>, id: RewardId)
    requires Possible(l, Distribute(board, order)) && CountsBalance(l)
    requires id in l.rewards && l.rewards[id].criteria == TOP_3 && l.rewards[id].maxWinners != 0
    ensures var r, n := l.rewards[id], |NewOnPodium(l, board, id)|;
            var after := Apply(l, Distribute(board, order)).rewards;
            && id in after
            && after[id].claimsCount == (if Capped(r) then r.claimsCount else r.claimsCount + n)
            && (!Capped(r) ==>
                  (after[id].claimsCount > r.maxWinners <==> r.maxWinners - r.claimsCount < n))
  {
    var call := Distribute(board, order);
    var attempts := AttemptsOf(l, call);
    CallWinners(l, call, id);
    AwardAllExactly(l, attempts, id);
    if Capped(l.rewards[id]) {
      assert Winners(l, attempts, id) == {};
    } else {
      forall u ensures RankedFor(board, u, TOP_3) <==> u in (if |board| < 3 then board else board[..3]) {
        if u in (if |board| < 3 then board else board[..3]) {
          var k :| 0 <= k < |board| && k < 3 && board[k] == u;
          assert Eligible(k + 1, TOP_3);
        }
      }
      assert Winners(l, attempts, id) == NewOnPodium(l, board, id);
    }
  }

  /** A new podium reward for one winner, and three users on the board: three winners. */
  lemma CapExceededByTwo(l: Ledger)
    requires CountsBalance(l) && l.claims == [] && l.rewards == map["r" := Reward("r", TOP_3, 1, 0, Nothing)]
    ensures Possible(l, Distribute(["a", "b", "c"], ["r"]))
    ensures var after := Apply(l, Distribute(["a", "b", "c"], ["r"])).rewards;
            "r" in after && after["r"].claimsCount == after["r"].maxWinners + 2
  {
    hide AttemptsOf, AwardAll, CountsBalance;
    var board := ["a", "b", "c"];
    PodiumOvershoot(l, board, ["r"], "r");
    assert board[..3] == board && forall u :: !Claimed(l, "r", u);
    assert board[0] in board && board[1] in board && board[2] in board;
    assert forall u :: u in NewOnPodium(l, board, "r") <==> u in {"a", "b", "c"};
    assert NewOnPodium(l, board, "r") == {"a", "b", "c"};
    CapIsKept(l, Distribute(board, ["r"]), "r");
  }

  /** No call changes the cap of a reward. */
  lemma CapIsKept(l: Ledger, call: Call, id: RewardId)
    requires Possible(l, call) && id in l.rewards
    ensures id in Apply(l, call).rewards && Apply(l, call).rewards[id].maxWinners == l.rewards[id].maxWinners
  {
    hide AttemptsOf;
    if !call.AddReward? {
      AwardAllKeepsCaps(l, AttemptsOf(l, call), id);
    }
  }

  lemma {:induction false} AwardAllKeepsCaps(l: Ledger, attempts: seq<Attempt>, id: RewardId)
    requires id in l.rewards
    ensures id in AwardAll(l, attempts).rewards && AwardAll(l, attempts).rewards[id].maxWinners == l.rewards[id].maxWinners
  {
    hide Award;
    if attempts != [] {
      var before := AwardAll(l, attempts[..|attempts| - 1]);
      AwardAllKeepsCaps(l, attempts[..|attempts| - 1], id);
      AwardTerms(before, attempts[|attempts| - 1]);
    }
  }

  lemma {:induction false} NothingLeftToAward(l: Ledger, attempts: seq<Attempt>)
    requires forall a | a in attempts :: Claimed(l, a.reward.id, a.user) || Capped(a.reward)
    ensures AwardAll(l, attempts) == l
  {
    if attempts != [] {
      NothingLeftToAward(l, attempts[..|attempts| - 1]);
      assert attempts[|attempts| - 1] in attempts;
    }
  }

  /** A second distribution on the same leaderboard awards nothing, in whatever order it reads the rewards. */
  lemma SecondDistributionIsIdle(l: Ledger, board: seq<UserId>, order: seq<RewardId>, again: seq<RewardId>)
    requires Possible(l, Distribute(board, order)) && Balanced(l)
    requires Possible(Apply(l, Distribute(board, order)), Distribute(board, again))
    ensures Apply(Apply(l, Distribute(board, order)), Distribute(board, again)) == Apply(l, Distribute(board, order))
  {
    var first, second := Distribute(board, order), Distribute(board, again);
    var attempts := AttemptsOf(l, first);
    var after := Apply(l, first);
    CallContents(l, first);
    AwardAllBalances(l, attempts);
    CallContents(after, second);
    forall a | a in AttemptsOf(after, second) ensures Claimed(after, a.reward.id, a.user) || Capped(a.reward) {
      var id := a.reward.id;
      AwardAllExactly(l, attempts, id);
      CallWinners(l, first, id);
    }
    NothingLeftToAward(after, AttemptsOf(after, second));
  }
}
