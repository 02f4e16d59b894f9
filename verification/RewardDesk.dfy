/**
  The reward side of the event service on mutable state: `awardSingleReward` and the two loops
  that call it.
 */
module RewardDesk {

  import opened Wrappers
  import opened EventRewards

  lemma AwardAllSnoc(l: Ledger, attempts: seq<Attempt>, a: Attempt)
    ensures AwardAll(l, attempts + [a]) == Award(AwardAll(l, attempts), a)
  {
    assert (attempts + [a])[..|attempts|] == attempts;
  }

  lemma AttemptsSnoc(snapshot: seq<Reward>, k: nat, u: UserId, test: Criteria -> bool)
    requires k < |snapshot|
    ensures AttemptsFor(snapshot[..k + 1], u, test) ==
            if test(snapshot[k].criteria) then AttemptsFor(snapshot[..k], u, test) + [Attempt(snapshot[k], u)]
            else AttemptsFor(snapshot[..k], u, test)
  {
    assert snapshot[..k + 1][..k] == snapshot[..k];
  }

  /** One more reward of the snapshot that passes the test is one more award. */
  lemma OneMoreAttempt(start: Ledger, done: seq<Attempt>, snapshot: seq<Reward>, k: nat, u: UserId, test: Criteria -> bool)
    requires k < |snapshot| && test(snapshot[k].criteria)
    ensures AwardAll(start, done + AttemptsFor(snapshot[..k + 1], u, test)) ==
            Award(AwardAll(start, done + AttemptsFor(snapshot[..k], u, test)), Attempt(snapshot[k], u))
  {
    hide Award, AwardAll, AttemptsFor;
    AttemptsSnoc(snapshot, k, u, test);
    var before := done + AttemptsFor(snapshot[..k], u, test);
    AwardAllSnoc(start, before, Attempt(snapshot[k], u));
    assert before + [Attempt(snapshot[k], u)] == done + AttemptsFor(snapshot[..k + 1], u, test);
  }

  class RewardDesk {
    var rewards: map<RewardId, Reward>
    var claims: seq<Claim>
    var xp: map<UserId, real>
    var coins: map<UserId, nat>
    var badges: set<(UserId, string)>

    function Books(): Ledger
      reads this
    {
      Ledger(rewards, claims, xp, coins, badges)
    }

    /** The books balance and no cap is exceeded by more than its slack. */
    ghost predicate Valid()
      reads this
    {
      Balanced(Books()) && RespectsCaps(Books())
    }

    constructor ()
      ensures Valid() && Books() == Ledger(map[], [], map[], map[], {})
    {
      rewards, claims, xp, coins, badges := map[], [], map[], map[], {};
    }

    /** `addReward`, the ledger part */
    method AddReward(reward: Reward)
      requires Valid() && Possible(Books(), EventRewards.AddReward(reward))
      modifies this
      ensures Valid() && Books() == Apply(old(Books()), EventRewards.AddReward(reward))
      ensures rewards == old(rewards)[reward.id := reward]
      ensures claims == old(claims) && xp == old(xp) && coins == old(coins) && badges == old(badges)
    {
      CallStep(Books(), EventRewards.AddReward(reward));
      rewards := rewards[reward.id := reward];
    }

    /** `awardSingleReward`: `reward` is the caller's snapshot, not necessarily the current row. */
    method AwardSingleReward(reward: Reward, u: UserId) returns (claim: Option<Claim>)
      requires reward.id in rewards
      modifies this
      ensures Books() == Award(old(Books()), Attempt(reward, u))
      ensures claim.Some? <==> claims == old(claims) + [Claim(reward.id, u)]
      ensures claim == None ==> claims == old(claims)
      // awarded exactly if the user has no claim yet and the snapshot is below its cap, or has none
      ensures claim.Some? <==> Claim(reward.id, u) !in old(claims)
                               && (reward.maxWinners == 0 || reward.claimsCount < reward.maxWinners)
      ensures claim.Some? ==> claim.value == Claim(reward.id, u)
      // the stored count grows by one, and the payment of the snapshot goes to the user alone
      ensures rewards == if claim == None then old(rewards)
                         else old(rewards)[reward.id := old(rewards)[reward.id].(claimsCount := old(rewards)[reward.id].claimsCount + 1)]
      ensures xp == if claim == None || !reward.payment.Xp? || reward.payment.amount <= 0.0 then old(xp)
                    else old(xp)[u := (if u in old(xp) then old(xp)[u] else 0.0) + reward.payment.amount]
      ensures coins == if claim == None || !reward.payment.Coins? then old(coins)
                       else old(coins)[u := (if u in old(coins) then old(coins)[u] else 0) + reward.payment.coins]
      ensures badges == if claim == None || !reward.payment.Grants? then old(badges)
                        else old(badges) + {(u, reward.payment.badge)}
    {
      if Claim(reward.id, u) in claims {
        return None;
      }
      if reward.maxWinners != 0 && reward.claimsCount >= reward.maxWinners {
        return None;
      }
      claims := claims + [Claim(reward.id, u)];
      var row := rewards[reward.id];
      rewards := rewards[reward.id := row.(claimsCount := row.claimsCount + 1)];
      match reward.payment {
        case Xp(amount) =>
          if amount > 0.0 {
            xp := xp[u := (if u in xp then xp[u] else 0.0) + amount];
          }
        case Coins(amount) =>
          coins := coins[u := (if u in coins then coins[u] else 0) + amount];
        case Grants(badge) =>
          badges := badges + {(u, badge)};
        case Nothing =>
      }
      claim := Some(Claim(reward.id, u));
    }

    /** The inner loop of both callers: try the rewards of a snapshot that pass a test, for one user. */
    method AwardForUser(snapshot: seq<Reward>, u: UserId, test: Criteria -> bool,
                        ghost start: Ledger, ghost done: seq<Attempt>) returns (count: nat)
      requires forall r | r in snapshot :: r.id in rewards
      requires Books() == AwardAll(start, done)
      modifies this
      ensures rewards.Keys == old(rewards.Keys)
      ensures Books() == AwardAll(start, done + AttemptsFor(snapshot, u, test))
      ensures count == |claims| - |old(claims)|
    {
      count := 0;
      assert AttemptsFor(snapshot[..0], u, test) == [];
      assert done + [] == done;
      hide Award, AwardAll, AttemptsFor, SameTerms;
      for k := 0 to |snapshot|
        invariant rewards.Keys == old(rewards.Keys)
        invariant Books() == AwardAll(start, done + AttemptsFor(snapshot[..k], u, test))
        invariant count == |claims| - |old(claims)|
      {
        var reward := snapshot[k];
        if test(reward.criteria) {
          OneMoreAttempt(start, done, snapshot, k, u, test);
          AwardTerms(Books(), Attempt(reward, u));
          var claim := AwardSingleReward(reward, u);
          if claim.Some? {
            count := count + 1;
          }
        } else {
          AttemptsSnoc(snapshot, k, u, test);
        }
      }
      assert snapshot[..|snapshot|] == snapshot;
    }

    lemma SnapshotIds(order: seq<RewardId>)
      requires CountsBalance(Books()) && IsListing(Books(), order)
      ensures forall r | r in Fetch(Books(), order) :: r.id in rewards
    {
      FetchContents(Books(), order);
    }

    lemma CompletionClaims(u: UserId, order: seq<RewardId>)
      requires Valid() && IsListing(Books(), order)
      ensures forall id, v | id in rewards :: Claim(id, v) in Apply(Books(), Complete(u, order)).claims <==>
                || Claim(id, v) in claims
                || (&& v == u && rewards[id].criteria == COMPLETION
                    && (rewards[id].maxWinners == 0 || rewards[id].claimsCount < rewards[id].maxWinners))
    {
      hide Apply, CountsBalance, PaymentsBalance, BadgesBalance, RespectsCaps, IsListing;
      forall id | id in rewards {
        ClaimsAfterCompletion(Books(), u, order, id);
      }
    }

    lemma DistributionClaims(board: seq<UserId>, order: seq<RewardId>)
      requires Valid() && Possible(Books(), Distribute(board, order))
      ensures forall id, v | id in rewards :: Claim(id, v) in Apply(Books(), Distribute(board, order)).claims <==>
                || Claim(id, v) in claims
                || (&& (rewards[id].maxWinners == 0 || rewards[id].claimsCount < rewards[id].maxWinners)
                    && match rewards[id].criteria
                       case TOP_1 => |board| > 0 && v == board[0]
                       case TOP_3 => exists k | 0 <= k < |board| && k < 3 :: board[k] == v
                       case COMPLETION => false
                       case OTHER => false)
    {
      hide Apply, CountsBalance, PaymentsBalance, BadgesBalance, RespectsCaps, Possible;
      forall id | id in rewards {
        ClaimsAfterDistribution(Books(), board, order, id);
      }
    }

    /** The loop at the end of `submitProgress`, run when the participation is complete. */
    method AwardCompletion(u: UserId, order: seq<RewardId>) returns (awarded: nat)
      requires Valid() && IsListing(Books(), order)
      modifies this
      ensures Valid() && Books() == Apply(old(Books()), Complete(u, order))
      ensures awarded == |claims| - |old(claims)|
      ensures forall id, v | id in old(rewards) :: Claim(id, v) in claims <==>
                || Claim(id, v) in old(claims)
                || (&& v == u && old(rewards)[id].criteria == COMPLETION
                    && (old(rewards)[id].maxWinners == 0 || old(rewards)[id].claimsCount < old(rewards)[id].maxWinners))
    {
      CompletionClaims(u, order);
      hide Balanced, RespectsCaps, Award, CountsBalance, IsListing;
      CallStep(Books(), Complete(u, order));
      assert CountsBalance(Books()) by {
        BalancedCounts(Books());
      }
      SnapshotIds(order);
      assert forall id | id in order :: id in rewards by {
        ListedRewards(Books(), order);
      }
      var snapshot := Fetch(Books(), order);
      awarded := AwardForUser(snapshot, u, OnCompletion, Books(), []);
      assert [] + AttemptsFor(snapshot, u, OnCompletion) == AttemptsFor(snapshot, u, OnCompletion);
    }

    /** `distributeRewards`, with the ranked users and the rewards as the database returns them. */
    method DistributeRewards(board: seq<UserId>, order: seq<RewardId>) returns (distributedCount: nat)
      requires Valid() && Possible(Books(), Distribute(board, order))
      modifies this
      ensures Valid() && Books() == Apply(old(Books()), Distribute(board, order))
      ensures distributedCount == |claims| - |old(claims)|
      ensures forall id, v | id in old(rewards) :: Claim(id, v) in claims <==>
                || Claim(id, v) in old(claims)
                || (&& (old(rewards)[id].maxWinners == 0 || old(rewards)[id].claimsCount < old(rewards)[id].maxWinners)
                    && match old(rewards)[id].criteria
                       case TOP_1 => |board| > 0 && v == board[0]
                       case TOP_3 => exists k | 0 <= k < |board| && k < 3 :: board[k] == v
                       case COMPLETION => false
                       case OTHER => false)
    {
      DistributionClaims(board, order);
      hide Balanced, RespectsCaps, Award, CountsBalance, IsListing, RankTest;
      CallStep(Books(), Distribute(board, order));
      assert CountsBalance(Books()) by {
        BalancedCounts(Books());
      }
      SnapshotIds(order);
      assert forall id | id in order :: id in rewards by {
        ListedRewards(Books(), order);
      }
      var snapshot := Fetch(Books(), order);
      distributedCount := 0;
      for i := 0 to |board|
        invariant rewards.Keys == old(rewards.Keys)
        invariant Books() == AwardAll(old(Books()), BoardAttempts(snapshot, board[..i]))
        invariant distributedCount == |claims| - |old(claims)|
      {
        var rank := i + 1;
        BoardAttemptsSnoc(snapshot, board, i);
        var n := AwardForUser(snapshot, board[i], RankTest(rank), old(Books()), BoardAttempts(snapshot, board[..i]));
        distributedCount := distributedCount + n;
      }
      assert board[..|board|] == board;
    }
  }

  lemma BalancedCounts(l: Ledger)
    requires Balanced(l)
    ensures CountsBalance(l)
  {
  }

  lemma ListedRewards(l: Ledger, order: seq<RewardId>)
    requires IsListing(l, order)
    ensures forall id | id in order :: id in l.rewards
  {
  }

  lemma BoardAttemptsSnoc(snapshot: seq<Reward>, board: seq<UserId>, i: nat)
    requires i < |board|
    ensures BoardAttempts(snapshot, board[..i + 1]) ==
            BoardAttempts(snapshot, board[..i]) + AttemptsFor(snapshot, board[i], RankTest(i + 1))
  {
    assert board[..i + 1][..i] == board[..i];
  }
}
