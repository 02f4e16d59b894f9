/**
  Concurrent registrations: `participateInEvent` reads the event and the participation row first
  and writes later.  Here the two halves are separate steps, and other requests run in between.
 */
module EventInterleaving {

  import opened EventQueue
  import opened EventSeats
  import opened Wrappers

  /** What a request has read: whether the event was full, and the status of the user's row. */
  datatype Pending = Pending(user: UserId, full: bool, existing: Option<Status>)

  datatype System = System(s: State, pending: map<nat, Pending>)

  datatype Step =
    | Begin(req: nat, user: UserId, now: int, tier: Tier)
    | Commit(req: nat, now: int)
    | Whole(call: Call)

  /** A cancellation, a submission or an event status change, taken as one step. */
  predicate IsWhole(call: Call) {
    call.Cancel? || call.AdminCancel? || call.Submit? || call.SetStatus?
  }

  predicate Enabled(c: Config, y: System, step: Step) {
    match step
    case Begin(req, _, _, _) => req !in y.pending
    case Commit(req, _) => req in y.pending
    case Whole(call) => IsWhole(call) && Possible(c, y.s, call)
  }

  /**
    The second half of a registration.  A new row is refused by the uniqueness of (event, user)
    when the user got one in the meantime; a cancelled row is written over whatever it is now.
   */
  function CommitJoin(c: Config, s: State, p: Pending, now: int): State {
    if (p.existing == None && p.user in s.rows) || (p.existing.Some? && p.existing.value != CANCELLED) then s
    else if !p.full then s.(rows := s.rows[p.user := Placed(s, p.user, now, REGISTERED, None)], count := s.count + 1)
    else if WaitlistHasRoom(c, s.rows) then
      s.(rows := s.rows[p.user := Placed(s, p.user, now, WAITLIST, Some(Waiting(s.rows) + 1))])
    else s
  }

  function Next(c: Config, y: System, step: Step): System
    requires Enabled(c, y, step)
  {
    match step
    case Begin(req, user, now, tier) =>
      if MayJoin(c, y.s, now, tier) then
        var existing := if user in y.s.rows then Some(y.s.rows[user].status) else None;
        y.(pending := y.pending[req := Pending(user, Full(c, y.s.count), existing)])
      else y
    case Commit(req, now) =>
      System(CommitJoin(c, y.s, y.pending[req], now), y.pending - {req})
    case Whole(call) => y.(s := Apply(c, y.s, call))
  }

  /** A request that has seen a free seat and is going to take it. */
  predicate Claims(p: Pending) {
    !p.full && (p.existing == None || p.existing == Some(CANCELLED))
  }

  function Claiming(pending: map<nat, Pending>): set<nat> {
    set r | r in pending && Claims(pending[r])
  }

  /** A run in which at most `k` requests hold a claim at any time. */
  ghost predicate Bounded(c: Config, y: System, steps: seq<Step>, k: nat)
    decreases |steps|
  {
    && |Claiming(y.pending)| <= k
    && (steps == [] || (Enabled(c, y, steps[0]) && Bounded(c, Next(c, y, steps[0]), steps[1..], k)))
  }

  ghost function Outcome(c: Config, y: System, steps: seq<Step>, k: nat): System
    requires Bounded(c, y, steps, k)
    decreases |steps|
  {
    if steps == [] then y else Outcome(c, Next(c, y, steps[0]), steps[1..], k)
  }

  // ---------- What a run does besides taking and giving back seats ----------

  /** A commit that writes over a row which has got a seat since it was read as cancelled. */
  predicate Overwrites(c: Config, s: State, p: Pending) {
    && p.existing == Some(CANCELLED) && p.user in s.rows && Seated(s.rows[p.user].status)
    && (p.full ==> WaitlistHasRoom(c, s.rows))
  }

  /** The tally of a run of steps: that of its whole calls, and the commits that wrote over a seat. */
  datatype JointTally = JointTally(calls: Tally, overwrites: nat)

  function CountStep(t: JointTally, c: Config, y: System, step: Step): JointTally
    requires Enabled(c, y, step)
  {
    match step
    case Begin(_, _, _, _) => t
    case Commit(req, _) => if Overwrites(c, y.s, y.pending[req]) then t.(overwrites := t.overwrites + 1) else t
    case Whole(call) => t.(calls := Count(t.calls, c, y.s, call))
  }

  ghost function JointTallyOf(t: JointTally, c: Config, y: System, steps: seq<Step>, k: nat): JointTally
    requires Bounded(c, y, steps, k)
    decreases |steps|
  {
    if steps == [] then t else JointTallyOf(CountStep(t, c, y, steps[0]), c, Next(c, y, steps[0]), steps[1..], k)
  }

  // ---------- One request alone ----------

  /** A registration whose two halves are not interrupted is the atomic call. */
  lemma UninterruptedJoin(c: Config, y: System, req: nat, u: UserId, now: int, tier: Tier)
    requires req !in y.pending && MayJoin(c, y.s, now, tier)
    ensures var begun := Next(c, y, Begin(req, u, now, tier));
            && Enabled(c, begun, Commit(req, now))
            && Next(c, begun, Commit(req, now)) ==
               System(Apply(c, y.s, Participate(u, now, tier)), y.pending)
  {
    assert y.pending[req := Pending(u, Full(c, y.s.count),
             if u in y.s.rows then Some(y.s.rows[u].status) else None)] - {req} == y.pending;
  }

  // ---------- The bound ----------

  /** Seats taken plus seats claimed, less the participations that submissions have created. */
  ghost predicate WithinBound(t: JointTally, c: Config, y: System, k: nat) {
    y.s.count + |Claiming(y.pending)| <= c.maxParticipants + k - 1 + t.calls.implicitJoins
  }

  lemma CommitTakesOneSeat(c: Config, s: State, p: Pending, now: int)
    ensures CommitJoin(c, s, p, now).count <= s.count + if Claims(p) then 1 else 0
  {
  }

  lemma WholeTakesNoSeat(t: Tally, c: Config, s: State, call: Call)
    requires IsWhole(call) && Possible(c, s, call)
    ensures Apply(c, s, call).count <= s.count + Count(t, c, s, call).implicitJoins - t.implicitJoins
  {
  }

  lemma ClaimsAfterWrite(pending: map<nat, Pending>, req: nat, p: Pending)
    requires req !in pending
    ensures |Claiming(pending[req := p])| == |Claiming(pending)| + if Claims(p) then 1 else 0
  {
    assert Claiming(pending[req := p]) == if Claims(p) then Claiming(pending) + {req} else Claiming(pending);
  }

  lemma ClaimsAfterRemoval(pending: map<nat, Pending>, req: nat)
    requires req in pending
    ensures |Claiming(pending - {req})| == |Claiming(pending)| - if Claims(pending[req]) then 1 else 0
  {
    assert Claiming(pending - {req}) == Claiming(pending) - {req};
  }

  lemma BoundStep(t: JointTally, c: Config, y: System, step: Step, k: nat)
    requires c.maxParticipants >= 1 && Enabled(c, y, step)
    requires WithinBound(t, c, y, k) && |Claiming(Next(c, y, step).pending)| <= k
    ensures WithinBound(CountStep(t, c, y, step), c, Next(c, y, step), k)
  {
    hide Apply, Count, CommitJoin, Claiming, MayJoin;
    match step {
      case Begin(req, user, now, tier) =>
        if MayJoin(c, y.s, now, tier) {
          ClaimsAfterWrite(y.pending, req, Next(c, y, step).pending[req]);
        }
      case Commit(req, now) =>
        CommitTakesOneSeat(c, y.s, y.pending[req], now);
        ClaimsAfterRemoval(y.pending, req);
      case Whole(call) =>
        WholeTakesNoSeat(t.calls, c, y.s, call);
    }
  }

  /**
    With at most k claims at a time the counter never exceeds maxParticipants + k - 1 by more than
    the participations that submissions create without a capacity test, whatever the interleaving
    of registrations, cancellations and submissions.
   */
  lemma {:induction false} OverbookingBound(t: JointTally, c: Config, y: System, steps: seq<Step>, k: nat)
    requires c.maxParticipants >= 1 && k >= 1
    requires WithinBound(t, c, y, k) && Bounded(c, y, steps, k)
    ensures WithinBound(JointTallyOf(t, c, y, steps, k), c, Outcome(c, y, steps, k), k)
    ensures Outcome(c, y, steps, k).s.count <=
            c.maxParticipants + k - 1 + JointTallyOf(t, c, y, steps, k).calls.implicitJoins
    decreases |steps|
  {
    if steps != [] {
      BoundStep(t, c, y, steps[0], k);
      OverbookingBound(CountStep(t, c, y, steps[0]), c, Next(c, y, steps[0]), steps[1..], k);
    }
  }

  /** Without submissions by newcomers, and so in every event that is not open, the bound is plain. */
  lemma {:induction false} NoImplicitJoins(t: JointTally, c: Config, y: System, steps: seq<Step>, k: nat)
    requires Bounded(c, y, steps, k) && !c.open
    ensures JointTallyOf(t, c, y, steps, k).calls.implicitJoins == t.calls.implicitJoins
    decreases |steps|
  {
    if steps != [] {
      NoImplicitJoins(CountStep(t, c, y, steps[0]), c, Next(c, y, steps[0]), steps[1..], k);
    }
  }

  // ---------- The bound is attained ----------

  lemma {:induction false} Extend(c: Config, y: System, steps: seq<Step>, k: nat, step: Step)
    requires Bounded(c, y, steps, k)
    requires var z := Outcome(c, y, steps, k); Enabled(c, z, step) && |Claiming(Next(c, z, step).pending)| <= k
    ensures Bounded(c, y, steps + [step], k)
    ensures Outcome(c, y, steps + [step], k) == Next(c, Outcome(c, y, steps, k), step)
    decreases |steps|
  {
    if steps == [] {
      assert [step][1..] == [];
    } else {
      Extend(c, Next(c, y, steps[0]), steps[1..], k, step);
      assert (steps + [step])[1..] == steps[1..] + [step];
    }
  }

  const START := System(EMPTY.(status := ACTIVE), map[])

  function Seat(c: Config): Participation {
    Participation(REGISTERED, None, Early(c), 0.0, 0)
  }

  lemma TakeSeat(c: Config, s: State, n: nat)
    requires FreshFrom(s.rows, n)
    ensures var p := Pending(Name(n), false, None);
            var t := CommitJoin(c, s, p, Early(c));
            t == s.(rows := s.rows[Name(n) := Seat(c)], count := s.count + 1) && FreshFrom(t.rows, n + 1)
  {
    FreshAfter(s.rows, n, Seat(c));
  }

  /** The claims of requests lo..hi-1, one user each. */
  function Claimed(base: nat, lo: nat, hi: nat): map<nat, Pending> {
    if lo >= hi then map[]
    else Claimed(base, lo, hi - 1)[hi - 1 := Pending(Name(base + hi - 1), false, None)]
  }

  lemma {:induction false} ClaimedSize(base: nat, lo: nat, hi: nat)
    requires lo <= hi
    ensures |Claiming(Claimed(base, lo, hi))| == hi - lo
    ensures forall r | r in Claimed(base, lo, hi) :: lo <= r < hi
    decreases hi - lo
  {
    if lo == hi {
      assert Claiming(map[]) == {};
    } else {
      ClaimedSize(base, lo, hi - 1);
      ClaimsAfterWrite(Claimed(base, lo, hi - 1), hi - 1, Pending(Name(base + hi - 1), false, None));
    }
  }

  lemma {:induction false} ClaimedFirst(base: nat, lo: nat, hi: nat)
    requires lo < hi
    ensures lo in Claimed(base, lo, hi) && Claimed(base, lo, hi)[lo] == Pending(Name(base + lo), false, None)
    ensures Claimed(base, lo, hi) - {lo} == Claimed(base, lo + 1, hi)
    decreases hi - lo
  {
    if lo + 1 < hi {
      ClaimedFirst(base, lo, hi - 1);
    }
  }

  /** n users take a seat each, one after the other. */
  lemma {:induction false} Fill(c: Config, k: nat, n: nat) returns (steps: seq<Step>)
    requires n < c.maxParticipants && k >= 1
    ensures Bounded(c, START, steps, k)
    ensures var z := Outcome(c, START, steps, k);
            && z.s.status == ACTIVE && z.s.count == n && z.pending == map[] && FreshFrom(z.s.rows, n)
  {
    assert Claiming(map[]) == {};
    if n == 0 {
      steps := [];
    } else {
      var before := Fill(c, k, n - 1);
      var z := Outcome(c, START, before, k);
      var begin := Begin(0, Name(n - 1), Early(c), VIP);
      var y := Next(c, z, begin);
      assert y.pending == map[0 := Pending(Name(n - 1), false, None)];
      assert Claiming(y.pending) == {0};
      Extend(c, START, before, k, begin);
      TakeSeat(c, z.s, n - 1);
      assert y.pending - {0} == map[];
      Extend(c, START, before + [begin], k, Commit(0, Early(c)));
      steps := before + [begin] + [Commit(0, Early(c))];
    }
  }

  /** With one seat left, j requests see it free. */
  lemma {:induction false} Open(c: Config, k: nat, j: nat) returns (steps: seq<Step>)
    requires c.maxParticipants >= 1 && k >= 1 && j <= k
    ensures Bounded(c, START, steps, k)
    ensures var z, m := Outcome(c, START, steps, k), c.maxParticipants - 1;
            && z.s.status == ACTIVE && z.s.count == m && z.pending == Claimed(m, 0, j) && FreshFrom(z.s.rows, m)
  {
    var m := c.maxParticipants - 1;
    if j == 0 {
      steps := Fill(c, k, m);
      assert Claimed(m, 0, 0) == map[];
    } else {
      var before := Open(c, k, j - 1);
      var z := Outcome(c, START, before, k);
      var begin := Begin(j - 1, Name(m + j - 1), Early(c), VIP);
      ClaimedSize(m, 0, j - 1);
      assert Next(c, z, begin).pending == Claimed(m, 0, j);
      ClaimedSize(m, 0, j);
      Extend(c, START, before, k, begin);
      steps := before + [begin];
    }
  }

  /** Of k such requests, j commit. */
  lemma {:induction false} CommitAll(c: Config, k: nat, j: nat) returns (steps: seq<Step>)
    requires c.maxParticipants >= 1 && k >= 1 && j <= k
    ensures Bounded(c, START, steps, k)
    ensures var z, m := Outcome(c, START, steps, k), c.maxParticipants - 1;
            && z.s.count == m + j && z.pending == Claimed(m, j, k) && FreshFrom(z.s.rows, m + j)
  {
    var m := c.maxParticipants - 1;
    if j == 0 {
      steps := Open(c, k, k);
    } else {
      var before := CommitAll(c, k, j - 1);
      var z := Outcome(c, START, before, k);
      TakeSeat(c, z.s, m + j - 1);
      ClaimedFirst(m, j - 1, k);
      ClaimedSize(m, j, k);
      Extend(c, START, before, k, Commit(j - 1, Early(c)));
      steps := before + [Commit(j - 1, Early(c))];
    }
  }

  /** For every capacity and every k there is a run that ends with maxParticipants + k - 1 on the counter. */
  lemma BoundIsAttained(c: Config, k: nat)
    requires c.maxParticipants >= 1 && k >= 1
    ensures exists steps :: Bounded(c, START, steps, k) &&
              Outcome(c, START, steps, k).s.count == c.maxParticipants + k - 1
  {
    var steps := CommitAll(c, k, k);
  }

  // ---------- Exact accounting ----------

  /** The balance of `EventSeats`, with one seat too many on the counter for each overwritten seat. */
  ghost predicate JointlyBalanced(t: JointTally, s: State) {
    s.count == Seats(s.rows) + t.calls.completedCancels - t.calls.unseatedSubmits + t.calls.clamped + t.overwrites
  }

  lemma CommitBalance(t: JointTally, c: Config, y: System, req: nat, now: int)
    requires req in y.pending && JointlyBalanced(t, y.s)
    ensures JointlyBalanced(CountStep(t, c, y, Commit(req, now)), CommitJoin(c, y.s, y.pending[req], now))
  {
    var p := y.pending[req];
    var after := CommitJoin(c, y.s, p, now);
    if after != y.s {
      CountsAfterWrite(y.s.rows, p.user, after.rows[p.user]);
    }
  }

  lemma JointBalanceStep(t: JointTally, c: Config, y: System, step: Step)
    requires Enabled(c, y, step) && JointlyBalanced(t, y.s)
    ensures JointlyBalanced(CountStep(t, c, y, step), Next(c, y, step).s)
  {
    hide CommitJoin, Seats, Apply, Count;
    match step {
      case Begin(_, _, _, _) =>
      case Commit(req, now) =>
        CommitBalance(t, c, y, req, now);
      case Whole(call) =>
        WholeBalance(t, c, y.s, call);
    }
  }

  lemma WholeBalance(t: JointTally, c: Config, s: State, call: Call)
    requires IsWhole(call) && Possible(c, s, call) && JointlyBalanced(t, s)
    ensures JointlyBalanced(t.(calls := Count(t.calls, c, s, call)), Apply(c, s, call))
  {
    if Cancels(c, s, call) {
      CountsAfterRelease(s, call.user, call.next);
    } else if Submits(c, s, call) {
      CountsAfterWrite(s.rows, call.user, Progressed(s, call.user, call.now, call.score, call.progress));
    }
  }

  /**
    Over every interleaving the counter is the number of seat holders, corrected by the tally of
    the whole calls and by one for each commit that wrote over a seat.
   */
  lemma {:induction false} InterleavedAccounting(t: JointTally, c: Config, y: System, steps: seq<Step>, k: nat)
    requires Bounded(c, y, steps, k) && JointlyBalanced(t, y.s)
    ensures JointlyBalanced(JointTallyOf(t, c, y, steps, k), Outcome(c, y, steps, k).s)
    decreases |steps|
  {
    if steps != [] {
      JointBalanceStep(t, c, y, steps[0]);
      InterleavedAccounting(CountStep(t, c, y, steps[0]), c, Next(c, y, steps[0]), steps[1..], k);
    }
  }

  /** Two requests of one user that both read the cancelled row: two on the counter for one seat. */
  lemma DoubleReactivation(c: Config, s: State, u: UserId, now: int, tier: Tier)
    requires MayJoin(c, s, now, tier) && !Full(c, s.count) && u in s.rows && s.rows[u].status == CANCELLED
    ensures var y := Next(c, Next(c, System(s, map[]), Begin(0, u, now, tier)), Begin(1, u, now, tier));
            var z := Next(c, Next(c, y, Commit(0, now)), Commit(1, now));
            && z.s.count == s.count + 2
            && Seats(z.s.rows) == Seats(s.rows) + 1
            && Overwrites(c, Next(c, y, Commit(0, now)).s, y.pending[1])
  {
    var p := Pending(u, false, Some(CANCELLED));
    var y := Next(c, Next(c, System(s, map[]), Begin(0, u, now, tier)), Begin(1, u, now, tier));
    assert y.pending == map[0 := p, 1 := p];
    var one := CommitJoin(c, s, p, now);
    CountsAfterWrite(s.rows, u, one.rows[u]);
    CountsAfterWrite(one.rows, u, CommitJoin(c, one, p, now).rows[u]);
  }

  // ---------- What interleaving breaks ----------

  /** The commit writes a row of the waiting list. */
  predicate Queues(c: Config, s: State, p: Pending) {
    && p.full && WaitlistHasRoom(c, s.rows)
    && (p.existing == None ==> p.user !in s.rows)
    && (p.existing.Some? ==> p.existing.value == CANCELLED)
  }

  /**
    A commit leaves somebody waiting for a free seat if and only if it queues a request that has
    read a full event while a seat is free by now.
   */
  lemma CommitStrands(c: Config, s: State, p: Pending, now: int)
    requires WorkConserving(c, s)
    ensures WorkConserving(c, CommitJoin(c, s, p, now)) <==> !(Queues(c, s, p) && !Full(c, s.count))
  {
    var after := CommitJoin(c, s, p, now);
    if after != s {
      CountsAfterWrite(s.rows, p.user, after.rows[p.user]);
    }
    if Queues(c, s, p) && p.user in s.rows && Waits(s.rows[p.user].status) {
      assert p.user in Having(s.rows, Waits);
    }
  }

  lemma WholeConserves(c: Config, s: State, call: Call)
    requires IsWhole(call) && Possible(c, s, call) && WorkConserving(c, s)
    ensures WorkConserving(c, Apply(c, s, call))
  {
    if Cancels(c, s, call) {
      CountsAfterRelease(s, call.user, call.next);
    } else if Submits(c, s, call) {
      CountsAfterWrite(s.rows, call.user, Progressed(s, call.user, call.now, call.score, call.progress));
    }
  }

  /** The step is a commit that queues a request although a seat is free. */
  predicate Strands(c: Config, y: System, step: Step) {
    && step.Commit? && step.req in y.pending
    && Queues(c, y.s, y.pending[step.req]) && !Full(c, y.s.count)
  }

  lemma StepStrands(c: Config, y: System, step: Step)
    requires Enabled(c, y, step) && WorkConserving(c, y.s)
    ensures WorkConserving(c, Next(c, y, step).s) <==> !Strands(c, y, step)
  {
    hide WorkConserving, CommitJoin, Apply, Queues, Full;
    match step {
      case Begin(_, _, _, _) =>
      case Commit(req, now) =>
        CommitStrands(c, y.s, y.pending[req], now);
      case Whole(call) =>
        WholeConserves(c, y.s, call);
    }
  }

  /** Some step of the run strands somebody. */
  ghost predicate StrandsSomewhere(c: Config, y: System, steps: seq<Step>, k: nat)
    requires Bounded(c, y, steps, k)
    decreases |steps|
  {
    steps != [] && (Strands(c, y, steps[0]) || StrandsSomewhere(c, Next(c, y, steps[0]), steps[1..], k))
  }

  /** Seats are never left free while people wait, in no state of the run. */
  ghost predicate ConservesThroughout(c: Config, y: System, steps: seq<Step>, k: nat)
    requires Bounded(c, y, steps, k)
    decreases |steps|
  {
    WorkConserving(c, y.s) && (steps == [] || ConservesThroughout(c, Next(c, y, steps[0]), steps[1..], k))
  }

  /**
    An interleaving keeps work conservation in all its states if and only if no request joins the
    waiting list, having read a full event, at a moment when a seat is free.
   */
  lemma {:induction false} InterleavedConservation(c: Config, y: System, steps: seq<Step>, k: nat)
    requires Bounded(c, y, steps, k) && WorkConserving(c, y.s)
    ensures ConservesThroughout(c, y, steps, k) <==> !StrandsSomewhere(c, y, steps, k)
    ensures ConservesThroughout(c, y, steps, k) ==> WorkConserving(c, Outcome(c, y, steps, k).s)
    decreases |steps|
  {
    if steps != [] {
      StepStrands(c, y, steps[0]);
      if !Strands(c, y, steps[0]) {
        InterleavedConservation(c, Next(c, y, steps[0]), steps[1..], k);
      } else {
        assert steps[1..] == [] || !WorkConserving(c, Next(c, y, steps[0]).s);
      }
    }
  }

  /**
    Work conservation holds for atomic calls only: a request that has read a full event may join
    the waiting list after the last seat holder has gone, and then waits for a free seat.
   */
  lemma InterleavingStrandsAWaiter()
    ensures var rows := map["a" := Row(REGISTERED, None, 1)];
            var y := System(State(ACTIVE, 1, rows, map[]), map[]);
            var begin, cancel, commit := Begin(0, "b", 2, FREE), Whole(Cancel("a", 3, None)), Commit(0, 4);
            && WorkConserving(TINY, y.s)
            && Enabled(TINY, y, begin)
            && Enabled(TINY, Next(TINY, y, begin), cancel)
            && Enabled(TINY, Next(TINY, Next(TINY, y, begin), cancel), commit)
            && !WorkConserving(TINY, Next(TINY, Next(TINY, Next(TINY, y, begin), cancel), commit).s)
  {
    var rows := map["a" := Row(REGISTERED, None, 1)];
    var y := System(State(ACTIVE, 1, rows, map[]), map[]);
    WaitingNow(rows, {});
    var begun := Next(TINY, y, Begin(0, "b", 2, FREE));
    assert begun == System(y.s, map[0 := Pending("b", true, None)]);
    var gone := rows["a" := Row(CANCELLED, None, 1)];
    assert WithCancelled(y.s, "a") == gone;
    assert Having(gone, Waits) == {};
    var cancelled := Next(TINY, begun, Whole(Cancel("a", 3, None)));
    assert cancelled == System(State(ACTIVE, 0, gone, map[]), begun.pending);
    WaitingNow(gone["b" := Row(WAITLIST, Some(1), 4)], {"b"});
  }
}
