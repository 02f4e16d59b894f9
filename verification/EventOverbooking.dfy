/**
  Submissions and the participant counter: runs that reach the bound on real overbooking, and a run
  in which the clamp of the counter fires.
 */
module EventOverbooking {

  import opened EventSeats
  import opened Wrappers

  /** The calls lead from `start` to `z` with tally `t`. */
  ghost predicate Reaches(c: Config, start: State, calls: seq<Call>, z: State, t: Tally) {
    PossibleRun(c, start, calls) && Run(c, start, calls) == z && TallyOf(NOTHING, c, start, calls) == t
  }

  lemma {:induction false} ExtendFrom(c: Config, s: State, t: Tally, calls: seq<Call>, call: Call)
    requires PossibleRun(c, s, calls) && Possible(c, Run(c, s, calls), call)
    ensures PossibleRun(c, s, calls + [call])
    ensures Run(c, s, calls + [call]) == Apply(c, Run(c, s, calls), call)
    ensures TallyOf(t, c, s, calls + [call]) == Count(TallyOf(t, c, s, calls), c, Run(c, s, calls), call)
    decreases |calls|
  {
    hide Possible, Apply, Count;
    if calls == [] {
      assert calls + [call] == [call] && [call][1..] == [];
    } else {
      ExtendFrom(c, Apply(c, s, calls[0]), Count(t, c, s, calls[0]), calls[1..], call);
      assert (calls + [call])[1..] == calls[1..] + [call];
    }
  }

  lemma Extend(c: Config, start: State, calls: seq<Call>, z: State, t: Tally, call: Call)
    requires Reaches(c, start, calls, z, t) && Possible(c, z, call)
    ensures Reaches(c, start, calls + [call], Apply(c, z, call), Count(t, c, z, call))
  {
    hide Possible, Apply, Count, Run, TallyOf, PossibleRun;
    ExtendFrom(c, start, NOTHING, calls, call);
  }

  lemma Start(c: Config, start: State)
    ensures Reaches(c, start, [], start, NOTHING)
  {
  }

  /** Users lo to hi-1 have withdrawn, nobody waits, and the users from n on are unknown. */
  ghost predicate Stands(z: State, count: int, seats: int, lo: nat, hi: nat, n: nat) {
    && z.status == ACTIVE && z.count == count
    && Seats(z.rows) == seats && Waiting(z.rows) == 0
    && (forall i: nat | lo <= i < hi :: Name(i) in z.rows && z.rows[Name(i)].status == CANCELLED)
    && FreshFrom(z.rows, n) && hi <= n
  }

  // ---------- Single steps ----------

  function JoinOf(c: Config, n: nat): Call {
    Participate(Name(n), Early(c), VIP)
  }

  /** A registration while the event is not full. */
  lemma Join(c: Config, z: State, count: int, seats: int, k: nat, n: nat)
    requires Stands(z, count, seats, 0, k, n) && !Full(c, count)
    ensures Stands(Apply(c, z, JoinOf(c, n)), count + 1, seats + 1, 0, k, n + 1)
    ensures Count(NOTHING, c, z, JoinOf(c, n)) == NOTHING
  {
    hide Seats, Waiting;
    assert Name(n) !in z.rows;
    var p := Participation(REGISTERED, None, Early(c), 0.0, 0);
    assert Apply(c, z, JoinOf(c, n)) == z.(rows := z.rows[Name(n) := p], count := count + 1);
    CountsAfterWrite(z.rows, Name(n), p);
    FreshAfter(z.rows, n, p);
    forall i: nat | i < k ensures Name(i) != Name(n) {
      NamesDiffer(i, n);
    }
  }

  /** The last user to have joined withdraws again. */
  lemma Withdraw(c: Config, z: State, count: int, seats: int, k: nat)
    requires Stands(z, count + 1, seats + 1, 0, k, k + 1) && count >= 0
    requires Name(k) in z.rows && z.rows[Name(k)].status == REGISTERED
    ensures Possible(c, z, AdminCancel(Name(k), None))
    ensures Stands(Apply(c, z, AdminCancel(Name(k), None)), count, seats, 0, k + 1, k + 1)
    ensures Count(NOTHING, c, z, AdminCancel(Name(k), None)) == NOTHING
  {
    hide Seats, Waiting;
    var p := z.rows[Name(k)].(status := CANCELLED, position := None);
    assert WithCancelled(z, Name(k)) == z.rows[Name(k) := p];
    CountsAfterWrite(z.rows, Name(k), p);
    WaitingPositive(z.rows[Name(k) := p]);
    forall i: nat ensures Name(i) == Name(k) ==> i == k {
      NamesDiffer(i, k);
    }
  }

  function SubmitOf(c: Config, u: nat): Call {
    Submit(Name(u), c.endDate, None, None)
  }

  /** A withdrawn user submits and holds a seat again, without a change of the counter. */
  lemma Return(c: Config, z: State, t: Tally, count: int, seats: int, j: nat, k: nat, n: nat)
    requires Stands(z, count, seats, j, k, n) && j < k
    ensures Stands(Apply(c, z, SubmitOf(c, j)), count, seats + 1, j + 1, k, n)
    ensures Count(t, c, z, SubmitOf(c, j)) == t.(unseatedSubmits := t.unseatedSubmits + 1)
  {
    hide Seats, Waiting;
    var p := Progressed(z, Name(j), c.endDate, None, None);
    assert Seated(p.status);
    CountsAfterWrite(z.rows, Name(j), p);
    forall i: nat ensures Name(i) == Name(j) ==> i == j {
      NamesDiffer(i, j);
    }
    forall i: nat | i >= n ensures Name(i) !in z.rows[Name(j) := p] {
      NamesDiffer(i, j);
    }
  }

  /** An unknown user submits to an open event. */
  lemma WalkIn(c: Config, z: State, t: Tally, count: int, seats: int, k: nat, n: nat)
    requires Stands(z, count, seats, k, k, n) && c.open
    ensures Stands(Apply(c, z, SubmitOf(c, n)), count + 1, seats + 1, k, k, n + 1)
    ensures Count(t, c, z, SubmitOf(c, n)) == t.(implicitJoins := t.implicitJoins + 1)
  {
    hide Seats, Waiting;
    assert Name(n) !in z.rows;
    var p := Progressed(z, Name(n), c.endDate, None, None);
    assert Seated(p.status);
    CountsAfterWrite(z.rows, Name(n), p);
    FreshAfter(z.rows, n, p);
  }

  // ---------- Whole runs ----------

  /** k users register and withdraw. */
  lemma {:induction false} WithdrawAll(c: Config, start: State, k: nat) returns (calls: seq<Call>, z: State)
    requires start.rows == map[] && start.count == 0 && start.status == ACTIVE && c.maxParticipants >= 1
    ensures Reaches(c, start, calls, z, NOTHING) && Stands(z, 0, 0, 0, k, k)
  {
    hide Reaches, Apply, Count, Possible;
    if k == 0 {
      Start(c, start);
      NobodyIn(start.rows);
      calls, z := [], start;
    } else {
      calls, z := WithdrawAll(c, start, k - 1);
      Join(c, z, 0, 0, k - 1, k - 1);
      Joined(c, z, k - 1);
      Extend(c, start, calls, z, NOTHING, JoinOf(c, k - 1));
      calls, z := calls + [JoinOf(c, k - 1)], Apply(c, z, JoinOf(c, k - 1));
      Withdraw(c, z, 0, 0, k - 1);
      Extend(c, start, calls, z, NOTHING, AdminCancel(Name(k - 1), None));
      calls, z := calls + [AdminCancel(Name(k - 1), None)], Apply(c, z, AdminCancel(Name(k - 1), None));
    }
  }

  lemma Joined(c: Config, z: State, n: nat)
    requires z.status == ACTIVE && Name(n) !in z.rows && !Full(c, z.count)
    ensures Possible(c, z, JoinOf(c, n))
    ensures var after := Apply(c, z, JoinOf(c, n)); Name(n) in after.rows && after.rows[Name(n)].status == REGISTERED
  {
  }

  lemma SubmitIsPossible(c: Config, z: State, u: nat)
    ensures Possible(c, z, SubmitOf(c, u))
  {
  }

  /** Then others take the seats, up to j of them. */
  lemma {:induction false} FillUp(c: Config, start: State, k: nat, j: nat) returns (calls: seq<Call>, z: State)
    requires start.rows == map[] && start.count == 0 && start.status == ACTIVE && j <= c.maxParticipants
    requires c.maxParticipants >= 1
    ensures Reaches(c, start, calls, z, NOTHING) && Stands(z, j, j, 0, k, k + j)
  {
    hide Reaches, Apply, Count, Possible;
    if j == 0 {
      calls, z := WithdrawAll(c, start, k);
    } else {
      calls, z := FillUp(c, start, k, j - 1);
      Join(c, z, j - 1, j - 1, k, k + j - 1);
      Joined(c, z, k + j - 1);
      Extend(c, start, calls, z, NOTHING, JoinOf(c, k + j - 1));
      calls, z := calls + [JoinOf(c, k + j - 1)], Apply(c, z, JoinOf(c, k + j - 1));
    }
  }

  /** Then j of the withdrawn users submit. */
  lemma {:induction false} ReturnAll(c: Config, start: State, k: nat, j: nat) returns (calls: seq<Call>, z: State)
    requires start.rows == map[] && start.count == 0 && start.status == ACTIVE && j <= k && c.maxParticipants >= 1
    ensures var m := c.maxParticipants;
            Reaches(c, start, calls, z, NOTHING.(unseatedSubmits := j)) && Stands(z, m, m + j, j, k, k + m)
  {
    hide Reaches, Apply, Count, Possible;
    var m := c.maxParticipants;
    if j == 0 {
      calls, z := FillUp(c, start, k, m);
    } else {
      calls, z := ReturnAll(c, start, k, j - 1);
      Return(c, z, NOTHING.(unseatedSubmits := j - 1), m, m + j - 1, j - 1, k, k + m);
      SubmitIsPossible(c, z, j - 1);
      Extend(c, start, calls, z, NOTHING.(unseatedSubmits := j - 1), SubmitOf(c, j - 1));
      calls, z := calls + [SubmitOf(c, j - 1)], Apply(c, z, SubmitOf(c, j - 1));
    }
  }

  /** Then i unknown users submit. */
  lemma {:induction false} WalkInAll(c: Config, start: State, k: nat, i: nat) returns (calls: seq<Call>, z: State)
    requires start.rows == map[] && start.count == 0 && start.status == ACTIVE && c.maxParticipants >= 1
    requires i > 0 ==> c.open
    ensures var m := c.maxParticipants;
            && Reaches(c, start, calls, z, NOTHING.(unseatedSubmits := k, implicitJoins := i))
            && Stands(z, m + i, m + k + i, k, k, k + m + i)
  {
    hide Reaches, Apply, Count, Possible;
    var m := c.maxParticipants;
    if i == 0 {
      calls, z := ReturnAll(c, start, k, k);
    } else {
      calls, z := WalkInAll(c, start, k, i - 1);
      var t := NOTHING.(unseatedSubmits := k, implicitJoins := i - 1);
      WalkIn(c, z, t, m + i - 1, m + k + i - 1, k, k + m + i - 1);
      SubmitIsPossible(c, z, k + m + i - 1);
      Extend(c, start, calls, z, t, SubmitOf(c, k + m + i - 1));
      calls, z := calls + [SubmitOf(c, k + m + i - 1)], Apply(c, z, SubmitOf(c, k + m + i - 1));
    }
  }

  /**
    The bound of `RunOfNewEvent` is reached: for every capacity, every k and, in an open event, every
    i there is a run with k submissions without a seat and i implicit joins that ends with
    maxParticipants + i + k seat holders, while the counter shows maxParticipants + i.
   */
  lemma OverbookingIsReached(c: Config, start: State, i: nat, k: nat)
    requires start.rows == map[] && start.count == 0 && start.status == ACTIVE && c.maxParticipants >= 1
    requires i > 0 ==> c.open
    ensures exists calls :: PossibleRun(c, start, calls) &&
              var z, t := Run(c, start, calls), TallyOf(NOTHING, c, start, calls);
              && t.implicitJoins == i && t.unseatedSubmits == k
              && Seats(z.rows) == c.maxParticipants + i + k && z.count == c.maxParticipants + i
  {
    hide PossibleRun, Run, TallyOf, Seats;
    var calls, z := WalkInAll(c, start, k, i);
    assert Run(c, start, calls) == z;
  }

  // ---------- The clamp ----------

  /** Register, be removed, submit all the same, be removed again: the counter would become negative. */
  function ClampingRun(c: Config): seq<Call> {
    [JoinOf(c, 0)] + [AdminCancel(Name(0), None)] + [SubmitOf(c, 0)] + [AdminCancel(Name(0), None)]
  }

  lemma SecondRemoval(c: Config, z: State, t: Tally)
    requires z.status == ACTIVE && z.count == 0 && Waiting(z.rows) == 0
    requires Name(0) in z.rows && Active(z.rows[Name(0)].status)
    ensures Possible(c, z, AdminCancel(Name(0), None))
    ensures Apply(c, z, AdminCancel(Name(0), None)).count == 0
    ensures Count(t, c, z, AdminCancel(Name(0), None)) == t.(clamped := t.clamped + 1)
  {
    hide Seats, Waiting;
    var p := z.rows[Name(0)].(status := CANCELLED, position := None);
    assert WithCancelled(z, Name(0)) == z.rows[Name(0) := p];
    CountsAfterWrite(z.rows, Name(0), p);
    WaitingPositive(z.rows[Name(0) := p]);
  }

  lemma SubmitterIsActive(c: Config, z: State)
    requires z.status == ACTIVE && Name(0) in z.rows && z.rows[Name(0)].progress < 100
    ensures var after := Apply(c, z, SubmitOf(c, 0)); Name(0) in after.rows && Active(after.rows[Name(0)].status)
  {
  }

  lemma ProgressOfNewcomer(c: Config, z: State)
    requires z.status == ACTIVE && Name(0) !in z.rows && !Full(c, z.count)
    ensures var s := Apply(c, z, JoinOf(c, 0));
            && Name(0) in s.rows && s.rows[Name(0)].progress == 0 && Active(s.rows[Name(0)].status)
            && (Possible(c, s, AdminCancel(Name(0), None)) ==>
                  var after := Apply(c, s, AdminCancel(Name(0), None));
                  Name(0) in after.rows && after.rows[Name(0)].progress == 0)
  {
  }

  /** For every event there is a run in which the clamp fires. */
  lemma ClampFires(c: Config, start: State)
    requires start.rows == map[] && start.count == 0 && start.status == ACTIVE
    ensures PossibleRun(c, start, ClampingRun(c))
    ensures TallyOf(NOTHING, c, start, ClampingRun(c)).clamped == 1
    ensures Run(c, start, ClampingRun(c)).count == 0
  {
    hide PossibleRun, Run, TallyOf, Seats, Waiting, Apply, Count, Possible;
    Start(c, start);
    NobodyIn(start.rows);
    var remove, submit := AdminCancel(Name(0), None), SubmitOf(c, 0);
    Join(c, start, 0, 0, 0, 0);
    Joined(c, start, 0);
    ProgressOfNewcomer(c, start);
    Extend(c, start, [], start, NOTHING, JoinOf(c, 0));
    var s1 := Apply(c, start, JoinOf(c, 0));
    assert [] + [JoinOf(c, 0)] == [JoinOf(c, 0)];
    Withdraw(c, s1, 0, 0, 0);
    Extend(c, start, [JoinOf(c, 0)], s1, NOTHING, remove);
    var s2 := Apply(c, s1, remove);
    Return(c, s2, NOTHING, 0, 0, 0, 1, 1);
    SubmitIsPossible(c, s2, 0);
    SubmitterIsActive(c, s2);
    Extend(c, start, [JoinOf(c, 0)] + [remove], s2, NOTHING, submit);
    var s3, t := Apply(c, s2, submit), NOTHING.(unseatedSubmits := 1);
    SecondRemoval(c, s3, t);
    Extend(c, start, [JoinOf(c, 0)] + [remove] + [submit], s3, t, remove);
  }
}
