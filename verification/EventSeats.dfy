/**
  Participation in one event: registration, waiting list, cancellation with promotion and
  progress submission, with the denormalised participant counter.

  `Apply` is the effect of one service call on the rows of the event; the class `EventDesk`
  performs the calls on mutable state.  The results are about whole runs of calls.
 */
module EventSeats {

  import opened Basics
  import opened Wrappers

  type UserId = string

  datatype Status = REGISTERED | WAITLIST | IN_PROGRESS | COMPLETED | FAILED | DISQUALIFIED | CANCELLED

  datatype EventStatus = DRAFT | SCHEDULED | PUBLISHED | ACTIVE | SUSPENDED | EVENT_COMPLETED | EVENT_CANCELLED | ARCHIVED

  datatype Tier = FREE | PREMIUM | VIP

  /** A row of the participation table; `position` is null outside the waiting list. */
  datatype Participation = Participation(
    status: Status,
    position: Option<nat>,
    createdAt: int,
    score: real,
    progress: int)

  /** The settings of the event.  A limit of 0 stands for a null or zero column: no limit. */
  datatype Config = Config(
    maxParticipants: nat,
    enableWaitlist: bool,
    waitlistCapacity: nat,
    open: bool,
    minTier: Tier,
    registrationDeadline: Option<int>,
    startDate: int,
    endDate: int)

  datatype State = State(
    status: EventStatus,
    count: int,
    rows: map<UserId, Participation>,
    leaderboard: map<UserId, real>)

  const EMPTY := State(DRAFT, 0, map[], map[])

  // ---------- Who holds a seat, who waits ----------

  predicate Seated(status: Status) {
    status == REGISTERED || status == IN_PROGRESS || status == COMPLETED
  }

  predicate Waits(status: Status) {
    status == WAITLIST
  }

  /** The `wasActive` test of both cancellation calls: a completed participation does not pass it. */
  predicate Active(status: Status) {
    status == REGISTERED || status == IN_PROGRESS
  }

  function Having(rows: map<UserId, Participation>, test: Status -> bool): set<UserId> {
    set u | u in rows && test(rows[u].status)
  }

  function Seats(rows: map<UserId, Participation>): nat {
    |Having(rows, Seated)|
  }

  function Waiting(rows: map<UserId, Participation>): nat {
    |Having(rows, Waits)|
  }

  /** Order of promotion: by position, then by creation; a null position comes last. */
  predicate NotAfter(p: Participation, q: Participation) {
    if p.position.Some? && q.position.Some? && p.position.value != q.position.value
    then p.position.value < q.position.value
    else if p.position.Some? != q.position.Some? then p.position.Some?
    else p.createdAt <= q.createdAt
  }

  /** `u` is one of the rows the database may return as first of the waiting list. */
  predicate FirstWaiting(rows: map<UserId, Participation>, u: UserId) {
    && u in rows && Waits(rows[u].status)
    && forall v | v in rows && Waits(rows[v].status) :: NotAfter(rows[u], rows[v])
  }

  /** `next` is a possible answer to the query for the first waiting participant. */
  predicate IsNext(rows: map<UserId, Participation>, next: Option<UserId>) {
    match next
    case Some(u) => FirstWaiting(rows, u)
    case None => Having(rows, Waits) == {}
  }

  // ---------- The calls ----------

  /** A call; both cancellations carry the row that the database returns as first waiting. */
  datatype Call =
    | Participate(user: UserId, now: int, tier: Tier)
    | Cancel(user: UserId, now: int, next: Option<UserId>)
    | AdminCancel(user: UserId, next: Option<UserId>)
    | Submit(user: UserId, now: int, score: Option<real>, progress: Option<int>)
    | SetStatus(status: EventStatus)

  predicate Full(c: Config, count: int) {
    c.maxParticipants != 0 && count >= c.maxParticipants
  }

  predicate MayJoin(c: Config, s: State, now: int, tier: Tier) {
    && (s.status == PUBLISHED || s.status == ACTIVE)
    && (c.registrationDeadline.Some? ==> now <= c.registrationDeadline.value)
    && (c.minTier == FREE || tier == c.minTier || tier == PREMIUM || tier == VIP)
  }

  predicate WaitlistHasRoom(c: Config, rows: map<UserId, Participation>) {
    c.enableWaitlist && (c.waitlistCapacity == 0 || Waiting(rows) < c.waitlistCapacity)
  }

  /** The row written for a newcomer, or the existing row written over. */
  function Placed(s: State, u: UserId, now: int, status: Status, position: Option<nat>): Participation {
    if u in s.rows then s.rows[u].(status := status, position := position)
    else Participation(status, position, now, 0.0, 0)
  }

  function ApplyParticipate(c: Config, s: State, u: UserId, now: int, tier: Tier): State {
    if !MayJoin(c, s, now, tier) || (u in s.rows && s.rows[u].status != CANCELLED) then s
    else if !Full(c, s.count) then
      s.(rows := s.rows[u := Placed(s, u, now, REGISTERED, None)], count := s.count + 1)
    else if WaitlistHasRoom(c, s.rows) then
      s.(rows := s.rows[u := Placed(s, u, now, WAITLIST, Some(Waiting(s.rows) + 1))])
    else s
  }

  function Promoted(rows: map<UserId, Participation>, u: UserId): map<UserId, Participation>
    requires u in rows
  {
    rows[u := rows[u].(status := REGISTERED, position := None)]
  }

  function WithCancelled(s: State, u: UserId): map<UserId, Participation>
    requires u in s.rows
  {
    s.rows[u := s.rows[u].(status := CANCELLED, position := None)]
  }

  /** The transaction shared by the two cancellations. */
  function Release(s: State, u: UserId, next: Option<UserId>): State
    requires u in s.rows
    requires Active(s.rows[u].status) ==> IsNext(WithCancelled(s, u), next)
  {
    var rows := WithCancelled(s, u);
    if !Active(s.rows[u].status) then s.(rows := rows)
    else if next.Some? then s.(rows := Promoted(rows, next.value))
    else s.(rows := rows, count := if s.count > 0 then s.count - 1 else s.count)
  }

  predicate Cancels(c: Config, s: State, call: Call) {
    || (call.Cancel? && call.user in s.rows && call.now < c.startDate)
    || (call.AdminCancel? && call.user in s.rows && s.rows[call.user].status != CANCELLED)
  }

  predicate Submits(c: Config, s: State, call: Call) {
    && call.Submit?
    && s.status == ACTIVE && call.now <= c.endDate
    && (call.user in s.rows || c.open)
  }

  /** The participation after a submission; a newcomer starts from an IN_PROGRESS row. */
  function Progressed(s: State, u: UserId, now: int, score: Option<real>, progress: Option<int>): Participation {
    var p := if u in s.rows then s.rows[u] else Participation(IN_PROGRESS, None, now, 0.0, 0);
    var newProgress := Max(p.progress, Or(progress, 0));
    p.(score := MaxReal(p.score, Or(score, 0.0)),
       progress := newProgress,
       status := if newProgress >= 100 then COMPLETED else IN_PROGRESS)
  }

  function ApplySubmit(s: State, u: UserId, now: int, score: Option<real>, progress: Option<int>): State {
    var p := Progressed(s, u, now, score, progress);
    s.(rows := s.rows[u := p],
       count := if u in s.rows then s.count else s.count + 1,
       leaderboard := if Or(score, 0.0) > 0.0 then s.leaderboard[u := p.score] else s.leaderboard)
  }

  /** The answers of the database inside the call are possible ones. */
  predicate Possible(c: Config, s: State, call: Call) {
    Cancels(c, s, call) && Active(s.rows[call.user].status) ==> IsNext(WithCancelled(s, call.user), call.next)
  }

  /** One service call; a call that ends in an error changes nothing. */
  function Apply(c: Config, s: State, call: Call): State
    requires Possible(c, s, call)
  {
    if call.Participate? then ApplyParticipate(c, s, call.user, call.now, call.tier)
    else if Cancels(c, s, call) then Release(s, call.user, call.next)
    else if Submits(c, s, call) then ApplySubmit(s, call.user, call.now, call.score, call.progress)
    else if call.SetStatus? then s.(status := call.status)
    else s
  }

  // ---------- Runs ----------

  predicate PossibleRun(c: Config, s: State, calls: seq<Call>)
    decreases |calls|
  {
    calls == [] || (Possible(c, s, calls[0]) && PossibleRun(c, Apply(c, s, calls[0]), calls[1..]))
  }

  function Run(c: Config, s: State, calls: seq<Call>): State
    requires PossibleRun(c, s, calls)
    decreases |calls|
  {
    if calls == [] then s else Run(c, Apply(c, s, calls[0]), calls[1..])
  }

  /** What a run has done that the counter does not record as a seat taken or given back. */
  datatype Tally = Tally(
    completedCancels: nat,  // cancellations of a COMPLETED participation
    unseatedSubmits: nat,   // submissions by someone on the waiting list, cancelled, failed or disqualified
    clamped: nat,           // decrements skipped because the counter was not positive
    implicitJoins: nat)     // participations created by a submission, without a capacity test

  const NOTHING := Tally(0, 0, 0, 0)

  function Count(t: Tally, c: Config, s: State, call: Call): Tally
    requires Possible(c, s, call)
  {
    if Cancels(c, s, call) then
      if s.rows[call.user].status == COMPLETED then t.(completedCancels := t.completedCancels + 1)
      else if Active(s.rows[call.user].status) && call.next == None && s.count <= 0 then
        t.(clamped := t.clamped + 1)
      else t
    else if Submits(c, s, call) then
      if call.user !in s.rows then t.(implicitJoins := t.implicitJoins + 1)
      else if !Seated(s.rows[call.user].status) then t.(unseatedSubmits := t.unseatedSubmits + 1)
      else t
    else t
  }

  function TallyOf(t: Tally, c: Config, s: State, calls: seq<Call>): Tally
    requires PossibleRun(c, s, calls)
    decreases |calls|
  {
    if calls == [] then t
    else TallyOf(Count(t, c, s, calls[0]), c, Apply(c, s, calls[0]), calls[1..])
  }

  // ---------- Counting rows ----------

  function Bit(b: bool): int {
    if b then 1 else 0
  }

  /** Writing one row changes a count by what the old and the new row contribute. */
  lemma CountAfterWrite(rows: map<UserId, Participation>, u: UserId, p: Participation, test: Status -> bool)
    ensures |Having(rows[u := p], test)| ==
            |Having(rows, test)| - Bit(u in rows && test(rows[u].status)) + Bit(test(p.status))
  {
    var others := set v | v in rows && test(rows[v].status) && v != u;
    assert Having(rows, test) == if u in rows && test(rows[u].status) then others + {u} else others;
    assert Having(rows[u := p], test) == if test(p.status) then others + {u} else others;
  }

  lemma CountsAfterWrite(rows: map<UserId, Participation>, u: UserId, p: Participation)
    ensures Seats(rows[u := p]) == Seats(rows) - Bit(u in rows && Seated(rows[u].status)) + Bit(Seated(p.status))
    ensures Waiting(rows[u := p]) == Waiting(rows) - Bit(u in rows && Waits(rows[u].status)) + Bit(Waits(p.status))
  {
    CountAfterWrite(rows, u, p, Seated);
    CountAfterWrite(rows, u, p, Waits);
  }

  /** Someone waits exactly when the waiting count is positive. */
  lemma WaitingPositive(rows: map<UserId, Participation>)
    ensures Having(rows, Waits) == {} <==> Waiting(rows) == 0
  {
  }

  /** What a cancellation does to the counts. */
  lemma CountsAfterRelease(s: State, u: UserId, next: Option<UserId>)
    requires u in s.rows
    requires Active(s.rows[u].status) ==> IsNext(WithCancelled(s, u), next)
    ensures var after, was := Release(s, u, next), s.rows[u].status;
            var promotes := Active(was) && next.Some?;
            && Seats(after.rows) == Seats(s.rows) - Bit(Seated(was)) + Bit(promotes)
            && Waiting(after.rows) == Waiting(s.rows) - Bit(Waits(was)) - Bit(promotes)
            && (Active(was) && next == None ==> Waiting(after.rows) == 0)
            && after.count == s.count - Bit(Active(was) && next == None && s.count > 0)
  {
    var rows := WithCancelled(s, u);
    CountsAfterWrite(s.rows, u, rows[u]);
    WaitingPositive(rows);
    if Active(s.rows[u].status) && next.Some? {
      CountsAfterWrite(rows, next.value, Promoted(rows, next.value)[next.value]);
    }
  }

  // ---------- Exact seat accounting ----------

  ghost predicate Balanced(t: Tally, s: State) {
    s.count == Seats(s.rows) + t.completedCancels - t.unseatedSubmits + t.clamped
  }

  lemma BalancedStep(t: Tally, c: Config, s: State, call: Call)
    requires Possible(c, s, call) && Balanced(t, s)
    ensures Balanced(Count(t, c, s, call), Apply(c, s, call))
  {
    if call.Participate? {
      var after := Apply(c, s, call);
      if after != s {
        CountsAfterWrite(s.rows, call.user, after.rows[call.user]);
      }
    } else if Cancels(c, s, call) {
      CountsAfterRelease(s, call.user, call.next);
    } else if Submits(c, s, call) {
      CountsAfterWrite(s.rows, call.user, Progressed(s, call.user, call.now, call.score, call.progress));
    }
  }

  /**
    Over every run the counter is the number of seat holders, plus the cancellations made from
    COMPLETED, minus the submissions made without a seat, plus the clamped decrements.
   */
  lemma {:induction false} SeatAccounting(t: Tally, c: Config, s: State, calls: seq<Call>)
    requires PossibleRun(c, s, calls) && Balanced(t, s)
    ensures Balanced(TallyOf(t, c, s, calls), Run(c, s, calls))
    decreases |calls|
  {
    if calls != [] {
      BalancedStep(t, c, s, calls[0]);
      SeatAccounting(Count(t, c, s, calls[0]), c, Apply(c, s, calls[0]), calls[1..]);
    }
  }

  lemma SeatsHeld(s: State, u: UserId)
    requires u in s.rows && Seated(s.rows[u].status)
    ensures Seats(s.rows) >= 1
  {
    assert u in Having(s.rows, Seated);
  }

  lemma {:induction false} TallyGrows(t: Tally, c: Config, s: State, calls: seq<Call>)
    requires PossibleRun(c, s, calls)
    ensures TallyOf(t, c, s, calls).unseatedSubmits >= t.unseatedSubmits
    decreases |calls|
  {
    if calls != [] {
      TallyGrows(Count(t, c, s, calls[0]), c, Apply(c, s, calls[0]), calls[1..]);
    }
  }

  /** Without submissions from outside the seats, the counter never undercounts and the clamp never fires. */
  lemma {:induction false} NeverUndercounts(t: Tally, c: Config, s: State, calls: seq<Call>)
    requires PossibleRun(c, s, calls) && Balanced(t, s)
    requires TallyOf(t, c, s, calls).unseatedSubmits == 0 && t.clamped == 0
    ensures TallyOf(t, c, s, calls).clamped == 0
    ensures Run(c, s, calls).count >= Seats(Run(c, s, calls).rows)
    decreases |calls|
  {
    TallyGrows(t, c, s, calls);
    if calls != [] {
      var call := calls[0];
      BalancedStep(t, c, s, call);
      if Cancels(c, s, call) && Active(s.rows[call.user].status) {
        SeatsHeld(s, call.user);
      }
      NeverUndercounts(Count(t, c, s, call), c, Apply(c, s, call), calls[1..]);
    }
  }

  // ---------- Capacity and work conservation ----------

  /** The counter exceeds the capacity by no more than the implicit joins. */
  ghost predicate WithinCapacity(t: Tally, c: Config, s: State) {
    c.maxParticipants != 0 ==> s.count <= c.maxParticipants + t.implicitJoins
  }

  /** Nobody waits while a seat is free, and the waiting list respects its own capacity. */
  ghost predicate WorkConserving(c: Config, s: State) {
    && (Waiting(s.rows) > 0 ==> c.enableWaitlist && Full(c, s.count))
    && (c.waitlistCapacity != 0 ==> Waiting(s.rows) <= c.waitlistCapacity)
  }

  lemma CapacityStep(t: Tally, c: Config, s: State, call: Call)
    requires Possible(c, s, call) && WithinCapacity(t, c, s) && WorkConserving(c, s)
    ensures WithinCapacity(Count(t, c, s, call), c, Apply(c, s, call))
    ensures WorkConserving(c, Apply(c, s, call))
  {
    if call.Participate? {
      var after := Apply(c, s, call);
      if after != s {
        CountsAfterWrite(s.rows, call.user, after.rows[call.user]);
      }
    } else if Cancels(c, s, call) {
      CountsAfterRelease(s, call.user, call.next);
    } else if Submits(c, s, call) {
      CountsAfterWrite(s.rows, call.user, Progressed(s, call.user, call.now, call.score, call.progress));
    }
  }

  /** In every run with fixed settings, seats are not left free while people wait. */
  lemma {:induction false} WorkConservation(t: Tally, c: Config, s: State, calls: seq<Call>)
    requires PossibleRun(c, s, calls) && WithinCapacity(t, c, s) && WorkConserving(c, s)
    ensures WithinCapacity(TallyOf(t, c, s, calls), c, Run(c, s, calls))
    ensures WorkConserving(c, Run(c, s, calls))
    decreases |calls|
  {
    if calls != [] {
      CapacityStep(t, c, s, calls[0]);
      WorkConservation(Count(t, c, s, calls[0]), c, Apply(c, s, calls[0]), calls[1..]);
    }
  }

  lemma NobodyIn(rows: map<UserId, Participation>)
    requires rows == map[]
    ensures Seats(rows) == 0 && Waiting(rows) == 0
  {
  }

  lemma EmptyIsFine(c: Config, s: State)
    requires s.rows == map[] && s.count == 0
    ensures Balanced(NOTHING, s) && WithinCapacity(NOTHING, c, s) && WorkConserving(c, s)
  {
    hide Seats, Waiting;
    NobodyIn(s.rows);
  }

  /**
    All of it for a new event.  The last clause bounds real overbooking: seat holders exceed the
    capacity by no more than the submissions that took a seat without a capacity test.
   */
  lemma RunOfNewEvent(c: Config, start: State, calls: seq<Call>)
    requires start.rows == map[] && start.count == 0
    requires PossibleRun(c, start, calls)
    ensures var s, t := Run(c, start, calls), TallyOf(NOTHING, c, start, calls);
            && s.count == Seats(s.rows) + t.completedCancels - t.unseatedSubmits + t.clamped
            && WithinCapacity(t, c, s)
            && WorkConserving(c, s)
            && (t.unseatedSubmits == 0 ==> t.clamped == 0 && s.count >= Seats(s.rows))
            && (c.maxParticipants != 0 ==>
                  Seats(s.rows) <= c.maxParticipants + t.implicitJoins + t.unseatedSubmits)
  {
    hide PossibleRun, Run, TallyOf, Seats, Waiting;
    EmptyIsFine(c, start);
    SeatAccounting(NOTHING, c, start, calls);
    WorkConservation(NOTHING, c, start, calls);
    if TallyOf(NOTHING, c, start, calls).unseatedSubmits == 0 {
      NeverUndercounts(NOTHING, c, start, calls);
    }
  }

  // ---------- The leaderboard ----------

  /** The leaderboard shows exactly the users with a positive score, with their best score. */
  ghost predicate LeaderboardAgrees(rows: map<UserId, Participation>, leaderboard: map<UserId, real>) {
    && (forall u | u in rows :: rows[u].score >= 0.0)
    && (forall u :: u in leaderboard <==> u in rows && rows[u].score > 0.0)
    && (forall u | u in leaderboard :: leaderboard[u] == rows[u].score)
  }

  lemma LeaderboardStep(c: Config, s: State, call: Call)
    requires Possible(c, s, call) && LeaderboardAgrees(s.rows, s.leaderboard)
    ensures var after := Apply(c, s, call); LeaderboardAgrees(after.rows, after.leaderboard)
  {
    if call.Participate? {
      KeepsScore(s.rows, s.leaderboard, call.user, Placed(s, call.user, call.now, REGISTERED, None));
      KeepsScore(s.rows, s.leaderboard, call.user, Placed(s, call.user, call.now, WAITLIST, Some(Waiting(s.rows) + 1)));
    } else if Cancels(c, s, call) {
      var rows := WithCancelled(s, call.user);
      KeepsScore(s.rows, s.leaderboard, call.user, rows[call.user]);
      if Active(s.rows[call.user].status) && call.next.Some? {
        KeepsScore(rows, s.leaderboard, call.next.value, Promoted(rows, call.next.value)[call.next.value]);
      }
    }
  }

  lemma KeepsScore(rows: map<UserId, Participation>, leaderboard: map<UserId, real>, u: UserId, p: Participation)
    requires LeaderboardAgrees(rows, leaderboard)
    requires p.score == if u in rows then rows[u].score else 0.0
    ensures LeaderboardAgrees(rows[u := p], leaderboard)
  {
  }

  /** Cancelling, waiting and promotion keep the best score; the leaderboard never lags behind. */
  lemma {:induction false} LeaderboardNeverLags(c: Config, s: State, calls: seq<Call>)
    requires PossibleRun(c, s, calls) && LeaderboardAgrees(s.rows, s.leaderboard)
    ensures var after := Run(c, s, calls); LeaderboardAgrees(after.rows, after.leaderboard)
    decreases |calls|
  {
    if calls != [] {
      LeaderboardStep(c, s, calls[0]);
      LeaderboardNeverLags(c, Apply(c, s, calls[0]), calls[1..]);
    }
  }

  // ---------- Users and moments for runs that show a bound is reached ----------

  /** A distinct user for every number. */
  function Name(i: nat): UserId {
    seq(i, _ => 'u')
  }

  lemma NamesDiffer(i: nat, j: nat)
    ensures Name(i) == Name(j) ==> i == j
  {
    assert |Name(i)| == i && |Name(j)| == j;
  }

  ghost predicate FreshFrom(rows: map<UserId, Participation>, n: nat) {
    forall i: nat | i >= n :: Name(i) !in rows
  }

  lemma FreshAfter(rows: map<UserId, Participation>, n: nat, p: Participation)
    requires FreshFrom(rows, n)
    ensures FreshFrom(rows[Name(n) := p], n + 1)
  {
    forall i: nat | i >= n + 1 ensures Name(i) !in rows[Name(n) := p] {
      NamesDiffer(i, n);
    }
  }

  /** A moment and a tier that pass the tests of any event. */
  function Early(c: Config): int {
    if c.registrationDeadline.Some? then c.registrationDeadline.value else 0
  }
}
