/**
  The event service on mutable state: the calls of `EventSeats`, statement by statement.
 */
module EventDesk {

  import opened Basics
  import opened Wrappers
  import opened EventSeats

  datatype Reason =
    | NotOpen
    | DeadlinePassed
    | TierReserved
    | EventFull
    | WaitlistFull
    | NotFound
    | AlreadyStarted
    | AlreadyCancelled
    | NotActive
    | EventOver
    | RegistrationRequired

  datatype Reply = Rejected(reason: Reason) | Accepted(isWaitlist: bool, participation: Participation)

  /** Why a participation is refused, if it is. */
  function JoinError(c: Config, s: State, u: UserId, now: int, tier: Tier): Option<Reason> {
    if s.status != PUBLISHED && s.status != ACTIVE then Some(NotOpen)
    else if c.registrationDeadline.Some? && now > c.registrationDeadline.value then Some(DeadlinePassed)
    else if !MayJoin(c, s, now, tier) then Some(TierReserved)
    else if u in s.rows && s.rows[u].status != CANCELLED then None
    else if !Full(c, s.count) || WaitlistHasRoom(c, s.rows) then None
    else if c.enableWaitlist then Some(WaitlistFull)
    else Some(EventFull)
  }

  lemma NotAfterIsAnOrder(p: Participation, q: Participation, r: Participation)
    ensures NotAfter(p, q) || NotAfter(q, p)
    ensures NotAfter(p, q) && NotAfter(q, r) ==> NotAfter(p, r)
    ensures NotAfter(p, p)
  {
  }

  lemma {:induction false} FirstExists(rows: map<UserId, Participation>, waiting: set<UserId>) returns (first: UserId)
    requires waiting != {} && forall v | v in waiting :: v in rows
    ensures first in waiting && forall v | v in waiting :: NotAfter(rows[first], rows[v])
    decreases |waiting|
  {
    hide NotAfter;
    first :| first in waiting;
    var one, others := first, waiting - {first};
    NotAfterIsAnOrder(rows[one], rows[one], rows[one]);
    assert waiting == {one} + others;
    if others != {} {
      var rest := FirstExists(rows, others);
      NotAfterIsAnOrder(rows[one], rows[rest], rows[rest]);
      if !NotAfter(rows[one], rows[rest]) {
        first := rest;
      }
      forall v | v in others ensures NotAfter(rows[first], rows[v]) {
        NotAfterIsAnOrder(rows[one], rows[rest], rows[v]);
      }
    }
  }

  /** The guards of a registration, in their order, on the columns. */
  lemma JoinGuards(c: Config, s: State, u: UserId, now: int, tier: Tier)
    ensures var e := JoinError(c, s, u, now, tier);
            && (e == Some(NotOpen) <==> s.status != PUBLISHED && s.status != ACTIVE)
            && (e == Some(DeadlinePassed) <==>
                  && (s.status == PUBLISHED || s.status == ACTIVE)
                  && c.registrationDeadline.Some? && now > c.registrationDeadline.value)
            && (e == Some(TierReserved) <==>
                  && (s.status == PUBLISHED || s.status == ACTIVE)
                  && (c.registrationDeadline == None || now <= c.registrationDeadline.value)
                  && c.minTier != FREE && tier != c.minTier && tier != PREMIUM && tier != VIP)
            && (e.Some? ==> e.value in {NotOpen, DeadlinePassed, TierReserved, EventFull, WaitlistFull})
            && (e.Some? ==> ApplyParticipate(c, s, u, now, tier) == s)
  {
  }

  /** What becomes of a registration that passes the guards. */
  lemma JoinEffect(c: Config, s: State, u: UserId, now: int, tier: Tier)
    requires s.status == PUBLISHED || s.status == ACTIVE
    requires c.registrationDeadline == None || now <= c.registrationDeadline.value
    requires c.minTier == FREE || tier == c.minTier || tier == PREMIUM || tier == VIP
    ensures var e, after := JoinError(c, s, u, now, tier), ApplyParticipate(c, s, u, now, tier);
            var p := if u in s.rows then s.rows[u] else Participation(REGISTERED, None, now, 0.0, 0);
            var n := Waiting(s.rows);
            if u in s.rows && s.rows[u].status != CANCELLED then e == None && after == s
            else if c.maxParticipants == 0 || s.count < c.maxParticipants then
              && e == None
              && after == s.(rows := s.rows[u := p.(status := REGISTERED, position := None)], count := s.count + 1)
            else if !c.enableWaitlist then e == Some(EventFull)
            else if c.waitlistCapacity != 0 && n >= c.waitlistCapacity then e == Some(WaitlistFull)
            else
              && e == None
              && after == s.(rows := s.rows[u := p.(status := WAITLIST, position := Some(n + 1))])
  {
    hide Waiting;
  }

  /** Who is first on the waiting list, on the columns. */
  lemma FirstOnColumns(rows: map<UserId, Participation>, u: UserId)
    requires FirstWaiting(rows, u)
    ensures u in rows && rows[u].status == WAITLIST
    ensures forall v | v in rows && rows[v].status == WAITLIST ::
              var p, q := rows[u], rows[v];
              || (p.position.Some? && q.position == None)
              || (p.position.Some? && q.position.Some? && p.position.value < q.position.value)
              || (p.position == q.position && p.createdAt <= q.createdAt)
  {
  }

  class EventDesk {
    const config: Config
    var status: EventStatus
    var count: int
    var rows: map<UserId, Participation>
    var leaderboard: map<UserId, real>
    ghost var tally: Tally

    ghost function Snapshot(): State
      reads this
    {
      State(status, count, rows, leaderboard)
    }

    /** Exact accounting, capacity, work conservation and the leaderboard, all at once. */
    ghost predicate Valid()
      reads this
    {
      && Balanced(tally, Snapshot())
      && WithinCapacity(tally, config, Snapshot())
      && WorkConserving(config, Snapshot())
      && LeaderboardAgrees(rows, leaderboard)
    }

    constructor (c: Config)
      ensures Valid() && config == c && Snapshot() == EMPTY && tally == NOTHING
    {
      hide Balanced, WithinCapacity, WorkConserving;
      config, status, count, rows, leaderboard := c, DRAFT, 0, map[], map[];
      tally := NOTHING;
      new;
      EmptyIsFine(c, Snapshot());
    }

    twostate predicate Performed(call: Call)
      reads this
    {
      && Possible(config, old(Snapshot()), call)
      && Snapshot() == Apply(config, old(Snapshot()), call)
      && tally == Count(old(tally), config, old(Snapshot()), call)
    }

    twostate lemma StaysValid(call: Call)
      requires old(Valid()) && Performed(call)
      ensures Valid()
    {
      BalancedStep(old(tally), config, old(Snapshot()), call);
      CapacityStep(old(tally), config, old(Snapshot()), call);
      LeaderboardStep(config, old(Snapshot()), call);
    }

    /** `participateInEvent` */
    method ParticipateInEvent(u: UserId, now: int, tier: Tier) returns (reply: Reply)
      requires Valid()
      modifies this
      ensures Valid() && Performed(Participate(u, now, tier))
      ensures match reply
              case Rejected(reason) => JoinError(config, old(Snapshot()), u, now, tier) == Some(reason)
              case Accepted(isWaitlist, p) =>
                && JoinError(config, old(Snapshot()), u, now, tier) == None
                && u in rows && p == rows[u] && isWaitlist == Waits(p.status)
      // the guards, on the columns
      ensures reply == Rejected(NotOpen) <==> old(status) != PUBLISHED && old(status) != ACTIVE
      ensures reply == Rejected(DeadlinePassed) <==>
                && (old(status) == PUBLISHED || old(status) == ACTIVE)
                && config.registrationDeadline.Some? && now > config.registrationDeadline.value
      ensures reply == Rejected(TierReserved) <==>
                && (old(status) == PUBLISHED || old(status) == ACTIVE)
                && (config.registrationDeadline == None || now <= config.registrationDeadline.value)
                && config.minTier != FREE && tier != config.minTier && tier != PREMIUM && tier != VIP
      ensures reply.Rejected? ==> Snapshot() == old(Snapshot())
      // past the guards: idempotent, then a free seat, then the waiting list
      ensures !(reply in {Rejected(NotOpen), Rejected(DeadlinePassed), Rejected(TierReserved)}) ==>
                var p := if u in old(rows) then old(rows)[u] else Participation(REGISTERED, None, now, 0.0, 0);
                var n := Waiting(old(rows));
                if u in old(rows) && old(rows)[u].status != CANCELLED then reply.Accepted? && Snapshot() == old(Snapshot())
                else if config.maxParticipants == 0 || old(count) < config.maxParticipants then
                  && reply.Accepted? && count == old(count) + 1
                  && rows == old(rows)[u := p.(status := REGISTERED, position := None)]
                else if !config.enableWaitlist then reply == Rejected(EventFull)
                else if config.waitlistCapacity != 0 && n >= config.waitlistCapacity then reply == Rejected(WaitlistFull)
                else
                  && reply.Accepted? && count == old(count)
                  && rows == old(rows)[u := p.(status := WAITLIST, position := Some(n + 1))]
      ensures reply.Accepted? ==> u in rows && reply == Accepted(rows[u].status == WAITLIST, rows[u])
      ensures status == old(status) && leaderboard == old(leaderboard)
    {
      hide ApplyParticipate, JoinError, Waiting, Balanced, WithinCapacity, WorkConserving, LeaderboardAgrees;
      reply := Join(u, now, tier);
      StaysValid(Participate(u, now, tier));
      JoinGuards(config, old(Snapshot()), u, now, tier);
      if !(reply in {Rejected(NotOpen), Rejected(DeadlinePassed), Rejected(TierReserved)}) {
        JoinEffect(config, old(Snapshot()), u, now, tier);
      }
    }

    /** The call: the guards, then a seat or the waiting list. */
    method Join(u: UserId, now: int, tier: Tier) returns (reply: Reply)
      modifies this`rows, this`count
      ensures Snapshot() == ApplyParticipate(config, old(Snapshot()), u, now, tier)
      ensures match reply
              case Rejected(reason) => JoinError(config, old(Snapshot()), u, now, tier) == Some(reason)
              case Accepted(isWaitlist, p) =>
                && JoinError(config, old(Snapshot()), u, now, tier) == None
                && u in rows && p == rows[u] && isWaitlist == Waits(p.status)
    {
      hide WaitlistHasRoom, Placed;
      if status != PUBLISHED && status != ACTIVE {
        return Rejected(NotOpen);
      }
      if config.registrationDeadline.Some? && now > config.registrationDeadline.value {
        return Rejected(DeadlinePassed);
      }
      if config.minTier != FREE {
        if tier != config.minTier && tier != PREMIUM && tier != VIP {
          return Rejected(TierReserved);
        }
      }
      if u in rows && rows[u].status != CANCELLED {
        return Accepted(rows[u].status == WAITLIST, rows[u]);
      }
      var isFull := config.maxParticipants != 0 && count >= config.maxParticipants;
      if isFull {
        reply := JoinWaitlist(u, now);
      } else {
        reply := TakeSeat(u, now);
      }
    }

    /** A new participation, or a cancelled one reactivated, with a seat. */
    method TakeSeat(u: UserId, now: int) returns (reply: Reply)
      modifies this`rows, this`count
      ensures rows == old(rows)[u := Placed(old(Snapshot()), u, now, REGISTERED, None)] && count == old(count) + 1
      ensures reply == Accepted(false, rows[u]) && rows[u].status == REGISTERED
    {
      if u in rows {
        rows := rows[u := rows[u].(status := REGISTERED, position := None)];
      } else {
        rows := rows[u := Participation(REGISTERED, None, now, 0.0, 0)];
      }
      count := count + 1;
      reply := Accepted(false, rows[u]);
    }

    /** A full event: the waiting list, if there is one with room. */
    method JoinWaitlist(u: UserId, now: int) returns (reply: Reply)
      modifies this`rows
      ensures !WaitlistHasRoom(config, old(rows)) ==>
                rows == old(rows) && reply == Rejected(if config.enableWaitlist then WaitlistFull else EventFull)
      ensures WaitlistHasRoom(config, old(rows)) ==>
                && rows == old(rows)[u := Placed(old(Snapshot()), u, now, WAITLIST, Some(Waiting(old(rows)) + 1))]
                && reply == Accepted(true, rows[u]) && rows[u].status == WAITLIST
    {
      if !config.enableWaitlist {
        return Rejected(EventFull);
      }
      var waitlistCount := Waiting(rows);
      if config.waitlistCapacity != 0 && waitlistCount >= config.waitlistCapacity {
        return Rejected(WaitlistFull);
      }
      var waitlistPosition := waitlistCount + 1;
      if u in rows {
        rows := rows[u := rows[u].(status := WAITLIST, position := Some(waitlistPosition))];
      } else {
        rows := rows[u := Participation(WAITLIST, Some(waitlistPosition), now, 0.0, 0)];
      }
      reply := Accepted(true, rows[u]);
    }

    /** The status of the event, set by the administrators or by the scheduled task. */
    method SetStatus(next: EventStatus)
      requires Valid()
      modifies this
      ensures Valid() && Performed(EventSeats.SetStatus(next))
      ensures status == next && rows == old(rows) && count == old(count) && leaderboard == old(leaderboard)
    {
      hide Balanced, WithinCapacity, WorkConserving, LeaderboardAgrees;
      status := next;
      StaysValid(EventSeats.SetStatus(next));
    }

    /** The query for the first participant on the waiting list. */
    method FindNextInWaitlist() returns (next: Option<UserId>)
      ensures IsNext(rows, next)
      // on the columns: the smallest position, a missing one last, and the older row among equals
      ensures next == None ==> forall v | v in rows :: rows[v].status != WAITLIST
      ensures next.Some? ==>
                && next.value in rows && rows[next.value].status == WAITLIST
                && forall v | v in rows && rows[v].status == WAITLIST ::
                     var p, q := rows[next.value], rows[v];
                     || (p.position.Some? && q.position == None)
                     || (p.position.Some? && q.position.Some? && p.position.value < q.position.value)
                     || (p.position == q.position && p.createdAt <= q.createdAt)
    {
      if Having(rows, Waits) == {} {
        assert forall v | v in rows :: v !in Having(rows, Waits);
        return None;
      }
      ghost var first := FirstExists(rows, Having(rows, Waits));
      assert FirstWaiting(rows, first);
      var u :| u in rows && FirstWaiting(rows, u);
      FirstOnColumns(rows, u);
      next := Some(u);
    }

    /** The transaction of both cancellations: free the seat, then promote or give it back. */
    method CancelRow(u: UserId) returns (promoted: Option<UserId>)
      requires u in rows
      modifies this`rows, this`count
      ensures var was := old(rows)[u].status;
              && (Active(was) ==> IsNext(WithCancelled(old(Snapshot()), u), promoted))
              && (!Active(was) ==> promoted == None)
              && Snapshot() == Release(old(Snapshot()), u, promoted)
      // on the columns: an active participation frees its seat for the first who waits, or for nobody
      ensures var was := old(rows)[u];
              var cancelled := old(rows)[u := was.(status := CANCELLED, position := None)];
              if was.status != REGISTERED && was.status != IN_PROGRESS then
                promoted == None && rows == cancelled && count == old(count)
              else if promoted == None then
                && (forall v | v in cancelled :: cancelled[v].status != WAITLIST)
                && rows == cancelled && count == (if old(count) > 0 then old(count) - 1 else old(count))
              else
                && promoted.value in cancelled && cancelled[promoted.value].status == WAITLIST
                && rows == cancelled[promoted.value := cancelled[promoted.value].(status := REGISTERED, position := None)]
                && count == old(count)
    {
      promoted := None;
      var wasActive := rows[u].status == REGISTERED || rows[u].status == IN_PROGRESS;
      rows := rows[u := rows[u].(status := CANCELLED, position := None)];
      if wasActive {
        promoted := FindNextInWaitlist();
        if promoted.Some? {
          var v := promoted.value;
          rows := rows[v := rows[v].(status := REGISTERED, position := None)];
        } else {
          count := count - if count > 0 then 1 else 0;
        }
      }
    }

    /** `cancelParticipation`: the participant withdraws, before the start of the event. */
    method CancelParticipation(u: UserId, now: int) returns (reply: Reply, promoted: Option<UserId>)
      requires Valid()
      modifies this
      ensures Valid() && Performed(Cancel(u, now, promoted))
      ensures match reply
              case Rejected(reason) => reason == if u !in old(rows) then NotFound else AlreadyStarted
              case Accepted(_, p) => u in rows && p == rows[u] && p.status == CANCELLED
      ensures reply.Rejected? <==> u !in old(rows) || now >= config.startDate
      ensures reply.Rejected? ==> Snapshot() == old(Snapshot())
      // on the columns: an active participation frees its seat for the first who waits, or for nobody
      ensures reply.Accepted? ==> var was := old(rows)[u];
              var cancelled := old(rows)[u := was.(status := CANCELLED, position := None)];
              if was.status != REGISTERED && was.status != IN_PROGRESS then
                promoted == None && rows == cancelled && count == old(count)
              else if promoted == None then
                && (forall v | v in cancelled :: cancelled[v].status != WAITLIST)
                && rows == cancelled && count == (if old(count) > 0 then old(count) - 1 else old(count))
              else
                && promoted.value in cancelled && cancelled[promoted.value].status == WAITLIST
                && rows == cancelled[promoted.value := cancelled[promoted.value].(status := REGISTERED, position := None)]
                && count == old(count)
      ensures status == old(status) && leaderboard == old(leaderboard)
    {
      promoted := None;
      if u !in rows {
        return Rejected(NotFound), None;
      }
      if now >= config.startDate {
        return Rejected(AlreadyStarted), None;
      }
      promoted := CancelRow(u);
      tally := Count(old(tally), config, old(Snapshot()), Cancel(u, now, promoted));
      StaysValid(Cancel(u, now, promoted));
      reply := Accepted(false, rows[u]);
    }

    /** `adminCancelParticipant`: at any time, but not twice. */
    method AdminCancelParticipant(u: UserId) returns (reply: Reply, promoted: Option<UserId>)
      requires Valid()
      modifies this
      ensures Valid() && Performed(AdminCancel(u, promoted))
      ensures match reply
              case Rejected(reason) => reason == if u !in old(rows) then NotFound else AlreadyCancelled
              case Accepted(_, p) => u in rows && p == rows[u] && p.status == CANCELLED
      ensures reply.Rejected? <==> u !in old(rows) || old(rows)[u].status == CANCELLED
      ensures reply.Rejected? ==> Snapshot() == old(Snapshot())
      // on the columns: an active participation frees its seat for the first who waits, or for nobody
      ensures reply.Accepted? ==> var was := old(rows)[u];
              var cancelled := old(rows)[u := was.(status := CANCELLED, position := None)];
              if was.status != REGISTERED && was.status != IN_PROGRESS then
                promoted == None && rows == cancelled && count == old(count)
              else if promoted == None then
                && (forall v | v in cancelled :: cancelled[v].status != WAITLIST)
                && rows == cancelled && count == (if old(count) > 0 then old(count) - 1 else old(count))
              else
                && promoted.value in cancelled && cancelled[promoted.value].status == WAITLIST
                && rows == cancelled[promoted.value := cancelled[promoted.value].(status := REGISTERED, position := None)]
                && count == old(count)
      ensures status == old(status) && leaderboard == old(leaderboard)
    {
      promoted := None;
      if u !in rows {
        return Rejected(NotFound), None;
      }
      if rows[u].status == CANCELLED {
        return Rejected(AlreadyCancelled), None;
      }
      promoted := CancelRow(u);
      tally := Count(old(tally), config, old(Snapshot()), AdminCancel(u, promoted));
      StaysValid(AdminCancel(u, promoted));
      reply := Accepted(false, rows[u]);
    }

    /** `submitProgress`, without the rewards for completion. */
    method SubmitProgress(u: UserId, now: int, score: Option<real>, progress: Option<int>) returns (reply: Reply)
      requires Valid()
      modifies this
      ensures Valid() && Performed(Submit(u, now, score, progress))
      ensures match reply
              case Rejected(reason) =>
                reason == if old(status) != ACTIVE then NotActive
                          else if now > config.endDate then EventOver else RegistrationRequired
              case Accepted(_, p) => u in rows && p == rows[u]
      ensures reply.Rejected? <==> old(status) != ACTIVE || now > config.endDate || (u !in old(rows) && !config.open)
      ensures reply.Rejected? ==> Snapshot() == old(Snapshot())
      // on the columns: the best score and progress are kept, and 100 completes
      ensures reply.Accepted? ==> var was := if u in old(rows) then old(rows)[u] else Participation(IN_PROGRESS, None, now, 0.0, 0);
              && u in rows && rows == old(rows)[u := rows[u]]
              && rows[u].position == was.position && rows[u].createdAt == was.createdAt
              && rows[u].score == (if score.Some? && score.value > was.score then score.value
                                   else if score == None && was.score < 0.0 then 0.0 else was.score)
              && rows[u].progress == (if progress.Some? && progress.value > was.progress then progress.value
                                      else if progress == None && was.progress < 0 then 0 else was.progress)
              && rows[u].status == (if rows[u].progress >= 100 then COMPLETED else IN_PROGRESS)
              && count == (if u in old(rows) then old(count) else old(count) + 1)
              && leaderboard == (if score.Some? && score.value > 0.0 then old(leaderboard)[u := rows[u].score] else old(leaderboard))
      ensures status == old(status)
    {
      hide Balanced, WithinCapacity, WorkConserving, LeaderboardAgrees, ApplySubmit;
      if status != ACTIVE {
        return Rejected(NotActive);
      }
      if now > config.endDate {
        return Rejected(EventOver);
      }
      if u !in rows && !config.open {
        return Rejected(RegistrationRequired);
      }
      Progress(u, now, score, progress);
      tally := Count(old(tally), config, old(Snapshot()), Submit(u, now, score, progress));
      StaysValid(Submit(u, now, score, progress));
      reply := Accepted(false, rows[u]);
    }

    /** An accepted submission: the implicit participation of a newcomer, then the update. */
    method Progress(u: UserId, now: int, score: Option<real>, progress: Option<int>)
      modifies this`rows, this`count, this`leaderboard
      ensures u in rows && Snapshot() == ApplySubmit(old(Snapshot()), u, now, score, progress)
      // on the columns: the best score and progress are kept, and 100 completes
      ensures var was := if u in old(rows) then old(rows)[u] else Participation(IN_PROGRESS, None, now, 0.0, 0);
              && u in rows && rows == old(rows)[u := rows[u]]
              && rows[u].position == was.position && rows[u].createdAt == was.createdAt
              && rows[u].score == (if score.Some? && score.value > was.score then score.value
                                   else if score == None && was.score < 0.0 then 0.0 else was.score)
              && rows[u].progress == (if progress.Some? && progress.value > was.progress then progress.value
                                      else if progress == None && was.progress < 0 then 0 else was.progress)
              && rows[u].status == (if rows[u].progress >= 100 then COMPLETED else IN_PROGRESS)
              && count == (if u in old(rows) then old(count) else old(count) + 1)
              && leaderboard == (if score.Some? && score.value > 0.0 then old(leaderboard)[u := rows[u].score] else old(leaderboard))
    {
      if u !in rows {
        rows := rows[u := Participation(IN_PROGRESS, None, now, 0.0, 0)];
        count := count + 1;
      }
      RecordProgress(u, score, progress);
      assert rows[u] == Progressed(old(Snapshot()), u, now, score, progress);
    }

    /** The update of the row and of the leaderboard inside `submitProgress`. */
    method RecordProgress(u: UserId, score: Option<real>, progress: Option<int>)
      requires u in rows
      modifies this`rows, this`leaderboard
      ensures u in rows
      ensures var was, p := old(rows)[u], rows[u];
              && rows == old(rows)[u := p]
              && p.position == was.position && p.createdAt == was.createdAt
              && p.score == MaxReal(was.score, Or(score, 0.0))
              && p.progress == Max(was.progress, Or(progress, 0))
              && p.status == (if p.progress >= 100 then COMPLETED else IN_PROGRESS)
              && leaderboard == if Or(score, 0.0) > 0.0 then old(leaderboard)[u := p.score] else old(leaderboard)
    {
      var p := rows[u];
      var newScore := MaxReal(p.score, Or(score, 0.0));
      var newProgress := Max(p.progress, Or(progress, 0));
      var isCompleted := newProgress >= 100;
      rows := rows[u := p.(score := newScore, progress := newProgress,
                           status := if isCompleted then COMPLETED else IN_PROGRESS)];
      if score.Some? && score.value > 0.0 {
        leaderboard := leaderboard[u := newScore];
      }
    }
  }
}
