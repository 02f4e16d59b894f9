/**
  The order of the waiting list.  Positions are "number waiting plus one" and are not renumbered,
  so the list is first come, first served only under conditions that this module makes exact.
 */
module EventQueue {

  import opened Basics
  import opened EventSeats
  import opened Wrappers

  // ---------- Joining order ----------

  /** `p` is promoted before `q`, whatever the database returns first among equals. */
  predicate Before(p: Participation, q: Participation) {
    !NotAfter(q, p)
  }

  predicate WaitsIn(rows: map<UserId, Participation>, u: UserId) {
    u in rows && Waits(rows[u].status)
  }

  predicate Ahead(rows: map<UserId, Participation>, u: UserId, v: UserId) {
    u in rows && v in rows && Before(rows[u], rows[v])
  }

  ghost predicate Ascending(rows: map<UserId, Participation>, queue: seq<UserId>) {
    forall i, j | 0 <= i < j < |queue| :: Ahead(rows, queue[i], queue[j])
  }

  /** `queue` names exactly those who wait, in the order in which they will be promoted. */
  ghost predicate InLine(rows: map<UserId, Participation>, queue: seq<UserId>) {
    && (forall u :: u in queue <==> WaitsIn(rows, u))
    && Ascending(rows, queue)
  }

  function StillWaiting(rows: map<UserId, Participation>, queue: seq<UserId>): seq<UserId> {
    if queue == [] then []
    else
      var last := queue[|queue| - 1];
      StillWaiting(rows, queue[..|queue| - 1]) + if WaitsIn(rows, last) then [last] else []
  }

  predicate Joins(c: Config, s: State, call: Call)
    requires Possible(c, s, call)
  {
    call.Participate? && !WaitsIn(s.rows, call.user) && WaitsIn(Apply(c, s, call).rows, call.user)
  }

  lemma JoinsIsParticipate(c: Config, s: State, call: Call)
    requires Possible(c, s, call)
    ensures Joins(c, s, call) ==> call.Participate?
  {
  }

  /** The joining order after a call: whoever no longer waits is gone, a newcomer is last. */
  function NextQueue(c: Config, s: State, queue: seq<UserId>, call: Call): seq<UserId>
    requires Possible(c, s, call)
  {
    StillWaiting(Apply(c, s, call).rows, queue) + if Joins(c, s, call) then [call.user] else []
  }

  /** Who stops waiting by a call: the promoted one, or the waiting user who cancels or submits. */
  function Leaver(c: Config, s: State, call: Call): Option<UserId> {
    if Cancels(c, s, call) then
      if Waits(s.rows[call.user].status) then Some(call.user)
      else if Active(s.rows[call.user].status) then call.next
      else None
    else if Submits(c, s, call) && WaitsIn(s.rows, call.user) then Some(call.user)
    else None
  }

  /** Who waits after a call, and that a row does not change while its user waits. */
  lemma WaitersAfter(c: Config, s: State, call: Call)
    requires Possible(c, s, call)
    ensures var after := Apply(c, s, call);
            && (forall u :: WaitsIn(after.rows, u) <==>
                  (WaitsIn(s.rows, u) && Leaver(c, s, call) != Some(u)) || (Joins(c, s, call) && u == call.user))
            && (forall u | WaitsIn(s.rows, u) && WaitsIn(after.rows, u) :: after.rows[u] == s.rows[u])
            && (Joins(c, s, call) ==> Leaver(c, s, call) == None)
    ensures Leaver(c, s, call).Some? ==> WaitsIn(s.rows, Leaver(c, s, call).value)
  {
  }

  lemma {:induction false} StillWaitingContents(rows: map<UserId, Participation>, queue: seq<UserId>)
    ensures forall u :: u in StillWaiting(rows, queue) <==> u in queue && WaitsIn(rows, u)
    ensures |StillWaiting(rows, queue)| <= |queue|
    ensures |StillWaiting(rows, queue)| == |queue| <==> forall u | u in queue :: WaitsIn(rows, u)
    ensures (forall u | u in queue :: WaitsIn(rows, u)) ==> StillWaiting(rows, queue) == queue
  {
    if queue != [] {
      var before, last := queue[..|queue| - 1], queue[|queue| - 1];
      StillWaitingContents(rows, before);
      assert queue == before + [last];
      assert forall u :: u in queue <==> u in before || u == last;
      assert StillWaiting(rows, queue) == StillWaiting(rows, before) + if WaitsIn(rows, last) then [last] else [];
    }
  }

  /** Those who go on waiting stay in order. */
  lemma {:induction false} StillInOrder(before: map<UserId, Participation>, rows: map<UserId, Participation>, queue: seq<UserId>)
    requires Ascending(before, queue)
    requires forall u | u in queue && WaitsIn(rows, u) :: u in before && rows[u] == before[u]
    ensures Ascending(rows, StillWaiting(rows, queue))
  {
    if queue != [] {
      hide Ahead, Ascending, WaitsIn;
      var n := |queue| - 1;
      AscendingParts(before, queue, n);
      assert forall u | u in queue[..n] :: u in queue;
      StillInOrder(before, rows, queue[..n]);
      assert StillWaiting(rows, queue) == StillWaiting(rows, queue[..n]) + if WaitsIn(rows, queue[n]) then [queue[n]] else [];
      if WaitsIn(rows, queue[n]) {
        StillWaitingContents(rows, queue[..n]);
        SameAhead(before, rows, queue, n);
        AscendingSnoc(rows, StillWaiting(rows, queue[..n]), queue[n]);
      } else {
        assert StillWaiting(rows, queue) == StillWaiting(rows, queue[..n]);
      }
    }
  }

  lemma AscendingParts(rows: map<UserId, Participation>, queue: seq<UserId>, n: nat)
    requires n < |queue| && Ascending(rows, queue)
    ensures Ascending(rows, queue[..n])
    ensures forall u | u in queue[..n] :: Ahead(rows, u, queue[n])
  {
    hide Ahead;
    forall u | u in queue[..n] ensures Ahead(rows, u, queue[n]) {
      var i :| 0 <= i < n && queue[i] == u;
    }
  }

  lemma SameAhead(before: map<UserId, Participation>, rows: map<UserId, Participation>, queue: seq<UserId>, n: nat)
    requires n < |queue| && WaitsIn(rows, queue[n])
    requires forall u | u in queue[..n] :: Ahead(before, u, queue[n])
    requires forall u | u in queue && WaitsIn(rows, u) :: u in before && rows[u] == before[u]
    ensures forall u | u in queue[..n] && WaitsIn(rows, u) :: Ahead(rows, u, queue[n])
  {
    assert queue[n] in queue;
    assert forall u | u in queue[..n] :: u in queue;
  }

  lemma AscendingSnoc(rows: map<UserId, Participation>, queue: seq<UserId>, u: UserId)
    requires Ascending(rows, queue) && forall v | v in queue :: Ahead(rows, v, u)
    ensures Ascending(rows, queue + [u])
  {
    hide Ahead;
  }

  lemma BeforeTransitive(p: Participation, q: Participation, r: Participation)
    ensures Before(p, q) && Before(q, r) ==> Before(p, r)
    ensures !Before(p, p)
  {
  }

  /** The number waiting is the length of the queue. */
  lemma QueueLength(rows: map<UserId, Participation>, queue: seq<UserId>)
    requires InLine(rows, queue)
    ensures |queue| == Waiting(rows) && Distinct(queue)
  {
    assert Elements(queue) == Having(rows, Waits);
    DistinctSize(queue);
  }

  /** What a newcomer can see in advance: how the last one in the queue stands. */
  ghost predicate JoinsBehindTheLast(s: State, queue: seq<UserId>, u: UserId, now: int) {
    queue != [] ==>
      && queue[|queue| - 1] in s.rows
      && (var last := s.rows[queue[|queue| - 1]];
          && last.position.Some?
          && (|| last.position.value <= |queue|
              || (last.position.value == |queue| + 1
                  && last.createdAt < if u in s.rows then s.rows[u].createdAt else now)))
  }

  lemma JoinersRow(c: Config, s: State, call: Call)
    requires Possible(c, s, call) && call.Participate? && Joins(c, s, call)
    ensures var p := Apply(c, s, call).rows[call.user];
            && !WaitsIn(s.rows, call.user)
            && p.position == Some(Waiting(s.rows) + 1)
            && p.createdAt == if call.user in s.rows then s.rows[call.user].createdAt else call.now
  {
  }

  /** A newcomer keeps the queue in line if and only if he comes behind its last one. */
  lemma JoinKeepsLine(c: Config, s: State, queue: seq<UserId>, call: Call)
    requires Possible(c, s, call) && call.Participate? && Joins(c, s, call) && InLine(s.rows, queue)
    ensures InLine(Apply(c, s, call).rows, queue + [call.user]) <==> JoinsBehindTheLast(s, queue, call.user, call.now)
  {
    hide Apply, Joins, Leaver, Waits;
    JoinsIsParticipate(c, s, call);
    WaitersAfter(c, s, call);
    JoinersRow(c, s, call);
    QueueLength(s.rows, queue);
    var after, n, line := Apply(c, s, call).rows, |queue|, queue + [call.user];
    assert forall u | u in queue :: WaitsIn(s.rows, u) && after[u] == s.rows[u];
    if n > 0 {
      assert line[n - 1] == queue[n - 1] && line[n] == call.user;
      assert queue[n - 1] in queue;
      assert InLine(after, line) ==> Ahead(after, line[n - 1], line[n]);
      if JoinsBehindTheLast(s, queue, call.user, call.now) {
        forall v | v in queue ensures Ahead(after, v, call.user) {
          var i :| 0 <= i < n && queue[i] == v;
          assert i < n - 1 ==> Ahead(s.rows, queue[i], queue[n - 1]);
          BeforeTransitive(s.rows[v], s.rows[queue[n - 1]], after[call.user]);
        }
        SameAscending(s.rows, after, queue);
        AscendingSnoc(after, queue, call.user);
      }
    }
  }

  lemma SameAscending(before: map<UserId, Participation>, rows: map<UserId, Participation>, queue: seq<UserId>)
    requires Ascending(before, queue) && forall u | u in queue :: u in before && u in rows && rows[u] == before[u]
    ensures Ascending(rows, queue)
  {
    forall i, j | 0 <= i < j < |queue| ensures Ahead(rows, queue[i], queue[j]) {
      assert Ahead(before, queue[i], queue[j]) && queue[i] in queue && queue[j] in queue;
    }
  }

  /**
    A call keeps the queue in joining order if and only if it is not a registration that overtakes
    the last one waiting.  No promotion, cancellation or submission disturbs the order.
   */
  lemma LineStep(c: Config, s: State, queue: seq<UserId>, call: Call)
    requires Possible(c, s, call) && InLine(s.rows, queue)
    ensures InLine(Apply(c, s, call).rows, NextQueue(c, s, queue, call)) <==>
            (Joins(c, s, call) ==> JoinsBehindTheLast(s, queue, call.user, call.now))
  {
    hide Apply, Joins, Leaver, JoinsBehindTheLast, Before;
    JoinsIsParticipate(c, s, call);
    var after := Apply(c, s, call).rows;
    WaitersAfter(c, s, call);
    StillWaitingContents(after, queue);
    if Joins(c, s, call) {
      assert forall u | u in queue :: WaitsIn(s.rows, u);
      JoinKeepsLine(c, s, queue, call);
    } else {
      StillInOrder(s.rows, after, queue);
      assert StillWaiting(after, queue) + [] == StillWaiting(after, queue);
    }
  }

  // ---------- Whole runs ----------

  /** Somebody overtakes in the run. */
  ghost predicate Overtakes(c: Config, s: State, queue: seq<UserId>, calls: seq<Call>)
    requires PossibleRun(c, s, calls)
    decreases |calls|
  {
    calls != [] &&
    (|| (Joins(c, s, calls[0]) && !JoinsBehindTheLast(s, queue, calls[0].user, calls[0].now))
     || Overtakes(c, Apply(c, s, calls[0]), NextQueue(c, s, queue, calls[0]), calls[1..]))
  }

  /** In every state of the run the queue stands in joining order. */
  ghost predicate InLineThroughout(c: Config, s: State, queue: seq<UserId>, calls: seq<Call>)
    requires PossibleRun(c, s, calls)
    decreases |calls|
  {
    && InLine(s.rows, queue)
    && (calls == [] || InLineThroughout(c, Apply(c, s, calls[0]), NextQueue(c, s, queue, calls[0]), calls[1..]))
  }

  predicate Promotes(c: Config, s: State, call: Call) {
    Cancels(c, s, call) && Active(s.rows[call.user].status) && call.next.Some?
  }

  /** Every promotion of the run takes the one who joined first. */
  ghost predicate FirstComeFirstServed(c: Config, s: State, queue: seq<UserId>, calls: seq<Call>)
    requires PossibleRun(c, s, calls)
    decreases |calls|
  {
    calls == [] ||
    (&& (Promotes(c, s, calls[0]) ==> queue != [] && calls[0].next == Some(queue[0]))
     && FirstComeFirstServed(c, Apply(c, s, calls[0]), NextQueue(c, s, queue, calls[0]), calls[1..]))
  }

  /** From a queue in joining order the promoted one is its head. */
  lemma HeadIsPromoted(c: Config, s: State, queue: seq<UserId>, call: Call)
    requires Possible(c, s, call) && InLine(s.rows, queue) && Promotes(c, s, call)
    ensures queue != [] && call.next == Some(queue[0])
  {
    hide Before;
    var rows, v := WithCancelled(s, call.user), call.next.value;
    assert FirstWaiting(rows, v);
    assert v in queue;
    var k :| 0 <= k < |queue| && queue[k] == v;
    if k > 0 {
      assert queue[0] in queue;
      assert Ahead(s.rows, queue[0], queue[k]);
      assert NotAfter(rows[v], rows[queue[0]]);
      NotBoth(s.rows[queue[0]], s.rows[v]);
    }
  }

  lemma NotBoth(p: Participation, q: Participation)
    ensures !(Before(p, q) && NotAfter(q, p))
  {
  }

  /**
    The queue stands in joining order throughout a run if and only if nobody overtakes in it, and
    then everybody is promoted in the order of joining.
   */
  lemma {:induction false} ServedInJoiningOrder(c: Config, s: State, queue: seq<UserId>, calls: seq<Call>)
    requires PossibleRun(c, s, calls) && InLine(s.rows, queue)
    ensures InLineThroughout(c, s, queue, calls) <==> !Overtakes(c, s, queue, calls)
    ensures !Overtakes(c, s, queue, calls) ==> FirstComeFirstServed(c, s, queue, calls)
    decreases |calls|
  {
    hide Apply, InLine, NextQueue, Joins, Promotes, JoinsBehindTheLast;
    if calls != [] {
      var next := NextQueue(c, s, queue, calls[0]);
      LineStep(c, s, queue, calls[0]);
      if Promotes(c, s, calls[0]) {
        HeadIsPromoted(c, s, queue, calls[0]);
      }
      if InLine(Apply(c, s, calls[0]).rows, next) {
        ServedInJoiningOrder(c, Apply(c, s, calls[0]), next, calls[1..]);
      } else {
        assert !InLineThroughout(c, Apply(c, s, calls[0]), next, calls[1..]);
      }
    }
  }

  // ---------- Positions without gaps ----------

  /** The waiting positions are exactly 1 to n, in joining order. */
  ghost predicate Gapless(rows: map<UserId, Participation>, queue: seq<UserId>) {
    && (forall u :: u in queue <==> WaitsIn(rows, u))
    && (forall i | 0 <= i < |queue| :: queue[i] in rows && rows[queue[i]].position == Some(i + 1))
  }

  /** Then the queue is in line, and a newcomer stands last. */
  lemma GaplessIsInLine(s: State, queue: seq<UserId>, u: UserId, now: int)
    requires Gapless(s.rows, queue)
    ensures InLine(s.rows, queue) && JoinsBehindTheLast(s, queue, u, now)
  {
  }

  /** A departure from in front of somebody. */
  ghost predicate LeavesAGap(c: Config, s: State, queue: seq<UserId>, call: Call) {
    Leaver(c, s, call).Some? && queue != [] && queue[|queue| - 1] != Leaver(c, s, call).value
  }

  /** Without the participants who left, the positions are gapless if and only if the last one left. */
  lemma GaplessAfterLeaving(before: map<UserId, Participation>, rows: map<UserId, Participation>, queue: seq<UserId>, leaver: UserId)
    requires Gapless(before, queue) && leaver in queue && Distinct(queue)
    requires forall u :: WaitsIn(rows, u) <==> WaitsIn(before, u) && u != leaver
    requires forall u | WaitsIn(rows, u) :: u in before && rows[u] == before[u]
    ensures Gapless(rows, StillWaiting(rows, queue)) <==> queue[|queue| - 1] == leaver
  {
    hide StillWaiting;
    var n, still := |queue| - 1, StillWaiting(rows, queue);
    StillWaitingContents(rows, queue);
    if queue[n] == leaver {
      AllButTheLast(rows, queue);
      assert forall i | 0 <= i < n :: queue[i] in queue && WaitsIn(rows, queue[i]);
    } else {
      assert |still| <= n;
      assert queue[n] in still;
      var k :| 0 <= k < |still| && still[k] == queue[n];
      assert rows[still[k]].position == Some(n + 1);
    }
  }

  lemma GaplessAfterJoining(before: map<UserId, Participation>, rows: map<UserId, Participation>, queue: seq<UserId>, u: UserId)
    requires Gapless(before, queue) && u !in queue
    requires forall v :: WaitsIn(rows, v) <==> WaitsIn(before, v) || v == u
    requires forall v | WaitsIn(before, v) :: v in rows && rows[v] == before[v]
    requires u in rows && rows[u].position == Some(|queue| + 1)
    ensures Gapless(rows, queue + [u]) && StillWaiting(rows, queue) == queue
  {
    hide Waits, StillWaiting;
    assert StillWaiting(rows, queue) == queue by {
      StillWaitingContents(rows, queue);
    }
    forall i | 0 <= i < |queue| ensures queue[i] in rows && rows[queue[i]].position == Some(i + 1) {
      assert queue[i] in queue;
    }
  }

  /** A call leaves the positions without gaps if and only if nobody departs from in front of somebody. */
  lemma GaplessStep(c: Config, s: State, queue: seq<UserId>, call: Call)
    requires Possible(c, s, call) && Gapless(s.rows, queue)
    ensures Gapless(Apply(c, s, call).rows, NextQueue(c, s, queue, call)) <==> !LeavesAGap(c, s, queue, call)
  {
    hide Apply, Joins, Leaver, Waits, StillWaiting, InLine;
    var after, leaver := Apply(c, s, call).rows, Leaver(c, s, call);
    JoinsIsParticipate(c, s, call);
    WaitersAfter(c, s, call);
    GaplessIsInLine(s, queue, "", 0);
    QueueLength(s.rows, queue);
    if Joins(c, s, call) {
      JoinersRow(c, s, call);
      GaplessAfterJoining(s.rows, after, queue, call.user);
    } else {
      assert NextQueue(c, s, queue, call) == StillWaiting(after, queue);
      if leaver == None {
        StillWaitingContents(after, queue);
        assert forall i | 0 <= i < |queue| :: queue[i] in queue;
      } else {
        GaplessAfterLeaving(s.rows, after, queue, leaver.value);
      }
    }
  }

  lemma AllButTheLast(rows: map<UserId, Participation>, queue: seq<UserId>)
    requires queue != [] && Distinct(queue) && !WaitsIn(rows, queue[|queue| - 1])
    requires forall u | u in queue && u != queue[|queue| - 1] :: WaitsIn(rows, u)
    ensures StillWaiting(rows, queue) == queue[..|queue| - 1]
  {
    StillWaitingContents(rows, queue[..|queue| - 1]);
  }

  ghost predicate GapSomewhere(c: Config, s: State, queue: seq<UserId>, calls: seq<Call>)
    requires PossibleRun(c, s, calls)
    decreases |calls|
  {
    calls != [] &&
    (|| LeavesAGap(c, s, queue, calls[0])
     || GapSomewhere(c, Apply(c, s, calls[0]), NextQueue(c, s, queue, calls[0]), calls[1..]))
  }

  /** A run in which nobody departs from in front of somebody has no overtaking. */
  lemma {:induction false} NoGapNoOvertaking(c: Config, s: State, queue: seq<UserId>, calls: seq<Call>)
    requires PossibleRun(c, s, calls) && Gapless(s.rows, queue) && !GapSomewhere(c, s, queue, calls)
    ensures !Overtakes(c, s, queue, calls)
    decreases |calls|
  {
    hide Apply, Gapless, NextQueue, Joins, JoinsBehindTheLast, LeavesAGap;
    if calls != [] {
      GaplessStep(c, s, queue, calls[0]);
      if calls[0].Participate? {
        GaplessIsInLine(s, queue, calls[0].user, calls[0].now);
      }
      JoinsIsParticipate(c, s, calls[0]);
      NoGapNoOvertaking(c, Apply(c, s, calls[0]), NextQueue(c, s, queue, calls[0]), calls[1..]);
    }
  }

  // ---------- A run that overtakes ----------

  /** One seat, waiting list without limit, dates far away. */
  const TINY := Config(1, true, 0, true, FREE, None, 1000, 2000)

  const OPENED := EMPTY.(status := ACTIVE)

  function OvertakingRun(): seq<Call> {
    [ Participate("a", 1, FREE),       // takes the seat
      Participate("b", 2, FREE),       // waits, position 1
      Participate("c", 3, FREE),       // waits, position 2
      Cancel("a", 4, Some("b")),       // b is promoted, c keeps position 2
      Participate("a", 5, FREE) ]      // waits, position 2 with the oldest row
  }

  lemma RunFrom(c: Config, s: State, calls: seq<Call>, k: nat, after: State)
    requires k < |calls| && Possible(c, s, calls[k]) && Apply(c, s, calls[k]) == after
    requires PossibleRun(c, after, calls[k + 1..])
    ensures PossibleRun(c, s, calls[k..])
    ensures Run(c, s, calls[k..]) == Run(c, after, calls[k + 1..])
  {
    assert calls[k..][0] == calls[k] && calls[k..][1..] == calls[k + 1..];
  }

  lemma RunDone(c: Config, s: State, calls: seq<Call>)
    requires calls == []
    ensures PossibleRun(c, s, calls) && Run(c, s, calls) == s
  {
  }

  function Row(status: Status, position: Option<nat>, createdAt: int): Participation {
    Participation(status, position, createdAt, 0.0, 0)
  }

  lemma WaitingNow(rows: map<UserId, Participation>, who: set<UserId>)
    requires Having(rows, Waits) == who
    ensures Waiting(rows) == |who|
  {
  }

  const AFTER_B := OPENED.(count := 1, rows := map["a" := Row(REGISTERED, None, 1), "b" := Row(WAITLIST, Some(1), 2)])
  const AFTER_C := AFTER_B.(rows := AFTER_B.rows["c" := Row(WAITLIST, Some(2), 3)])
  const AFTER_CANCEL := AFTER_C.(rows := AFTER_C.rows["a" := Row(CANCELLED, None, 1)]["b" := Row(REGISTERED, None, 2)])
  const AT_THE_END := AFTER_CANCEL.(rows := AFTER_CANCEL.rows["a" := Row(WAITLIST, Some(2), 1)])

  lemma OvertakingStart()
    ensures var s1 := Apply(TINY, OPENED, Participate("a", 1, FREE));
            Apply(TINY, s1, Participate("b", 2, FREE)) == AFTER_B
    ensures Apply(TINY, AFTER_B, Participate("c", 3, FREE)) == AFTER_C
  {
    WaitingNow(map["a" := Row(REGISTERED, None, 1)], {});
    WaitingNow(AFTER_B.rows, {"b"});
  }

  lemma OvertakingEnd()
    ensures Possible(TINY, AFTER_C, Cancel("a", 4, Some("b")))
    ensures Apply(TINY, AFTER_C, Cancel("a", 4, Some("b"))) == AFTER_CANCEL
    ensures Apply(TINY, AFTER_CANCEL, Participate("a", 5, FREE)) == AT_THE_END
  {
    WaitingNow(AFTER_CANCEL.rows, {"c"});
  }

  lemma OvertakingOrder()
    ensures Having(AT_THE_END.rows, Waits) == {"a", "c"}
    ensures FirstWaiting(AT_THE_END.rows, "a") && !FirstWaiting(AT_THE_END.rows, "c")
  {
  }

  /** A run that puts somebody in front of a participant who was waiting before. */
  lemma LaterJoinerOvertakes()
    ensures PossibleRun(TINY, OPENED, OvertakingRun())
    ensures var rows := Run(TINY, OPENED, OvertakingRun()).rows;
            && Having(rows, Waits) == {"a", "c"}
            && FirstWaiting(rows, "a") && !FirstWaiting(rows, "c")
  {
    hide Run, PossibleRun, Apply, FirstWaiting;
    var calls := OvertakingRun();
    OvertakingStart();
    OvertakingEnd();
    OvertakingOrder();
    assert calls[5..] == [] && calls[0..] == calls;
    RunDone(TINY, AT_THE_END, calls[5..]);
    RunFrom(TINY, AFTER_CANCEL, calls, 4, AT_THE_END);
    RunFrom(TINY, AFTER_C, calls, 3, AFTER_CANCEL);
    RunFrom(TINY, AFTER_B, calls, 2, AFTER_C);
    RunFrom(TINY, Apply(TINY, OPENED, calls[0]), calls, 1, AFTER_B);
    RunFrom(TINY, OPENED, calls, 0, Apply(TINY, OPENED, calls[0]));
  }
}
