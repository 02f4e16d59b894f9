/**
  The life of a contribution: drafting, review, archiving with an audit trail, and the handling
  of duplicates with dispute and timed purge.

  `Apply` is the effect of one service call; the class in `ContributionDesk` performs the calls.
 */
module Contributions {

  import opened Wrappers

  type Id = string
  type UserId = string

  datatype Status = DRAFT | PENDING_REVIEW | CHANGES_REQUESTED | APPROVED | REJECTED | ARCHIVED

  datatype DisputeStatus = NONE | PENDING | ACCEPTED | REFUSED

  datatype Content = Content(category: string, textMg: string, textFr: string, meaning: string, region: Option<string>)

  datatype Row = Row(
    userId: UserId,
    createdAt: int,
    content: Content,
    status: Status,
    flagged: bool,
    isDuplicateConfirmed: bool,
    markedForDeletionAt: Option<int>,
    disputeStatus: DisputeStatus)

  datatype Action =
    | CreatedDraft | Submitted | ModerationFlagged | ChangesRequested | Rejected | Approved | Updated | Deleted | Archived

  /** A row of the audit log; `fromStatus` is null for the creation of a draft. */
  datatype Entry = Entry(action: Action, fromStatus: Option<Status>, toStatus: Status)

  /** A row of the official catalogue, with the contribution whose approval published it. */
  datatype Item = Item(source: Id, content: Content, author: UserId)

  datatype State = State(
    rows: map<Id, Row>,
    logs: map<Id, seq<Entry>>,
    items: seq<Item>,
    xp: map<UserId, nat>)

  const EMPTY := State(map[], map[], [], map[])

  /** Times are in milliseconds. */
  const HOUR := 3_600_000
  const DAY := 24 * HOUR

  // ---------- Calls ----------

  /** The edited fields of an update; an absent category is empty. */
  datatype Patch = Patch(
    category: string,
    textMg: Option<string>,
    textFr: Option<string>,
    meaning: Option<string>,
    region: Option<string>,
    submit: bool)

  datatype Call =
    | Create(id: Id, user: UserId, isDraft: bool, content: Content, now: int)
    | Submit(id: Id, user: UserId)
    | Validate(id: Id, approve: bool, admin: Option<UserId>, requestChanges: bool)
    | Update(id: Id, user: UserId, isAdmin: bool, patch: Patch, now: int)
    | Remove(id: Id, user: UserId, isAdmin: bool, now: int)
    | ConfirmDuplicate(id: Id, now: int)
    | SubmitDispute(id: Id, user: UserId, now: int)
    | ResolveDispute(id: Id, approve: bool, now: int)
    | Purge(now: int)

  datatype Failure = NotFound | Forbidden | BadStatus | Expired | NotADuplicate | NoDispute

  /** Why a call is refused, if it is. */
  function Refusal(s: State, call: Call): Option<Failure> {
    if call.Create? || call.Purge? then None
    else if call.id !in s.rows then Some(NotFound)
    else
      var row := s.rows[call.id];
      match call
      case Submit(_, user) =>
        if row.userId != user then Some(Forbidden)
        else if row.status != DRAFT && row.status != CHANGES_REQUESTED then Some(BadStatus)
        else None
      case Validate(_, approve, admin, _) =>
        if approve && admin == Some(row.userId) then Some(Forbidden) else None
      case Update(_, user, isAdmin, _, now) =>
        if row.userId != user && !isAdmin then Some(Forbidden)
        else if !isAdmin && (row.status == APPROVED || row.status == ARCHIVED) then Some(BadStatus)
        else if !isAdmin && row.status == PENDING_REVIEW && now - row.createdAt > 48 * HOUR then Some(Expired)
        else None
      case Remove(_, user, isAdmin, now) =>
        if row.userId != user && !isAdmin then Some(Forbidden)
        else if !isAdmin && row.status != DRAFT && now - row.createdAt > 24 * HOUR then Some(Expired)
        else None
      case SubmitDispute(_, user, _) =>
        if row.userId != user then Some(Forbidden)
        else if !row.isDuplicateConfirmed then Some(NotADuplicate)
        else None
      case ResolveDispute(_, _, _) =>
        if row.disputeStatus != PENDING then Some(NoDispute) else None
      case ConfirmDuplicate(_, _) => None
  }

  // ---------- Effects ----------

  function Logged(s: State, id: Id, e: Entry): State {
    s.(logs := s.logs[id := (if id in s.logs then s.logs[id] else []) + [e]])
  }

  function WithStatus(s: State, id: Id, status: Status): State
    requires id in s.rows
  {
    s.(rows := s.rows[id := s.rows[id].(status := status)])
  }

  /** `processSubmissionModeration`: whatever the moderation says, the contribution becomes pending. */
  function Process(moderate: Content -> bool, s: State, id: Id, from: Status): State
    requires id in s.rows
  {
    var flagged := moderate(s.rows[id].content);
    Logged(s.(rows := s.rows[id := s.rows[id].(status := PENDING_REVIEW, flagged := flagged)]),
           id, Entry(if flagged then ModerationFlagged else Submitted, Some(from), PENDING_REVIEW))
  }

  function Patched(c: Content, p: Patch): Content {
    Content(if p.category != "" then p.category else c.category,
            Or(p.textMg, c.textMg), Or(p.textFr, c.textFr), Or(p.meaning, c.meaning),
            if p.region.Some? then p.region else c.region)
  }

  predicate TextChanged(c: Content, p: Patch) {
    var after := Patched(c, p);
    after.textMg != c.textMg || after.textFr != c.textFr || after.meaning != c.meaning
  }

  function ApplyCreate(moderate: Content -> bool, s: State, c: Call): State
    requires c.Create?
  {
    var row := Row(c.user, c.now, c.content, if c.isDraft then DRAFT else PENDING_REVIEW, false, false, None, NONE);
    var created := s.(rows := s.rows[c.id := row]);
    if c.isDraft then Logged(created, c.id, Entry(CreatedDraft, None, DRAFT))
    else Process(moderate, created, c.id, DRAFT)
  }

  function ApplyValidate(s: State, id: Id, approve: bool, requestChanges: bool): State
    requires id in s.rows
  {
    var row := s.rows[id];
    if approve then
      var paid := s.(items := s.items + [Item(id, row.content, row.userId)],
                     xp := s.xp[row.userId := (if row.userId in s.xp then s.xp[row.userId] else 0) + 50]);
      Logged(WithStatus(paid, id, APPROVED), id, Entry(Approved, Some(row.status), APPROVED))
    else if requestChanges then
      Logged(WithStatus(s, id, CHANGES_REQUESTED), id, Entry(ChangesRequested, Some(row.status), CHANGES_REQUESTED))
    else
      Logged(WithStatus(s, id, REJECTED), id, Entry(Rejected, Some(row.status), REJECTED))
  }

  function ApplyUpdate(moderate: Content -> bool, s: State, id: Id, patch: Patch): State
    requires id in s.rows
  {
    var row := s.rows[id];
    var edited := s.(rows := s.rows[id := row.(content := Patched(row.content, patch))]);
    if row.status == DRAFT && patch.submit then Process(moderate, edited, id, DRAFT)
    else if row.status == CHANGES_REQUESTED || (row.status == PENDING_REVIEW && TextChanged(row.content, patch)) then
      Process(moderate, edited, id, row.status)
    else Logged(edited, id, Entry(Updated, Some(row.status), row.status))
  }

  /** A draft is deleted together with its log; anything else is archived. */
  function ApplyRemove(s: State, id: Id): State
    requires id in s.rows
  {
    var status := s.rows[id].status;
    if status == DRAFT then s.(rows := s.rows - {id}, logs := s.logs - {id})
    else WithStatus(Logged(s, id, Entry(Archived, Some(status), ARCHIVED)), id, ARCHIVED)
  }

  /** The rows that a purge deletes. */
  predicate Expires(row: Row, now: int) {
    && row.isDuplicateConfirmed
    && row.markedForDeletionAt.Some? && row.markedForDeletionAt.value <= now
    && row.disputeStatus != PENDING
  }

  function Purged(s: State, now: int): set<Id> {
    set id | id in s.rows && Expires(s.rows[id], now)
  }

  /** One service call on a row that accepts it; a refused call changes nothing. */
  function Apply(moderate: Content -> bool, s: State, call: Call): State {
    if Refusal(s, call).Some? then s
    else
      match call
      case Create(_, _, _, _, _) => ApplyCreate(moderate, s, call)
      case Submit(id, _) => Process(moderate, s, id, s.rows[id].status)
      case Validate(id, approve, _, requestChanges) => ApplyValidate(s, id, approve, requestChanges)
      case Update(id, _, _, patch, _) => ApplyUpdate(moderate, s, id, patch)
      case Remove(id, _, _, _) => ApplyRemove(s, id)
      case ConfirmDuplicate(id, now) =>
        s.(rows := s.rows[id := s.rows[id].(isDuplicateConfirmed := true, markedForDeletionAt := Some(now + DAY),
                                            status := DRAFT)])
      case SubmitDispute(id, _, now) =>
        s.(rows := s.rows[id := s.rows[id].(disputeStatus := PENDING, markedForDeletionAt := None)])
      case ResolveDispute(id, approve, now) =>
        if approve then
          s.(rows := s.rows[id := s.rows[id].(isDuplicateConfirmed := false, disputeStatus := ACCEPTED,
                                              markedForDeletionAt := None, status := APPROVED)])
        else
          s.(rows := s.rows[id := s.rows[id].(disputeStatus := REFUSED, markedForDeletionAt := Some(now + DAY))])
      case Purge(now) =>
        s.(rows := s.rows - Purged(s, now), logs := s.logs - Purged(s, now))
  }

  /** A new id is one that was never used. */
  predicate Possible(s: State, call: Call) {
    call.Create? ==> call.id !in s.rows && call.id !in s.logs && forall item | item in s.items :: item.source != call.id
  }

  // ---------- The audit trail ----------

  /** The status to which a log leads from DRAFT, or nothing when an entry does not fit the one before. */
  function Replay(log: seq<Entry>): Option<Status> {
    if log == [] then Some(DRAFT)
    else
      var before, e := Replay(log[..|log| - 1]), log[|log| - 1];
      if before == Some(Or(e.fromStatus, DRAFT)) then Some(e.toStatus) else None
  }

  function LogOf(s: State, id: Id): seq<Entry> {
    if id in s.logs then s.logs[id] else []
  }

  /** The log of `id` replays to its current status. */
  ghost predicate Audited(s: State, id: Id)
    requires id in s.rows
  {
    LogOf(s, id) != [] && Replay(LogOf(s, id)) == Some(s.rows[id].status)
  }

  ghost predicate AllAudited(s: State) {
    (forall id | id in s.rows :: Audited(s, id)) && s.logs.Keys == s.rows.Keys
  }

  lemma ReplaySnoc(log: seq<Entry>, e: Entry)
    ensures Replay(log + [e]) ==
            if Replay(log) == Some(Or(e.fromStatus, DRAFT)) then Some(e.toStatus) else None
  {
    assert (log + [e])[..|log|] == log;
  }

  predicate Approves(s: State, call: Call) {
    call.Validate? && call.approve && Refusal(s, call) == None
  }

  /** A call of the duplicate workflow that moves a status without writing to the log. */
  ghost predicate MovesSilently(s: State, call: Call, id: Id)
    requires id in s.rows
  {
    && Refusal(s, call) == None
    && ((call.ConfirmDuplicate? && call.id == id && s.rows[id].status != DRAFT)
        || (call.ResolveDispute? && call.id == id && call.approve && s.rows[id].status != APPROVED))
  }

  /** The calls of the editorial workflow. */
  predicate IsEditorial(call: Call) {
    call.Create? || call.Submit? || call.Validate? || call.Update? || call.Remove?
  }

  // ---------- What a call writes to the log of a row ----------

  /** No entry: the status stays, or moves silently. */
  ghost predicate WritesNothing(s: State, after: State, call: Call, id: Id)
    requires id in s.rows && id in after.rows
  {
    && LogOf(after, id) == LogOf(s, id)
    && (after.rows[id].status != s.rows[id].status <==> MovesSilently(s, call, id))
    && !(Approves(s, call) && call.id == id)
  }

  /** One entry, from the old status to the new one; an approval for an approval. */
  ghost predicate WritesEntry(s: State, after: State, call: Call, id: Id)
    requires id in s.rows && id in after.rows
  {
    var was, now := LogOf(s, id), LogOf(after, id);
    && |now| == |was| + 1 && now == was + [now[|was|]]
    && now[|was|].fromStatus == Some(s.rows[id].status) && now[|was|].toStatus == after.rows[id].status
    && (now[|was|].action == Approved <==> Approves(s, call) && call.id == id)
    && !MovesSilently(s, call, id)
  }

  lemma RefusedCall(moderate: Content -> bool, s: State, call: Call, id: Id)
    requires Refusal(s, call).Some? && id in s.rows
    ensures Apply(moderate, s, call) == s && WritesNothing(s, s, call, id)
  {
    hide ApplyCreate, ApplyValidate, ApplyUpdate, ApplyRemove, Process, Purged;
  }

  /** A row that a call of another row, or a purge, leaves alone. */
  lemma OtherRow(moderate: Content -> bool, s: State, call: Call, id: Id)
    requires Possible(s, call) && id in s.rows && id in Apply(moderate, s, call).rows
    requires (call.Purge? || call.id != id) && Refusal(s, call) == None
    ensures WritesNothing(s, Apply(moderate, s, call), call, id)
  {
    hide Purged, Patched, TextChanged;
  }

  lemma ReviewWrites(moderate: Content -> bool, s: State, call: Call)
    requires call.Validate? && Refusal(s, call) == None
    ensures call.id in s.rows && call.id in Apply(moderate, s, call).rows
    ensures WritesEntry(s, Apply(moderate, s, call), call, call.id)
  {
  }

  lemma UpdateWrites(moderate: Content -> bool, s: State, call: Call)
    requires call.Update? && Refusal(s, call) == None
    ensures call.id in s.rows && call.id in Apply(moderate, s, call).rows
    ensures WritesEntry(s, Apply(moderate, s, call), call, call.id)
  {
    hide Patched, TextChanged;
  }

  lemma SubmissionWrites(moderate: Content -> bool, s: State, call: Call)
    requires call.Submit? && Refusal(s, call) == None
    ensures call.id in s.rows && call.id in Apply(moderate, s, call).rows
    ensures WritesEntry(s, Apply(moderate, s, call), call, call.id)
  {
  }

  lemma RemovalWrites(moderate: Content -> bool, s: State, call: Call)
    requires call.Remove? && Refusal(s, call) == None && call.id in Apply(moderate, s, call).rows
    ensures call.id in s.rows && WritesEntry(s, Apply(moderate, s, call), call, call.id)
  {
  }

  lemma DuplicateCallWrites(moderate: Content -> bool, s: State, call: Call)
    requires !IsEditorial(call) && !call.Purge? && Refusal(s, call) == None
    ensures call.id in s.rows && call.id in Apply(moderate, s, call).rows
    ensures WritesNothing(s, Apply(moderate, s, call), call, call.id)
  {
  }

  /** Every call writes at most one entry to the log of a row that stays, and that one fits the status. */
  lemma CallWrites(moderate: Content -> bool, s: State, call: Call, id: Id)
    requires Possible(s, call) && id in s.rows && id in Apply(moderate, s, call).rows
    ensures WritesNothing(s, Apply(moderate, s, call), call, id) || WritesEntry(s, Apply(moderate, s, call), call, id)
  {
    hide Apply, Refusal, WritesNothing, WritesEntry;
    if Refusal(s, call).Some? {
      RefusedCall(moderate, s, call, id);
    } else if call.Purge? || call.id != id {
      OtherRow(moderate, s, call, id);
    } else if call.Validate? {
      ReviewWrites(moderate, s, call);
    } else if call.Submit? {
      SubmissionWrites(moderate, s, call);
    } else if call.Update? {
      UpdateWrites(moderate, s, call);
    } else if call.Remove? {
      RemovalWrites(moderate, s, call);
    } else if !call.Create? {
      DuplicateCallWrites(moderate, s, call);
    }
  }

  /**
    A call keeps the log of a row in step with its status if and only if it is not one of the two
    silent moves of the duplicate workflow.
   */
  lemma AuditStep(moderate: Content -> bool, s: State, call: Call, id: Id)
    requires Possible(s, call) && id in s.rows && Audited(s, id)
    requires id in Apply(moderate, s, call).rows
    ensures Audited(Apply(moderate, s, call), id) <==> !MovesSilently(s, call, id)
  {
    hide Apply, Replay, LogOf, MovesSilently, Approves;
    var after := Apply(moderate, s, call);
    CallWrites(moderate, s, call, id);
    if LogOf(after, id) != LogOf(s, id) {
      ReplaySnoc(LogOf(s, id), LogOf(after, id)[|LogOf(s, id)|]);
    }
  }

  lemma AuditOfNewRow(moderate: Content -> bool, s: State, call: Call)
    requires call.Create? && Possible(s, call)
    ensures call.id in Apply(moderate, s, call).rows && Audited(Apply(moderate, s, call), call.id)
  {
    var after := Apply(moderate, s, call);
    ReplaySnoc([], after.logs[call.id][0]);
    assert after.logs[call.id] == [] + [after.logs[call.id][0]];
  }

  ghost predicate PossibleRun(moderate: Content -> bool, s: State, calls: seq<Call>)
    decreases |calls|
  {
    calls == [] || (Possible(s, calls[0]) && PossibleRun(moderate, Apply(moderate, s, calls[0]), calls[1..]))
  }

  function Run(moderate: Content -> bool, s: State, calls: seq<Call>): State
    decreases |calls|
  {
    if calls == [] then s else Run(moderate, Apply(moderate, s, calls[0]), calls[1..])
  }

  /** Rows and logs come and go together, and only `create` makes them. */
  lemma KeysStep(moderate: Content -> bool, s: State, call: Call)
    requires s.logs.Keys == s.rows.Keys
    ensures Apply(moderate, s, call).logs.Keys == Apply(moderate, s, call).rows.Keys
    ensures Apply(moderate, s, call).rows.Keys <= s.rows.Keys + if call.Create? then {call.id} else {}
  {
  }

  /** Some row moves silently by the call. */
  ghost predicate SilentCall(s: State, call: Call) {
    (call.ConfirmDuplicate? || call.ResolveDispute?) && call.id in s.rows && MovesSilently(s, call, call.id)
  }

  lemma SilentCallOf(moderate: Content -> bool, s: State, call: Call, id: Id)
    requires id in s.rows && MovesSilently(s, call, id)
    ensures SilentCall(s, call) && call.id == id
    ensures id in Apply(moderate, s, call).rows
  {
  }

  /** A call keeps all logs in step if and only if it is not a silent move. */
  lemma AllAuditedStep(moderate: Content -> bool, s: State, call: Call)
    requires Possible(s, call) && AllAudited(s)
    ensures AllAudited(Apply(moderate, s, call)) <==> !SilentCall(s, call)
  {
    hide Apply, Audited, MovesSilently;
    var after := Apply(moderate, s, call);
    KeysStep(moderate, s, call);
    if SilentCall(s, call) {
      SilentCallOf(moderate, s, call, call.id);
      AuditStep(moderate, s, call, call.id);
    } else {
      forall id | id in after.rows ensures Audited(after, id) {
        if id in s.rows {
          AuditStep(moderate, s, call, id);
          if MovesSilently(s, call, id) {
            SilentCallOf(moderate, s, call, id);
          }
        } else {
          AuditOfNewRow(moderate, s, call);
        }
      }
    }
  }

  ghost predicate SilentSomewhere(moderate: Content -> bool, s: State, calls: seq<Call>)
    decreases |calls|
  {
    calls != [] && (SilentCall(s, calls[0]) || SilentSomewhere(moderate, Apply(moderate, s, calls[0]), calls[1..]))
  }

  /** In every state of the run every log replays to the current status of its row. */
  ghost predicate AuditedThroughout(moderate: Content -> bool, s: State, calls: seq<Call>)
    decreases |calls|
  {
    AllAudited(s) && (calls == [] || AuditedThroughout(moderate, Apply(moderate, s, calls[0]), calls[1..]))
  }

  /**
    In a run of any calls the logs are in step in every state if and only if no call is a silent
    move; in particular they are in step throughout every editorial run.
   */
  lemma {:induction false} AuditReplay(moderate: Content -> bool, s: State, calls: seq<Call>)
    requires PossibleRun(moderate, s, calls) && AllAudited(s)
    ensures AuditedThroughout(moderate, s, calls) <==> !SilentSomewhere(moderate, s, calls)
    ensures (forall c | c in calls :: IsEditorial(c)) ==> !SilentSomewhere(moderate, s, calls)
    ensures !SilentSomewhere(moderate, s, calls) ==> AllAudited(Run(moderate, s, calls))
    decreases |calls|
  {
    hide Apply, AllAudited, MovesSilently;
    if calls != [] {
      var after := Apply(moderate, s, calls[0]);
      AllAuditedStep(moderate, s, calls[0]);
      assert calls[0] in calls && forall c | c in calls[1..] :: c in calls;
      if AllAudited(after) {
        AuditReplay(moderate, after, calls[1..]);
      } else {
        assert !AuditedThroughout(moderate, after, calls[1..]);
      }
    }
  }

  // ---------- Logs that have drifted ----------

  /** The call writes to the log of `id` while that does not show the current status. */
  ghost predicate WritesWhileDrifted(moderate: Content -> bool, s: State, call: Call, id: Id)
    requires id in s.rows
  {
    !Audited(s, id) && LogOf(Apply(moderate, s, call), id) != LogOf(s, id)
  }

  /** The row is there in every state of the run. */
  ghost predicate Stays(moderate: Content -> bool, s: State, calls: seq<Call>, id: Id)
    decreases |calls|
  {
    id in s.rows && (calls == [] || Stays(moderate, Apply(moderate, s, calls[0]), calls[1..], id))
  }

  ghost predicate WrittenWhileDrifted(moderate: Content -> bool, s: State, calls: seq<Call>, id: Id)
    requires Stays(moderate, s, calls, id)
    decreases |calls|
  {
    calls != [] &&
    (|| WritesWhileDrifted(moderate, s, calls[0], id)
     || WrittenWhileDrifted(moderate, Apply(moderate, s, calls[0]), calls[1..], id))
  }

  /** The entries fit one after the other. */
  ghost predicate Chained(s: State, id: Id) {
    LogOf(s, id) != [] && Replay(LogOf(s, id)).Some?
  }

  /** A chained log leads to the status of its last entry. */
  lemma ChainEnds(s: State, id: Id)
    requires id in s.rows && Chained(s, id)
    ensures var log := LogOf(s, id); Replay(log) == Some(log[|log| - 1].toStatus)
    ensures Audited(s, id) <==> LogOf(s, id)[|LogOf(s, id)| - 1].toStatus == s.rows[id].status
  {
  }

  /** A log stays chained if and only if nothing is written to it while it has drifted. */
  lemma ChainStep(moderate: Content -> bool, s: State, call: Call, id: Id)
    requires Possible(s, call) && id in s.rows && id in Apply(moderate, s, call).rows && LogOf(s, id) != []
    ensures LogOf(Apply(moderate, s, call), id) != []
    ensures Chained(Apply(moderate, s, call), id) <==> Chained(s, id) && !WritesWhileDrifted(moderate, s, call, id)
  {
    hide Apply, LogOf, MovesSilently, Approves, Replay;
    var after := Apply(moderate, s, call);
    CallWrites(moderate, s, call, id);
    if LogOf(after, id) != LogOf(s, id) {
      ReplaySnoc(LogOf(s, id), LogOf(after, id)[|LogOf(s, id)|]);
    }
  }

  lemma {:induction false} ChainOverRuns(moderate: Content -> bool, s: State, calls: seq<Call>, id: Id)
    requires PossibleRun(moderate, s, calls) && Stays(moderate, s, calls, id) && LogOf(s, id) != []
    ensures id in Run(moderate, s, calls).rows && LogOf(Run(moderate, s, calls), id) != []
    ensures Chained(Run(moderate, s, calls), id) <==> Chained(s, id) && !WrittenWhileDrifted(moderate, s, calls, id)
    decreases |calls|
  {
    hide Apply, LogOf, Chained, WritesWhileDrifted;
    if calls != [] {
      assert id in Apply(moderate, s, calls[0]).rows;
      ChainStep(moderate, s, calls[0], id);
      ChainOverRuns(moderate, Apply(moderate, s, calls[0]), calls[1..], id);
    }
  }

  /**
    After a run of any calls the log of a row that was in step, and that stays, is in step again if
    and only if nothing was written to it while it had drifted and the status is that of its last
    entry.  A log written to while it has drifted never recovers.
   */
  lemma DriftedLogs(moderate: Content -> bool, s: State, calls: seq<Call>, id: Id)
    requires PossibleRun(moderate, s, calls) && Stays(moderate, s, calls, id) && Audited(s, id)
    ensures id in Run(moderate, s, calls).rows
    ensures var after := Run(moderate, s, calls);
            Audited(after, id) <==>
              && !WrittenWhileDrifted(moderate, s, calls, id)
              && LogOf(after, id) != [] && LogOf(after, id)[|LogOf(after, id)| - 1].toStatus == after.rows[id].status
  {
    hide Run, Stays, WrittenWhileDrifted, LogOf, Replay;
    var after := Run(moderate, s, calls);
    ChainOverRuns(moderate, s, calls, id);
    if Chained(after, id) {
      ChainEnds(after, id);
    }
  }

  /** Confirmed while in review and submitted again: the second entry does not fit the first. */
  lemma BrokenLog(moderate: Content -> bool, s: State, id: Id, author: UserId, content: Content, now: int)
    requires Possible(s, Create(id, author, false, content, now))
    ensures var s1 := Apply(moderate, s, Create(id, author, false, content, now));
            var s2 := Apply(moderate, s1, ConfirmDuplicate(id, now));
            var s3 := Apply(moderate, s2, Submit(id, author));
            && id in s1.rows && Audited(s1, id)
            && id in s2.rows && !Audited(s2, id) && WritesWhileDrifted(moderate, s2, Submit(id, author), id)
            && id in s3.rows && s3.rows[id].status == PENDING_REVIEW && !Chained(s3, id)
  {
    hide Replay, Audited;
    var s1 := Apply(moderate, s, Create(id, author, false, content, now));
    AuditOfNewRow(moderate, s, Create(id, author, false, content, now));
    AuditStep(moderate, s1, ConfirmDuplicate(id, now), id);
    var s2 := Apply(moderate, s1, ConfirmDuplicate(id, now));
    InStep(s1, id);
    ChainStep(moderate, s2, Submit(id, author), id);
  }

  lemma InStep(s: State, id: Id)
    requires id in s.rows && Audited(s, id)
    ensures Chained(s, id)
  {
  }

  /** An approved contribution confirmed as a duplicate and rehabilitated: two silent moves, and back in step. */
  lemma RecoveredLog(moderate: Content -> bool, s: State, id: Id, now: int)
    requires id in s.rows && s.rows[id].status == APPROVED && Audited(s, id)
    ensures var s1 := Apply(moderate, s, ConfirmDuplicate(id, now));
            var s2 := Apply(moderate, s1, SubmitDispute(id, s.rows[id].userId, now));
            var s3 := Apply(moderate, s2, ResolveDispute(id, true, now));
            && id in s1.rows && !Audited(s1, id)
            && id in s3.rows && Audited(s3, id)
  {
    hide Replay;
  }

  // ---------- Approvals, publications, payments ----------

  /** An accepted approval: the contribution, and its author at that moment. */
  datatype Approval = Approval(id: Id, author: UserId)

  /** The accepted approvals of a run, in order. */
  function Approvals(moderate: Content -> bool, s: State, calls: seq<Call>): seq<Approval>
    decreases |calls|
  {
    if calls == [] then []
    else
      (if Approves(s, calls[0]) then [Approval(calls[0].id, s.rows[calls[0].id].userId)] else [])
      + Approvals(moderate, Apply(moderate, s, calls[0]), calls[1..])
  }

  /** How many approvals, or how many catalogue rows, pass a test on contribution and author. */
  function CountBy(list: seq<Approval>, test: Approval -> bool): nat {
    if list == [] then 0 else (if test(list[0]) then 1 else 0) + CountBy(list[1..], test)
  }

  /** The approvals that the catalogue rows stand for. */
  function Sources(items: seq<Item>): (list: seq<Approval>)
    ensures |list| == |items|
  {
    if items == [] then []
    else Sources(items[..|items| - 1]) + [Approval(items[|items| - 1].source, items[|items| - 1].author)]
  }

  function Of(id: Id): Approval -> bool {
    (a: Approval) => a.id == id
  }

  function By(user: UserId): Approval -> bool {
    (a: Approval) => a.author == user
  }

  /** How often a contribution has been published. */
  function Published(s: State, id: Id): nat {
    CountBy(Sources(s.items), Of(id))
  }

  function XpOf(s: State, user: UserId): nat {
    if user in s.xp then s.xp[user] else 0
  }

  lemma {:induction false} CountBySnoc(list: seq<Approval>, a: Approval, test: Approval -> bool)
    ensures CountBy(list + [a], test) == CountBy(list, test) + if test(a) then 1 else 0
  {
    if list == [] {
      assert [] + [a] == [a];
    } else {
      assert (list + [a])[1..] == list[1..] + [a];
      CountBySnoc(list[1..], a, test);
    }
  }

  lemma SourcesSnoc(items: seq<Item>, item: Item)
    ensures Sources(items + [item]) == Sources(items) + [Approval(item.source, item.author)]
  {
    assert (items + [item])[..|items|] == items;
  }

  /** Only an approval publishes and pays. */
  lemma OnlyApprovalPays(moderate: Content -> bool, s: State, call: Call)
    requires !Approves(s, call)
    ensures Apply(moderate, s, call).items == s.items && Apply(moderate, s, call).xp == s.xp
  {
  }

  lemma ApprovalWrites(moderate: Content -> bool, s: State, call: Call)
    requires Approves(s, call)
    ensures call.id in s.rows
    ensures var after, row := Apply(moderate, s, call), s.rows[call.id];
            && after.items == s.items + [Item(call.id, row.content, row.userId)]
            && after.xp == s.xp[row.userId := XpOf(s, row.userId) + 50]
  {
    hide Published;
  }

  /** What an accepted approval adds: one catalogue row and fifty points. */
  lemma ApprovalStep(moderate: Content -> bool, s: State, call: Call)
    requires Approves(s, call)
    ensures call.id in s.rows
    ensures var after, author := Apply(moderate, s, call), s.rows[call.id].userId;
            && Sources(after.items) == Sources(s.items) + [Approval(call.id, author)]
            && (forall u :: XpOf(after, u) == XpOf(s, u) + if u == author then 50 else 0)
            && (forall id :: Published(after, id) == Published(s, id) + if id == call.id then 1 else 0)
  {
    hide Apply, Refusal, CountBy, Sources;
    ApprovalWrites(moderate, s, call);
    var row := s.rows[call.id];
    SourcesSnoc(s.items, Item(call.id, row.content, row.userId));
    forall id ensures Published(Apply(moderate, s, call), id) == Published(s, id) + if id == call.id then 1 else 0 {
      CountBySnoc(Sources(s.items), Approval(call.id, row.userId), Of(id));
    }
  }

  /**
    Over every run of any calls a contribution is published once for each of its accepted
    approvals, and an author gains fifty points for each accepted approval of his contributions.
   */
  lemma {:induction false} PaymentsOverRuns(moderate: Content -> bool, s: State, calls: seq<Call>)
    ensures var after, approvals := Run(moderate, s, calls), Approvals(moderate, s, calls);
            && (forall id :: Published(after, id) == Published(s, id) + CountBy(approvals, Of(id)))
            && (forall u :: XpOf(after, u) == XpOf(s, u) + 50 * CountBy(approvals, By(u)))
    decreases |calls|
  {
    hide Apply, Refusal, Published, XpOf;
    if calls != [] {
      var next := Apply(moderate, s, calls[0]);
      PaymentsOverRuns(moderate, next, calls[1..]);
      if Approves(s, calls[0]) {
        ApprovalStep(moderate, s, calls[0]);
        ApprovalsAfterApproval(moderate, s, calls);
      } else {
        OnlyApprovalPays(moderate, s, calls[0]);
        SamePublications(s, next);
        assert Approvals(moderate, s, calls) == Approvals(moderate, next, calls[1..]);
      }
    }
  }

  lemma SamePublications(s: State, t: State)
    requires s.items == t.items && s.xp == t.xp
    ensures forall id :: Published(s, id) == Published(t, id)
    ensures forall u :: XpOf(s, u) == XpOf(t, u)
  {
  }

  lemma ApprovalsAfterApproval(moderate: Content -> bool, s: State, calls: seq<Call>)
    requires calls != [] && Approves(s, calls[0])
    ensures var rest := Approvals(moderate, Apply(moderate, s, calls[0]), calls[1..]);
            var a := Approval(calls[0].id, s.rows[calls[0].id].userId);
            forall test: Approval -> bool ::
              CountBy(Approvals(moderate, s, calls), test) == CountBy(rest, test) + if test(a) then 1 else 0
  {
    var rest := Approvals(moderate, Apply(moderate, s, calls[0]), calls[1..]);
    var a := Approval(calls[0].id, s.rows[calls[0].id].userId);
    assert ([a] + rest)[1..] == rest;
  }

  /** An accepted approval with the administrator who gave it, if he is known. */
  datatype Decision = Decision(approval: Approval, admin: Option<UserId>)

  function Decisions(moderate: Content -> bool, s: State, calls: seq<Call>): seq<Decision>
    decreases |calls|
  {
    if calls == [] then []
    else
      (if Approves(s, calls[0])
       then [Decision(Approval(calls[0].id, s.rows[calls[0].id].userId), calls[0].admin)] else [])
      + Decisions(moderate, Apply(moderate, s, calls[0]), calls[1..])
  }

  lemma ApproverIsAnother(s: State, call: Call)
    requires Approves(s, call)
    ensures call.id in s.rows && call.admin != Some(s.rows[call.id].userId)
  {
  }

  /** In every run of any calls nobody has approved a contribution of his own. */
  lemma {:induction false} NobodyApprovesHisOwn(moderate: Content -> bool, s: State, calls: seq<Call>)
    ensures var decisions, approvals := Decisions(moderate, s, calls), Approvals(moderate, s, calls);
            && |decisions| == |approvals|
            && forall k | 0 <= k < |decisions| ::
                 decisions[k].approval == approvals[k] && decisions[k].admin != Some(decisions[k].approval.author)
    decreases |calls|
  {
    hide Apply, Refusal;
    if calls != [] {
      NobodyApprovesHisOwn(moderate, Apply(moderate, s, calls[0]), calls[1..]);
      if Approves(s, calls[0]) {
        ApproverIsAnother(s, calls[0]);
      }
    }
  }

  /** The accepted approvals after one more call. */
  function ApprovalsAfter(s: State, approvals: seq<Approval>, call: Call): seq<Approval> {
    if Approves(s, call) then approvals + [Approval(call.id, s.rows[call.id].userId)] else approvals
  }

  /** The catalogue and the balances are those of the approvals given so far. */
  ghost predicate PaidFor(s: State, approvals: seq<Approval>) {
    Sources(s.items) == approvals && forall u :: XpOf(s, u) == 50 * CountBy(approvals, By(u))
  }

  lemma PaymentStep(moderate: Content -> bool, s: State, approvals: seq<Approval>, call: Call)
    requires PaidFor(s, approvals)
    ensures PaidFor(Apply(moderate, s, call), ApprovalsAfter(s, approvals, call))
  {
    hide Apply, XpOf, Published, Refusal;
    if Approves(s, call) {
      ApprovalStep(moderate, s, call);
      forall u ensures CountBy(ApprovalsAfter(s, approvals, call), By(u)) ==
                       CountBy(approvals, By(u)) + if u == s.rows[call.id].userId then 1 else 0 {
        CountBySnoc(approvals, Approval(call.id, s.rows[call.id].userId), By(u));
      }
    } else {
      OnlyApprovalPays(moderate, s, call);
      SamePublications(s, Apply(moderate, s, call));
    }
  }

  // ---------- Double publication ----------

  /** The approvals in a log. */
  function ApprovedEntries(log: seq<Entry>): nat {
    if log == [] then 0
    else ApprovedEntries(log[..|log| - 1]) + if log[|log| - 1].action == Approved then 1 else 0
  }

  /** The log of a contribution tells how often it was published. */
  ghost predicate LogTellsPublications(s: State, id: Id) {
    Published(s, id) == ApprovedEntries(LogOf(s, id))
  }

  /** True of every row, and nothing is published under an id that was never used. */
  ghost predicate AllLogsTell(s: State) {
    && (forall id | id in s.rows :: LogTellsPublications(s, id))
    && (forall id | id in s.logs :: id in s.rows)
  }

  lemma ApprovedSnoc(log: seq<Entry>, e: Entry)
    ensures ApprovedEntries(log + [e]) == ApprovedEntries(log) + if e.action == Approved then 1 else 0
  {
    assert (log + [e])[..|log|] == log;
  }

  lemma LogStep(moderate: Content -> bool, s: State, call: Call, id: Id)
    requires Possible(s, call) && id in s.rows && id in Apply(moderate, s, call).rows
    ensures ApprovedEntries(LogOf(Apply(moderate, s, call), id)) ==
            ApprovedEntries(LogOf(s, id)) + if Approves(s, call) && call.id == id then 1 else 0
  {
    hide ApprovedEntries, Apply, Refusal, LogOf, MovesSilently;
    var was, now := LogOf(s, id), LogOf(Apply(moderate, s, call), id);
    CallWrites(moderate, s, call, id);
    if now != was {
      ApprovedSnoc(was, now[|was|]);
    }
  }

  lemma {:induction false} NeverPublished(items: seq<Item>, id: Id)
    requires forall item | item in items :: item.source != id
    ensures CountBy(Sources(items), Of(id)) == 0
  {
    if items != [] {
      var before, last := items[..|items| - 1], items[|items| - 1];
      assert last in items;
      NeverPublished(before, id);
      CountBySnoc(Sources(before), Approval(last.source, last.author), Of(id));
    }
  }

  lemma NewLogTells(moderate: Content -> bool, s: State, call: Call)
    requires Possible(s, call) && call.Create?
    ensures LogTellsPublications(Apply(moderate, s, call), call.id)
  {
    hide Published, ApprovedEntries;
    var after := Apply(moderate, s, call);
    NeverPublished(s.items, call.id);
    NoneYet(s, after, call.id);
    var e := after.logs[call.id][0];
    assert after.logs[call.id] == [] + [e];
    ApprovedSnoc([], e);
    NothingApproved();
  }

  lemma NoneYet(s: State, after: State, id: Id)
    requires after.items == s.items && CountBy(Sources(s.items), Of(id)) == 0
    ensures Published(after, id) == 0
  {
  }

  lemma NothingApproved()
    ensures ApprovedEntries([]) == 0
  {
  }

  /** Rows are created only by `create`, and logs never outlive them. */
  lemma RowsAndLogs(moderate: Content -> bool, s: State, call: Call)
    requires forall id | id in s.logs :: id in s.rows
    ensures var after := Apply(moderate, s, call);
            && (forall id | id in after.logs :: id in after.rows)
            && (forall id | id in after.rows :: id in s.rows || (call.Create? && call.id == id))
  {
  }

  lemma LogsTellStep(moderate: Content -> bool, s: State, call: Call)
    requires Possible(s, call) && AllLogsTell(s)
    ensures AllLogsTell(Apply(moderate, s, call))
  {
    hide Apply, Published, ApprovedEntries, Refusal, LogOf;
    var after := Apply(moderate, s, call);
    RowsAndLogs(moderate, s, call);
    forall id | id in after.rows ensures LogTellsPublications(after, id) {
      if id in s.rows {
        LogStep(moderate, s, call, id);
        if Approves(s, call) {
          ApprovalStep(moderate, s, call);
        } else {
          OnlyApprovalPays(moderate, s, call);
          SamePublications(s, after);
        }
      } else {
        NewLogTells(moderate, s, call);
      }
    }
  }

  /** Over every run of any calls the log of a row has one approval for each time it was published. */
  lemma {:induction false} LogsTellOverRuns(moderate: Content -> bool, s: State, calls: seq<Call>)
    requires PossibleRun(moderate, s, calls) && AllLogsTell(s)
    ensures AllLogsTell(Run(moderate, s, calls))
    decreases |calls|
  {
    hide AllLogsTell;
    if calls != [] {
      LogsTellStep(moderate, s, calls[0]);
      LogsTellOverRuns(moderate, Apply(moderate, s, calls[0]), calls[1..]);
    }
  }

  /**
    After any run, an accepted approval publishes a contribution that is published already if and
    only if its log shows an approval.  Neither the status nor the log is asked by the call.
   */
  lemma SecondPublication(moderate: Content -> bool, start: State, calls: seq<Call>, call: Call)
    requires start.rows == map[] && start.logs == map[] && PossibleRun(moderate, start, calls)
    requires Approves(Run(moderate, start, calls), call)
    ensures var s := Run(moderate, start, calls);
            Published(Apply(moderate, s, call), call.id) >= 2 <==>
            exists k | 0 <= k < |LogOf(s, call.id)| :: LogOf(s, call.id)[k].action == Approved
  {
    hide Apply, Published, Refusal;
    var s := Run(moderate, start, calls);
    LogsTellOverRuns(moderate, start, calls);
    ApprovalStep(moderate, s, call);
    RefusedUnknown(s, call);
    SomeApproved(LogOf(s, call.id));
  }

  lemma {:induction false} SomeApproved(log: seq<Entry>)
    ensures ApprovedEntries(log) > 0 <==> exists k | 0 <= k < |log| :: log[k].action == Approved
  {
    if log != [] {
      var before := log[..|log| - 1];
      SomeApproved(before);
      if k :| 0 <= k < |before| && before[k].action == Approved {
        assert log[k].action == Approved;
      }
    }
  }

  /** Any new contribution, approved twice: two catalogue rows and a hundred points. */
  lemma ApprovedTwice(moderate: Content -> bool, s: State, id: Id, author: UserId, admin: UserId, content: Content, now: int)
    requires Possible(s, Create(id, author, false, content, now)) && admin != author
    ensures var approve := Validate(id, true, Some(admin), false);
            var calls := [Create(id, author, false, content, now), approve, approve];
            && PossibleRun(moderate, s, calls)
            && Published(Run(moderate, s, calls), id) == 2
            && XpOf(Run(moderate, s, calls), author) == XpOf(s, author) + 100
  {
    hide Published, XpOf;
    var create, approve := Create(id, author, false, content, now), Validate(id, true, Some(admin), false);
    var s1 := Apply(moderate, s, create);
    var s2 := Apply(moderate, s1, approve);
    NeverPublished(s.items, id);
    NoneYet(s, s1, id);
    SamePublications(s, s1);
    ApprovalStep(moderate, s1, approve);
    ApprovalStep(moderate, s2, approve);
    RunOfThree(moderate, s, create, approve, approve);
  }

  lemma RunOfThree(moderate: Content -> bool, s: State, a: Call, b: Call, c: Call)
    requires Possible(s, a) && !b.Create? && !c.Create?
    ensures PossibleRun(moderate, s, [a, b, c])
    ensures Run(moderate, s, [a, b, c]) == Apply(moderate, Apply(moderate, Apply(moderate, s, a), b), c)
  {
    hide Apply;
    var s1 := Apply(moderate, s, a);
    var s2 := Apply(moderate, s1, b);
    var s3 := Apply(moderate, s2, c);
    assert [a, b, c][1..] == [b, c] && [b, c][1..] == [c] && [c][1..] == [];
    assert PossibleRun(moderate, s3, []) && Run(moderate, s3, []) == s3;
    assert PossibleRun(moderate, s2, [c]) && Run(moderate, s2, [c]) == s3;
    assert PossibleRun(moderate, s1, [b, c]) && Run(moderate, s1, [b, c]) == s3;
  }

  // ---------- Approved and published ----------

  ghost predicate ApprovedIsPublished(s: State, id: Id) {
    id in s.rows && s.rows[id].status == APPROVED ==> Published(s, id) > 0
  }

  ghost predicate AllApprovedPublished(s: State) {
    forall id :: ApprovedIsPublished(s, id)
  }

  /** A dispute accepted for a contribution whose log shows no approval. */
  predicate RestoresUnpublished(s: State, call: Call) {
    && call.ResolveDispute? && call.approve && Refusal(s, call) == None
    && ApprovedEntries(LogOf(s, call.id)) == 0
  }

  /** Approval is the only other way to the status APPROVED. */
  lemma StatusStep(moderate: Content -> bool, s: State, call: Call, id: Id)
    requires id in Apply(moderate, s, call).rows && Apply(moderate, s, call).rows[id].status == APPROVED
    ensures || (Approves(s, call) && call.id == id)
            || (call.ResolveDispute? && call.approve && Refusal(s, call) == None && call.id == id)
            || (id in s.rows && s.rows[id].status == APPROVED)
  {
  }

  /** A call keeps approved contributions published if and only if it does not restore one that never was. */
  lemma ApprovedStep(moderate: Content -> bool, s: State, call: Call)
    requires Possible(s, call) && AllLogsTell(s) && AllApprovedPublished(s)
    ensures AllApprovedPublished(Apply(moderate, s, call)) <==> !RestoresUnpublished(s, call)
  {
    hide Apply, Published, ApprovedEntries, Refusal;
    var after := Apply(moderate, s, call);
    if Approves(s, call) {
      ApprovalStep(moderate, s, call);
    } else {
      OnlyApprovalPays(moderate, s, call);
      SamePublications(s, after);
    }
    if RestoresUnpublished(s, call) {
      Restored(moderate, s, call);
      assert !ApprovedIsPublished(after, call.id);
    } else {
      forall id ensures ApprovedIsPublished(after, id) {
        if id in after.rows && after.rows[id].status == APPROVED {
          StatusStep(moderate, s, call, id);
          if call.ResolveDispute? && call.approve && Refusal(s, call) == None {
            RefusedUnknown(s, call);
          }
          assert ApprovedIsPublished(s, id);
          assert id in s.rows ==> LogTellsPublications(s, id);
        }
      }
    }
  }

  lemma Restored(moderate: Content -> bool, s: State, call: Call)
    requires call.ResolveDispute? && call.approve && Refusal(s, call) == None
    ensures call.id in s.rows && call.id in Apply(moderate, s, call).rows
    ensures Apply(moderate, s, call).rows[call.id].status == APPROVED
  {
  }

  lemma RefusedUnknown(s: State, call: Call)
    requires Refusal(s, call) == None && !call.Create? && !call.Purge?
    ensures call.id in s.rows
  {
  }

  ghost predicate RestoresSomewhere(moderate: Content -> bool, s: State, calls: seq<Call>)
    decreases |calls|
  {
    calls != [] && (RestoresUnpublished(s, calls[0]) || RestoresSomewhere(moderate, Apply(moderate, s, calls[0]), calls[1..]))
  }

  /**
    In every run without such a dispute, and so in every editorial run, whatever is approved has
    been published.
   */
  lemma {:induction false} ApprovedOverRuns(moderate: Content -> bool, s: State, calls: seq<Call>)
    requires PossibleRun(moderate, s, calls) && AllLogsTell(s) && AllApprovedPublished(s)
    requires (forall c | c in calls :: IsEditorial(c)) || !RestoresSomewhere(moderate, s, calls)
    ensures AllApprovedPublished(Run(moderate, s, calls))
    decreases |calls|
  {
    hide AllLogsTell, AllApprovedPublished, Apply;
    if calls != [] {
      assert calls[0] in calls;
      LogsTellStep(moderate, s, calls[0]);
      ApprovedStep(moderate, s, calls[0]);
      ApprovedOverRuns(moderate, Apply(moderate, s, calls[0]), calls[1..]);
    }
  }

  /** A contribution confirmed as a duplicate before any review, and rehabilitated: approved, never published. */
  lemma ApprovedUnpublished(moderate: Content -> bool, s: State, id: Id, author: UserId, content: Content, now: int)
    requires Possible(s, Create(id, author, false, content, now)) && s.logs.Keys <= s.rows.Keys
    ensures var s1 := Apply(moderate, s, Create(id, author, false, content, now));
            var s2 := Apply(moderate, s1, ConfirmDuplicate(id, now));
            var s3 := Apply(moderate, s2, SubmitDispute(id, author, now));
            var s4 := Apply(moderate, s3, ResolveDispute(id, true, now));
            id in s4.rows && s4.rows[id].status == APPROVED && Published(s4, id) == 0
  {
    hide Published;
    var s1 := Apply(moderate, s, Create(id, author, false, content, now));
    NeverPublished(s.items, id);
    NoneYet(s, Apply(moderate, Apply(moderate, Apply(moderate, s1, ConfirmDuplicate(id, now)),
                                     SubmitDispute(id, author, now)), ResolveDispute(id, true, now)), id);
  }

  // ---------- Duplicates ----------

  /** What has happened to a contribution in the duplicate workflow, with the time of each event. */
  datatype Event = Confirmed(at: int) | Disputed(at: int) | DisputeAccepted(at: int) | DisputeRefused(at: int)

  type History = map<Id, seq<Event>>

  function HistoryOf(h: History, id: Id): seq<Event> {
    if id in h then h[id] else []
  }

  /** The history after a call: refused calls leave no trace, a new row starts without one. */
  function Remember(h: History, s: State, call: Call): History {
    if Refusal(s, call).Some? then h
    else
      match call
      case Create(id, _, _, _, _) => h[id := []]
      case ConfirmDuplicate(id, now) => h[id := HistoryOf(h, id) + [Confirmed(now)]]
      case SubmitDispute(id, _, now) => h[id := HistoryOf(h, id) + [Disputed(now)]]
      case ResolveDispute(id, approve, now) =>
        h[id := HistoryOf(h, id) + [if approve then DisputeAccepted(now) else DisputeRefused(now)]]
      case _ => h
  }

  /** Confirmed, and not rehabilitated since. */
  predicate IsConfirmed(events: seq<Event>) {
    events != [] &&
    match events[|events| - 1]
    case Confirmed(_) => true
    case DisputeAccepted(_) => false
    case _ => IsConfirmed(events[..|events| - 1])
  }

  /** Disputed, and not resolved since; a new confirmation does not close a dispute. */
  predicate DisputeOpen(events: seq<Event>) {
    events != [] &&
    match events[|events| - 1]
    case Disputed(_) => true
    case Confirmed(_) => DisputeOpen(events[..|events| - 1])
    case _ => false
  }

  /** The time of the latest confirmation or refusal of a dispute. */
  function ClockStart(events: seq<Event>): Option<int> {
    if events == [] then None
    else
      match events[|events| - 1]
      case Confirmed(t) => Some(t)
      case DisputeRefused(t) => Some(t)
      case _ => ClockStart(events[..|events| - 1])
  }

  lemma EventsSnoc(events: seq<Event>, e: Event)
    ensures IsConfirmed(events + [e]) == if e.Confirmed? then true else if e.DisputeAccepted? then false else IsConfirmed(events)
    ensures DisputeOpen(events + [e]) == if e.Disputed? then true else if e.Confirmed? then DisputeOpen(events) else false
    ensures ClockStart(events + [e]) == if e.Confirmed? || e.DisputeRefused? then Some(e.at) else ClockStart(events)
  {
    assert (events + [e])[..|events|] == events;
  }

  /** The columns of a row say what its history says. */
  ghost predicate Reflects(row: Row, events: seq<Event>) {
    && row.isDuplicateConfirmed == IsConfirmed(events)
    && (row.disputeStatus == PENDING) == DisputeOpen(events)
    && (DisputeOpen(events) ==> IsConfirmed(events))
    && (IsConfirmed(events) && !DisputeOpen(events) ==>
          ClockStart(events).Some? && row.markedForDeletionAt == Some(ClockStart(events).value + DAY))
  }

  ghost predicate AllReflect(s: State, h: History) {
    forall id | id in s.rows :: Reflects(s.rows[id], HistoryOf(h, id))
  }

  predicate SameDuplicateColumns(a: Row, b: Row) {
    && a.isDuplicateConfirmed == b.isDuplicateConfirmed
    && a.markedForDeletionAt == b.markedForDeletionAt
    && a.disputeStatus == b.disputeStatus
  }

  /** Editing and reviewing do not touch the duplicate workflow. */
  lemma EditorialKeepsDuplicateColumns(moderate: Content -> bool, s: State, call: Call, id: Id)
    requires Possible(s, call) && IsEditorial(call) && id in s.rows && id in Apply(moderate, s, call).rows
    ensures SameDuplicateColumns(Apply(moderate, s, call).rows[id], s.rows[id])
  {
    hide Patched, TextChanged, Purged;
  }

  lemma SameColumnsReflect(a: Row, b: Row, events: seq<Event>)
    requires SameDuplicateColumns(a, b) && Reflects(b, events)
    ensures Reflects(a, events)
  {
  }

  lemma NewRowReflects(moderate: Content -> bool, s: State, h: History, call: Call)
    requires call.Create?
    ensures call.id in Apply(moderate, s, call).rows
    ensures Reflects(Apply(moderate, s, call).rows[call.id], HistoryOf(Remember(h, s, call), call.id))
  {
  }

  lemma EditorialHistory(moderate: Content -> bool, s: State, h: History, call: Call, id: Id)
    requires Possible(s, call) && IsEditorial(call) && id in Apply(moderate, s, call).rows
    ensures id in s.rows || (call.Create? && id == call.id)
    ensures id in s.rows ==> HistoryOf(Remember(h, s, call), id) == HistoryOf(h, id)
  {
  }

  lemma EditorialReflects(moderate: Content -> bool, s: State, h: History, call: Call)
    requires Possible(s, call) && AllReflect(s, h) && IsEditorial(call)
    ensures AllReflect(Apply(moderate, s, call), Remember(h, s, call))
  {
    hide Apply, Remember, HistoryOf, Reflects, Possible, SameDuplicateColumns;
    var after, later := Apply(moderate, s, call), Remember(h, s, call);
    forall id | id in after.rows ensures Reflects(after.rows[id], HistoryOf(later, id)) {
      EditorialHistory(moderate, s, h, call, id);
      if id in s.rows {
        EditorialKeepsDuplicateColumns(moderate, s, call, id);
        SameColumnsReflect(after.rows[id], s.rows[id], HistoryOf(h, id));
      } else {
        NewRowReflects(moderate, s, h, call);
      }
    }
  }

  /** The row of the contribution that a call of the duplicate workflow is about. */
  lemma DuplicateCallReflects(moderate: Content -> bool, s: State, h: History, call: Call)
    requires AllReflect(s, h) && !IsEditorial(call) && !call.Purge? && Refusal(s, call) == None
    ensures Reflects(Apply(moderate, s, call).rows[call.id], HistoryOf(Remember(h, s, call), call.id))
  {
    hide IsConfirmed, DisputeOpen, ClockStart;
    var events := HistoryOf(h, call.id);
    assert Reflects(s.rows[call.id], events);
    match call
    case ConfirmDuplicate(_, now) => EventsSnoc(events, Confirmed(now));
    case SubmitDispute(_, _, now) => EventsSnoc(events, Disputed(now));
    case ResolveDispute(_, approve, now) =>
      EventsSnoc(events, if approve then DisputeAccepted(now) else DisputeRefused(now));
  }

  lemma ReflectStep(moderate: Content -> bool, s: State, h: History, call: Call)
    requires Possible(s, call) && AllReflect(s, h)
    ensures AllReflect(Apply(moderate, s, call), Remember(h, s, call))
  {
    hide Reflects, ApplyCreate, ApplyValidate, ApplyUpdate, ApplyRemove, Process;
    if IsEditorial(call) {
      EditorialReflects(moderate, s, h, call);
    } else if !call.Purge? && Refusal(s, call) == None {
      DuplicateCallReflects(moderate, s, h, call);
    }
  }

  function RememberAll(moderate: Content -> bool, h: History, s: State, calls: seq<Call>): History
    decreases |calls|
  {
    if calls == [] then h
    else RememberAll(moderate, Remember(h, s, calls[0]), Apply(moderate, s, calls[0]), calls[1..])
  }

  lemma {:induction false} ReflectRun(moderate: Content -> bool, s: State, h: History, calls: seq<Call>)
    requires PossibleRun(moderate, s, calls) && AllReflect(s, h)
    ensures AllReflect(Run(moderate, s, calls), RememberAll(moderate, h, s, calls))
    decreases |calls|
  {
    if calls != [] {
      ReflectStep(moderate, s, h, calls[0]);
      ReflectRun(moderate, Apply(moderate, s, calls[0]), Remember(h, s, calls[0]), calls[1..]);
    }
  }

  /** The history alone tells whether a contribution is due. */
  predicate Due(events: seq<Event>, now: int) {
    && IsConfirmed(events) && !DisputeOpen(events)
    && ClockStart(events).Some? && now >= ClockStart(events).value + DAY
  }

  lemma PurgedIffDue(s: State, h: History, now: int)
    requires AllReflect(s, h)
    ensures forall id :: id in Purged(s, now) <==> id in s.rows && Due(HistoryOf(h, id), now)
  {
    forall id | id in s.rows ensures Expires(s.rows[id], now) <==> Due(HistoryOf(h, id), now) {
      hide IsConfirmed, DisputeOpen, ClockStart;
      assert Reflects(s.rows[id], HistoryOf(h, id));
    }
  }

  /**
    After any run of any calls, a purge deletes a contribution if and only if it stands confirmed
    as a duplicate, no dispute is open, and 24 hours have passed since the latest confirmation or
    refusal.
   */
  lemma PurgeIsExact(moderate: Content -> bool, start: State, h: History, calls: seq<Call>, id: Id, now: int)
    requires start.rows == map[] && PossibleRun(moderate, start, calls)
    ensures var s, events := Run(moderate, start, calls), HistoryOf(RememberAll(moderate, h, start, calls), id);
            id in Purged(s, now) <==> id in s.rows && Due(events, now)
  {
    hide Purged, Due;
    ReflectRun(moderate, start, h, calls);
    PurgedIffDue(Run(moderate, start, calls), RememberAll(moderate, h, start, calls), now);
  }

  /** While a dispute is open nothing that can happen to the row makes it expire. */
  lemma OpenDisputeProtects(moderate: Content -> bool, s: State, h: History, call: Call, id: Id, now: int)
    requires Possible(s, call) && AllReflect(s, h) && id in s.rows && DisputeOpen(HistoryOf(h, id))
    requires !(call.ResolveDispute? && call.id == id) && id in Apply(moderate, s, call).rows
    ensures DisputeOpen(HistoryOf(Remember(h, s, call), id))
    ensures id !in Purged(Apply(moderate, s, call), now)
  {
    ReflectStep(moderate, s, h, call);
    if !call.Purge? && call.id == id && Remember(h, s, call) != h {
      var events := HistoryOf(h, id);
      EventsSnoc(events, HistoryOf(Remember(h, s, call), id)[|events|]);
    }
  }
}
