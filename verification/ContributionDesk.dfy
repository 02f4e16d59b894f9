/**
  The contributions service on mutable state: the calls of `Contributions`, statement by statement.
 */
module ContributionDesk {

  import opened Wrappers
  import opened Contributions

  class ContributionDesk {
    const moderate: Content -> bool
    var rows: map<Id, Row>
    var logs: map<Id, seq<Entry>>
    var items: seq<Item>
    var xp: map<UserId, nat>
    ghost var history: History
    ghost var approvals: seq<Approval>

    ghost function Snapshot(): State
      reads this
    {
      State(rows, logs, items, xp)
    }

    /** Catalogue, payments and logs match the approvals, and the duplicate columns match what has happened. */
    ghost predicate Valid()
      reads this
    {
      PaidFor(Snapshot(), approvals) && AllLogsTell(Snapshot()) && AllReflect(Snapshot(), history)
    }

    constructor (moderate: Content -> bool)
      ensures Valid() && this.moderate == moderate && rows == map[] && logs == map[] && history == map[] && approvals == []
    {
      this.moderate := moderate;
      rows, logs, items, xp, history, approvals := map[], map[], [], map[], map[], [];
    }

    twostate predicate Performed(call: Call)
      reads this
    {
      && Snapshot() == Apply(moderate, old(Snapshot()), call)
      && history == Remember(old(history), old(Snapshot()), call)
      && approvals == ApprovalsAfter(old(Snapshot()), old(approvals), call)
    }

    twostate lemma StaysValid(call: Call)
      requires old(Valid()) && Possible(old(Snapshot()), call) && Performed(call)
      ensures Valid()
    {
      hide Apply;
      PaymentStep(moderate, old(Snapshot()), old(approvals), call);
      LogsTellStep(moderate, old(Snapshot()), call);
      ReflectStep(moderate, old(Snapshot()), old(history), call);
    }

    /** `logAudit`, when the write succeeds */
    method LogAudit(id: Id, action: Action, fromStatus: Option<Status>, toStatus: Status)
      modifies this`logs
      ensures Snapshot() == Logged(old(Snapshot()), id, Entry(action, fromStatus, toStatus))
    {
      logs := logs[id := (if id in logs then logs[id] else []) + [Entry(action, fromStatus, toStatus)]];
    }

    /** `processSubmissionModeration` */
    method ProcessSubmission(id: Id, previousStatus: Status)
      requires id in rows
      modifies this`rows, this`logs
      ensures Snapshot() == Process(moderate, old(Snapshot()), id, previousStatus)
    {
      var isFlagged := moderate(rows[id].content);
      rows := rows[id := rows[id].(status := PENDING_REVIEW, flagged := isFlagged)];
      LogAudit(id, if isFlagged then ModerationFlagged else Submitted, Some(previousStatus), PENDING_REVIEW);
    }

    /** `create` */
    method Create(id: Id, user: UserId, isDraft: bool, content: Content, now: int)
      requires Valid() && id !in rows && id !in logs && forall item | item in items :: item.source != id
      modifies this
      ensures Valid() && Performed(Contributions.Create(id, user, isDraft, content, now))
      ensures rows == old(rows)[id := Row(user, now, content, if isDraft then DRAFT else PENDING_REVIEW,
                                          !isDraft && moderate(content), false, None, NONE)]
      ensures logs == old(logs)[id := [if isDraft then Entry(CreatedDraft, None, DRAFT)
                                       else Entry(if moderate(content) then ModerationFlagged else Submitted,
                                                  Some(DRAFT), PENDING_REVIEW)]]
      ensures items == old(items) && xp == old(xp)
    {
      hide PaidFor, AllLogsTell, AllReflect;
      var initialStatus := if isDraft then DRAFT else PENDING_REVIEW;
      rows := rows[id := Row(user, now, content, initialStatus, false, false, None, NONE)];
      if isDraft {
        LogAudit(id, CreatedDraft, None, DRAFT);
      } else {
        ProcessSubmission(id, DRAFT);
      }
      assert forall e: Entry :: [] + [e] == [e];
      history := history[id := []];
      StaysValid(Contributions.Create(id, user, isDraft, content, now));
    }

    /** `submitForReview` */
    method SubmitForReview(id: Id, user: UserId) returns (error: Option<Failure>)
      requires Valid()
      modifies this
      ensures Valid() && Performed(Submit(id, user))
      ensures error == Refusal(old(Snapshot()), Submit(id, user))
      ensures id !in old(rows) ==> error == Some(NotFound)
      ensures id in old(rows) ==>
                error == if old(rows)[id].userId != user then Some(Forbidden)
                         else if old(rows)[id].status == DRAFT || old(rows)[id].status == CHANGES_REQUESTED then None
                         else Some(BadStatus)
      ensures error == None ==>
                var row := old(rows)[id];
                && rows == old(rows)[id := row.(status := PENDING_REVIEW, flagged := moderate(row.content))]
                && logs == old(logs)[id := old(LogOf(Snapshot(), id)) +
                     [Entry(if moderate(row.content) then ModerationFlagged else Submitted, Some(row.status), PENDING_REVIEW)]]
      ensures error.Some? ==> Snapshot() == old(Snapshot())
      ensures items == old(items) && xp == old(xp)
    {
      hide PaidFor, AllLogsTell, AllReflect;
      if id !in rows {
        return Some(NotFound);
      }
      if rows[id].userId != user {
        return Some(Forbidden);
      }
      if rows[id].status != DRAFT && rows[id].status != CHANGES_REQUESTED {
        return Some(BadStatus);
      }
      ProcessSubmission(id, rows[id].status);
      StaysValid(Submit(id, user));
      error := None;
    }

    /** `validate`: request changes, reject, or approve with publication and payment. */
    method Validate(id: Id, approve: bool, admin: Option<UserId>, requestChanges: bool) returns (error: Option<Failure>)
      requires Valid()
      modifies this
      ensures Valid() && Performed(Contributions.Validate(id, approve, admin, requestChanges))
      ensures error == Refusal(old(Snapshot()), Contributions.Validate(id, approve, admin, requestChanges))
      // nobody approves his own; everything else about an existing row is accepted
      ensures id !in old(rows) ==> error == Some(NotFound)
      ensures id in old(rows) ==>
                error == if approve && admin == Some(old(rows)[id].userId) then Some(Forbidden) else None
      ensures error == None ==>
                var row := old(rows)[id];
                var next := if approve then APPROVED else if requestChanges then CHANGES_REQUESTED else REJECTED;
                var action := if approve then Approved else if requestChanges then ChangesRequested else Rejected;
                && rows == old(rows)[id := row.(status := next)]
                && logs == old(logs)[id := old(LogOf(Snapshot(), id)) + [Entry(action, Some(row.status), next)]]
                && items == old(items) + (if approve then [Item(id, row.content, row.userId)] else [])
                && xp == if approve then old(xp)[row.userId := (if row.userId in old(xp) then old(xp)[row.userId] else 0) + 50]
                         else old(xp)
      ensures error.Some? ==> Snapshot() == old(Snapshot())
    {
      hide PaidFor, AllLogsTell, AllReflect, ApplyValidate;
      if id !in rows {
        return Some(NotFound);
      }
      var contribution := rows[id];
      if approve && admin.Some? && contribution.userId == admin.value {
        return Some(Forbidden);
      }
      error := None;
      if !approve && requestChanges {
        RequestChanges(id);
      } else if !approve {
        Reject(id);
      } else {
        ApprovalIgnoresRequest(Snapshot(), id, requestChanges);
        Approve(id);
      }
      StaysValid(Contributions.Validate(id, approve, admin, requestChanges));
    }

    method RequestChanges(id: Id)
      requires id in rows
      modifies this`rows, this`logs
      ensures Snapshot() == ApplyValidate(old(Snapshot()), id, false, true)
      ensures rows == old(rows)[id := old(rows)[id].(status := CHANGES_REQUESTED)]
      ensures logs == old(logs)[id := old(LogOf(Snapshot(), id)) + [Entry(ChangesRequested, Some(old(rows)[id].status), CHANGES_REQUESTED)]]
    {
      var contribution := rows[id];
      rows := rows[id := contribution.(status := CHANGES_REQUESTED)];
      LogAudit(id, ChangesRequested, Some(contribution.status), CHANGES_REQUESTED);
    }

    method Reject(id: Id)
      requires id in rows
      modifies this`rows, this`logs
      ensures Snapshot() == ApplyValidate(old(Snapshot()), id, false, false)
      ensures rows == old(rows)[id := old(rows)[id].(status := REJECTED)]
      ensures logs == old(logs)[id := old(LogOf(Snapshot(), id)) + [Entry(Rejected, Some(old(rows)[id].status), REJECTED)]]
    {
      var contribution := rows[id];
      rows := rows[id := contribution.(status := REJECTED)];
      LogAudit(id, Rejected, Some(contribution.status), REJECTED);
    }

    /** The transaction of an approval, and its log entry. */
    method Approve(id: Id)
      requires id in rows
      modifies this`rows, this`logs, this`items, this`xp, this`approvals
      ensures Snapshot() == ApplyValidate(old(Snapshot()), id, true, false)
      ensures var row := old(rows)[id];
              && rows == old(rows)[id := row.(status := APPROVED)]
              && logs == old(logs)[id := old(LogOf(Snapshot(), id)) + [Entry(Approved, Some(row.status), APPROVED)]]
              && items == old(items) + [Item(id, row.content, row.userId)]
              && xp == old(xp)[row.userId := (if row.userId in old(xp) then old(xp)[row.userId] else 0) + 50]
      ensures approvals == old(approvals) + [Approval(id, old(rows)[id].userId)]
    {
      var contribution := rows[id];
      rows := rows[id := contribution.(status := APPROVED)];
      items := items + [Item(id, contribution.content, contribution.userId)];
      approvals := approvals + [Approval(id, contribution.userId)];
      var user := contribution.userId;
      xp := xp[user := (if user in xp then xp[user] else 0) + 50];
      LogAudit(id, Approved, Some(contribution.status), APPROVED);
    }

    /** `update`: edit, and submit again where the status asks for it. */
    method Update(id: Id, user: UserId, isAdmin: bool, patch: Patch, now: int) returns (error: Option<Failure>)
      requires Valid()
      modifies this
      ensures Valid() && Performed(Contributions.Update(id, user, isAdmin, patch, now))
      ensures error == Refusal(old(Snapshot()), Contributions.Update(id, user, isAdmin, patch, now))
      ensures id !in old(rows) ==> error == Some(NotFound)
      ensures id in old(rows) ==>
                var row := old(rows)[id];
                error == if isAdmin then None
                         else if row.userId != user then Some(Forbidden)
                         else if row.status == APPROVED || row.status == ARCHIVED then Some(BadStatus)
                         else if row.status == PENDING_REVIEW && now > row.createdAt + 172_800_000 then Some(Expired)
                         else None
      ensures error == None ==>
                var row, c := old(rows)[id], (if id in rows then rows[id] else old(rows)[id]).content;
                var again := || (row.status == DRAFT && patch.submit) || row.status == CHANGES_REQUESTED
                             || (row.status == PENDING_REVIEW && (c.textMg != row.content.textMg
                                   || c.textFr != row.content.textFr || c.meaning != row.content.meaning));
                && c.category == (if patch.category == "" then row.content.category else patch.category)
                && c.textMg == (if patch.textMg == None then row.content.textMg else patch.textMg.value)
                && c.textFr == (if patch.textFr == None then row.content.textFr else patch.textFr.value)
                && c.meaning == (if patch.meaning == None then row.content.meaning else patch.meaning.value)
                && c.region == (if patch.region == None then row.content.region else patch.region)
                && rows == old(rows)[id := row.(content := c, status := if again then PENDING_REVIEW else row.status,
                                                flagged := if again then moderate(c) else row.flagged)]
                && logs == old(logs)[id := old(LogOf(Snapshot(), id)) +
                     [if !again then Entry(Updated, Some(row.status), row.status)
                      else Entry(if moderate(c) then ModerationFlagged else Submitted, Some(row.status), PENDING_REVIEW)]]
      ensures error.Some? ==> Snapshot() == old(Snapshot())
      ensures items == old(items) && xp == old(xp)
    {
      hide PaidFor, AllLogsTell, AllReflect, ApplyUpdate, LogOf;
      if id !in rows {
        return Some(NotFound);
      }
      var contribution := rows[id];
      if contribution.userId != user && !isAdmin {
        return Some(Forbidden);
      }
      if !isAdmin && (contribution.status == APPROVED || contribution.status == ARCHIVED) {
        return Some(BadStatus);
      }
      if !isAdmin && contribution.status == PENDING_REVIEW && now - contribution.createdAt > 48 * HOUR {
        return Some(Expired);
      }
      error := None;
      Edit(id, patch);
      StaysValid(Contributions.Update(id, user, isAdmin, patch, now));
    }

    /** The edit of a contribution, and its new submission where the status asks for it. */
    method Edit(id: Id, patch: Patch)
      requires id in rows
      modifies this`rows, this`logs
      ensures id in rows && Snapshot() == ApplyUpdate(moderate, old(Snapshot()), id, patch)
      ensures var row, c := old(rows)[id], rows[id].content;
              var again := || (row.status == DRAFT && patch.submit) || row.status == CHANGES_REQUESTED
                           || (row.status == PENDING_REVIEW && (c.textMg != row.content.textMg
                                 || c.textFr != row.content.textFr || c.meaning != row.content.meaning));
              && c == Patched(row.content, patch)
              && rows == old(rows)[id := row.(content := c, status := if again then PENDING_REVIEW else row.status,
                                              flagged := if again then moderate(c) else row.flagged)]
              && logs == old(logs)[id := old(LogOf(Snapshot(), id)) +
                   [if !again then Entry(Updated, Some(row.status), row.status)
                    else Entry(if moderate(c) then ModerationFlagged else Submitted, Some(row.status), PENDING_REVIEW)]]
    {
      hide Patched;
      var contribution := rows[id];
      var textChanged := TextChanged(contribution.content, patch);
      rows := rows[id := contribution.(content := Patched(contribution.content, patch))];
      if contribution.status == DRAFT && patch.submit {
        ProcessSubmission(id, DRAFT);
      } else if contribution.status == CHANGES_REQUESTED || (contribution.status == PENDING_REVIEW && textChanged) {
        ProcessSubmission(id, contribution.status);
      } else {
        LogAudit(id, Updated, Some(contribution.status), contribution.status);
      }
    }

    /** `remove`: the log entry is written first; deleting a draft takes its log with it. */
    method Remove(id: Id, user: UserId, isAdmin: bool, now: int) returns (error: Option<Failure>)
      requires Valid()
      modifies this
      ensures Valid() && Performed(Contributions.Remove(id, user, isAdmin, now))
      ensures error == Refusal(old(Snapshot()), Contributions.Remove(id, user, isAdmin, now))
      ensures id !in old(rows) ==> error == Some(NotFound)
      ensures id in old(rows) ==>
                var row := old(rows)[id];
                error == if isAdmin then None
                         else if row.userId != user then Some(Forbidden)
                         else if row.status != DRAFT && now > row.createdAt + 86_400_000 then Some(Expired)
                         else None
      ensures error == None && old(rows)[id].status == DRAFT ==> rows == old(rows) - {id} && logs == old(logs) - {id}
      ensures error == None && old(rows)[id].status != DRAFT ==>
                && rows == old(rows)[id := old(rows)[id].(status := ARCHIVED)]
                && logs == old(logs)[id := old(LogOf(Snapshot(), id)) + [Entry(Archived, Some(old(rows)[id].status), ARCHIVED)]]
      ensures error.Some? ==> Snapshot() == old(Snapshot())
      ensures items == old(items) && xp == old(xp)
    {
      hide PaidFor, AllLogsTell, AllReflect;
      if id !in rows {
        return Some(NotFound);
      }
      var contribution := rows[id];
      if contribution.userId != user && !isAdmin {
        return Some(Forbidden);
      }
      if !isAdmin && contribution.status != DRAFT && now - contribution.createdAt > 24 * HOUR {
        return Some(Expired);
      }
      error := None;
      LogAudit(id, if contribution.status == DRAFT then Deleted else Archived, Some(contribution.status), ARCHIVED);
      if contribution.status == DRAFT {
        rows := rows - {id};
        logs := logs - {id};
        assert logs == old(logs) - {id};
      } else {
        rows := rows[id := contribution.(status := ARCHIVED)];
      }
      StaysValid(Contributions.Remove(id, user, isAdmin, now));
    }

    /** `confirmDuplicate`: a day's notice, whatever the state of a dispute. */
    method ConfirmDuplicate(id: Id, now: int) returns (error: Option<Failure>)
      requires Valid()
      modifies this
      ensures Valid() && Performed(Contributions.ConfirmDuplicate(id, now))
      ensures error == Refusal(old(Snapshot()), Contributions.ConfirmDuplicate(id, now))
      ensures error == if id in old(rows) then None else Some(NotFound)
      ensures error == None ==>
                rows == old(rows)[id := old(rows)[id].(isDuplicateConfirmed := true, status := DRAFT,
                                                       markedForDeletionAt := Some(now + 86_400_000))]
      ensures error.Some? ==> rows == old(rows)
      ensures logs == old(logs) && items == old(items) && xp == old(xp)
    {
      hide PaidFor, AllLogsTell, AllReflect;
      if id !in rows {
        return Some(NotFound);
      }
      error := None;
      var deletionTime := now + 24 * HOUR;
      rows := rows[id := rows[id].(isDuplicateConfirmed := true, markedForDeletionAt := Some(deletionTime),
                                   status := DRAFT)];
      history := history[id := HistoryOf(history, id) + [Confirmed(now)]];
      StaysValid(Contributions.ConfirmDuplicate(id, now));
    }

    /** `submitDispute`: the countdown stops. */
    method SubmitDispute(id: Id, user: UserId, now: int) returns (error: Option<Failure>)
      requires Valid()
      modifies this
      ensures Valid() && Performed(Contributions.SubmitDispute(id, user, now))
      ensures error == Refusal(old(Snapshot()), Contributions.SubmitDispute(id, user, now))
      ensures id !in old(rows) ==> error == Some(NotFound)
      ensures id in old(rows) ==>
                error == if old(rows)[id].userId != user then Some(Forbidden)
                         else if old(rows)[id].isDuplicateConfirmed then None else Some(NotADuplicate)
      ensures error == None ==>
                rows == old(rows)[id := old(rows)[id].(disputeStatus := PENDING, markedForDeletionAt := None)]
      ensures error.Some? ==> rows == old(rows)
      ensures logs == old(logs) && items == old(items) && xp == old(xp)
    {
      hide PaidFor, AllLogsTell, AllReflect;
      if id !in rows {
        return Some(NotFound);
      }
      if rows[id].userId != user {
        return Some(Forbidden);
      }
      if !rows[id].isDuplicateConfirmed {
        return Some(NotADuplicate);
      }
      error := None;
      rows := rows[id := rows[id].(disputeStatus := PENDING, markedForDeletionAt := None)];
      history := history[id := HistoryOf(history, id) + [Disputed(now)]];
      StaysValid(Contributions.SubmitDispute(id, user, now));
    }

    /** `resolveDispute`: rehabilitated, or a last day's notice. */
    method ResolveDispute(id: Id, approve: bool, now: int) returns (error: Option<Failure>)
      requires Valid()
      modifies this
      ensures Valid() && Performed(Contributions.ResolveDispute(id, approve, now))
      ensures error == Refusal(old(Snapshot()), Contributions.ResolveDispute(id, approve, now))
      ensures id !in old(rows) ==> error == Some(NotFound)
      ensures id in old(rows) ==> error == if old(rows)[id].disputeStatus == PENDING then None else Some(NoDispute)
      ensures error == None && approve ==>
                rows == old(rows)[id := old(rows)[id].(isDuplicateConfirmed := false, disputeStatus := ACCEPTED,
                                                       markedForDeletionAt := None, status := APPROVED)]
      ensures error == None && !approve ==>
                rows == old(rows)[id := old(rows)[id].(disputeStatus := REFUSED, markedForDeletionAt := Some(now + 86_400_000))]
      ensures error.Some? ==> rows == old(rows)
      ensures logs == old(logs) && items == old(items) && xp == old(xp)
    {
      hide PaidFor, AllLogsTell, AllReflect;
      if id !in rows {
        return Some(NotFound);
      }
      if rows[id].disputeStatus != PENDING {
        return Some(NoDispute);
      }
      error := None;
      if approve {
        rows := rows[id := rows[id].(isDuplicateConfirmed := false, disputeStatus := ACCEPTED,
                                     markedForDeletionAt := None, status := APPROVED)];
        history := history[id := HistoryOf(history, id) + [DisputeAccepted(now)]];
      } else {
        rows := rows[id := rows[id].(disputeStatus := REFUSED, markedForDeletionAt := Some(now + 24 * HOUR))];
        history := history[id := HistoryOf(history, id) + [DisputeRefused(now)]];
      }
      StaysValid(Contributions.ResolveDispute(id, approve, now));
    }

    /** `purgeExpiredDuplicates`: exactly the confirmed, undisputed duplicates whose day is over. */
    method PurgeExpiredDuplicates(now: int) returns (purgedCount: nat)
      requires Valid()
      modifies this
      ensures Valid() && Performed(Purge(now))
      ensures purgedCount == |old(rows)| - |rows|
      ensures forall id | id in old(rows) :: id !in rows <==> Due(HistoryOf(history, id), now)
      ensures forall id | id in old(rows) ::
                var row := old(rows)[id];
                id !in rows <==> && row.isDuplicateConfirmed && row.disputeStatus != PENDING
                                 && row.markedForDeletionAt.Some? && row.markedForDeletionAt.value <= now
      ensures forall id | id in rows :: id in old(rows) && rows[id] == old(rows)[id]
      ensures items == old(items) && xp == old(xp)
    {
      hide PaidFor, AllLogsTell, AllReflect, Due, HistoryOf, Purged, Apply, Remember;
      PurgedIffDue(Snapshot(), history, now);
      PurgedExist(Snapshot(), now);
      PurgeApplies(moderate, Snapshot(), history, now);
      purgedCount := DeleteAll(Purged(State(rows, logs, items, xp), now));
      StaysValid(Purge(now));
    }

    /** `deleteMany`, with the logs that go with the rows */
    method DeleteAll(ids: set<Id>) returns (deleted: nat)
      requires forall id | id in ids :: id in rows
      modifies this`rows, this`logs
      ensures rows == old(rows) - ids && logs == old(logs) - ids
      ensures deleted == |ids| == |old(rows)| - |rows|
    {
      deleted := |ids|;
      RemovedCount(rows, ids);
      rows := rows - ids;
      logs := logs - ids;
    }
  }

  /** An approval is not a request for changes, whatever the flag says. */
  lemma ApprovalIgnoresRequest(s: State, id: Id, requestChanges: bool)
    requires id in s.rows
    ensures ApplyValidate(s, id, true, requestChanges) == ApplyValidate(s, id, true, false)
  {
  }

  lemma PurgeApplies(moderate: Content -> bool, s: State, h: History, now: int)
    ensures var ids := Purged(s, now);
            Apply(moderate, s, Purge(now)) == State(s.rows - ids, s.logs - ids, s.items, s.xp)
    ensures Remember(h, s, Purge(now)) == h
  {
    hide Purged;
  }

  /** What a purge selects, on the columns of the rows. */
  lemma PurgedExist(s: State, now: int)
    ensures forall id :: id in Purged(s, now) <==>
              && id in s.rows && s.rows[id].isDuplicateConfirmed && s.rows[id].disputeStatus != PENDING
              && s.rows[id].markedForDeletionAt.Some? && s.rows[id].markedForDeletionAt.value <= now
  {
  }

  lemma RemovedCount(rows: map<Id, Row>, ids: set<Id>)
    requires forall id | id in ids :: id in rows
    ensures |rows - ids| == |rows| - |ids|
  {
    assert rows.Keys == (rows - ids).Keys + ids;
  }
}
