/**
  Friendships: a symmetric relation kept as directed rows, its per-pair and batched views, and
  the daily encouragements.
 */
module Friends {

  import opened Wrappers

  type UserId = string
  type Id = string

  datatype RowStatus = PENDING | ACCEPTED | BLOCKED

  datatype Friendship = Friendship(id: Id, sender: UserId, receiver: UserId, status: RowStatus)

  type Table = map<Id, Friendship>

  /** How one user stands to another. */
  datatype Relation = NONE | PENDING_SENT | PENDING_RECEIVED | FRIENDS | IS_BLOCKED

  datatype View = View(status: Relation, friendshipId: Option<Id>)

  // ---------- The invariant ----------

  predicate Between(f: Friendship, a: UserId, b: UserId) {
    (f.sender == a && f.receiver == b) || (f.sender == b && f.receiver == a)
  }

  /** Rows carry their key, nobody is related to himself, and a pair has at most one row. */
  ghost predicate WellFormed(rows: Table) {
    && (forall id | id in rows :: rows[id].id == id && rows[id].sender != rows[id].receiver)
    && (forall i, j | i in rows && j in rows && Between(rows[j], rows[i].sender, rows[i].receiver) :: i == j)
  }

  // ---------- The relation that the rows stand for ----------

  function RelationOf(f: Friendship, viewer: UserId): Relation {
    match f.status
    case ACCEPTED => FRIENDS
    case BLOCKED => IS_BLOCKED
    case PENDING => if f.sender == viewer then PENDING_SENT else PENDING_RECEIVED
  }

  function Dual(r: Relation): Relation {
    match r
    case PENDING_SENT => PENDING_RECEIVED
    case PENDING_RECEIVED => PENDING_SENT
    case _ => r
  }

  /** The view of `b` by `a`, whichever matching row the database returns first. */
  ghost predicate IsView(rows: Table, a: UserId, b: UserId, v: View) {
    match v.friendshipId
    case Some(id) => a != b && id in rows && Between(rows[id], a, b) && v.status == RelationOf(rows[id], a)
    case None => v.status == NONE && (a == b || forall id | id in rows :: !Between(rows[id], a, b))
  }

  ghost function ViewOf(rows: Table, a: UserId, b: UserId): (v: View)
    ensures IsView(rows, a, b, v)
  {
    if a != b && exists id :: id in rows && Between(rows[id], a, b) then
      var id :| id in rows && Between(rows[id], a, b);
      View(RelationOf(rows[id], a), Some(id))
    else View(NONE, None)
  }

  /** The view on the columns of the rows. */
  lemma ViewColumns(rows: Table, a: UserId, b: UserId)
    ensures var v := ViewOf(rows, a, b);
            && (a == b ==> v == View(NONE, None))
            && (a != b && v.friendshipId == None ==>
                  && v.status == NONE
                  && forall id | id in rows :: (rows[id].sender, rows[id].receiver) !in {(a, b), (b, a)})
            && (v.friendshipId.Some? ==>
                  && v.friendshipId.value in rows
                  && var f := rows[v.friendshipId.value];
                  && ((f.sender == a && f.receiver == b) || (f.sender == b && f.receiver == a))
                  && (v.status == FRIENDS <==> f.status == ACCEPTED)
                  && (v.status == IS_BLOCKED <==> f.status == BLOCKED)
                  && (v.status == PENDING_SENT <==> f.status == PENDING && f.sender == a)
                  && (v.status == PENDING_RECEIVED <==> f.status == PENDING && f.sender == b))
  {
  }

  /** In a well-formed table the view does not depend on what the database returns first. */
  lemma ViewIsUnique(rows: Table, a: UserId, b: UserId, v: View)
    requires WellFormed(rows) && IsView(rows, a, b, v)
    ensures v == ViewOf(rows, a, b)
  {
    var w := ViewOf(rows, a, b);
    if v.friendshipId.Some? && w.friendshipId.Some? {
      assert Between(rows[w.friendshipId.value], rows[v.friendshipId.value].sender, rows[v.friendshipId.value].receiver);
    }
  }

  /** What one side sees is the dual of what the other side sees. */
  lemma ViewsAreDual(rows: Table, a: UserId, b: UserId)
    requires WellFormed(rows)
    ensures ViewOf(rows, b, a) == View(Dual(ViewOf(rows, a, b).status), ViewOf(rows, a, b).friendshipId)
  {
    var v := ViewOf(rows, a, b);
    ViewIsUnique(rows, b, a, View(Dual(v.status), v.friendshipId));
  }

  // ---------- Changing one pair ----------

  ghost predicate SamePair(a: UserId, b: UserId, x: UserId, y: UserId) {
    (a == x && b == y) || (a == y && b == x)
  }

  /** No other pair sees a difference. */
  ghost predicate OnlyPairChanged(before: Table, after: Table, x: UserId, y: UserId) {
    forall a, b | !SamePair(a, b, x, y) :: ViewOf(after, a, b) == ViewOf(before, a, b)
  }

  /** Writing a row for a pair that has no other row. */
  lemma WriteRow(rows: Table, f: Friendship)
    requires WellFormed(rows) && f.sender != f.receiver
    requires forall id | id in rows && id != f.id :: !Between(rows[id], f.sender, f.receiver)
    requires f.id in rows ==> Between(rows[f.id], f.sender, f.receiver)
    ensures WellFormed(rows[f.id := f])
    ensures OnlyPairChanged(rows, rows[f.id := f], f.sender, f.receiver)
    ensures ViewOf(rows[f.id := f], f.sender, f.receiver) == View(RelationOf(f, f.sender), Some(f.id))
  {
    var after := rows[f.id := f];
    assert WellFormed(after);
    forall a, b | !SamePair(a, b, f.sender, f.receiver) ensures ViewOf(after, a, b) == ViewOf(rows, a, b) {
      assert IsView(after, a, b, ViewOf(rows, a, b));
      ViewIsUnique(after, a, b, ViewOf(rows, a, b));
    }
    ViewIsUnique(after, f.sender, f.receiver, View(RelationOf(f, f.sender), Some(f.id)));
  }

  /** Deleting the row of a pair. */
  lemma DeleteRow(rows: Table, id: Id)
    requires WellFormed(rows) && id in rows
    ensures WellFormed(rows - {id})
    ensures OnlyPairChanged(rows, rows - {id}, rows[id].sender, rows[id].receiver)
    ensures ViewOf(rows - {id}, rows[id].sender, rows[id].receiver) == View(NONE, None)
  {
    var after, f := rows - {id}, rows[id];
    forall a, b | !SamePair(a, b, f.sender, f.receiver) ensures ViewOf(after, a, b) == ViewOf(rows, a, b) {
      assert IsView(after, a, b, ViewOf(rows, a, b));
      ViewIsUnique(after, a, b, ViewOf(rows, a, b));
    }
    ViewIsUnique(after, f.sender, f.receiver, View(NONE, None));
  }

  // ---------- Encouragements ----------

  const DAY := 86_400_000

  /** `getDateOnly`: the number of the UTC day of a time in milliseconds. */
  function DayOf(now: int): int {
    now / DAY
  }

  datatype Encouragement = Encouragement(sender: UserId, receiver: UserId, day: int)

  function Involving(encouragements: set<Encouragement>, u: UserId): set<Encouragement> {
    set e | e in encouragements && (e.sender == u || e.receiver == u)
  }

  /** One point for each encouragement sent and each one received; nobody encourages himself. */
  ghost predicate XpAgrees(encouragements: set<Encouragement>, xp: map<UserId, nat>) {
    && (forall e | e in encouragements :: e.sender != e.receiver)
    && (forall u :: (if u in xp then xp[u] else 0) == |Involving(encouragements, u)|)
  }

  predicate CanEncourage(encouragements: set<Encouragement>, sender: UserId, target: UserId, now: int) {
    sender != target && Encouragement(sender, target, DayOf(now)) !in encouragements
  }

  /** A call of `encourageUser` that was accepted, with its time in milliseconds. */
  datatype Sent = Sent(sender: UserId, receiver: UserId, at: int)

  /** The rows are what the accepted calls have left: one row for each sender, receiver and UTC day. */
  ghost predicate Recorded(encouragements: set<Encouragement>, accepted: seq<Sent>) {
    && (forall e | e in encouragements ::
          exists k | 0 <= k < |accepted| ::
            accepted[k].sender == e.sender && accepted[k].receiver == e.receiver && DayOf(accepted[k].at) == e.day)
    && (forall k | 0 <= k < |accepted| ::
          Encouragement(accepted[k].sender, accepted[k].receiver, DayOf(accepted[k].at)) in encouragements)
  }

  lemma RecordedSnoc(encouragements: set<Encouragement>, accepted: seq<Sent>, call: Sent)
    requires Recorded(encouragements, accepted)
    ensures Recorded(encouragements + {Encouragement(call.sender, call.receiver, DayOf(call.at))}, accepted + [call])
  {
    var more := accepted + [call];
    assert more[|accepted|] == call;
    forall e | e in encouragements
      ensures exists k | 0 <= k < |more| ::
                more[k].sender == e.sender && more[k].receiver == e.receiver && DayOf(more[k].at) == e.day
    {
      var k :| 0 <= k < |accepted| && accepted[k].sender == e.sender && accepted[k].receiver == e.receiver
               && DayOf(accepted[k].at) == e.day;
      assert more[k] == accepted[k];
    }
  }

  /** The last millisecond of the UTC day of `now`. */
  function EndOfDay(now: int): int {
    (DayOf(now) + 1) * DAY - 1
  }

  /** A day is the interval of the DAY milliseconds up to its end. */
  lemma DaysAreIntervals(a: int, b: int)
    ensures a <= EndOfDay(a) < a + DAY
    ensures DayOf(b) == DayOf(a) <==> EndOfDay(a) - DAY < b <= EndOfDay(a)
  {
  }

  lemma InvolvingAfter(encouragements: set<Encouragement>, e: Encouragement, u: UserId)
    requires e !in encouragements
    ensures |Involving(encouragements + {e}, u)| ==
            |Involving(encouragements, u)| + if e.sender == u || e.receiver == u then 1 else 0
  {
    assert Involving(encouragements + {e}, u) ==
           if e.sender == u || e.receiver == u then Involving(encouragements, u) + {e} else Involving(encouragements, u);
  }

  // ---------- The service ----------

  datatype Failure = Self | UnknownUser | AlreadyFriends | Blocked | AlreadyPending | NotFound | AlreadyEncouraged

  datatype SearchResult = SearchResult(user: UserId, view: View)

  datatype FriendItem = FriendItem(user: UserId, friendshipId: Id, hasEncouragedToday: bool)

  /** The search shows a blocked pair as unrelated. */
  function Unblocked(v: View): View {
    if v.status == IS_BLOCKED then View(NONE, None) else v
  }

  function Other(f: Friendship, user: UserId): UserId {
    if f.sender == user then f.receiver else f.sender
  }

  /** The view that a row gives to one of its two users. */
  lemma RowView(rows: Table, user: UserId, id: Id)
    requires WellFormed(rows) && id in rows && (rows[id].sender == user || rows[id].receiver == user)
    ensures ViewOf(rows, user, Other(rows[id], user)) == View(RelationOf(rows[id], user), Some(id))
  {
    ViewIsUnique(rows, user, Other(rows[id], user), View(RelationOf(rows[id], user), Some(id)));
  }

  ghost predicate Listed(friends: seq<FriendItem>, u: UserId) {
    exists k | 0 <= k < |friends| :: friends[k].user == u
  }

  lemma ListedAt(friends: seq<FriendItem>, u: UserId)
    requires Listed(friends, u)
    ensures exists k | 0 <= k < |friends| :: friends[k].user == u
  {
  }

  lemma ListedSnoc(friends: seq<FriendItem>, item: FriendItem)
    ensures Listed(friends + [item], item.user)
    ensures forall u | Listed(friends, u) :: Listed(friends + [item], u)
  {
    var more := friends + [item];
    assert more[|friends|] == item;
    forall u | Listed(friends, u) ensures Listed(more, u) {
      var k :| 0 <= k < |friends| && friends[k].user == u;
      assert more[k] == friends[k];
    }
  }

  /** Membership in the batched set is the negation of the single check. */
  lemma EncouragedSetIsRight(encouragements: set<Encouragement>, friendIds: set<UserId>, user: UserId, friend: UserId, now: int)
    requires friend in friendIds && friend != user
    ensures var encouraged := set e | e in encouragements && e.sender == user && e.receiver in friendIds && e.day == DayOf(now)
                                  :: e.receiver;
            friend in encouraged <==> !CanEncourage(encouragements, user, friend, now)
  {
    var e := Encouragement(user, friend, DayOf(now));
    if e in encouragements {
      assert e.receiver == friend;
    }
  }

  /** A listed friend is a friend, and the flag of the day is the negation of the single check. */
  ghost predicate RightItem(rows: Table, encouragements: set<Encouragement>, user: UserId, now: int, item: FriendItem) {
    && ViewOf(rows, user, item.user) == View(FRIENDS, Some(item.friendshipId))
    && item.hasEncouragedToday == !CanEncourage(encouragements, user, item.user, now)
  }

  lemma ItemColumns(rows: Table, encouragements: set<Encouragement>, user: UserId, now: int, item: FriendItem)
    requires WellFormed(rows) && RightItem(rows, encouragements, user, now, item)
    ensures ViewOf(rows, user, item.user) == View(FRIENDS, Some(item.friendshipId))
    ensures item.hasEncouragedToday <==> Encouragement(user, item.user, now / 86_400_000) in encouragements
  {
  }

  /** What one accepted row contributes to the list of friends. */
  lemma ItemIsRight(rows: Table, encouragements: set<Encouragement>, friendIds: set<UserId>, user: UserId, now: int, id: Id)
    requires WellFormed(rows) && id in rows && rows[id].status == ACCEPTED
    requires rows[id].sender == user || rows[id].receiver == user
    requires Other(rows[id], user) in friendIds
    ensures var friend := Other(rows[id], user);
            var encouraged := set e | e in encouragements && e.sender == user && e.receiver in friendIds && e.day == DayOf(now)
                                  :: e.receiver;
            RightItem(rows, encouragements, user, now, FriendItem(friend, id, friend in encouraged))
  {
    hide CanEncourage, ViewOf;
    RowView(rows, user, id);
    EncouragedSetIsRight(encouragements, friendIds, user, Other(rows[id], user), now);
  }

  /** Different rows list different friends. */
  lemma DifferentFriends(rows: Table, encouragements: set<Encouragement>, user: UserId, now: int,
                         a: FriendItem, b: FriendItem)
    requires RightItem(rows, encouragements, user, now, a) && RightItem(rows, encouragements, user, now, b)
    ensures a.user == b.user ==> a.friendshipId == b.friendshipId
  {
    hide ViewOf;
  }

  /** One point for each side of a new row. */
  lemma PaidBoth(encouragements: set<Encouragement>, e: Encouragement, xp: map<UserId, nat>, after: map<UserId, nat>)
    requires XpAgrees(encouragements, xp) && e !in encouragements && e.sender != e.receiver
    requires forall u :: (if u in after then after[u] else 0) ==
               (if u in xp then xp[u] else 0) + if u == e.sender || u == e.receiver then 1 else 0
    ensures XpAgrees(encouragements + {e}, after)
  {
    forall u ensures (if u in after then after[u] else 0) == |Involving(encouragements + {e}, u)| {
      InvolvingAfter(encouragements, e, u);
    }
  }

  class FriendsService {
    var users: set<UserId>
    var rows: Table
    var encouragements: set<Encouragement>
    var xp: map<UserId, nat>
    ghost var accepted: seq<Sent>

    ghost predicate Valid()
      reads this
    {
      WellFormed(rows) && XpAgrees(encouragements, xp) && Recorded(encouragements, accepted)
    }

    constructor (users: set<UserId>, rows: Table)
      requires WellFormed(rows)
      ensures Valid() && this.users == users && this.rows == rows && encouragements == {} && accepted == []
    {
      this.users, this.rows, encouragements, xp, accepted := users, rows, {}, map[], [];
    }

    /** `findFirst` on the two directions of a pair */
    method FindBetween(a: UserId, b: UserId) returns (found: Option<Friendship>)
      ensures found.Some? ==> found.value.id in rows && Between(rows[found.value.id], a, b) && rows[found.value.id] == found.value
      ensures found == None ==> forall id | id in rows :: !Between(rows[id], a, b)
      requires WellFormed(rows)
    {
      var matching := set id | id in rows && Between(rows[id], a, b);
      if matching == {} {
        assert forall id | id in rows :: id !in matching;
        return None;
      }
      var id :| id in matching;
      found := Some(rows[id]);
    }

    /** `getFriendshipStatus` */
    method GetFriendshipStatus(a: UserId, b: UserId) returns (v: View)
      requires Valid()
      ensures v == ViewOf(rows, a, b)
    {
      if a == b {
        return View(NONE, None);
      }
      var friendship := FindBetween(a, b);
      if friendship == None {
        v := View(NONE, None);
      } else {
        v := View(RelationOf(friendship.value, a), Some(friendship.value.id));
      }
      ViewIsUnique(rows, a, b, v);
    }

    /** `sendFriendRequest`: crossed requests make friends. */
    method SendFriendRequest(sender: UserId, target: UserId, newId: Id) returns (error: Option<Failure>)
      requires Valid() && newId !in rows
      modifies this`rows
      ensures Valid()
      ensures var was := old(ViewOf(rows, sender, target)).status;
              && error == (if sender == target then Some(Self)
                           else if target !in users then Some(UnknownUser)
                           else match was
                                case FRIENDS => Some(AlreadyFriends)
                                case IS_BLOCKED => Some(Blocked)
                                case PENDING_SENT => Some(AlreadyPending)
                                case _ => None)
              && (error.Some? ==> rows == old(rows))
              && (error == None ==>
                    && ViewOf(rows, sender, target).status == (if was == PENDING_RECEIVED then FRIENDS else PENDING_SENT)
                    && OnlyPairChanged(old(rows), rows, sender, target))
      ensures error == None ==>
                || rows == old(rows)[newId := Friendship(newId, sender, target, PENDING)]
                || exists id :: id in old(rows) && old(rows)[id] == Friendship(id, target, sender, PENDING)
                                && rows == old(rows)[id := Friendship(id, target, sender, ACCEPTED)]
    {
      if sender == target {
        return Some(Self);
      }
      if target !in users {
        return Some(UnknownUser);
      }
      var existing := FindBetween(sender, target);
      if existing.Some? {
        var f := existing.value;
        ViewIsUnique(rows, sender, target, View(RelationOf(f, sender), Some(f.id)));
        if f.status == ACCEPTED {
          return Some(AlreadyFriends);
        }
        if f.status == BLOCKED {
          return Some(Blocked);
        }
        if f.sender == sender && f.status == PENDING {
          return Some(AlreadyPending);
        }
        WriteRow(rows, f.(status := ACCEPTED));
        ViewsAreDual(rows[f.id := f.(status := ACCEPTED)], f.sender, f.receiver);
        rows := rows[f.id := f.(status := ACCEPTED)];
        return None;
      }
      ViewIsUnique(rows, sender, target, View(NONE, None));
      var created := Friendship(newId, sender, target, PENDING);
      WriteRow(rows, created);
      rows := rows[newId := created];
      error := None;
    }

    /** The query of `acceptFriendRequest` and `rejectFriendRequest`: by friendship id or by sender id. */
    method FindReceived(user: UserId, key: string) returns (found: Option<Friendship>)
      requires WellFormed(rows)
      ensures found == None <==>
                forall id | id in rows :: !(rows[id].receiver == user && (id == key || rows[id].sender == key))
      ensures found.Some? ==>
                && found.value.id in rows && rows[found.value.id] == found.value
                && found.value.receiver == user && (found.value.id == key || found.value.sender == key)
    {
      var matching := set id | id in rows && rows[id].receiver == user && (id == key || rows[id].sender == key);
      if matching == {} {
        assert forall id | id in rows :: id !in matching;
        return None;
      }
      var id :| id in matching;
      found := Some(rows[id]);
    }

    /** `acceptFriendRequest`: whatever the status of the row was, a block included. */
    method AcceptFriendRequest(user: UserId, key: string) returns (accepted: Option<Friendship>)
      requires Valid()
      modifies this`rows
      ensures Valid()
      ensures accepted == None <==>
                forall id | id in old(rows) :: !(old(rows)[id].receiver == user && (id == key || old(rows)[id].sender == key))
      ensures accepted == None ==> rows == old(rows)
      ensures accepted.Some? ==>
                var f := accepted.value;
                && f.receiver == user && (f.id == key || f.sender == key)
                && f.id in old(rows) && old(rows)[f.id] == f && rows == old(rows)[f.id := f.(status := ACCEPTED)]
                && ViewOf(rows, user, f.sender) == View(FRIENDS, Some(f.id))
                && OnlyPairChanged(old(rows), rows, user, f.sender)
                && (old(ViewOf(rows, user, f.sender)).status == IS_BLOCKED <==> f.status == BLOCKED)
    {
      accepted := FindReceived(user, key);
      if accepted.Some? {
        var f := accepted.value;
        RowView(rows, user, f.id);
        WriteRow(rows, f.(status := ACCEPTED));
        ViewsAreDual(rows[f.id := f.(status := ACCEPTED)], f.sender, f.receiver);
        if f.status != ACCEPTED {
          rows := rows[f.id := f.(status := ACCEPTED)];
        } else {
          assert rows[f.id := f.(status := ACCEPTED)] == rows;
        }
      }
    }

    /** Delete the row of a pair. */
    method Delete(f: Friendship)
      requires WellFormed(rows) && f.id in rows && rows[f.id] == f
      modifies this`rows
      ensures WellFormed(rows) && rows == old(rows) - {f.id}
      ensures ViewOf(rows, f.sender, f.receiver) == View(NONE, None)
      ensures ViewOf(rows, f.receiver, f.sender) == View(NONE, None)
      ensures OnlyPairChanged(old(rows), rows, f.sender, f.receiver)
    {
      DeleteRow(rows, f.id);
      ViewsAreDual(rows - {f.id}, f.sender, f.receiver);
      rows := rows - {f.id};
    }

    /** `rejectFriendRequest`: the row goes, whatever its status. */
    method RejectFriendRequest(user: UserId, key: string) returns (rejected: Option<Friendship>)
      requires Valid()
      modifies this`rows
      ensures Valid()
      ensures rejected == None <==>
                forall id | id in old(rows) :: !(old(rows)[id].receiver == user && (id == key || old(rows)[id].sender == key))
      ensures rejected == None ==> rows == old(rows)
      ensures rejected.Some? ==>
                var f := rejected.value;
                && f.receiver == user && (f.id == key || f.sender == key)
                && f.id in old(rows) && old(rows)[f.id] == f && rows == old(rows) - {f.id}
                && ViewOf(rows, user, f.sender) == View(NONE, None)
                && OnlyPairChanged(old(rows), rows, f.sender, user)
    {
      rejected := FindReceived(user, key);
      if rejected.Some? {
        Delete(rejected.value);
      }
    }

    /** `cancelFriendRequest`: only a pending request of one's own. */
    method CancelFriendRequest(sender: UserId, target: UserId) returns (error: Option<Failure>)
      requires Valid()
      modifies this`rows
      ensures Valid()
      ensures error == if old(ViewOf(rows, sender, target)).status == PENDING_SENT then None else Some(NotFound)
      ensures error.Some? ==> rows == old(rows)
      ensures error == None ==>
                && ViewOf(rows, sender, target) == View(NONE, None) && OnlyPairChanged(old(rows), rows, sender, target)
                && exists id :: id in old(rows) && old(rows)[id] == Friendship(id, sender, target, PENDING)
                                && rows == old(rows) - {id}
    {
      var friendship := FindBetween(sender, target);
      if friendship == None || friendship.value.sender != sender || friendship.value.status != PENDING {
        if friendship.Some? {
          ViewIsUnique(rows, sender, target, View(RelationOf(friendship.value, sender), Some(friendship.value.id)));
        }
        return Some(NotFound);
      }
      ViewIsUnique(rows, sender, target, View(PENDING_SENT, Some(friendship.value.id)));
      Delete(friendship.value);
      error := None;
    }

    /** `removeFriend` */
    method RemoveFriend(user: UserId, friend: UserId) returns (error: Option<Failure>)
      requires Valid()
      modifies this`rows
      ensures Valid()
      ensures error == if old(ViewOf(rows, user, friend)).status == FRIENDS then None else Some(NotFound)
      ensures error.Some? ==> rows == old(rows)
      ensures error == None ==>
                && ViewOf(rows, user, friend) == View(NONE, None) && OnlyPairChanged(old(rows), rows, user, friend)
                && exists id :: id in old(rows) && rows == old(rows) - {id}
                                && old(rows)[id] in {Friendship(id, user, friend, ACCEPTED), Friendship(id, friend, user, ACCEPTED)}
    {
      var friendship := FindBetween(user, friend);
      if friendship == None || friendship.value.status != ACCEPTED {
        if friendship.Some? {
          ViewIsUnique(rows, user, friend, View(RelationOf(friendship.value, user), Some(friendship.value.id)));
        }
        return Some(NotFound);
      }
      ViewIsUnique(rows, user, friend, View(FRIENDS, Some(friendship.value.id)));
      Delete(friendship.value);
      error := None;
    }

    // ---------- Batched views ----------

    /** The loop of `searchUsers` that fills the map of views from the fetched rows. */
    method FillStatusMap(user: UserId, found: seq<UserId>) returns (statusMap: map<UserId, View>)
      requires Valid() && user !in found
      ensures forall u | u in found ::
                (if u in statusMap then statusMap[u] else View(NONE, None)) == Unblocked(ViewOf(rows, user, u))
    {
      hide ViewOf, WellFormed, XpAgrees;
      var friendships := set id | id in rows && ((rows[id].sender == user && rows[id].receiver in found)
                                                 || (rows[id].sender in found && rows[id].receiver == user));
      statusMap := map[];
      var rest := friendships;
      while rest != {}
        invariant rest <= friendships
        invariant forall u | u in statusMap :: statusMap[u] == Unblocked(ViewOf(rows, user, u))
        invariant forall id | id in friendships && id !in rest && rows[id].status != BLOCKED :: Other(rows[id], user) in statusMap
      {
        var id :| id in rest;
        rest := rest - {id};
        var f := rows[id];
        var otherId := Other(f, user);
        RowView(rows, user, id);
        if f.status == ACCEPTED {
          statusMap := statusMap[otherId := View(FRIENDS, Some(id))];
        } else if f.status == PENDING {
          statusMap := statusMap[otherId := View(if f.sender == user then PENDING_SENT else PENDING_RECEIVED, Some(id))];
        }
      }
      forall u | u in found && u !in statusMap ensures Unblocked(ViewOf(rows, user, u)) == View(NONE, None) {
        var v := ViewOf(rows, user, u);
        if v.friendshipId.Some? {
          assert v.friendshipId.value in friendships;
        }
      }
    }

    /** `searchUsers`, after the search by name */
    method SearchUsers(user: UserId, found: seq<UserId>) returns (results: seq<SearchResult>)
      requires Valid() && user !in found
      ensures |results| == |found|
      ensures forall k | 0 <= k < |found| ::
                var v := ViewOf(rows, user, found[k]);
                results[k] == SearchResult(found[k], if v.status == IS_BLOCKED then View(NONE, None) else v)
    {
      hide ViewOf, WellFormed, XpAgrees;
      var statusMap := FillStatusMap(user, found);
      results := [];
      for k := 0 to |found|
        invariant |results| == k
        invariant forall l | 0 <= l < k :: results[l] == SearchResult(found[l], Unblocked(ViewOf(rows, user, found[l])))
      {
        var u := found[k];
        results := results + [SearchResult(u, if u in statusMap then statusMap[u] else View(NONE, None))];
      }
    }

    /** `getFriends`: one query for the encouragements of the day serves all friends. */
    method GetFriends(user: UserId, now: int) returns (friends: seq<FriendItem>)
      requires Valid()
      ensures forall k | 0 <= k < |friends| ::
                && ViewOf(rows, user, friends[k].user) == View(FRIENDS, Some(friends[k].friendshipId))
                && (friends[k].hasEncouragedToday <==>
                      Encouragement(user, friends[k].user, now / 86_400_000) in encouragements)
      ensures forall u | ViewOf(rows, user, u).status == FRIENDS :: exists k | 0 <= k < |friends| :: friends[k].user == u
      ensures forall j, k | 0 <= j < k < |friends| :: friends[j].user != friends[k].user
    {
      hide ViewOf, XpAgrees, WellFormed, CanEncourage, Recorded, RightItem, Listed;
      var friendships := set id | id in rows && rows[id].status == ACCEPTED
                                  && (rows[id].sender == user || rows[id].receiver == user);
      var friendIds := set id | id in friendships :: Other(rows[id], user);
      var encouragedSet := set e | e in encouragements && e.sender == user && e.receiver in friendIds && e.day == DayOf(now)
                               :: e.receiver;
      friends := [];
      var rest := friendships;
      while rest != {}
        invariant rest <= friendships
        invariant forall k | 0 <= k < |friends| :: RightItem(rows, encouragements, user, now, friends[k])
        invariant forall id | id in friendships && id !in rest :: Listed(friends, Other(rows[id], user))
        invariant forall k | 0 <= k < |friends| :: friends[k].friendshipId !in rest
        invariant forall j, k | 0 <= j < k < |friends| :: friends[j].friendshipId != friends[k].friendshipId
      {
        var id :| id in rest;
        rest := rest - {id};
        var friend := Other(rows[id], user);
        ItemIsRight(rows, encouragements, friendIds, user, now, id);
        var item := FriendItem(friend, id, friend in encouragedSet);
        ListedSnoc(friends, item);
        friends := friends + [item];
      }
      forall u | ViewOf(rows, user, u).status == FRIENDS ensures exists k | 0 <= k < |friends| :: friends[k].user == u {
        var id := ViewOf(rows, user, u).friendshipId.value;
        assert id in friendships && Other(rows[id], user) == u;
        ListedAt(friends, u);
      }
      forall k | 0 <= k < |friends|
        ensures ViewOf(rows, user, friends[k].user) == View(FRIENDS, Some(friends[k].friendshipId))
        ensures friends[k].hasEncouragedToday <==> Encouragement(user, friends[k].user, now / 86_400_000) in encouragements
      {
        ItemColumns(rows, encouragements, user, now, friends[k]);
      }
      forall j, k | 0 <= j < k < |friends| ensures friends[j].user != friends[k].user {
        DifferentFriends(rows, encouragements, user, now, friends[j], friends[k]);
      }
    }

    // ---------- Encouragements ----------

    /** `canEncourage`: no call for this pair, in this direction, was accepted on the UTC day of `now`. */
    method CanEncourageNow(sender: UserId, target: UserId, now: int) returns (can: bool)
      requires Valid()
      ensures can <==> sender != target && forall k | 0 <= k < |accepted| ::
                accepted[k].sender == sender && accepted[k].receiver == target ==>
                  accepted[k].at / 86_400_000 != now / 86_400_000
    {
      if sender == target {
        return false;
      }
      can := Encouragement(sender, target, DayOf(now)) !in encouragements;
    }

    /** `encourageUser`: at most once a day for each pair and direction, one point for each side. */
    method EncourageUser(sender: UserId, target: UserId, now: int) returns (error: Option<Failure>)
      requires Valid()
      modifies this`encouragements, this`xp, this`accepted
      ensures Valid()
      ensures error == if sender == target then Some(Self) else if target !in users then Some(UnknownUser)
                       else if Encouragement(sender, target, now / 86_400_000) in old(encouragements) then Some(AlreadyEncouraged)
                       else None
      ensures encouragements == old(encouragements) +
                                if error == None then {Encouragement(sender, target, now / 86_400_000)} else {}
      ensures accepted == if error == None then old(accepted) + [Sent(sender, target, now)] else old(accepted)
      ensures error.Some? ==> xp == old(xp)
      ensures error == None ==>
                forall u ::
                  var before := if u in old(xp) then old(xp)[u] else 0;
                  (if u in xp then xp[u] else 0) == before + if u == sender || u == target then 1 else 0
    {
      hide Recorded, XpAgrees, WellFormed;
      if sender == target {
        return Some(Self);
      }
      if target !in users {
        return Some(UnknownUser);
      }
      var e := Encouragement(sender, target, DayOf(now));
      if e in encouragements {
        return Some(AlreadyEncouraged);
      }
      ghost var before := encouragements;
      encouragements := encouragements + {e};
      AwardXp(sender);
      AwardXp(target);
      RecordedSnoc(before, accepted, Sent(sender, target, now));
      accepted := accepted + [Sent(sender, target, now)];
      PaidBoth(before, e, old(xp), xp);
      error := None;
    }

    /** `awardXp` with an amount of one */
    method AwardXp(u: UserId)
      modifies this`xp
      ensures xp == old(xp)[u := (if u in old(xp) then old(xp)[u] else 0) + 1]
    {
      xp := xp[u := (if u in xp then xp[u] else 0) + 1];
    }
  }

  /** A blocked pair becomes a pair of friends by a single call of the side that received the row. */
  method AcceptedBlock() returns (service: FriendsService)
    ensures fresh(service) && service.Valid()
    ensures ViewOf(map["1" := Friendship("1", "a", "b", BLOCKED)], "b", "a").status == IS_BLOCKED
    ensures ViewOf(service.rows, "b", "a").status == FRIENDS
  {
    var rows := map["1" := Friendship("1", "a", "b", BLOCKED)];
    RowView(rows, "b", "1");
    service := new FriendsService({"a", "b"}, rows);
    var accepted := service.AcceptFriendRequest("b", "a");
    assert rows["1"].receiver == "b" && rows["1"].sender == "a";
  }
}
