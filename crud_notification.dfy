/** Data access for `notifications`: the per-user inbox. */
module CrudNotification {
  import opened Results
  import opened Models
  import opened Query
  import opened Store
  import opened Transitions

  /** Inserts one unread notification for `userId` carrying `message`. */
  method CreateNotification(db: Database, userId: int, message: string) returns (n: Notification)
    requires db.Valid()
    modifies db
    ensures db.Valid()
    ensures n == Notification(old(db.nextId), userId, message, false, old(db.clock) + 1)
    ensures n.id !in old(db.notifications)
    ensures db.State() == old(db.State()).(notifications := old(db.notifications)[n.id := n], nextId := n.id + 1, clock := old(db.clock) + 1)
    ensures old(db.Consistent()) && userId in db.users ==> db.Consistent()
    ensures db.FlagsOneWay()
  {
    n := Notification(db.nextId, userId, message, false, db.clock + 1);
    InsertNotification(db.State(), n);
    db.notifications := db.notifications[n.id := n];
    db.nextId := db.nextId + 1;
    db.clock := db.clock + 1;
  }

  /** The rows of `inbox` below key `bound` addressed to `userId`, by descending key. */
  function NewestFirst(inbox: map<int, Notification>, userId: int, bound: int): seq<Notification>
    decreases bound
  {
    if bound <= 1 then []
    else if bound - 1 in inbox && inbox[bound - 1].userId == userId then [inbox[bound - 1]] + NewestFirst(inbox, userId, bound - 1)
    else NewestFirst(inbox, userId, bound - 1)
  }

  /** Descending key order is descending stamp order, since rows are stamped in key order; and
      the walk meets exactly the rows of that user. */
  lemma {:induction false} NewestFirstSpec(inbox: map<int, Notification>, userId: int, bound: int)
    requires forall k :: k in inbox ==> 1 <= k && inbox[k].id == k
    requires forall a, b :: a in inbox && b in inbox && a < b ==> inbox[a].createdAt < inbox[b].createdAt
    ensures var r := NewestFirst(inbox, userId, bound);
      && (forall n :: n in r <==> n.id in inbox && n.id < bound && inbox[n.id] == n && n.userId == userId)
      && (forall i, j :: 0 <= i < j < |r| ==> r[i].createdAt > r[j].createdAt)
    decreases bound
  {
    if bound > 1 {
      NewestFirstSpec(inbox, userId, bound - 1);
      var older := NewestFirst(inbox, userId, bound - 1);
      var k := bound - 1;
      if k in inbox && inbox[k].userId == userId {
        forall i | 0 <= i < |older| ensures older[i].createdAt < inbox[k].createdAt {
          assert older[i] in older;
        }
        var r := [inbox[k]] + older;
        assert forall i :: 1 <= i < |r| ==> r[i] == older[i - 1];
      }
    }
  }

  /** Exactly the notifications addressed to `userId`, newest first. */
  function GetNotificationsByUser(db: Database, userId: int): (r: seq<Notification>)
    reads db
    requires db.Valid()
    ensures forall n :: n in r <==> n.id in db.notifications && db.notifications[n.id] == n && n.userId == userId
    ensures forall i, j :: 0 <= i < j < |r| ==> r[i].createdAt > r[j].createdAt
  {
    NewestFirstSpec(db.notifications, userId, db.nextId);
    NewestFirst(db.notifications, userId, db.nextId)
  }

  /** The inbox after marking `notificationId` read on behalf of `userId`: only a row with that
      key and that owner is touched, and only its `is_read` flag. */
  function ReadMarked(inbox: map<int, Notification>, notificationId: int, userId: int): (m: map<int, Notification>)
    ensures m.Keys == inbox.Keys
    ensures forall k :: k in inbox ==> m[k].(isRead := inbox[k].isRead) == inbox[k]
    ensures forall k :: k in inbox ==> (m[k].isRead <==> inbox[k].isRead || (k == notificationId && inbox[k].userId == userId))
  {
    if notificationId in inbox && inbox[notificationId].userId == userId
    then inbox[notificationId := inbox[notificationId].(isRead := true)]
    else inbox
  }

  /** Marking touches no row of another owner and no other key, keeps every key, and never
      clears a flag. */
  lemma ReadMarkedFrame(inbox: map<int, Notification>, notificationId: int, userId: int)
    ensures var m := ReadMarked(inbox, notificationId, userId);
      && m.Keys == inbox.Keys
      && (forall k :: k in inbox && (k != notificationId || inbox[k].userId != userId) ==> m[k] == inbox[k])
      && (forall k :: k in inbox ==> m[k] == inbox[k] || m[k] == inbox[k].(isRead := true))
      && (forall k :: k in inbox && inbox[k].isRead ==> m[k].isRead)
  {
  }

  /** Marking the same notification twice is the same as marking it once. */
  lemma ReadMarkedIdempotent(inbox: map<int, Notification>, notificationId: int, userId: int)
    ensures var m := ReadMarked(inbox, notificationId, userId);
      ReadMarked(m, notificationId, userId) == m
  {
  }

  /** Sets `is_read` on the notification `notificationId` only when it belongs to `userId`;
      otherwise returns None and changes nothing. */
  method MarkNotificationAsRead(db: Database, notificationId: int, userId: int) returns (r: Option<Notification>)
    requires db.Valid()
    modifies db
    ensures db.Valid()
    ensures r.Some? <==> notificationId in old(db.notifications) && old(db.notifications)[notificationId].userId == userId
    ensures r.None? ==> unchanged(db)
    ensures r.Some? ==> r.value == old(db.notifications)[notificationId].(isRead := true)
    ensures db.State() == old(db.State()).(notifications := ReadMarked(old(db.notifications), notificationId, userId))
    ensures old(db.Consistent()) ==> db.Consistent()
    ensures db.FlagsOneWay()
  {
    var k := First(db.notifications, (n: Notification) => n.id == notificationId && n.userId == userId, db.nextId);
    if k.None? {
      return None;
    }
    var n := db.notifications[k.value].(isRead := true);
    MarkRead(db.State(), k.value);
    db.notifications := db.notifications[k.value := n];
    r := Some(n);
  }
}
