/** The `/notifications` endpoints: the caller's inbox and the silent mark-read. */
module NotificationsApi {
  import opened Results
  import opened Models
  import opened Store
  import opened Schemas
  import CrudNotification

  function PresentAll(ns: seq<Notification>): (r: seq<NotificationOut>)
    ensures |r| == |ns|
    ensures forall i :: 0 <= i < |ns| ==> r[i] == PresentNotification(ns[i])
  {
    if ns == [] then [] else [PresentNotification(ns[0])] + PresentAll(ns[1..])
  }

  /** `GET /notifications`: an entry for each notification addressed to the caller and for no
      other, newest first. The strict order means no notification is listed twice. */
  function ReadNotifications(db: Database, caller: User): (r: seq<NotificationOut>)
    reads db
    requires db.Valid()
    ensures forall k :: k in db.notifications && db.notifications[k].userId == caller.id
                <==> k in db.notifications && PresentNotification(db.notifications[k]) in r
    ensures forall o :: o in r ==> exists k :: k in db.notifications && db.notifications[k].userId == caller.id
                                              && o == PresentNotification(db.notifications[k])
    ensures forall i, j :: 0 <= i < j < |r| ==> r[i].createdAt > r[j].createdAt
  {
    var inbox := CrudNotification.GetNotificationsByUser(db, caller.id);
    var r := PresentAll(inbox);
    forall k | k in db.notifications && PresentNotification(db.notifications[k]) in r
      ensures db.notifications[k].userId == caller.id
    {
      var i :| 0 <= i < |r| && r[i] == PresentNotification(db.notifications[k]);
      assert inbox[i] in inbox;
    }
    forall k | k in db.notifications && db.notifications[k].userId == caller.id
      ensures PresentNotification(db.notifications[k]) in r
    {
      assert db.notifications[k] in inbox;
      var i :| 0 <= i < |inbox| && inbox[i] == db.notifications[k];
      assert r[i] == PresentNotification(db.notifications[k]);
    }
    forall o | o in r
      ensures exists k :: k in db.notifications && db.notifications[k].userId == caller.id
                          && o == PresentNotification(db.notifications[k])
    {
      var i :| 0 <= i < |r| && r[i] == o;
      assert inbox[i] in inbox;
      assert db.notifications[inbox[i].id] == inbox[i];
    }
    r
  }

  /** `PATCH /notifications/{id}/read`: always 204 with no body. The owner passed down is the
      caller, so only the caller's own notification can be marked; an unknown id or another
      user's notification leaves the store as it was. */
  method MarkNotificationAsRead(db: Database, caller: User, notificationId: int) returns (r: Response<()>)
    requires db.Consistent() && db.IsCaller(caller)
    modifies db
    ensures r == Ok(204, ())
    ensures db.Consistent()
    ensures db.State() == old(db.State()).(notifications := CrudNotification.ReadMarked(old(db.notifications), notificationId, caller.id))
    ensures forall k :: k in old(db.notifications) && old(db.notifications)[k].userId != caller.id
              ==> k in db.notifications && db.notifications[k] == old(db.notifications)[k]
    ensures db.FlagsOneWay()
  {
    var _ := CrudNotification.MarkNotificationAsRead(db, notificationId, caller.id);
    CrudNotification.ReadMarkedFrame(old(db.notifications), notificationId, caller.id);
    r := Ok(204, ());
  }
}
