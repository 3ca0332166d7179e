/** ScheduleService.java: create, list, read, update, soft-delete and restore schedules. */
module ScheduleService {
  import opened Common
  import opened UserEntity
  import opened ScheduleEntity
  import opened Store

  datatype ScheduleRequest = ScheduleRequest(title: string, content: string, startDateTime: DateTime, endDateTime: DateTime)
  datatype ScheduleUpdateRequest = ScheduleUpdateRequest(title: string, content: string, startDateTime: DateTime, endDateTime: DateTime)

  /** The owner's id, email and name together with the schedule's own fields. */
  datatype ScheduleResponse = ScheduleResponse(
    userId: int, email: string, userName: string,
    scheduleId: int, title: string, content: string, startDateTime: DateTime, endDateTime: DateTime)

  /** The response built from a schedule and its owner, as every operation here builds it. */
  function ResponseOf(s: Schedule): ScheduleResponse
    reads s, s.user
  {
    ScheduleResponse(s.user.userId, s.user.email, s.user.username,
                     s.scheduleId, s.title, s.content, s.startDateTime, s.endDateTime)
  }

  /** `save`: a user that does not exist gets NotFound and the store is left as it was;
      otherwise exactly one new active schedule owned by that user is added, and the
      response echoes the request. */
  method Save(db: Db, userId: int, request: ScheduleRequest) returns (r: Result<ScheduleResponse>)
    requires db.Valid()
    modifies db
    ensures db.Valid()
    ensures userId !in old(db.users) ==> r == Err(NotFound(NoUser)) && unchanged(db)
    ensures userId in old(db.users) ==>
      var id := old(db.nextScheduleId);
      && id !in old(db.schedules) && id in db.schedules
      && db.schedules == old(db.schedules)[id := db.schedules[id]]
      && fresh(db.schedules[id])
      && db.schedules[id].user == old(db.users[userId]) && !db.schedules[id].deleted
      && db.users == old(db.users) && db.comments == old(db.comments)
      && r == Ok(ScheduleResponse(userId, old(db.users[userId].email), old(db.users[userId].username),
                                  id, request.title, request.content, request.startDateTime, request.endDateTime))
      && r.value == ResponseOf(db.schedules[id])
      && FindMe(db, id, userId) == r
  {
    if userId !in db.users {
      return Err(NotFound(NoUser));
    }
    var user := db.users[userId];
    var schedule := new Schedule(request.title, request.content, request.startDateTime, request.endDateTime, user);
    db.InsertSchedule(schedule);
    r := Ok(ResponseOf(schedule));
  }

  /** `findAllMe`: one response per schedule owned by `userId`, in the order the query
      returns them; every response carries that owner's id. Reads only. */
  method FindAllMe(db: Db, userId: int) returns (dtos: seq<ScheduleResponse>)
    requires db.Valid()
    ensures var owned := db.FindByUserUserId(userId);
      |dtos| == |owned| && forall i | 0 <= i < |dtos| :: dtos[i] == ResponseOf(owned[i])
    ensures forall i | 0 <= i < |dtos| ::
      && dtos[i].userId == userId
      && dtos[i].scheduleId in db.schedules
      && db.schedules[dtos[i].scheduleId].user.userId == userId
    ensures forall id | id in db.schedules && db.schedules[id].user.userId == userId ::
      exists i :: 0 <= i < |dtos| && dtos[i].scheduleId == id
  {
    var schedules := db.FindByUserUserId(userId);
    dtos := Responses(schedules);
    OwnedResponses(db, userId, dtos);
  }

  /** The loop of `findAllMe`: one response per schedule, in order. */
  method Responses(schedules: seq<Schedule>) returns (dtos: seq<ScheduleResponse>)
    ensures |dtos| == |schedules| && forall i | 0 <= i < |dtos| :: dtos[i] == ResponseOf(schedules[i])
  {
    dtos := [];
    for k := 0 to |schedules|
      invariant |dtos| == k
      invariant forall i | 0 <= i < k :: dtos[i] == ResponseOf(schedules[i])
    {
      dtos := dtos + [ResponseOf(schedules[k])];
    }
  }

  /** Responses built one-to-one from `findByUserUserId(userId)` carry that owner's id, name
      only schedules it owns, and name every schedule it owns. */
  lemma OwnedResponses(db: Db, userId: int, dtos: seq<ScheduleResponse>)
    requires db.Valid()
    requires var owned := db.FindByUserUserId(userId);
      |dtos| == |owned| && forall i | 0 <= i < |dtos| :: dtos[i] == ResponseOf(owned[i])
    ensures forall i | 0 <= i < |dtos| ::
      && dtos[i].userId == userId
      && dtos[i].scheduleId in db.schedules
      && db.schedules[dtos[i].scheduleId].user.userId == userId
    ensures forall id | id in db.schedules && db.schedules[id].user.userId == userId ::
      exists i :: 0 <= i < |dtos| && dtos[i].scheduleId == id
  {
  }

  /** `findMe`: NotFound exactly when the id is absent (a soft-deleted schedule is still
      found); the session user is not compared with the owner. */
  function FindMe(db: Db, scheduleId: int, sessionUserId: int): (r: Result<ScheduleResponse>)
    reads db, db.Repr
    requires db.Valid()
    ensures r.Err? <==> scheduleId !in db.schedules
    ensures r.Err? ==> r.error == NotFound(NoSchedule)
    ensures r.Ok? ==>
      && r.value.scheduleId == scheduleId
      && r.value.userId == db.schedules[scheduleId].user.userId
      && r.value.email == db.schedules[scheduleId].user.email
      && r.value.userName == db.schedules[scheduleId].user.username
      && r.value.title == db.schedules[scheduleId].title
      && r.value.content == db.schedules[scheduleId].content
      && r.value.startDateTime == db.schedules[scheduleId].startDateTime
      && r.value.endDateTime == db.schedules[scheduleId].endDateTime
  {
    if scheduleId in db.schedules then Ok(ResponseOf(db.schedules[scheduleId]))
    else Err(NotFound(NoSchedule))
  }

  /** `updateMe`: NotFound for a missing id; otherwise title, content, start and end are
      replaced and the id, owner and deleted flag kept. Any caller may update any schedule. */
  method UpdateMe(db: Db, scheduleId: int, sessionUserId: int, request: ScheduleUpdateRequest)
    returns (r: Result<ScheduleResponse>)
    requires db.Valid()
    modifies if scheduleId in db.schedules then {db.schedules[scheduleId]} else {}
    ensures db.Valid()
    ensures scheduleId !in db.schedules ==> r == Err(NotFound(NoSchedule))
    ensures scheduleId in db.schedules ==>
      var s := db.schedules[scheduleId];
      && s.title == request.title && s.content == request.content
      && s.startDateTime == request.startDateTime && s.endDateTime == request.endDateTime
      && s.scheduleId == scheduleId && s.deleted == old(s.deleted)
      && r == Ok(ResponseOf(s))
    ensures r == FindMe(db, scheduleId, sessionUserId)
  {
    if scheduleId !in db.schedules {
      return Err(NotFound(NoSchedule));
    }
    var schedule := db.schedules[scheduleId];
    schedule.UpdateSchedule(request.title, request.content, request.startDateTime, request.endDateTime);
    r := Ok(ResponseOf(schedule));
  }

  /** `deleteById`: NotFound for a missing id; Unauthorized when the password does not match
      the owner's stored one; otherwise the schedule is marked deleted. The session user is
      not compared with the owner. Only that one schedule can change. */
  method DeleteById(db: Db, scheduleId: int, sessionUserId: int, password: string, matches: Matcher)
    returns (r: Outcome)
    requires db.Valid()
    modifies (if scheduleId in db.schedules then {db.schedules[scheduleId]} else {})`deleted
    ensures db.Valid()
    ensures scheduleId !in db.schedules ==> r == Fail(NotFound(NoSchedule))
    ensures scheduleId in db.schedules ==>
      var s := db.schedules[scheduleId];
      && (r == Done <==> matches(password, s.user.password))
      && (r != Done ==> r == Fail(Unauthorized(BadPassword)) && s.deleted == old(s.deleted))
      && (r == Done ==> s.deleted)
      && s.title == old(s.title) && s.content == old(s.content) && s.scheduleId == scheduleId
  {
    if scheduleId !in db.schedules {
      return Fail(NotFound(NoSchedule));
    }
    var schedule := db.schedules[scheduleId];
    var user := schedule.user;
    if !matches(password, user.password) {
      return Fail(Unauthorized(BadPassword));
    }
    schedule.SoftDelete();
    r := Done;
  }

  /** `restoreById`: NotFound for a missing id; Unauthorized when the caller is not the owner;
      otherwise the deleted flag is cleared. No password is asked for. */
  method RestoreById(db: Db, scheduleId: int, sessionUserId: int) returns (r: Outcome)
    requires db.Valid()
    modifies (if scheduleId in db.schedules then {db.schedules[scheduleId]} else {})`deleted
    ensures db.Valid()
    ensures scheduleId !in db.schedules ==> r == Fail(NotFound(NoSchedule))
    ensures scheduleId in db.schedules ==>
      var s := db.schedules[scheduleId];
      && (r == Done <==> s.user.userId == sessionUserId)
      && (r != Done ==> r == Fail(Unauthorized(NotOwner)) && s.deleted == old(s.deleted))
      && (r == Done ==> !s.deleted)
      && s.title == old(s.title) && s.content == old(s.content) && s.scheduleId == scheduleId
  {
    if scheduleId !in db.schedules {
      return Fail(NotFound(NoSchedule));
    }
    var schedule := db.schedules[scheduleId];
    if schedule.user.userId != sessionUserId {
      return Fail(Unauthorized(NotOwner));
    }
    schedule.Restore();
    r := Done;
  }

  /** Delete with the owner's password, then restore by the owner: both succeed, the
      schedule is active again and no other schedule has changed. */
  method DeleteThenRestoreByOwner(db: Db, scheduleId: int, password: string, matches: Matcher)
    returns (deleted: Outcome, restored: Outcome)
    requires db.Valid() && scheduleId in db.schedules
    requires matches(password, db.schedules[scheduleId].user.password)
    modifies {db.schedules[scheduleId]}`deleted
    ensures db.Valid()
    ensures deleted == Done && restored == Done
    ensures !db.schedules[scheduleId].deleted
    ensures forall id | id in db.schedules && id != scheduleId :: unchanged(db.schedules[id])
  {
    var owner := db.schedules[scheduleId].user.userId;
    deleted := DeleteById(db, scheduleId, owner, password, matches);
    restored := RestoreById(db, scheduleId, owner);
  }
}
