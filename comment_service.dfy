/** CommentService.java: create, list, edit and soft-delete comments. */
module CommentService {
  import opened Common
  import opened UserEntity
  import opened ScheduleEntity
  import opened CommentEntity
  import opened Store
  import opened ScheduleService

  datatype CommentRequest = CommentRequest(comment: string)

  /** The commented schedule's summary, the comment's id, its author's name and its text. */
  datatype CommentResponse = CommentResponse(schedule: ScheduleResponse, id: int, userName: string, comment: string)

  function CommentResponseOf(c: Comment): CommentResponse
    reads c, c.user, c.schedule, c.schedule.user
  {
    CommentResponse(ResponseOf(c.schedule), c.id, c.user.username, c.comment)
  }

  /** The responses for `cs`, in order. */
  function CommentResponses(db: Db, cs: seq<Comment>): (r: seq<CommentResponse>)
    reads db, db.Repr
    requires db.Valid()
    requires forall i | 0 <= i < |cs| :: cs[i] in db.Repr && cs[i].id in db.comments && db.comments[cs[i].id] == cs[i]
    ensures |r| == |cs| && forall i | 0 <= i < |cs| :: r[i] == CommentResponseOf(cs[i])
    ensures forall i | 0 <= i < |r| :: r[i].id == cs[i].id && r[i] == CommentResponseOf(db.comments[r[i].id])
  {
    if cs == [] then [] else [CommentResponseOf(cs[0])] + CommentResponses(db, cs[1..])
  }

  /** `save`: the schedule is looked up before the user, so a missing schedule is reported
      even when the user is missing too; either failure adds nothing. On success exactly one
      comment is added, by that user on that schedule with the request's text; whether the
      schedule is soft-deleted is not checked. */
  method Save(db: Db, userId: int, scheduleId: int, request: CommentRequest) returns (r: Result<CommentResponse>)
    requires db.Valid()
    modifies db
    ensures db.Valid()
    ensures scheduleId !in old(db.schedules) ==> r == Err(NotFound(NoSchedule)) && unchanged(db)
    ensures scheduleId in old(db.schedules) && userId !in old(db.users) ==>
      r == Err(NotFound(NoUser)) && unchanged(db)
    ensures scheduleId in old(db.schedules) && userId in old(db.users) ==>
      var id := old(db.nextCommentId);
      && id !in old(db.comments) && id in db.comments
      && db.comments == old(db.comments)[id := db.comments[id]]
      && fresh(db.comments[id])
      && db.comments[id].user == old(db.users[userId])
      && db.comments[id].schedule == old(db.schedules[scheduleId])
      && db.comments[id].comment == request.comment && !db.comments[id].deleted
      && db.users == old(db.users) && db.schedules == old(db.schedules)
      && r.Ok? && r.value.id == id && r.value.comment == request.comment
      && r.value.userName == old(db.users[userId].username)
      && r.value.schedule == ResponseOf(old(db.schedules[scheduleId]))
  {
    if scheduleId !in db.schedules {
      return Err(NotFound(NoSchedule));
    }
    var schedule := db.schedules[scheduleId];
    if userId !in db.users {
      return Err(NotFound(NoUser));
    }
    var user := db.users[userId];
    var comment := new Comment(user, schedule, request.comment);
    db.InsertComment(comment);
    r := Ok(CommentResponseOf(comment));
  }

  /** A comment saved by an existing user on an existing schedule is then listed both among
      that user's comments and among that schedule's comments. */
  method SaveThenList(db: Db, userId: int, scheduleId: int, request: CommentRequest)
    returns (r: Result<CommentResponse>)
    requires db.Valid() && scheduleId in db.schedules && userId in db.users
    modifies db
    ensures db.Valid() && r.Ok?
    ensures var mine := FindAllByUserId(db, userId);
      exists i :: 0 <= i < |mine| && mine[i].id == r.value.id
    ensures var listed := FindAllByScheduleId(db, scheduleId);
      listed.Ok? && exists i :: 0 <= i < |listed.value| && listed.value[i].id == r.value.id
  {
    r := Save(db, userId, scheduleId, request);
    assert r.value.id in db.comments && db.comments[r.value.id].user.userId == userId;
    var mine := FindAllByUserId(db, userId);
    assert db.comments[r.value.id].schedule == db.schedules[scheduleId];
  }

  /** `findAllByUserId`: one response per comment written by `userId`, and only those;
      the user's existence is not checked, so a withdrawn user's comments are still listed. */
  function FindAllByUserId(db: Db, userId: int): (r: seq<CommentResponse>)
    reads db, db.Repr
    requires db.Valid()
    ensures forall i | 0 <= i < |r| ::
      && r[i].id in db.comments && db.comments[r[i].id].user.userId == userId
      && r[i] == CommentResponseOf(db.comments[r[i].id])
    ensures forall id | id in db.comments && db.comments[id].user.userId == userId ::
      exists i :: 0 <= i < |r| && r[i].id == id
    ensures forall i, j | 0 <= i < j < |r| :: r[i].id < r[j].id
  {
    CommentResponses(db, db.FindAllByUserUserId(userId))
  }

  /** `findAllByScheduleId`: NotFound when the schedule does not exist; otherwise one
      response per comment on that schedule, and only those, each carrying the same summary
      of that schedule. */
  function FindAllByScheduleId(db: Db, scheduleId: int): (r: Result<seq<CommentResponse>>)
    reads db, db.Repr
    requires db.Valid()
    ensures r.Err? <==> scheduleId !in db.schedules
    ensures r.Err? ==> r.error == NotFound(NoSchedule)
    ensures r.Ok? ==>
      && (forall i | 0 <= i < |r.value| ::
            && r.value[i].id in db.comments
            && db.comments[r.value[i].id].schedule == db.schedules[scheduleId]
            && r.value[i].schedule == ResponseOf(db.schedules[scheduleId])
            && r.value[i] == CommentResponseOf(db.comments[r.value[i].id]))
      && (forall id | id in db.comments && db.comments[id].schedule == db.schedules[scheduleId] ::
            exists i :: 0 <= i < |r.value| && r.value[i].id == id)
      && (forall i, j | 0 <= i < j < |r.value| :: r.value[i].id < r.value[j].id)
  {
    if scheduleId !in db.schedules then Err(NotFound(NoSchedule))
    else
      var cs := db.FindAllByScheduleScheduleId(scheduleId);
      var rs := CommentResponses(db, cs);
      ScheduleListing(db, scheduleId, cs, rs);
      ScheduleListingCovers(db, scheduleId, cs, rs);
      Ok(rs)
  }

  /** The responses built from `findAllBySchedule_ScheduleId` are the responses of comments on
      that schedule, in ascending id order, each with that schedule's summary. */
  lemma ScheduleListing(db: Db, scheduleId: int, cs: seq<Comment>, rs: seq<CommentResponse>)
    requires db.Valid() && scheduleId in db.schedules
    requires cs == db.FindAllByScheduleScheduleId(scheduleId) && rs == CommentResponses(db, cs)
    ensures forall i | 0 <= i < |rs| ::
      && rs[i].id in db.comments
      && db.comments[rs[i].id].schedule == db.schedules[scheduleId]
      && rs[i].schedule == ResponseOf(db.schedules[scheduleId])
      && rs[i] == CommentResponseOf(db.comments[rs[i].id])
    ensures forall i, j | 0 <= i < j < |rs| :: rs[i].id < rs[j].id
  {
    forall i | 0 <= i < |rs|
      ensures rs[i].id == cs[i].id && db.comments[rs[i].id].schedule == db.schedules[scheduleId]
    {
      assert db.comments[cs[i].id] == cs[i];
    }
  }

  /** Every comment on the schedule has its response among those built from
      `findAllBySchedule_ScheduleId`. */
  lemma ScheduleListingCovers(db: Db, scheduleId: int, cs: seq<Comment>, rs: seq<CommentResponse>)
    requires db.Valid() && scheduleId in db.schedules
    requires cs == db.FindAllByScheduleScheduleId(scheduleId) && rs == CommentResponses(db, cs)
    ensures forall id | id in db.comments && db.comments[id].schedule == db.schedules[scheduleId] ::
      exists i :: 0 <= i < |rs| && rs[i].id == id
  {
    forall id | id in db.comments && db.comments[id].schedule == db.schedules[scheduleId]
      ensures exists i :: 0 <= i < |rs| && rs[i].id == id
    {
      assert db.comments[id].schedule.scheduleId == scheduleId;
      var i :| 0 <= i < |cs| && cs[i].id == id;
      assert rs[i].id == id;
    }
  }


  /** `updateById`: NotFound for a missing comment; Unauthorized, with the text kept, when the
      caller is not the author; otherwise only the text is replaced. */
  method UpdateById(db: Db, commentId: int, sessionUserId: int, request: CommentRequest)
    returns (r: Result<CommentResponse>)
    requires db.Valid()
    modifies (if commentId in db.comments then {db.comments[commentId]} else {})`comment
    ensures db.Valid()
    ensures commentId !in db.comments ==> r == Err(NotFound(NoComment))
    ensures commentId in db.comments ==>
      var c := db.comments[commentId];
      && (c.user.userId != sessionUserId ==> r == Err(Unauthorized(NotOwner)) && c.comment == old(c.comment))
      && (c.user.userId == sessionUserId ==> c.comment == request.comment && r == Ok(CommentResponseOf(c)))
      && c.id == commentId && c.deleted == old(c.deleted)
  {
    if commentId !in db.comments {
      return Err(NotFound(NoComment));
    }
    var comment := db.comments[commentId];
    if comment.user.userId != sessionUserId {
      return Err(Unauthorized(NotOwner));
    }
    comment.UpdateComment(request.comment);
    r := Ok(CommentResponseOf(comment));
  }

  /** `deleteById`: NotFound for a missing comment; then the password is checked against the
      author's before authorship is, so a wrong password is reported even to the author; only
      when both pass is the comment marked deleted. A failure changes nothing. */
  method DeleteById(db: Db, commentId: int, sessionUserId: int, password: string, matches: Matcher)
    returns (r: Outcome)
    requires db.Valid()
    modifies (if commentId in db.comments then {db.comments[commentId]} else {})`deleted
    ensures db.Valid()
    ensures commentId !in db.comments ==> r == Fail(NotFound(NoComment))
    ensures commentId in db.comments ==>
      var c := db.comments[commentId];
      && (!matches(password, c.user.password) ==> r == Fail(Unauthorized(BadPassword)))
      && (matches(password, c.user.password) && c.user.userId != sessionUserId ==>
            r == Fail(Unauthorized(NotOwner)))
      && (r == Done <==> matches(password, c.user.password) && c.user.userId == sessionUserId)
      && c.deleted == (r == Done || old(c.deleted))
      && c.comment == old(c.comment) && c.id == commentId
  {
    if commentId !in db.comments {
      return Fail(NotFound(NoComment));
    }
    var comment := db.comments[commentId];
    if !matches(password, comment.user.password) {
      return Fail(Unauthorized(BadPassword));
    }
    if comment.user.userId != sessionUserId {
      return Fail(Unauthorized(NotOwner));
    }
    comment.SoftDelete();
    r := Done;
  }
}
