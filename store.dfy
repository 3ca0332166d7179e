/** The in-memory store that stands in for the three JPA repositories: one map per table,
    keyed by primary key, and one IDENTITY counter per table. */
module Store {
  import opened Common
  import opened UserEntity
  import opened ScheduleEntity
  import opened CommentEntity

  /** The keys of `ids` that lie in [lo, hi), in ascending order: a table scan in
      primary-key order. */
  function ScanIds(ids: set<int>, lo: int, hi: int): (r: seq<int>)
    decreases hi - lo
    ensures forall i | 0 <= i < |r| :: r[i] in ids && lo <= r[i] < hi
    ensures forall id | id in ids && lo <= id < hi :: id in r
    ensures forall i, j | 0 <= i < j < |r| :: r[i] < r[j]
  {
    if hi <= lo then []
    else if lo in ids then [lo] + ScanIds(ids, lo + 1, hi)
    else ScanIds(ids, lo + 1, hi)
  }

  /** The values of `m` at the keys `ids`, in the order of `ids`. */
  function Lookup<K, V>(m: map<K, V>, ids: seq<K>): (r: seq<V>)
    requires forall i | 0 <= i < |ids| :: ids[i] in m
    ensures |r| == |ids| && forall i | 0 <= i < |ids| :: r[i] == m[ids[i]]
    ensures forall id | id in ids :: exists i :: 0 <= i < |r| && r[i] == m[id] && ids[i] == id
  {
    if ids == [] then [] else [m[ids[0]]] + Lookup(m, ids[1..])
  }

  class Db {
    var users: map<int, User>
    var schedules: map<int, Schedule>
    var comments: map<int, Comment>
    var nextUserId: int
    var nextScheduleId: int
    var nextCommentId: int
    /** Every entity object the store has handed out, including users removed by withdraw
        that schedules and comments still refer to. */
    ghost var Repr: set<object>

    ghost predicate Valid()
      reads this, Repr
    {
      && 1 <= nextUserId && 1 <= nextScheduleId && 1 <= nextCommentId
      && (forall id | id in users ::
            users[id] in Repr && users[id].userId == id && 1 <= id < nextUserId)
      && (forall id | id in schedules ::
            && schedules[id] in Repr && schedules[id].user in Repr
            && schedules[id].scheduleId == id && 1 <= id < nextScheduleId)
      && (forall id | id in comments ::
            && comments[id] in Repr && comments[id].user in Repr && comments[id].schedule in Repr
            && comments[id].schedule.user in Repr
            && comments[id].id == id && 1 <= id < nextCommentId
            // a comment's schedule is the stored schedule with that id
            && comments[id].schedule.scheduleId in schedules
            && schedules[comments[id].schedule.scheduleId] == comments[id].schedule)
      // the unique constraint on `user.email`
      && (forall a, b | a in users && b in users && users[a].email == users[b].email :: a == b)
    }

    constructor ()
      ensures Valid() && fresh(Repr)
      ensures users == map[] && schedules == map[] && comments == map[]
    {
      users, schedules, comments := map[], map[], map[];
      nextUserId, nextScheduleId, nextCommentId := 1, 1, 1;
      Repr := {};
    }

    /** `userRepository.existsByEmail`. */
    predicate ExistsByEmail(email: string): (b: bool)
      reads this, Repr
      requires Valid()
      ensures b <==> exists id | id in users :: users[id].email == email
    {
      email in (set id | id in users :: users[id].email)
    }

    /** The ids of the schedules whose owner has id `userId`, in ascending order. */
    function OwnedScheduleIds(userId: int): (ids: seq<int>)
      reads this, Repr
      requires Valid()
      ensures forall i | 0 <= i < |ids| :: ids[i] in schedules && schedules[ids[i]].user.userId == userId
      ensures forall id | id in schedules && schedules[id].user.userId == userId :: id in ids
      ensures forall i, j | 0 <= i < j < |ids| :: ids[i] < ids[j]
    {
      ScanIds(set id | id in schedules && schedules[id].user.userId == userId, 1, nextScheduleId)
    }

    /** `scheduleRepository.findByUserUserId`: the schedules whose owner has id `userId`,
        in ascending id order. */
    function FindByUserUserId(userId: int): (r: seq<Schedule>)
      reads this, Repr
      requires Valid()
      ensures forall i | 0 <= i < |r| ::
        r[i].scheduleId in schedules && schedules[r[i].scheduleId] == r[i] && r[i].user.userId == userId
      ensures forall id | id in schedules && schedules[id].user.userId == userId ::
        exists i :: 0 <= i < |r| && r[i].scheduleId == id
      ensures forall i, j | 0 <= i < j < |r| :: r[i].scheduleId < r[j].scheduleId
    {
      var r := Lookup(schedules, OwnedScheduleIds(userId));
      OwnedSchedulesFound(userId, r);
      r
    }

    /** The rows fetched for `OwnedScheduleIds(userId)` are those schedules, stored under
        their own ids, owned by `userId`, and every such schedule is among them, in order. */
    lemma OwnedSchedulesFound(userId: int, r: seq<Schedule>)
      requires Valid() && r == Lookup(schedules, OwnedScheduleIds(userId))
      ensures forall i | 0 <= i < |r| ::
          && r[i] in Repr && r[i].user in Repr
          && r[i].scheduleId in schedules && schedules[r[i].scheduleId] == r[i]
          && r[i].user.userId == userId
      ensures forall id | id in schedules && schedules[id].user.userId == userId ::
        exists i :: 0 <= i < |r| && r[i].scheduleId == id
      ensures forall i, j | 0 <= i < j < |r| :: r[i].scheduleId < r[j].scheduleId
    {
      var ids := OwnedScheduleIds(userId);
      forall i | 0 <= i < |r|
        ensures r[i].scheduleId == ids[i]
      {
        assert r[i] == schedules[ids[i]];
      }
      forall id | id in schedules && schedules[id].user.userId == userId
        ensures exists i :: 0 <= i < |r| && r[i].scheduleId == id
      {
        var i :| 0 <= i < |ids| && ids[i] == id;
        assert r[i].scheduleId == id;
      }
    }

    /** The comments fetched for stored comment ids are stored under their own ids, and their
        author and schedule lie in the store's footprint. */
    lemma CommentRows(ids: seq<int>, r: seq<Comment>)
      requires Valid() && (forall i | 0 <= i < |ids| :: ids[i] in comments) && r == Lookup(comments, ids)
      ensures |r| == |ids|
      ensures forall i | 0 <= i < |r| ::
        && r[i].id == ids[i] && r[i] in Repr && r[i].user in Repr && r[i].schedule in Repr
        && r[i].id in comments && comments[r[i].id] == r[i]
    {
      forall i | 0 <= i < |r|
        ensures r[i].id == ids[i] && r[i] in Repr && r[i].user in Repr && r[i].schedule in Repr
      {
        assert r[i] == comments[ids[i]];
      }
    }

    /** The ids of the comments whose author has id `userId`, in ascending order. */
    function WrittenCommentIds(userId: int): (ids: seq<int>)
      reads this, Repr
      requires Valid()
      ensures forall i | 0 <= i < |ids| :: ids[i] in comments && comments[ids[i]].user.userId == userId
      ensures forall id | id in comments && comments[id].user.userId == userId :: id in ids
      ensures forall i, j | 0 <= i < j < |ids| :: ids[i] < ids[j]
    {
      ScanIds(set id | id in comments && comments[id].user.userId == userId, 1, nextCommentId)
    }

    /** `commentRepository.findAllByUser_UserId`: the comments whose author has id `userId`,
        in ascending id order. */
    function FindAllByUserUserId(userId: int): (r: seq<Comment>)
      reads this, Repr
      requires Valid()
      ensures forall i | 0 <= i < |r| ::
        r[i].id in comments && comments[r[i].id] == r[i] && r[i].user.userId == userId
      ensures forall id | id in comments && comments[id].user.userId == userId ::
        exists i :: 0 <= i < |r| && r[i].id == id
      ensures forall i, j | 0 <= i < j < |r| :: r[i].id < r[j].id
    {
      var r := Lookup(comments, WrittenCommentIds(userId));
      WrittenCommentsFound(userId, r);
      r
    }

    /** The rows fetched for `WrittenCommentIds(userId)` are those comments, stored under their
        own ids, written by `userId`, and every such comment is among them, in order. */
    lemma WrittenCommentsFound(userId: int, r: seq<Comment>)
      requires Valid() && r == Lookup(comments, WrittenCommentIds(userId))
      ensures forall i | 0 <= i < |r| ::
          && r[i] in Repr && r[i].user in Repr
          && r[i].id in comments && comments[r[i].id] == r[i]
          && r[i].user.userId == userId
      ensures forall id | id in comments && comments[id].user.userId == userId ::
        exists i :: 0 <= i < |r| && r[i].id == id
      ensures forall i, j | 0 <= i < j < |r| :: r[i].id < r[j].id
    {
      var ids := WrittenCommentIds(userId);
      CommentRows(ids, r);
      forall i | 0 <= i < |r|
        ensures r[i].user.userId == userId
      {
        assert ids[i] in comments && comments[ids[i]] == r[i];
      }
      forall id | id in comments && comments[id].user.userId == userId
        ensures exists i :: 0 <= i < |r| && r[i].id == id
      {
        var i :| 0 <= i < |ids| && ids[i] == id;
        assert r[i].id == id;
      }
    }

    /** The ids of the comments on the schedule with id `scheduleId`, in ascending order. */
    function ScheduleCommentIds(scheduleId: int): (ids: seq<int>)
      reads this, Repr
      requires Valid()
      ensures forall i | 0 <= i < |ids| :: ids[i] in comments && comments[ids[i]].schedule.scheduleId == scheduleId
      ensures forall id | id in comments && comments[id].schedule.scheduleId == scheduleId :: id in ids
      ensures forall i, j | 0 <= i < j < |ids| :: ids[i] < ids[j]
    {
      ScanIds(set id | id in comments && comments[id].schedule.scheduleId == scheduleId, 1, nextCommentId)
    }

    /** `commentRepository.findAllBySchedule_ScheduleId`: the comments on the schedule with id
        `scheduleId`, in ascending id order. */
    function FindAllByScheduleScheduleId(scheduleId: int): (r: seq<Comment>)
      reads this, Repr
      requires Valid()
      ensures forall i | 0 <= i < |r| ::
        r[i].id in comments && comments[r[i].id] == r[i] && r[i].schedule.scheduleId == scheduleId
      ensures forall id | id in comments && comments[id].schedule.scheduleId == scheduleId ::
        exists i :: 0 <= i < |r| && r[i].id == id
      ensures forall i, j | 0 <= i < j < |r| :: r[i].id < r[j].id
    {
      var r := Lookup(comments, ScheduleCommentIds(scheduleId));
      ScheduleCommentsFound(scheduleId, r);
      r
    }

    /** The rows fetched for `ScheduleCommentIds(scheduleId)` are those comments, stored under
        their own ids, on that schedule, and every such comment is among them, in order. */
    lemma ScheduleCommentsFound(scheduleId: int, r: seq<Comment>)
      requires Valid() && r == Lookup(comments, ScheduleCommentIds(scheduleId))
      ensures forall i | 0 <= i < |r| ::
          && r[i] in Repr && r[i].schedule in Repr
          && r[i].id in comments && comments[r[i].id] == r[i]
          && r[i].schedule.scheduleId == scheduleId
      ensures forall id | id in comments && comments[id].schedule.scheduleId == scheduleId ::
        exists i :: 0 <= i < |r| && r[i].id == id
      ensures forall i, j | 0 <= i < j < |r| :: r[i].id < r[j].id
    {
      var ids := ScheduleCommentIds(scheduleId);
      CommentRows(ids, r);
      forall i | 0 <= i < |r|
        ensures r[i].schedule.scheduleId == scheduleId
      {
        assert ids[i] in comments && comments[ids[i]] == r[i];
      }
      forall id | id in comments && comments[id].schedule.scheduleId == scheduleId
        ensures exists i :: 0 <= i < |r| && r[i].id == id
      {
        var i :| 0 <= i < |ids| && ids[i] == id;
        assert r[i].id == id;
      }
    }

    /** `userRepository.save` of a new user: assigns the next id and inserts the row. */
    method InsertUser(u: User)
      requires Valid() && u !in Repr && u.userId == UNSAVED
      requires !ExistsByEmail(u.email)
      modifies this, u`userId
      ensures Valid() && Repr == old(Repr) + {u}
      ensures u.userId == old(nextUserId) && old(nextUserId) !in old(users)
      ensures users == old(users)[u.userId := u]
      ensures schedules == old(schedules) && comments == old(comments)
    {
      u.userId := nextUserId;
      users := users[nextUserId := u];
      nextUserId := nextUserId + 1;
      Repr := Repr + {u};
    }

    /** `scheduleRepository.save` of a new schedule owned by a stored user. */
    method InsertSchedule(s: Schedule)
      requires Valid() && s !in Repr && s.scheduleId == UNSAVED && s.user in Repr
      modifies this, s`scheduleId
      ensures Valid() && Repr == old(Repr) + {s}
      ensures s.scheduleId == old(nextScheduleId) && old(nextScheduleId) !in old(schedules)
      ensures schedules == old(schedules)[s.scheduleId := s]
      ensures users == old(users) && comments == old(comments)
    {
      s.scheduleId := nextScheduleId;
      schedules := schedules[nextScheduleId := s];
      nextScheduleId := nextScheduleId + 1;
      Repr := Repr + {s};
    }

    /** `commentRepository.save` of a new comment by a stored user on a stored schedule. */
    method InsertComment(c: Comment)
      requires Valid() && c !in Repr && c.id == UNSAVED
      requires c.user in Repr
      requires c.schedule.scheduleId in schedules && schedules[c.schedule.scheduleId] == c.schedule
      modifies this, c`id
      ensures Valid() && Repr == old(Repr) + {c}
      ensures c.id == old(nextCommentId) && old(nextCommentId) !in old(comments)
      ensures comments == old(comments)[c.id := c]
      ensures users == old(users) && schedules == old(schedules)
    {
      c.id := nextCommentId;
      comments := comments[nextCommentId := c];
      nextCommentId := nextCommentId + 1;
      Repr := Repr + {c};
    }

    /** `userRepository.delete`: removes the row; nothing that refers to it is touched. */
    method DeleteUser(userId: int)
      requires Valid() && userId in users
      modifies this
      ensures Valid() && Repr == old(Repr)
      ensures users == old(users) - {userId}
      ensures schedules == old(schedules) && comments == old(comments)
    {
      users := users - {userId};
    }
  }
}
