# Scheduler service core, in Dafny

This project models the service layer of a small Spring Boot scheduler application. Users sign
up, log in and keep their account up to date. They create schedules, each with a title, a
content, a start time and an end time. Schedules can be soft-deleted and restored. Users
comment on schedules, edit their own comments and soft-delete them. A servlet filter stops
every request without a logged-in session, except on a short whitelist of paths.

Modules:

- `Common`: the failure kinds the services throw, modelled as values.
  - `NotFound` names the lookup that failed.
  - `Unauthorized` names the check that refused the call.
  - `Conflict` stands for a duplicate email.
  - `Result` and `Outcome` are the return types.
- `UserEntity`, `ScheduleEntity`, `CommentEntity`: the three JPA entities as classes with the
  same fields.
  - Their update methods change only the fields the Java update methods change; field-level
    `modifies` frames state this.
  - A schedule's owner, and a comment's author and schedule, are object references that are
    never reassigned.
- `Store`: the three repositories as one store `Db`.
  - It holds one map per table, keyed by primary key, and one IDENTITY counter per table.
  - Its invariant `Valid` ties every key to the stored entity's id and keeps ids below the
    counter.
  - `Valid` also keeps every referenced object inside the store's footprint, and keeps every
    comment's schedule equal to the stored schedule with that id.
  - `Valid` enforces the unique constraint on the user email.
  - Each derived query (`findByUserUserId`, `findAllByUser_UserId`, `findAllBySchedule_ScheduleId`)
    is a function. It is proved to return exactly the matching rows, with no others, in
    ascending primary-key order.
- `ScheduleService`, `CommentService`, `UserService`: one Dafny member per service method.
  - A service method that changes the store is a `method` with a `modifies` clause.
  - A read-only lookup is a `function`.
  - The loop of `findAllMe` over the query result is the method `ScheduleService.Responses`.
- `LoginFilter`: the filter decision as a pure function of the request path and the session.

Every service call runs in one transaction, so each failure is modelled as returning before any
change. The contracts say so in two ways:

- `unchanged(db)` on the error paths of the operations that insert or remove rows.
- Field-level frames on the operations that edit one entity. Restore and both deletes may change
  only the `deleted` flag of that one schedule or comment, and a comment update only its text.
  Their contracts then say when that field is set, and that it is left as it was on failure.

In several places the code behaves differently from what its comments or names suggest. The
model follows the code:

- `restoreById` checks only that the caller owns the schedule. It asks for no password.
- `withdraw` removes the user row outright, although the comment above it
  (UserService.java:63) says it should soft-delete. It touches none of the user's schedules or
  comments.
- The filter's whitelist holds no `*`, so `simpleMatch` is an exact comparison. `/users/signup/x`
  is not whitelisted (`LoginFilter.WhiteListIsExact`).
- `login` never looks at the password in the request.
- `updateMe` and `deleteById` in the schedule service never compare the session user with the
  owner.
  - Anyone may update any schedule.
  - Anyone who knows the owner's password may delete it.
- `signup` rejects a duplicate email with an exception that the handler turns into HTTP 409. The
  model calls this `Conflict`.
- The `Schedule` entity as listed has only title and content. The schedule service uses a
  five-argument constructor, a four-argument `updateSchedule`, an owner, a `deleted` flag,
  `softDelete` and `restore`. The model gives `Schedule` what the service uses.
- `Comment` as listed has no `deleted` field and no `softDelete`, but the comment service calls
  `softDelete`. The model gives `Comment` a `deleted` flag that `SoftDelete` sets.
- `findAllByScheduleId` fails with a not-found message about a comment when in fact the schedule
  is missing. The model reports `NotFound(NoSchedule)`, after the lookup that failed.

## Model

| member | source | states |
|---|---|---|
| UserEntity.User.constructor | src/main/java/org/example/ch3schedulerprojectreview/user/entity/User.java:83-90 | a new user holds the given email, password and name and has no id yet |
| UserEntity.User.UpdateUser | src/main/java/org/example/ch3schedulerprojectreview/user/entity/User.java:92-98 | password and name are replaced; email and id are unchanged, and no other field can change |
| ScheduleEntity.Schedule.constructor | src/main/java/org/example/ch3schedulerprojectreview/schedule/service/ScheduleService.java:37-43 | a new schedule holds the given title, content, start, end and owner, is not deleted and has no id yet |
| ScheduleEntity.Schedule.UpdateSchedule | src/main/java/org/example/ch3schedulerprojectreview/schedule/service/ScheduleService.java:107-112 | title, content, start and end are replaced; id, owner and deleted flag are unchanged |
| ScheduleEntity.Schedule.SoftDelete | src/main/java/org/example/ch3schedulerprojectreview/schedule/service/ScheduleService.java:138 | the schedule is marked deleted and nothing else changes |
| ScheduleEntity.Schedule.Restore | src/main/java/org/example/ch3schedulerprojectreview/schedule/service/ScheduleService.java:152 | the deleted mark is cleared and nothing else changes |
| CommentEntity.Comment.constructor | src/main/java/org/example/ch3schedulerprojectreview/comment/entity/Comment.java:34-38 | a new comment holds the given author, schedule and text, is not deleted and has no id yet |
| CommentEntity.Comment.UpdateComment | src/main/java/org/example/ch3schedulerprojectreview/comment/entity/Comment.java:40-42 | only the text is replaced; id and deleted flag are unchanged |
| CommentEntity.Comment.SoftDelete | src/main/java/org/example/ch3schedulerprojectreview/comment/service/CommentService.java:403 | the comment is marked deleted and its text is unchanged |
| Store.ScanIds | src/main/java/org/example/ch3schedulerprojectreview/schedule/repository/ScheduleRepository.java:21 | the scan yields exactly the keys in range, each once, in strictly ascending primary-key order (the order the model chooses for every query) |
| Store.Lookup | src/main/java/org/example/ch3schedulerprojectreview/schedule/service/ScheduleService.java:61 | the rows fetched for a key list match it position by position, and every listed key's row appears |
| Store.Db.constructor | src/main/java/org/example/ch3schedulerprojectreview/user/repository/UserRepository.java:9 | a new store has no rows and satisfies the invariant |
| Store.Db.ExistsByEmail | src/main/java/org/example/ch3schedulerprojectreview/user/service/UserService.java:24 | true exactly when some stored user has the email |
| Store.Db.FindByUserUserId | src/main/java/org/example/ch3schedulerprojectreview/schedule/service/ScheduleService.java:61 | the result holds only stored schedules owned by the user and every such schedule, in ascending id order |
| Store.Db.FindAllByUserUserId | src/main/java/org/example/ch3schedulerprojectreview/comment/service/CommentService.java:159 | the result holds only stored comments by the user and every such comment, in ascending id order |
| Store.Db.FindAllByScheduleScheduleId | src/main/java/org/example/ch3schedulerprojectreview/comment/service/CommentService.java:243 | the result holds only stored comments on the schedule and every such comment, in ascending id order |
| Store.Db.OwnedScheduleIds | src/main/java/org/example/ch3schedulerprojectreview/schedule/service/ScheduleService.java:61 | the ids of exactly the stored schedules owned by the user, strictly ascending |
| Store.Db.OwnedSchedulesFound | src/main/java/org/example/ch3schedulerprojectreview/schedule/service/ScheduleService.java:61 | the rows fetched for those ids are the user's stored schedules under their own ids, all of them, in ascending id order |
| Store.Db.WrittenCommentIds | src/main/java/org/example/ch3schedulerprojectreview/comment/service/CommentService.java:159 | the ids of exactly the stored comments by the user, strictly ascending |
| Store.Db.WrittenCommentsFound | src/main/java/org/example/ch3schedulerprojectreview/comment/service/CommentService.java:159 | the rows fetched for those ids are the user's stored comments under their own ids, all of them, in ascending id order |
| Store.Db.ScheduleCommentIds | src/main/java/org/example/ch3schedulerprojectreview/comment/service/CommentService.java:243 | the ids of exactly the stored comments on the schedule, strictly ascending |
| Store.Db.ScheduleCommentsFound | src/main/java/org/example/ch3schedulerprojectreview/comment/service/CommentService.java:243 | the rows fetched for those ids are the schedule's stored comments under their own ids, all of them, in ascending id order |
| Store.Db.CommentRows | src/main/java/org/example/ch3schedulerprojectreview/comment/service/CommentService.java:243 | comments fetched by stored ids carry those ids, and their author and schedule are in the store |
| Store.Db.InsertUser | src/main/java/org/example/ch3schedulerprojectreview/user/service/UserService.java:34 | the user gets the next IDENTITY id, which was free; exactly that row is added and the unique email constraint is kept |
| Store.Db.InsertSchedule | src/main/java/org/example/ch3schedulerprojectreview/schedule/service/ScheduleService.java:44 | the schedule gets the next IDENTITY id, which was free; exactly that row is added |
| Store.Db.InsertComment | src/main/java/org/example/ch3schedulerprojectreview/comment/service/CommentService.java:94 | the comment gets the next IDENTITY id, which was free; exactly that row is added |
| Store.Db.DeleteUser | src/main/java/org/example/ch3schedulerprojectreview/user/service/UserService.java:69 | exactly the user row is removed; schedules and comments are untouched and the invariant still holds |
| UserService.ResponseOf | src/main/java/org/example/ch3schedulerprojectreview/user/service/UserService.java:35-40 | the user response: the user's id, email and name |
| UserService.Signup | src/main/java/org/example/ch3schedulerprojectreview/user/service/UserService.java:22-41 | a taken email gives Conflict and changes nothing; otherwise exactly one user is added with the raw request fields; findMe and login then return that user's response |
| UserService.Login | src/main/java/org/example/ch3schedulerprojectreview/user/service/UserService.java:45-61 | NotFound exactly when no user has the email; otherwise the summary of the user with that email |
| UserService.LoginIgnoresPassword | src/main/java/org/example/ch3schedulerprojectreview/user/service/UserService.java:52-60 | the result of login does not depend on the password supplied |
| UserService.Withdraw | src/main/java/org/example/ch3schedulerprojectreview/user/service/UserService.java:65-70 | NotFound for an unknown id; otherwise the row is removed and schedules and comments are unchanged; findMe and login for that user then fail |
| UserService.FindMe | src/main/java/org/example/ch3schedulerprojectreview/user/service/UserService.java:74-85 | NotFound exactly when the id is absent; otherwise that user's id, email and name |
| UserService.UpdateMe | src/main/java/org/example/ch3schedulerprojectreview/user/service/UserService.java:89-104 | NotFound for an unknown id; otherwise password and name are replaced and email and id kept; the response equals what findMe then returns |
| ScheduleService.ResponseOf | src/main/java/org/example/ch3schedulerprojectreview/schedule/service/ScheduleService.java:89-98 | the schedule response: the owner's id, email and name, then the schedule's id, title, content, start and end |
| ScheduleService.Save | src/main/java/org/example/ch3schedulerprojectreview/schedule/service/ScheduleService.java:33-56 | an unknown user gives NotFound and changes nothing; otherwise one new active schedule owned by that user is added with a fresh id, and the response echoes the request and equals what findMe then returns |
| ScheduleService.FindAllMe | src/main/java/org/example/ch3schedulerprojectreview/schedule/service/ScheduleService.java:60-79 | one response per schedule the query returns, in its order; each names a schedule the user owns, and every schedule the user owns is named |
| ScheduleService.Responses | src/main/java/org/example/ch3schedulerprojectreview/schedule/service/ScheduleService.java:62-77 | the loop builds one response per schedule, in the same order, each from that schedule and its owner |
| ScheduleService.OwnedResponses | src/main/java/org/example/ch3schedulerprojectreview/schedule/service/ScheduleService.java:64-77 | responses built one-to-one from the owner query carry the owner's id and cover exactly the user's schedules |
| ScheduleService.FindMe | src/main/java/org/example/ch3schedulerprojectreview/schedule/service/ScheduleService.java:83-99 | NotFound exactly when the id is absent, even for a soft-deleted schedule; otherwise the schedule's id, title, content, start and end, and its owner's id, email and name |
| ScheduleService.UpdateMe | src/main/java/org/example/ch3schedulerprojectreview/schedule/service/ScheduleService.java:103-125 | NotFound for an unknown id; otherwise the four fields are replaced and id and deleted flag kept, whoever calls; the response equals what findMe then returns |
| ScheduleService.DeleteById | src/main/java/org/example/ch3schedulerprojectreview/schedule/service/ScheduleService.java:129-139 | NotFound for an unknown id; success exactly when the password matches the owner's; a mismatch gives Unauthorized and leaves the flag; success marks the schedule deleted |
| ScheduleService.RestoreById | src/main/java/org/example/ch3schedulerprojectreview/schedule/service/ScheduleService.java:143-153 | NotFound for an unknown id; success exactly when the caller owns the schedule; otherwise Unauthorized with the flag unchanged; success clears the deleted flag |
| ScheduleService.DeleteThenRestoreByOwner | src/main/java/org/example/ch3schedulerprojectreview/schedule/service/ScheduleService.java:129-153 | delete with the owner's password, then restore by the owner: both succeed, the schedule is active again and no other schedule has changed |
| CommentService.CommentResponseOf | src/main/java/org/example/ch3schedulerprojectreview/comment/service/CommentService.java:95-112 | the comment response: the schedule's summary, the comment's id and text, and its author's name |
| CommentService.CommentResponses | src/main/java/org/example/ch3schedulerprojectreview/comment/service/CommentService.java:160-179 | one response per comment, in the same order, built from that comment, its author and its schedule |
| CommentService.Save | src/main/java/org/example/ch3schedulerprojectreview/comment/service/CommentService.java:86-113 | the schedule is checked before the user, and each failure changes nothing; on success exactly one active comment is added with that author, schedule and text, and the response carries the schedule's summary |
| CommentService.SaveThenList | src/main/java/org/example/ch3schedulerprojectreview/comment/service/CommentService.java:86-262 | a saved comment then appears both in the author's list and in the schedule's list |
| CommentService.FindAllByUserId | src/main/java/org/example/ch3schedulerprojectreview/comment/service/CommentService.java:157-180 | exactly the stored comments whose author has that id are listed, in ascending id order, each response holding the comment's text, its author's name and its schedule's summary; the user's existence is not checked |
| CommentService.FindAllByScheduleId | src/main/java/org/example/ch3schedulerprojectreview/comment/service/CommentService.java:239-262 | NotFound exactly when the schedule is absent; otherwise exactly the comments on that schedule, in ascending id order, each response holding the comment's text, its author's name and that schedule's summary |
| CommentService.ScheduleListing | src/main/java/org/example/ch3schedulerprojectreview/comment/service/CommentService.java:243-261 | each response listed for a schedule is the response of a stored comment on it, with that schedule's summary, in ascending id order |
| CommentService.ScheduleListingCovers | src/main/java/org/example/ch3schedulerprojectreview/comment/service/CommentService.java:243-261 | every stored comment on the schedule has its response in the listing |
| CommentService.UpdateById | src/main/java/org/example/ch3schedulerprojectreview/comment/service/CommentService.java:321-348 | NotFound for an unknown id; Unauthorized with the text kept when the caller is not the author; otherwise only the text is replaced |
| CommentService.DeleteById | src/main/java/org/example/ch3schedulerprojectreview/comment/service/CommentService.java:392-405 | NotFound for an unknown id; the password is checked before authorship; success exactly when both pass; the deleted flag is set only on success and the text is never changed |
| LoginFilter.SimpleMatchWithoutStar | src/main/java/org/example/ch3schedulerprojectreview/common/filter/auth/LoginFilter.java:55-57 | a pattern without `*` matches exactly the string equal to it |
| LoginFilter.IsWhiteList | src/main/java/org/example/ch3schedulerprojectreview/common/filter/auth/LoginFilter.java:55-57 | a path is whitelisted exactly when it equals one of "/", "/users/signup", "/users/login" |
| LoginFilter.DoFilter | src/main/java/org/example/ch3schedulerprojectreview/common/filter/auth/LoginFilter.java:24-53 | the request reaches the chain exactly when the path is whitelisted or a session holding the login key exists; otherwise 401 is sent |
| LoginFilter.WhiteListIsExact | src/main/java/org/example/ch3schedulerprojectreview/common/filter/auth/LoginFilter.java:21 | the signup path passes without a session; a path below it and an unlisted path do not, even with an empty session |

## Left out

- Controllers, HTTP transport, request validation annotations and the exception handler are not
  modelled. The model's `Error` values stand for the exceptions the services throw, not for HTTP
  statuses. The controllers map the same exception to different statuses, such as 401 for a
  failed login and 409 for a duplicate email.
- Column lengths (email and name 30, title 100, content 200, comment 255) and the non-null
  constraints are not modelled. Strings are unbounded, and absence is ruled out by typing.
- The audit timestamps of `BaseEntity` and the `createdAt`/`modifiedAt` fields of the
  responses are not modelled, because they depend on the clock.
- Pagination and the order of the listings are not modelled.
  - The source leaves the order unspecified. `findByUserUserId` is not declared with an
    ORDER BY, and the comment listings receive an unsorted default page.
  - Ascending primary-key order is the model's own choice. Every query returns all matching rows
    in that order.
  - The soft-delete flag is not filtered, as in the queries the services call.
- Password hashing is not modelled.
  - `PasswordEncoder.matches` is a parameter `matches` of the delete operations, and the
    model states outcomes in terms of its answer.
  - `signup` stores the password as given, while the deletes compare it with `matches`. The
    model does not decide whether such a stored password ever satisfies the real encoder.
- `UserService.Withdraw`: the database's foreign-key reaction to deleting a user with schedules
  or comments is not modelled. The in-memory user object stays reachable from them.
- `CommentService.FindAllByUserId`: the listings, and `ScheduleService.FindAllMe`, still return the
  rows of a withdrawn user. The queries match on the stored user id alone, while the SQL joins the
  `user` table, so a missing user row would give no rows.
- The user entity's `deleted` column is not modelled, because no service method ever sets it.
- `LoginFilter.SimpleMatch`: `PatternMatchUtils.simpleMatch` is library code that is not part of
  this model. It is modelled by its documented meaning, where `*` matches any run of characters.
- The session's inactivity timeout, logging, and the filter registration are not modelled.
- Transactions and concurrency are not modelled: every service call is atomic.
- `Long` overflow of the IDENTITY counters is not modelled, because ids are unbounded integers.
- Getters are plain field reads, so they have no members of their own. `doFilter` only reads the
  session, because `LoginFilter.DoFilter` is a function. Applying `updateUser` or
  `updateSchedule` twice with the same arguments is the same as applying it once, because their
  contracts fix the new state from the arguments alone.
