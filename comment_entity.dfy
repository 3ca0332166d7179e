/** The `comment` table row (Comment.java), with the `deleted` column the service sets. */
module CommentEntity {
  import opened Common
  import opened UserEntity
  import opened ScheduleEntity

  class Comment {
    var id: int
    /** Author and schedule: set once at creation and never reassigned. */
    const user: User
    const schedule: Schedule
    var comment: string
    var deleted: bool

    /** `new Comment(user, schedule, comment)`: active, id left for the store. */
    constructor (user: User, schedule: Schedule, comment: string)
      ensures id == UNSAVED && !deleted
      ensures this.user == user && this.schedule == schedule && this.comment == comment
    {
      id := UNSAVED;
      this.user := user;
      this.schedule := schedule;
      this.comment := comment;
      deleted := false;
    }

    /** Replaces the text only. */
    method UpdateComment(comment: string)
      modifies this`comment
      ensures this.comment == comment
      ensures id == old(id) && deleted == old(deleted)
    {
      this.comment := comment;
    }

    method SoftDelete()
      modifies this`deleted
      ensures deleted
      ensures comment == old(comment)
    {
      deleted := true;
    }
  }
}
