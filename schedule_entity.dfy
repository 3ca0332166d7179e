/** The `schedule` table row, with the fields the schedule service reads and writes. */
module ScheduleEntity {
  import opened Common
  import opened UserEntity

  class Schedule {
    var scheduleId: int
    var title: string
    var content: string
    var startDateTime: DateTime
    var endDateTime: DateTime
    /** The owner; set once at creation and never reassigned. */
    const user: User
    /** Soft-delete flag: true after `softDelete`, false again after `restore`. */
    var deleted: bool

    /** `new Schedule(title, content, start, end, user)`: active, id left for the store. */
    constructor (title: string, content: string, startDateTime: DateTime, endDateTime: DateTime, user: User)
      ensures scheduleId == UNSAVED && !deleted && this.user == user
      ensures this.title == title && this.content == content
      ensures this.startDateTime == startDateTime && this.endDateTime == endDateTime
    {
      scheduleId := UNSAVED;
      this.title := title;
      this.content := content;
      this.startDateTime := startDateTime;
      this.endDateTime := endDateTime;
      this.user := user;
      deleted := false;
    }

    /** Replaces the content fields; the id, the owner and the deleted flag stay as they were. */
    method UpdateSchedule(title: string, content: string, startDateTime: DateTime, endDateTime: DateTime)
      modifies this`title, this`content, this`startDateTime, this`endDateTime
      ensures this.title == title && this.content == content
      ensures this.startDateTime == startDateTime && this.endDateTime == endDateTime
      ensures scheduleId == old(scheduleId) && deleted == old(deleted)
    {
      this.title := title;
      this.content := content;
      this.startDateTime := startDateTime;
      this.endDateTime := endDateTime;
    }

    method SoftDelete()
      modifies this`deleted
      ensures deleted
    {
      deleted := true;
    }

    method Restore()
      modifies this`deleted
      ensures !deleted
    {
      deleted := false;
    }
  }
}
