/** The `user` table row (User.java). */
module UserEntity {
  import opened Common

  class User {
    var userId: int
    var email: string
    var password: string
    var username: string

    /** `new User(email, password, username)`: the id is left for the store to assign. */
    constructor (email: string, password: string, username: string)
      ensures userId == UNSAVED
      ensures this.email == email && this.password == password && this.username == username
    {
      userId := UNSAVED;
      this.email := email;
      this.password := password;
      this.username := username;
    }

    /** Replaces the password and the user name; the email and the id stay as they were. */
    method UpdateUser(password: string, username: string)
      modifies this`password, this`username
      ensures this.password == password && this.username == username
      ensures email == old(email) && userId == old(userId)
    {
      this.password := password;
      this.username := username;
    }
  }
}
