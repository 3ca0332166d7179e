/** Types shared by the entities, the store and the services. */
module Common {

  /** Which lookup failed; the source throws a not-found exception with a message naming it. */
  datatype Missing = NoUser | NoSchedule | NoComment

  /** Why an authorised operation was refused; the source throws an unauthorized exception
      whose message names the failed check. */
  datatype Denial = BadPassword | NotOwner

  /** The typed failures a service call ends with. Each service call runs in one transaction,
      so a failure leaves the store as it was. */
  datatype Error =
    | NotFound(missing: Missing)
    | Unauthorized(denial: Denial)
    | Conflict   // duplicate email at signup

  /** Outcome of a service call that returns a value. */
  datatype Result<T> = Ok(value: T) | Err(error: Error)

  /** Outcome of a service call that returns nothing (`void` in the source). */
  datatype Outcome = Done | Fail(error: Error)

  /** A `LocalDateTime`, kept opaque: the core only stores and echoes it. */
  type DateTime = int

  /** `PasswordEncoder.matches(raw, encoded)`, a BCrypt check the model cannot see: every
      operation that uses it takes it as a parameter and is proved for any such function. */
  type Matcher = (string, string) -> bool

  /** Stand-in for the null id of an entity that the store has not saved yet;
      the store hands out ids from 1 upwards, as an IDENTITY column does. */
  const UNSAVED: int := 0
}
