/**
 * Values shared by every component: nullable references, the two exception
 * kinds the services throw (plus the one the date library throws), and Java's
 * integer division, which truncates toward zero.
 */
module Common {

  /** A Java reference that may be null. */
  datatype Option<+T> = None | Some(value: T)

  /** The entity named by a ResourceNotFoundException. */
  datatype Entity = EmployeEntity | DepartementEntity | ManagerEntity | PresenceEntity

  /** The business rule a BadRequestException reports (its message, as a kind). */
  datatype Reason =
    | DuplicateEmail
    | NonPositiveSalary
    | OverBudget
    | DuplicateName
    | ManagerOutsideDepartement
    | HasEmployes
    | HasPresences
    | AlreadyClockedIn
    | AlreadyCompleted
    | AlreadyClockedOut
    | DepartBeforeArrivee

  /** The exceptions a service operation can end with. */
  datatype Error =
    | NotFound(entity: Entity)
    | BadRequest(reason: Reason)
    | InvalidDate   // DateTimeException from LocalDate.of

  /** The outcome of a service call: its return value or the exception it throws. */
  datatype Result<+T> = Ok(value: T) | Err(error: Error)

  /** Java's `a / b` on long: the quotient truncated toward zero. */
  function JavaDiv(a: int, b: int): (q: int)
    requires b > 0
    ensures a >= 0 ==> q * b <= a < q * b + b
    ensures a < 0 ==> q * b - b < a <= q * b
  {
    if a >= 0 then a / b else -((-a) / b)
  }

  /** Java's `a % b` on long: the remainder takes the sign of the dividend. */
  function JavaRem(a: int, b: int): (r: int)
    requires b > 0
    ensures JavaDiv(a, b) * b + r == a
    ensures a >= 0 ==> 0 <= r < b
    ensures a < 0 ==> -b < r <= 0
  {
    a - JavaDiv(a, b) * b
  }
}
