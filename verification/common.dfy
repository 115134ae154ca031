/** Values shared by every service of the model: Java's nullable references,
    the exceptions the services raise, the clock, and Java's 32-bit `int`. */
module Common {

  /** A Java reference that may be null: `None` is null. */
  datatype Option<+T> = None | Some(value: T)

  /** A point in time as a `java.util.Date` holds it: milliseconds since the epoch. */
  type Time = int

  /** Which check rejected the call; one case per message the services raise. */
  datatype Reason =
    | IdRequired          // "please enter an id"
    | PasswordRequired    // "please enter a password"
    | TelRequired         // "please enter a phone number"
    | TelInvalid          // "check the phone number you entered"
    | SexRequired         // "please enter a sex"
    | AlreadyJoined       // "this user is already registered"
    | NotJoined           // "this user has not joined"
    | WrongPassword       // "the password is wrong"
    | LoginRequired       // "please log in first"
    | MediaRequired       // "please attach a video or an image"

  /** The response codes a `CustomException` carries. */
  datatype ResponseCode = ArgumnetError

  /** The exceptions the core raises, by Java class. */
  datatype Exception =
    | IllegalArgument(reason: Reason)
    | IllegalAccess(reason: Reason)
    | CustomException(code: ResponseCode, reason: Reason)
    | ClassCast(key: string)

  /** A call that returns a value or throws. */
  datatype Result<+T> = Success(value: T) | Failure(error: Exception)

  /** Java's `s == null || "".equals(s)`. */
  predicate IsNullOrEmpty(s: Option<string>)
  {
    s.None? || s.value == ""
  }

  /** `StringUtils.isNotEmpty`: not null and at least one character. */
  predicate IsNotEmpty(s: Option<string>)
  {
    s.Some? && |s.value| > 0
  }

  const INT32_MIN: int := -0x8000_0000
  const INT32_MAX: int := 0x7fff_ffff

  /** Java's `int`. */
  type Int32 = x: int | INT32_MIN <= x <= INT32_MAX

  /** Java's `x + 1` on an `int`: wraps from the largest value to the smallest. */
  function Inc32(x: Int32): (r: Int32)
    ensures (r - x - 1) % 0x1_0000_0000 == 0
    ensures x < INT32_MAX ==> r > x
  {
    if x == INT32_MAX then INT32_MIN else x + 1
  }

  /** Below the largest `int`, the Java increment is the mathematical one. */
  lemma Inc32NoWrap(x: Int32)
    requires x < INT32_MAX
    ensures Inc32(x) == x + 1
  {
    assert INT32_MIN <= Inc32(x) <= INT32_MAX;
  }
}
