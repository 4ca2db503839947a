/** The two account records of the program, its error codes, and the
    runtime failures a transaction can end with. */
module Accounts {
  import opened Numerics
  import opened Addresses

  /** Bytes reserved for `name` by `#[max_len(64)]`. */
  const MAX_NAME_LEN: nat := 64

  /** An event. `name` is the UTF-8 bytes of the Rust `String`; `lat` and
      `lng` are degrees scaled by 10^6. */
  datatype Event = Event(
    organizer: Pubkey,
    name: seq<byte>,
    lat: i64,
    lng: i64,
    radiusMeters: u32,
    startsAt: i64,
    endsAt: i64,
    attendeeCount: u32)

  /** One attendee's check-in record for one event. */
  datatype Attendance = Attendance(
    attendee: Pubkey,
    event: Address,
    isCheckedIn: bool,
    checkedInAt: i64)

  /** A freshly allocated `init` account: every field zeroed. */
  function FreshAttendance(): (a: Attendance)
    ensures !a.isCheckedIn
  {
    Attendance(ZeroBytes(), ZeroBytes(), false, 0)
  }

  /** The program's own `ErrorCode`. */
  datatype ErrorCode = EventNotActive | AlreadyCheckedIn | OutOfRange

  /** Why a transaction fails: a program error, or one raised by the
      account plumbing or the arithmetic around the handler. */
  datatype Error =
    | Program(code: ErrorCode)
      /** `init` on an address that already holds an account. */
    | AccountAlreadyInUse
      /** The `event` account passed to `check_in` does not exist. */
    | AccountNotInitialized
      /** The `event` account passed to `check_in` is not an Event. */
    | AccountDiscriminatorMismatch
      /** The record does not fit the space `init` allocated for it. */
    | AccountDidNotSerialize
      /** An overflow-checked integer operation panicked. */
    | ArithmeticOverflow

  datatype Result<+T> = Ok(value: T) | Err(error: Error)
}
