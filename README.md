# Proof of presence: a Dafny model of the ledger program

The program records that a person was at an event. An organizer creates an
**Event** account: a centre in scaled degrees (degrees × 10^6), a radius in
metres, and a check-in window. An attendee then checks in from a position.
Anchor's `init` allocates the **Attendance** account while it validates the
accounts, before the handler runs. The handler then tests the time against
the window and the position against the geofence. When both pass, the
Attendance account remains and the event's `attendee_count` rises by one;
when either fails, the runtime's rollback removes the account again. Both
accounts live at program-derived addresses. The Event's seeds are
`"event" ‖ organizer ‖ name` and the Attendance's seeds are
`"attendance" ‖ event ‖ attendee`. Anchor's `init` allocates each
account once, which is what makes creation and check-in unique per key.

The model has these modules:

- `Numerics`: the Rust integer widths (`i64`, `u32`, `u64`) written out over
  unbounded integers, plus the overflow-checked `-`, `abs`, `*` and `+` the
  handler uses.
- `Addresses`: seed preimages as byte strings, with domain separation and
  injectivity.
- `Accounts`: the `Event` and `Attendance` records, `ErrorCode`, and the
  runtime failures (`init` on a used address, a missing or wrong-kind
  account, a record that does not fit its space, an arithmetic panic).
- `Geofence`: the distance check in exact integer arithmetic.
- `ProofOfPresence`: the `check_in` handler as a function over the
  in-memory account copies, and the `Ledger` class. The class holds
  `map<Address, Event>` and `map<Address, Attendance>`. Its methods
  `CreateEvent` and `CheckIn` run the account validation, then the handler,
  then the write-back.
- `Scenarios`: worked examples of both instructions on a fresh ledger,
  checked by the verifier.

Every failing instruction leaves both maps unchanged, because the runtime
rolls back a transaction that returns an error. The clock (`Clock::get()`)
is the parameter `now`.

Design decisions:

- The geofence is modelled as written. The squared distance is
  `|Δlat|·|Δlng| + |Δlng|²`, not `|Δlat|² + |Δlng|²`. So a user on the
  event's meridian is accepted at any latitude
  (`Geofence.SameLongitudeAccepted`, `Scenarios.SameMeridian`).
- The floating-point test `sqrt(S) * 0.111 <= radius` is replaced by
  `12321 · S <= 1000000 · radius²`. `Geofence.WithinRadiusIsRealTest` proves
  the two agree over the reals.
- The handler only ever sees a freshly `init`ed Attendance, so its
  `AlreadyCheckedIn` guard (lib.rs:43) never fires. `Ledger.CheckIn` proves
  it never returns that error. A repeated check-in fails earlier, at `init`,
  with `AccountAlreadyInUse`.
- Integer overflow is modelled with overflow checks on. A panic aborts the
  transaction, so it becomes `ArithmeticOverflow` and the ledger is
  unchanged. `Geofence.GeographicInputsDoNotOverflow` shows that
  coordinates within ±180° never overflow.
- The model keeps the code's order and its lack of validation:
  - `check_in` tests the window, then the double check-in guard, then the
    distance;
  - `create_event` validates neither the radius nor the window;
  - a repeated creation or check-in fails at `init` with
    `AccountAlreadyInUse`, never with `AlreadyCheckedIn`.

## Model

| member | source | states |
|---|---|---|
| `Addresses.EventAddress` | proof-of-presence/programs/proof-of-presence/src/lib.rs:67-73 | the Event address is the `"event"` tag followed by the 32-byte organizer and the name, so its length is 37 + the name's length |
| `Addresses.AttendanceAddress` | proof-of-presence/programs/proof-of-presence/src/lib.rs:86-93 | the Attendance address is the `"attendance"` tag followed by the event address and the 32-byte attendee |
| `Addresses.EventAttendanceDisjoint` | proof-of-presence/programs/proof-of-presence/src/lib.rs:71-90 | no Event address equals any Attendance address, because the first bytes of the tags differ |
| `Addresses.EventAddressInjective` | proof-of-presence/programs/proof-of-presence/src/lib.rs:71 | two Event addresses are equal if and only if their organizers and names are equal |
| `Addresses.AttendanceAddressInjective` | proof-of-presence/programs/proof-of-presence/src/lib.rs:90 | two Attendance addresses are equal if and only if their events and attendees are equal |
| `Accounts.FreshAttendance` | proof-of-presence/programs/proof-of-presence/src/lib.rs:86-93 | the record `init` allocates is zeroed, so it is not checked in |
| `ProofOfPresence.WindowEndsInclusive` | proof-of-presence/programs/proof-of-presence/src/lib.rs:40 | the window test `IsActive` accepts both `starts_at` and `ends_at` of a non-empty window, and rejects the second before the start and the second after the end |
| `Numerics.AbsDiff` | proof-of-presence/programs/proof-of-presence/src/lib.rs:46-47 | `(a - b).abs() as u64` succeeds if and only if the difference has magnitude at most i64::MAX, and then yields that magnitude |
| `Geofence.DistanceSquared` | proof-of-presence/programs/proof-of-presence/src/lib.rs:46-50 | built from `AbsDiff` and the checked `*` and `+` (`CheckedMul`, `CheckedAdd`) of lib.rs:46-50: the checked `dlat*dlng + dlng*dlng` succeeds if and only if every step fits in u64, and then equals `|Δlat|·|Δlng| + |Δlng|²` |
| `Geofence.CheckGeofence` | proof-of-presence/programs/proof-of-presence/src/lib.rs:46-51 | the check passes if and only if there is no overflow and `12321 · S <= 10^6 · radius²`; otherwise it fails with `OutOfRange`, or with an arithmetic overflow when a step overflowed |
| `Geofence.WithinRadiusIsRealTest` | proof-of-presence/programs/proof-of-presence/src/lib.rs:50-51 | for the non-negative real root of S, `root * 0.111 <= radius` holds if and only if the integer test holds |
| `Geofence.SameLongitudeAccepted` | proof-of-presence/programs/proof-of-presence/src/lib.rs:46-51 | a user at the event's longitude passes the geofence at any latitude whose difference does not overflow |
| `Geofence.RadiusMonotone` | proof-of-presence/programs/proof-of-presence/src/lib.rs:51 | a position accepted for one radius is accepted for every larger radius |
| `Geofence.GeographicInputsDoNotOverflow` | proof-of-presence/programs/proof-of-presence/src/lib.rs:46-50 | when all coordinates are within ±180·10^6, the distance computation never overflows |
| `ProofOfPresence.CheckInHandler` | proof-of-presence/programs/proof-of-presence/src/lib.rs:36-60 | the result is `EventNotActive` if and only if `now` is outside `[starts_at, ends_at]`; the result is `AlreadyCheckedIn` if and only if the window holds and the record is already checked in; a geofence failure is passed on; when all checks pass but the count is u32::MAX the result is `ArithmeticOverflow` (the checked `+= 1`); success holds if and only if all checks pass and the count is below u32::MAX; on success the count rises by one, the other Event fields are kept, and the record becomes (attendee, event, true, now) |
| `ProofOfPresence.CheckedInAtInsert` | proof-of-presence/programs/proof-of-presence/src/lib.rs:54-58 | adding a record at a new address raises the checked-in count of its own event by one, and of no other event |
| `ProofOfPresence.AddressKindsDisjoint` | proof-of-presence/programs/proof-of-presence/src/lib.rs:67-93 | in a valid ledger, no Attendance is stored at an Event address, and no Event at an Attendance address |
| `ProofOfPresence.CreateEventPreservesValid` | proof-of-presence/programs/proof-of-presence/src/lib.rs:18-26 | adding an Event with count 0 at its own unused derived address keeps every invariant, including count = number of checked-in records |
| `ProofOfPresence.CheckInPreservesValid` | proof-of-presence/programs/proof-of-presence/src/lib.rs:54-58 | recording a checked-in Attendance at a new address and incrementing its event's count keeps every invariant |
| `ProofOfPresence.Ledger.CreateEvent` | proof-of-presence/programs/proof-of-presence/src/lib.rs:9-29 | fails with `AccountAlreadyInUse` if and only if the derived address already holds an Event; fails when the name exceeds 64 bytes; otherwise stores every argument verbatim with count 0 at that address and changes nothing else; on failure nothing changes; the invariant is kept |
| `ProofOfPresence.Ledger.CheckIn` | proof-of-presence/programs/proof-of-presence/src/lib.rs:31-61 | a missing event fails, and so does an already allocated Attendance address; otherwise the outcome is the handler's on a fresh record; `AlreadyCheckedIn` is never returned; failure changes nothing; success adds exactly (attendee, event, true, now) and raises the count by exactly one; existing records never change (so `is_checked_in` never goes back to false); the invariant is kept |
| `ProofOfPresence.CheckInTwice` | proof-of-presence/programs/proof-of-presence/src/lib.rs:86-93 | of two check-ins for the same (event, attendee), at most one succeeds; after a success the second fails at `init`; the event's count rises by exactly the number of successes |

## Left out

- Address derivation hashing: SHA-256, the bump search and the off-curve test are abstracted away. An address is its seed preimage, so hash collisions are not modelled. Both addresses and public keys are 32-byte values in the program; in the model, an Event address is the variable-length preimage.
- The 32-byte limit on each seed: the runtime also rejects names over 32 bytes when it derives the address. The model bounds the name only by the 64 bytes of `#[max_len(64)]`, which are checked when the record is written back.
- The name is the UTF-8 bytes of the Rust `String`. String validity and character-level length are not modelled.
- Floating-point rounding of the `u64 → f64` cast, `sqrt` and `* 0.111` at the radius boundary. The model uses the exact integer test, which is proved equal to the real-number test.
- Overflow without overflow checks: a build with overflow checks off would wrap rather than panic. That build profile is not part of this model.
- `Clock::get()` and its failure: the time is the parameter `now`.
- Anchor account plumbing: rent, the payer's lamports, `space` sizing apart from the name bound, Borsh encoding, discriminators, program ownership and the signer checks. Besides `AccountAlreadyInUse`, `AccountDidNotSerialize` and `ArithmeticOverflow`, only the missing-account and wrong-account-kind errors are modelled.
- The `event` account of `check_in` has no seeds constraint. The model's ledger holds only Events created by `create_event`, so every Event it can pass sits at a derived address.
- The mobile client (screens, GPS, wallet authorization, transaction assembly, its PDA helpers and float scaling), the badge-minting server and Merkle-tree setup, the bundler configuration, and the test scaffold: they are UI, network and file I/O, or foreign calls, and are not part of this model.
