/** The ledger program: the `create_event` and `check_in` instructions over
    the program's accounts. A transaction that ends in an error is rolled
    back by the runtime, so every failing instruction leaves the ledger as it
    was. The clock is the parameter `now`. */
module ProofOfPresence {
  import opened Numerics
  import opened Addresses
  import opened Accounts
  import opened Geofence

  /** The check-in window, inclusive at both ends. */
  predicate IsActive(event: Event, now: i64) {
    event.startsAt <= now <= event.endsAt
  }

  /** Both ends of a non-empty window are inside it, and the instants just
      outside it are not. */
  lemma WindowEndsInclusive(event: Event)
    requires event.startsAt <= event.endsAt
    ensures IsActive(event, event.startsAt) && IsActive(event, event.endsAt)
    ensures event.startsAt > I64_MIN ==> !IsActive(event, event.startsAt - 1)
    ensures event.endsAt < I64_MAX ==> !IsActive(event, event.endsAt + 1)
  {
  }

  /** The handler of `check_in`, run on the in-memory copies of the `event`
      and `attendance` accounts; on success it returns the copies that the
      runtime then writes back. The checks run in the program's order: the
      window, the double check-in guard, the distance (whose arithmetic may
      overflow), and finally the overflow-checked counter increment. */
  function CheckInHandler(event: Event, eventKey: Address, attendance: Attendance, attendee: Pubkey,
                          now: i64, userLat: i64, userLng: i64): (r: Result<(Event, Attendance)>)
    ensures r == Err(Program(EventNotActive)) <==> !IsActive(event, now)
    ensures r == Err(Program(AlreadyCheckedIn)) <==> IsActive(event, now) && attendance.isCheckedIn
    ensures IsActive(event, now) && !attendance.isCheckedIn && CheckGeofence(event, userLat, userLng).Err? ==>
              r == Err(CheckGeofence(event, userLat, userLng).error)
    ensures && IsActive(event, now)
            && !attendance.isCheckedIn
            && CheckGeofence(event, userLat, userLng).Ok?
            && event.attendeeCount == U32_MAX
            ==> r == Err(ArithmeticOverflow)
    ensures r.Ok? <==>
              && IsActive(event, now)
              && !attendance.isCheckedIn
              && CheckGeofence(event, userLat, userLng).Ok?
              && event.attendeeCount < U32_MAX
    ensures r.Ok? ==> r.value.0 == event.(attendeeCount := event.attendeeCount + 1)
    ensures r.Ok? ==> r.value.1 == Attendance(attendee, eventKey, true, now)
  {
    if !(now >= event.startsAt && now <= event.endsAt) then
      Err(Program(EventNotActive))
    else if attendance.isCheckedIn then
      Err(Program(AlreadyCheckedIn))
    else
      match CheckGeofence(event, userLat, userLng)
      case Err(e) => Err(e)
      case Ok(_) =>
        var recorded := attendance.(attendee := attendee, event := eventKey, isCheckedIn := true, checkedInAt := now);
        if event.attendeeCount == U32_MAX then Err(ArithmeticOverflow)
        else Ok((event.(attendeeCount := event.attendeeCount + 1), recorded))
  }

  /** The addresses of the checked-in attendance records of one event. */
  ghost function CheckedInAt(attendances: map<Address, Attendance>, eventKey: Address): set<Address> {
    set k | k in attendances && attendances[k].event == eventKey && attendances[k].isCheckedIn
  }

  /** Adding a record under a new address adds one to the checked-in count
      of its event when it is checked in, and changes no other count. */
  lemma CheckedInAtInsert(attendances: map<Address, Attendance>, key: Address, a: Attendance, eventKey: Address)
    requires key !in attendances
    ensures |CheckedInAt(attendances[key := a], eventKey)| ==
            |CheckedInAt(attendances, eventKey)| + (if a.event == eventKey && a.isCheckedIn then 1 else 0)
  {
    var before, after := CheckedInAt(attendances, eventKey), CheckedInAt(attendances[key := a], eventKey);
    if a.event == eventKey && a.isCheckedIn {
      assert after == before + {key};
    } else {
      assert after == before;
    }
  }

  /** Every record sits at the address derived from its own fields, every
      attendance belongs to an existing event and is checked in, and each
      event's `attendeeCount` is the number of its checked-in records. */
  ghost predicate ValidLedger(events: map<Address, Event>, attendances: map<Address, Attendance>) {
    && (forall k | k in events :: k == EventAddress(events[k].organizer, events[k].name))
    && (forall k | k in attendances ::
          && k == AttendanceAddress(attendances[k].event, attendances[k].attendee)
          && attendances[k].event in events
          && attendances[k].isCheckedIn)
    && (forall e | e in events :: events[e].attendeeCount == |CheckedInAt(attendances, e)|)
  }

  /** In a valid ledger no attendance sits at an event's address, and no
      event at an attendance's address. */
  lemma AddressKindsDisjoint(events: map<Address, Event>, attendances: map<Address, Attendance>,
                             organizer: Pubkey, name: seq<byte>, eventKey: Address, attendee: Pubkey)
    requires ValidLedger(events, attendances)
    ensures EventAddress(organizer, name) !in attendances
    ensures AttendanceAddress(eventKey, attendee) !in events
  {
    forall k | k in attendances ensures k != EventAddress(organizer, name) {
      EventAttendanceDisjoint(organizer, name, attendances[k].event, attendances[k].attendee);
    }
    forall k | k in events ensures k != AttendanceAddress(eventKey, attendee) {
      EventAttendanceDisjoint(events[k].organizer, events[k].name, eventKey, attendee);
    }
  }

  /** Adding a new event with a zero count at its derived address keeps the
      ledger valid. */
  lemma CreateEventPreservesValid(events: map<Address, Event>, attendances: map<Address, Attendance>, event: Event)
    requires ValidLedger(events, attendances)
    requires EventAddress(event.organizer, event.name) !in events
    requires event.attendeeCount == 0
    ensures ValidLedger(events[EventAddress(event.organizer, event.name) := event], attendances)
  {
  }

  /** Recording a new checked-in attendance and incrementing its event's
      count keeps the ledger valid. */
  lemma CheckInPreservesValid(events: map<Address, Event>, attendances: map<Address, Attendance>,
                              eventKey: Address, attendee: Pubkey, now: i64)
    requires ValidLedger(events, attendances)
    requires eventKey in events && events[eventKey].attendeeCount < U32_MAX
    requires AttendanceAddress(eventKey, attendee) !in attendances
    ensures ValidLedger(
              events[eventKey := events[eventKey].(attendeeCount := events[eventKey].attendeeCount + 1)],
              attendances[AttendanceAddress(eventKey, attendee) := Attendance(attendee, eventKey, true, now)])
  {
    var key, recorded := AttendanceAddress(eventKey, attendee), Attendance(attendee, eventKey, true, now);
    forall e | e in events ensures
      |CheckedInAt(attendances[key := recorded], e)| == |CheckedInAt(attendances, e)| + (if e == eventKey then 1 else 0)
    {
      CheckedInAtInsert(attendances, key, recorded, e);
    }
  }

  /** The program's accounts: Event records and Attendance records, each
      under its derived address. */
  class Ledger {
    var events: map<Address, Event>
    var attendances: map<Address, Attendance>

    ghost predicate Valid()
      reads this
    {
      ValidLedger(events, attendances)
    }

    /** An empty ledger. */
    constructor ()
      ensures Valid()
      ensures events == map[] && attendances == map[]
    {
      events := map[];
      attendances := map[];
    }

    /** `create_event`: `init` the Event at the address derived from
        (organizer, name), set every field from the arguments with
        `attendeeCount = 0`, and write it back, which fails when the name
        exceeds the 64 bytes reserved for it. */
    method CreateEvent(organizer: Pubkey, name: seq<byte>, lat: i64, lng: i64, radiusMeters: u32,
                       startsAt: i64, endsAt: i64) returns (r: Result<()>)
      requires Valid()
      modifies this
      ensures Valid()
      ensures r == Err(AccountAlreadyInUse) <==> EventAddress(organizer, name) in old(events)
      ensures r == Err(AccountDidNotSerialize) <==>
                EventAddress(organizer, name) !in old(events) && |name| > MAX_NAME_LEN
      ensures r.Ok? || r == Err(AccountAlreadyInUse) || r == Err(AccountDidNotSerialize)
      ensures r.Ok? ==> events == old(events)[EventAddress(organizer, name) :=
                                   Event(organizer, name, lat, lng, radiusMeters, startsAt, endsAt, 0)]
      ensures r.Err? ==> events == old(events)
      ensures attendances == old(attendances)
    {
      var key := EventAddress(organizer, name);
      AddressKindsDisjoint(events, attendances, organizer, name, key, organizer);
      if key in events || key in attendances {
        return Err(AccountAlreadyInUse);
      }
      var event := Event(organizer, name, lat, lng, radiusMeters, startsAt, endsAt, 0);
      if |event.name| > MAX_NAME_LEN {
        return Err(AccountDidNotSerialize);
      }
      CreateEventPreservesValid(events, attendances, event);
      events := events[key := event];
      r := Ok(());
    }

    /** `check_in`: load the Event at `eventKey`, `init` the Attendance at the
        address derived from (eventKey, attendee), run the handler on the
        fresh record, and write both records back on success. */
    method CheckIn(attendee: Pubkey, eventKey: Address, now: i64, userLat: i64, userLng: i64)
      returns (r: Result<()>)
      requires Valid()
      modifies this
      ensures Valid()
      ensures eventKey !in old(events) ==>
                r == if eventKey in old(attendances) then Err(AccountDiscriminatorMismatch)
                     else Err(AccountNotInitialized)
      ensures eventKey in old(events) && AttendanceAddress(eventKey, attendee) in old(attendances) ==>
                r == Err(AccountAlreadyInUse)
      ensures eventKey in old(events) && AttendanceAddress(eventKey, attendee) !in old(attendances) ==>
                var h := CheckInHandler(old(events)[eventKey], eventKey, FreshAttendance(), attendee,
                                        now, userLat, userLng);
                (r.Ok? <==> h.Ok?) && (h.Err? ==> r == Err(h.error))
      ensures r != Err(Program(AlreadyCheckedIn))
      ensures r.Err? ==> events == old(events) && attendances == old(attendances)
      ensures r.Ok? ==>
                && eventKey in old(events)
                && IsActive(old(events)[eventKey], now)
                && AttendanceAddress(eventKey, attendee) !in old(attendances)
                && attendances == old(attendances)[AttendanceAddress(eventKey, attendee) :=
                                                   Attendance(attendee, eventKey, true, now)]
                && events == old(events)[eventKey :=
                                         old(events)[eventKey].(attendeeCount := old(events)[eventKey].attendeeCount + 1)]
      ensures forall k | k in old(attendances) :: k in attendances && attendances[k] == old(attendances)[k]
    {
      if eventKey !in events {
        if eventKey in attendances {
          return Err(AccountDiscriminatorMismatch);
        }
        return Err(AccountNotInitialized);
      }
      var event := events[eventKey];
      var key := AttendanceAddress(eventKey, attendee);
      AddressKindsDisjoint(events, attendances, event.organizer, event.name, eventKey, attendee);
      if key in events || key in attendances {
        return Err(AccountAlreadyInUse);
      }
      var attendance := FreshAttendance();
      var outcome := CheckInHandler(event, eventKey, attendance, attendee, now, userLat, userLng);
      match outcome {
        case Err(e) =>
          return Err(e);
        case Ok((updated, recorded)) =>
          CheckInPreservesValid(events, attendances, eventKey, attendee, now);
          events := events[eventKey := updated];
          attendances := attendances[key := recorded];
          return Ok(());
      }
    }
  }

  /** Replay protection: of two check-ins by the same attendee at the same
      event, at most one succeeds, and the event's count rises by exactly the
      number that did. */
  method CheckInTwice(ledger: Ledger, attendee: Pubkey, eventKey: Address,
                      now1: i64, lat1: i64, lng1: i64, now2: i64, lat2: i64, lng2: i64)
    returns (first: Result<()>, second: Result<()>)
    requires ledger.Valid()
    modifies ledger
    ensures ledger.Valid()
    ensures !(first.Ok? && second.Ok?)
    ensures first.Ok? ==> second == Err(AccountAlreadyInUse)
    ensures eventKey in old(ledger.events) ==>
              && eventKey in ledger.events
              && ledger.events[eventKey].attendeeCount ==
                 old(ledger.events[eventKey].attendeeCount) + (if first.Ok? || second.Ok? then 1 else 0)
  {
    first := ledger.CheckIn(attendee, eventKey, now1, lat1, lng1);
    second := ledger.CheckIn(attendee, eventKey, now2, lat2, lng2);
  }
}

/** Worked examples of both instructions on a fresh ledger, checked by the
    verifier: an event centred on (12.345678°, 12.345678°) with a 500 m
    radius, open from ten seconds before `Now` until a thousand seconds
    after. */
module Scenarios {
  import opened Numerics
  import opened Addresses
  import opened Accounts
  import opened Geofence
  import opened ProofOfPresence

  const Now: i64 := 1_700_000_000
  const Center: i64 := 12_345_678
  const Meetup: seq<byte> := [77, 101, 101, 116, 117, 112]   // "Meetup"

  method Setup(organizer: Pubkey) returns (ledger: Ledger, key: Address)
    ensures fresh(ledger) && ledger.Valid()
    ensures key == EventAddress(organizer, Meetup)
    ensures ledger.events == map[key := Event(organizer, Meetup, Center, Center, 500, Now - 10, Now + 1000, 0)]
    ensures ledger.attendances == map[]
  {
    ledger := new Ledger();
    var created := ledger.CreateEvent(organizer, Meetup, Center, Center, 500, Now - 10, Now + 1000);
    key := EventAddress(organizer, Meetup);
    assert created.Ok?;
  }

  /** Creating the same (organizer, name) twice hits the existing account and
      leaves the first event as it was. */
  method DuplicateEvent(organizer: Pubkey) {
    var ledger, key := Setup(organizer);
    var again := ledger.CreateEvent(organizer, Meetup, 0, 0, 1, 0, 1);
    assert again == Err(AccountAlreadyInUse);
    assert ledger.events[key].radiusMeters == 500;
  }

  /** A check-in at the centre succeeds; repeating it is refused by the
      allocation of the attendance record, not by the double check-in guard. */
  method CheckInThenReplay(organizer: Pubkey, alice: Pubkey) {
    var ledger, key := Setup(organizer);
    assert CheckGeofence(ledger.events[key], Center, Center).Ok?;
    var first := ledger.CheckIn(alice, key, Now, Center, Center);
    assert first.Ok?;
    assert ledger.events[key].attendeeCount == 1;
    assert AttendanceAddress(key, alice) in ledger.attendances;
    assert ledger.attendances[AttendanceAddress(key, alice)].isCheckedIn;
    assert key in ledger.events;
    var replay := ledger.CheckIn(alice, key, Now + 1, Center, Center);
    assert replay == Err(AccountAlreadyInUse);
    assert ledger.events[key].attendeeCount == 1;
  }

  /** Far away in both coordinates: out of range, nothing recorded. */
  method FarAway(organizer: Pubkey, bob: Pubkey) {
    var ledger, key := Setup(organizer);
    var far := ledger.CheckIn(bob, key, Now, 99_999_999, 99_999_999);
    assert far == Err(Program(OutOfRange));
    assert ledger.events[key].attendeeCount == 0 && ledger.attendances == map[];
  }

  /** On the event's meridian but some 9,700 km north: accepted. */
  method SameMeridian(organizer: Pubkey, bob: Pubkey) {
    var ledger, key := Setup(organizer);
    var north := ledger.CheckIn(bob, key, Now, 99_999_999, Center);
    assert north.Ok?;
    assert ledger.events[key].attendeeCount == 1;
  }

  /** One second before the window opens: not active, nothing recorded. */
  method BeforeWindow(organizer: Pubkey, alice: Pubkey) {
    var ledger, key := Setup(organizer);
    var early := ledger.CheckIn(alice, key, Now - 11, Center, Center);
    assert early == Err(Program(EventNotActive));
    assert ledger.attendances == map[];
  }

  /** The last second of the window is still accepted. */
  method ClosingSecond(organizer: Pubkey, alice: Pubkey) {
    var ledger, key := Setup(organizer);
    assert CheckGeofence(ledger.events[key], Center, Center).Ok?;
    var last := ledger.CheckIn(alice, key, Now + 1000, Center, Center);
    assert last.Ok?;
  }
}
