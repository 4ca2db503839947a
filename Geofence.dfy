/** The distance check of `check_in`, in exact integer arithmetic. */
module Geofence {
  import opened Numerics
  import opened Accounts

  /** The squared distance the program computes, in scaled units squared:
      |Δlat|·|Δlng| + |Δlng|², exactly as written (the first term is a
      cross product, not |Δlat|²). */
  function ApproxSquare(dLat: int, dLng: int): nat {
    Abs(dLat) * Abs(dLng) + Abs(dLng) * Abs(dLng)
  }

  /** `sqrt(s) * 0.111 <= radius` without floating point or square root:
      0.111 m per scaled unit is 111/1000, and both sides are non-negative,
      so squaring gives 111² · s <= 1000² · radius². */
  predicate WithinRadius(s: nat, radius: u32) {
    12321 * s <= 1_000_000 * radius * radius
  }

  /** Every overflow-checked step of the distance computation stays in range. */
  predicate Representable(userLat: i64, userLng: i64, lat: i64, lng: i64) {
    var dLat, dLng := Abs(userLat - lat), Abs(userLng - lng);
    && dLat <= I64_MAX
    && dLng <= I64_MAX
    && dLat * dLng <= U64_MAX
    && dLng * dLng <= U64_MAX
    && dLat * dLng + dLng * dLng <= U64_MAX
  }

  /** `dlat * dlng + dlng * dlng` over `u64`, with every step checked. */
  function DistanceSquared(userLat: i64, userLng: i64, lat: i64, lng: i64): (r: Option<u64>)
    ensures r.Some? <==> Representable(userLat, userLng, lat, lng)
    ensures r.Some? ==> r.value == ApproxSquare(userLat - lat, userLng - lng)
  {
    var dLat :- AbsDiff(userLat, lat);
    var dLng :- AbsDiff(userLng, lng);
    var cross :- CheckedMul(dLat, dLng);
    var square :- CheckedMul(dLng, dLng);
    CheckedAdd(cross, square)
  }

  /** The geofence step of `check_in`: it passes exactly when the distance
      computation does not overflow and the distance is within the radius. */
  function CheckGeofence(event: Event, userLat: i64, userLng: i64): (r: Result<()>)
    ensures r.Ok? <==>
      && Representable(userLat, userLng, event.lat, event.lng)
      && WithinRadius(ApproxSquare(userLat - event.lat, userLng - event.lng), event.radiusMeters)
    ensures r.Err? ==> r.error == (if Representable(userLat, userLng, event.lat, event.lng)
                                   then Program(OutOfRange) else ArithmeticOverflow)
  {
    match DistanceSquared(userLat, userLng, event.lat, event.lng)
    case None => Err(ArithmeticOverflow)
    case Some(s) => if WithinRadius(s, event.radiusMeters) then Ok(()) else Err(Program(OutOfRange))
  }

  lemma SquareMonotone(a: real, b: real)
    requires 0.0 <= a && 0.0 <= b
    ensures a <= b <==> a * a <= b * b
  {
    if a <= b {
      assert a * a <= a * b <= b * b;
    } else {
      var d := a - b;
      assert a * a == b * b + d * (a + b);
      assert 0.0 < d * (a + b);
    }
  }

  /** `WithinRadius` is the floating-point test of the program read over the
      reals: for the non-negative square root of `s`,
      `root * 0.111 <= radius` holds exactly when `WithinRadius(s, radius)`. */
  lemma WithinRadiusIsRealTest(s: nat, radius: u32, root: real)
    requires 0.0 <= root && root * root == s as real
    ensures root * 0.111 <= radius as real <==> WithinRadius(s, radius)
  {
    var r := radius as real;
    var a, b := 111.0 * root, 1000.0 * r;
    SquareMonotone(a, b);
    assert a * a == 12321.0 * (s as real);
    assert b * b == 1000000.0 * (r * r);
    assert (12321 * s) as real == 12321.0 * (s as real);
    assert (1_000_000 * radius * radius) as real == 1000000.0 * (r * r);
  }

  /** With the program's formula the distance is zero whenever the user is
      on the event's meridian, so the check passes at any latitude. */
  lemma SameLongitudeAccepted(event: Event, userLat: i64)
    requires Abs(userLat - event.lat) <= I64_MAX
    ensures CheckGeofence(event, userLat, event.lng) == Ok(())
  {
  }

  /** A larger radius never turns an accepted position into a rejected one. */
  lemma RadiusMonotone(event: Event, userLat: i64, userLng: i64, radius: u32)
    requires CheckGeofence(event, userLat, userLng).Ok?
    requires event.radiusMeters <= radius
    ensures CheckGeofence(event.(radiusMeters := radius), userLat, userLng).Ok?
  {
  }

  lemma MulBound(x: nat, y: nat, bound: nat)
    requires x <= bound && y <= bound
    ensures x * y <= bound * bound
  {
  }

  /** Coordinates in the geographic range (|degrees| <= 180, scaled by 10^6)
      never make the distance computation overflow, so the geofence step
      fails only with `OutOfRange` there. */
  lemma GeographicInputsDoNotOverflow(event: Event, userLat: i64, userLng: i64)
    requires Abs(event.lat) <= 180_000_000 && Abs(event.lng) <= 180_000_000
    requires Abs(userLat) <= 180_000_000 && Abs(userLng) <= 180_000_000
    ensures Representable(userLat, userLng, event.lat, event.lng)
    ensures CheckGeofence(event, userLat, userLng) != Err(ArithmeticOverflow)
  {
    var dLat, dLng := Abs(userLat - event.lat), Abs(userLng - event.lng);
    MulBound(dLat, dLng, 360_000_000);
    MulBound(dLng, dLng, 360_000_000);
  }
}
