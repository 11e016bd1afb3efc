/** The conflict checks of vehicle-service/database/vehicle_queries.go as pure predicates over
    the bookings table, the no-overlap invariant, and the facts the store's proofs rest on. */
module Conflicts {
  import opened Models

  /** The bookings table, keyed by booking id. */
  type BookingTable = map<int, Booking>

  /** The three-clause condition of both conflict queries, for an existing row `[s, e]` and a
      requested interval `[newStart, newEnd]`: the existing row straddles the new end, or
      straddles the new start, or lies inside the new interval. */
  predicate OverlapClause(s: Instant, e: Instant, newStart: Instant, newEnd: Instant) {
    || (s < newEnd && e > newEnd)
    || (s < newStart && e > newStart)
    || (s >= newStart && e <= newEnd)
  }

  /** Strict overlap of `[s1, e1]` and `[s2, e2]`: intervals that only touch do not overlap. */
  predicate StrictOverlap(s1: Instant, e1: Instant, s2: Instant, e2: Instant) {
    s1 < e2 && s2 < e1
  }

  /** The query never misses a strictly overlapping row, whatever the intervals look like. */
  lemma OverlapClauseCoversStrictOverlap(s: Instant, e: Instant, newStart: Instant, newEnd: Instant)
    ensures StrictOverlap(s, e, newStart, newEnd) ==> OverlapClause(s, e, newStart, newEnd)
  {
  }

  /** For a proper existing interval and a request the handlers admit (start not after end),
      the query matches exactly the strictly overlapping rows. */
  lemma OverlapClauseIsStrictOverlap(s: Instant, e: Instant, newStart: Instant, newEnd: Instant)
    requires s < e && newStart <= newEnd
    ensures OverlapClause(s, e, newStart, newEnd) <==> StrictOverlap(s, e, newStart, newEnd)
  {
  }

  /** Back-to-back intervals never match. */
  lemma BackToBackNeverMatches(s: Instant, e: Instant, newStart: Instant, newEnd: Instant)
    requires s < e && newStart <= newEnd
    requires e == newStart || newEnd == s
    ensures !OverlapClause(s, e, newStart, newEnd)
  {
  }

  /** Without `s < e` the two differ: a zero-length row at the new start matches the third
      clause although it does not strictly overlap anything. */
  lemma ZeroLengthRowMatchesAtNewStart(s: Instant, newEnd: Instant)
    requires s <= newEnd
    ensures OverlapClause(s, s, s, newEnd) && !StrictOverlap(s, s, s, newEnd)
  {
  }

  predicate IsActive(st: Status) {
    st == Confirmed || st == Modified
  }

  /** The rows CreateBooking's query returns: `confirmed` rows of the vehicle matching the clause. */
  function CreateConflicts(bookings: BookingTable, vehicleId: int, start: Instant, end: Instant): set<int> {
    set id | id in bookings
      && bookings[id].vehicleId == vehicleId
      && bookings[id].status == Confirmed
      && OverlapClause(bookings[id].start, bookings[id].end, start, end)
  }

  /** The rows ModifyBooking's query counts: `confirmed` or `modified` rows of the booking's own
      vehicle, other than the booking itself. An unknown id selects a NULL vehicle, so nothing. */
  function ModifyConflicts(bookings: BookingTable, bookingId: int, start: Instant, end: Instant): set<int> {
    if bookingId !in bookings then {}
    else
      set id | id in bookings
        && id != bookingId
        && bookings[id].vehicleId == bookings[bookingId].vehicleId
        && IsActive(bookings[id].status)
        && OverlapClause(bookings[id].start, bookings[id].end, start, end)
  }

  /** The corrected create query: active (`confirmed` or `modified`) rows of the vehicle. */
  function ActiveConflicts(bookings: BookingTable, vehicleId: int, start: Instant, end: Instant): set<int> {
    set id | id in bookings
      && bookings[id].vehicleId == vehicleId
      && IsActive(bookings[id].status)
      && OverlapClause(bookings[id].start, bookings[id].end, start, end)
  }

  /** Of the rows with a status in `statuses`, no two on the same vehicle strictly overlap. */
  ghost predicate NoOverlapAmong(bookings: BookingTable, statuses: set<Status>) {
    forall i, j ::
      i in bookings && j in bookings && i != j
      && bookings[i].status in statuses && bookings[j].status in statuses
      && bookings[i].vehicleId == bookings[j].vehicleId
      ==> !StrictOverlap(bookings[i].start, bookings[i].end, bookings[j].start, bookings[j].end)
  }

  /** The invariant the source maintains: `confirmed` bookings of a vehicle never overlap. */
  ghost predicate ConfirmedDisjoint(bookings: BookingTable) {
    NoOverlapAmong(bookings, {Confirmed})
  }

  /** Active (`confirmed` or `modified`) bookings of a vehicle never overlap: the property the
      modify query's check over both statuses guards. */
  ghost predicate ActiveDisjoint(bookings: BookingTable) {
    NoOverlapAmong(bookings, {Confirmed, Modified})
  }

  /** Writing row `b` under key `n` keeps the invariant when no other row it would now be
      compared with matches the query's clause. */
  lemma {:induction false} UpdatePreservesNoOverlap(bookings: BookingTable, n: int, b: Booking, statuses: set<Status>)
    requires NoOverlapAmong(bookings, statuses)
    requires b.status in statuses ==>
      forall id :: id in bookings && id != n && bookings[id].status in statuses
        && bookings[id].vehicleId == b.vehicleId
        ==> !OverlapClause(bookings[id].start, bookings[id].end, b.start, b.end)
    ensures NoOverlapAmong(bookings[n := b], statuses)
  {
    var m := bookings[n := b];
    forall i, j | i in m && j in m && i != j
      && m[i].status in statuses && m[j].status in statuses
      && m[i].vehicleId == m[j].vehicleId
      ensures !StrictOverlap(m[i].start, m[i].end, m[j].start, m[j].end)
    {
      if i == n {
        OverlapClauseCoversStrictOverlap(m[j].start, m[j].end, b.start, b.end);
      } else if j == n {
        OverlapClauseCoversStrictOverlap(m[i].start, m[i].end, b.start, b.end);
      }
    }
  }

  /** A table change that only alters rows by moving them out of `statuses` keeps the invariant. */
  lemma ShrinkPreservesNoOverlap(bookings: BookingTable, after: BookingTable, statuses: set<Status>)
    requires NoOverlapAmong(bookings, statuses)
    requires after.Keys <= bookings.Keys
    requires forall id :: id in after && after[id].status in statuses ==> after[id] == bookings[id]
    ensures NoOverlapAmong(after, statuses)
  {
  }

  /** Create's query only reads the `confirmed` rows of the requested vehicle: two tables that
      agree on those rows give the same answer. */
  lemma CreateConflictsReadOnlyConfirmedRowsOfVehicle(a: BookingTable, b: BookingTable, vehicleId: int, start: Instant, end: Instant)
    requires forall id :: id in a && a[id].vehicleId == vehicleId && a[id].status == Confirmed ==> id in b && b[id] == a[id]
    requires forall id :: id in b && b[id].vehicleId == vehicleId && b[id].status == Confirmed ==> id in a && a[id] == b[id]
    ensures CreateConflicts(a, vehicleId, start, end) == CreateConflicts(b, vehicleId, start, end)
  {
    var ca, cb := CreateConflicts(a, vehicleId, start, end), CreateConflicts(b, vehicleId, start, end);
    assert forall id :: id in ca ==> id in cb;
    assert forall id :: id in cb ==> id in ca;
  }

  /** The bookings the expiry sweep selects: `confirmed` and ended strictly before `now`. */
  predicate Expired(b: Booking, now: Instant) {
    b.status == Confirmed && b.end < now
  }

  /** The bookings table after the sweep: each expired booking becomes `completed`. */
  function SweptBookings(bookings: BookingTable, now: Instant): BookingTable {
    map id | id in bookings ::
      if Expired(bookings[id], now) then bookings[id].(status := Completed) else bookings[id]
  }

  /** Some expired booking belongs to vehicle `v`. */
  predicate HasExpiredBooking(bookings: BookingTable, v: int, now: Instant) {
    exists id | id in bookings :: Expired(bookings[id], now) && bookings[id].vehicleId == v
  }

  /** The vehicles table after the sweep: each vehicle with an expired booking becomes available. */
  function SweptVehicles(vehicles: map<int, Vehicle>, bookings: BookingTable, now: Instant): map<int, Vehicle> {
    map v | v in vehicles ::
      if HasExpiredBooking(bookings, v, now) then vehicles[v].(isAvailable := true) else vehicles[v]
  }

  /** The sweep touches exactly the expired bookings: a `modified` booking, or one ending at or
      after `now`, keeps its row, and an expired one keeps every field but its status. */
  lemma {:induction false} SweepChangesOnlyExpired(bookings: BookingTable, now: Instant, id: int)
    requires id in bookings
    ensures id in SweptBookings(bookings, now)
    ensures Expired(bookings[id], now) ==> SweptBookings(bookings, now)[id].status == Completed
    ensures SweptBookings(bookings, now)[id].(status := bookings[id].status) == bookings[id]
    ensures !Expired(bookings[id], now) ==> SweptBookings(bookings, now)[id] == bookings[id]
  {
  }

  /** Nothing is expired after a sweep, so a second sweep with the same `now` changes nothing. */
  lemma {:induction false} SweepIdempotent(vehicles: map<int, Vehicle>, bookings: BookingTable, now: Instant)
    ensures SweptBookings(SweptBookings(bookings, now), now) == SweptBookings(bookings, now)
    ensures SweptVehicles(SweptVehicles(vehicles, bookings, now), SweptBookings(bookings, now), now)
         == SweptVehicles(vehicles, bookings, now)
  {
    var swept := SweptBookings(bookings, now);
    assert forall id :: id in swept ==> !Expired(swept[id], now);
    forall v | v in vehicles ensures !HasExpiredBooking(swept, v, now) {
    }
  }

  /** A sweep that finds no expired booking changes neither table. */
  lemma {:induction false} SweepWithoutExpiredIsIdentity(vehicles: map<int, Vehicle>, bookings: BookingTable, now: Instant)
    requires forall id :: id in bookings ==> !Expired(bookings[id], now)
    ensures SweptBookings(bookings, now) == bookings
    ensures SweptVehicles(vehicles, bookings, now) == vehicles
  {
    var swept := SweptBookings(bookings, now);
    assert swept.Keys == bookings.Keys;
    assert forall id :: id in swept ==> swept[id] == bookings[id];
    forall v | v in vehicles ensures !HasExpiredBooking(bookings, v, now) {
    }
  }

  /** The sweep only moves `confirmed` rows to `completed`, so both invariants survive it. */
  lemma {:induction false} SweepPreservesNoOverlap(bookings: BookingTable, now: Instant, statuses: set<Status>)
    requires Completed !in statuses
    requires NoOverlapAmong(bookings, statuses)
    ensures NoOverlapAmong(SweptBookings(bookings, now), statuses)
  {
    ShrinkPreservesNoOverlap(bookings, SweptBookings(bookings, now), statuses);
  }

  /** The defect of CreateBooking's query: a `modified` booking is not consulted, so a table whose
      active bookings are disjoint admits a new `confirmed` booking on top of it. */
  lemma CreateCheckMissesModifiedBooking()
    ensures var table := map[1 := Booking(1, 7, 3, 10, 12, Modified)];
      && ActiveDisjoint(table)
      && CreateConflicts(table, 3, 10, 12) == {}
      && !ActiveDisjoint(table[2 := Booking(2, 8, 3, 10, 12, Confirmed)])
  {
    var table := map[1 := Booking(1, 7, 3, 10, 12, Modified)];
    var after := table[2 := Booking(2, 8, 3, 10, 12, Confirmed)];
    assert after[1].status in {Confirmed, Modified} && after[2].status in {Confirmed, Modified};
    assert StrictOverlap(after[1].start, after[1].end, after[2].start, after[2].end);
  }

  /** The corrected query: with no active row of the vehicle matching, inserting the new
      `confirmed` booking keeps active bookings (and so confirmed ones) pairwise disjoint. */
  lemma {:induction false} ActiveCheckPreservesActiveDisjoint(bookings: BookingTable, n: int, b: Booking)
    requires ActiveDisjoint(bookings)
    requires n !in bookings && b.status == Confirmed
    requires ActiveConflicts(bookings, b.vehicleId, b.start, b.end) == {}
    ensures ActiveDisjoint(bookings[n := b])
  {
    forall id | id in bookings && id != n && bookings[id].status in {Confirmed, Modified}
      && bookings[id].vehicleId == b.vehicleId
      ensures !OverlapClause(bookings[id].start, bookings[id].end, b.start, b.end)
    {
      assert id !in ActiveConflicts(bookings, b.vehicleId, b.start, b.end);
    }
    UpdatePreservesNoOverlap(bookings, n, b, {Confirmed, Modified});
  }
}
