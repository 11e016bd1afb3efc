/** The booking and vehicle tables of vehicle-service/database/vehicle_queries.go as one
    in-memory store. Each SQL transaction is one method: it either commits all its writes or,
    on a rejection or a driver error, leaves both tables as they were. */
module VehicleQueries {
  import opened Wrappers
  import opened Models
  import opened Conflicts

  /** The errors the store operations return. `Storage` stands for any error the SQL driver
      reports (begin, query, insert, update or commit), after which the transaction is rolled back. */
  datatype StoreError =
    | OverlapsWith(start: Instant, end: Instant)  // "time range overlaps with an existing booking from .. to .."
    | OverlapExists                                // "overlapping booking exists"
    | Storage

  /** One entry of the sweep's `updates` list. */
  datatype ExpiredRow = ExpiredRow(bookingId: int, vehicleId: int, endTime: Instant)

  /** One row of the user's booking list: booking columns joined with the vehicle's. */
  datatype UserBookingRow = UserBookingRow(
    bookingId: int,
    userId: int,
    start: Instant,
    end: Instant,
    status: Status,
    make: string,
    model: string,
    registrationNumber: string)

  function JoinRow(b: Booking, v: Vehicle): UserBookingRow {
    UserBookingRow(b.id, b.userId, b.start, b.end, b.status, v.make, v.model, v.registrationNumber)
  }

  /** `r` is a faithful copy of an expired booking's id, vehicle and end. */
  ghost predicate DescribesExpired(r: ExpiredRow, bookings: BookingTable, now: Instant) {
    && r.bookingId in bookings
    && Expired(bookings[r.bookingId], now)
    && r.vehicleId == bookings[r.bookingId].vehicleId
    && r.endTime == bookings[r.bookingId].end
  }

  /** `rows` lists every expired booking, and nothing else. */
  ghost predicate ListsExactlyExpired(rows: seq<ExpiredRow>, bookings: BookingTable, now: Instant) {
    && (forall k :: 0 <= k < |rows| ==> DescribesExpired(rows[k], bookings, now))
    && (forall id :: id in bookings && Expired(bookings[id], now) ==>
          exists k :: 0 <= k < |rows| && rows[k].bookingId == id)
  }

  /** The ids of the bookings listed in `rows`. */
  function BookingIds(rows: seq<ExpiredRow>): set<int> {
    set k | 0 <= k < |rows| :: rows[k].bookingId
  }

  /** The ids of the vehicles listed in `rows`. */
  function VehicleIds(rows: seq<ExpiredRow>): set<int> {
    set k | 0 <= k < |rows| :: rows[k].vehicleId
  }

  /** The bookings table once the rows with ids in `ids` have been updated to `completed`. */
  function MarkCompleted(bookings: BookingTable, ids: set<int>): BookingTable {
    map id | id in bookings :: if id in ids then bookings[id].(status := Completed) else bookings[id]
  }

  /** The vehicles table once the vehicles with ids in `ids` have been updated to available. */
  function MarkAvailable(vehicles: map<int, Vehicle>, ids: set<int>): map<int, Vehicle> {
    map v | v in vehicles :: if v in ids then vehicles[v].(isAvailable := true) else vehicles[v]
  }

  /** One pass of the sweep's update loop extends both sets of updated ids by the next row. */
  lemma MarkStep(bookings: BookingTable, vehicles: map<int, Vehicle>, rows: seq<ExpiredRow>, i: int,
                 txBookings: BookingTable, txVehicles: map<int, Vehicle>)
    requires 0 <= i < |rows|
    requires txBookings == MarkCompleted(bookings, BookingIds(rows[..i]))
    requires txVehicles == MarkAvailable(vehicles, VehicleIds(rows[..i]))
    ensures (if rows[i].bookingId in txBookings
             then txBookings[rows[i].bookingId := txBookings[rows[i].bookingId].(status := Completed)]
             else txBookings) == MarkCompleted(bookings, BookingIds(rows[..i + 1]))
    ensures (if rows[i].vehicleId in txVehicles
             then txVehicles[rows[i].vehicleId := txVehicles[rows[i].vehicleId].(isAvailable := true)]
             else txVehicles) == MarkAvailable(vehicles, VehicleIds(rows[..i + 1]))
  {
    var before, after := rows[..i], rows[..i + 1];
    assert BookingIds(after) == BookingIds(before) + {rows[i].bookingId} by {
      assert forall k :: 0 <= k < i ==> after[k] == before[k];
      assert after[i] == rows[i];
    }
    assert VehicleIds(after) == VehicleIds(before) + {rows[i].vehicleId} by {
      assert forall k :: 0 <= k < i ==> after[k] == before[k];
      assert after[i] == rows[i];
    }
  }

  /** Updating exactly the rows the first loop collected yields the swept tables. */
  lemma MarkedRowsAreSwept(bookings: BookingTable, vehicles: map<int, Vehicle>, rows: seq<ExpiredRow>, now: Instant)
    requires ListsExactlyExpired(rows, bookings, now)
    ensures MarkCompleted(bookings, BookingIds(rows)) == SweptBookings(bookings, now)
    ensures MarkAvailable(vehicles, VehicleIds(rows)) == SweptVehicles(vehicles, bookings, now)
  {
    forall id | id in bookings
      ensures id in BookingIds(rows) <==> Expired(bookings[id], now)
    {
      if id in BookingIds(rows) {
        var k :| 0 <= k < |rows| && rows[k].bookingId == id;
        assert DescribesExpired(rows[k], bookings, now);
      }
      if Expired(bookings[id], now) {
        var k :| 0 <= k < |rows| && rows[k].bookingId == id;
        assert id in BookingIds(rows);
      }
    }
    forall v | v in vehicles
      ensures v in VehicleIds(rows) <==> HasExpiredBooking(bookings, v, now)
    {
      if v in VehicleIds(rows) {
        var k :| 0 <= k < |rows| && rows[k].vehicleId == v;
        assert DescribesExpired(rows[k], bookings, now);
        assert Expired(bookings[rows[k].bookingId], now);
      }
      if HasExpiredBooking(bookings, v, now) {
        var id :| id in bookings && Expired(bookings[id], now) && bookings[id].vehicleId == v;
        var k :| 0 <= k < |rows| && rows[k].bookingId == id;
        assert DescribesExpired(rows[k], bookings, now);
        assert v in VehicleIds(rows);
      }
    }
  }

  /** The ids of the bookings the sweep's query selects. */
  function ExpiredIds(bookings: BookingTable, now: Instant): set<int> {
    set id | id in bookings && Expired(bookings[id], now)
  }

  /** The vehicles of the bookings with ids in `ids`. */
  function VehiclesOf(bookings: BookingTable, ids: set<int>): set<int> {
    set id | id in ids && id in bookings :: bookings[id].vehicleId
  }

  /** `rows` names each booking at most once. */
  predicate DistinctBookings(rows: seq<ExpiredRow>) {
    forall i, j :: 0 <= i < j < |rows| ==> rows[i].bookingId != rows[j].bookingId
  }

  /** A list naming each booking once names as many bookings as it has rows. */
  lemma {:induction false} DistinctBookingsCount(rows: seq<ExpiredRow>)
    requires DistinctBookings(rows)
    ensures |BookingIds(rows)| == |rows|
  {
    if |rows| > 0 {
      var init, last := rows[..|rows| - 1], rows[|rows| - 1];
      assert forall k :: 0 <= k < |init| ==> init[k] == rows[k];
      assert DistinctBookings(init);
      DistinctBookingsCount(init);
      assert BookingIds(rows) == BookingIds(init) + {last.bookingId} by {
        assert forall k :: 0 <= k < |init| ==> rows[k].bookingId in BookingIds(init);
      }
      assert last.bookingId !in BookingIds(init);
    }
  }

  /** Rows copied from expired bookings name only expired bookings, and exactly their vehicles. */
  lemma DescribedRowsAreExpired(rows: seq<ExpiredRow>, bookings: BookingTable, now: Instant)
    requires forall k :: 0 <= k < |rows| ==> DescribesExpired(rows[k], bookings, now)
    ensures BookingIds(rows) <= ExpiredIds(bookings, now)
    ensures VehicleIds(rows) == VehiclesOf(bookings, BookingIds(rows))
  {
    forall v | v in VehiclesOf(bookings, BookingIds(rows)) ensures v in VehicleIds(rows) {
      var id :| id in BookingIds(rows) && id in bookings && bookings[id].vehicleId == v;
      var k :| 0 <= k < |rows| && rows[k].bookingId == id;
      assert DescribesExpired(rows[k], bookings, now);
    }
    forall v | v in VehicleIds(rows) ensures v in VehiclesOf(bookings, BookingIds(rows)) {
      var k :| 0 <= k < |rows| && rows[k].vehicleId == v;
      assert DescribesExpired(rows[k], bookings, now);
      assert rows[k].bookingId in BookingIds(rows);
    }
  }

  /** A complete list of the expired bookings names exactly the ids the sweep's query selects. */
  lemma CompleteRowsNameAllExpired(rows: seq<ExpiredRow>, bookings: BookingTable, now: Instant)
    requires ListsExactlyExpired(rows, bookings, now)
    ensures BookingIds(rows) == ExpiredIds(bookings, now)
  {
    DescribedRowsAreExpired(rows, bookings, now);
    forall id | id in ExpiredIds(bookings, now) ensures id in BookingIds(rows) {
      var k :| 0 <= k < |rows| && rows[k].bookingId == id;
    }
  }

  /** A sweep that completes only some of the expired bookings leaves the swept tables unreached. */
  lemma PartialSweepIsNotSweep(bookings: BookingTable, ids: set<int>, now: Instant)
    requires ids < ExpiredIds(bookings, now)
    ensures MarkCompleted(bookings, ids) != SweptBookings(bookings, now)
  {
    if MarkCompleted(bookings, ids) == SweptBookings(bookings, now) {
      forall id | id in ExpiredIds(bookings, now) ensures id in ids {
        assert SweptBookings(bookings, now)[id].status == Completed;
      }
    }
  }

  /** After a partial sweep the next sweep with the same clock reading reaches the full result:
      the rows the first one missed are still `confirmed` and expired. */
  lemma NextSweepCompletesPartialSweep(bookings: BookingTable, vehicles: map<int, Vehicle>, ids: set<int>, now: Instant)
    requires ids <= ExpiredIds(bookings, now)
    ensures SweptBookings(MarkCompleted(bookings, ids), now) == SweptBookings(bookings, now)
    ensures SweptVehicles(MarkAvailable(vehicles, VehiclesOf(bookings, ids)), MarkCompleted(bookings, ids), now)
         == SweptVehicles(vehicles, bookings, now)
  {
    var partial := MarkCompleted(bookings, ids);
    forall id | id in bookings ensures Expired(partial[id], now) <==> id in ExpiredIds(bookings, now) - ids {
    }
    forall v | v in vehicles
      ensures v in VehiclesOf(bookings, ids) || HasExpiredBooking(partial, v, now)
          <==> HasExpiredBooking(bookings, v, now)
    {
      if v in VehiclesOf(bookings, ids) {
        var id :| id in ids && id in bookings && bookings[id].vehicleId == v;
        assert Expired(bookings[id], now);
      }
      if HasExpiredBooking(partial, v, now) {
        var id :| id in partial && Expired(partial[id], now) && partial[id].vehicleId == v;
        assert Expired(bookings[id], now);
      }
      if HasExpiredBooking(bookings, v, now) && !(v in VehiclesOf(bookings, ids)) {
        var id :| id in bookings && Expired(bookings[id], now) && bookings[id].vehicleId == v;
        assert id !in ids;
        assert Expired(partial[id], now);
      }
    }
  }

  /** Completing any set of bookings keeps both no-overlap invariants: `completed` is in neither
      compared set of statuses. */
  lemma MarkCompletedPreservesNoOverlap(bookings: BookingTable, ids: set<int>)
    ensures ConfirmedDisjoint(bookings) ==> ConfirmedDisjoint(MarkCompleted(bookings, ids))
    ensures ActiveDisjoint(bookings) ==> ActiveDisjoint(MarkCompleted(bookings, ids))
  {
    if ConfirmedDisjoint(bookings) {
      ShrinkPreservesNoOverlap(bookings, MarkCompleted(bookings, ids), {Confirmed});
    }
    if ActiveDisjoint(bookings) {
      ShrinkPreservesNoOverlap(bookings, MarkCompleted(bookings, ids), {Confirmed, Modified});
    }
  }

  /** A subset is no larger than its superset. */
  lemma SubsetCardinality<T>(a: set<T>, b: set<T>)
    requires a <= b
    ensures |a| <= |b|
  {
    assert b == a + (b - a);
  }

  /** The bookings table after a successful cancel. */
  function CancelRow(bookings: BookingTable, bookingId: int): BookingTable {
    if bookingId in bookings then bookings[bookingId := bookings[bookingId].(status := Canceled)]
    else bookings
  }

  /** The bookings table after a successful reschedule. */
  function RescheduleRow(bookings: BookingTable, bookingId: int, start: Instant, end: Instant): BookingTable {
    if bookingId in bookings
    then bookings[bookingId := bookings[bookingId].(start := start, end := end, status := Modified)]
    else bookings
  }

  /** Cancel is idempotent, touches no other booking and ends in `canceled` whatever the prior status. */
  lemma CancelRowProperties(bookings: BookingTable, bookingId: int, other: int)
    ensures CancelRow(CancelRow(bookings, bookingId), bookingId) == CancelRow(bookings, bookingId)
    ensures CancelRow(bookings, bookingId).Keys == bookings.Keys
    ensures bookingId in bookings ==> CancelRow(bookings, bookingId)[bookingId].status == Canceled
    ensures other in bookings && other != bookingId ==> CancelRow(bookings, bookingId)[other] == bookings[other]
  {
  }

  /** A reschedule leaves the booking's id, user and vehicle in place and marks it `modified`
      whatever its prior status, including `completed` and `canceled`; no other row changes. */
  lemma RescheduleRowProperties(bookings: BookingTable, bookingId: int, start: Instant, end: Instant, other: int)
    ensures RescheduleRow(bookings, bookingId, start, end).Keys == bookings.Keys
    ensures bookingId in bookings ==>
      var b := RescheduleRow(bookings, bookingId, start, end)[bookingId];
      && b.start == start && b.end == end && b.status == Modified
      && b.id == bookings[bookingId].id && b.userId == bookings[bookingId].userId
      && b.vehicleId == bookings[bookingId].vehicleId
    ensures other in bookings && other != bookingId ==>
      RescheduleRow(bookings, bookingId, start, end)[other] == bookings[other]
  {
  }

  /** Some element of a non-empty set, in no particular order (as rows come back from a query). */
  method Choose<T>(s: set<T>) returns (x: T)
    requires |s| > 0
    ensures x in s
  {
    x :| x in s;
  }

  /** The rows of a table whose value passes `keep`, as a query loop collects them. */
  method SelectValues<K, V(==)>(table: map<K, V>, keep: V -> bool) returns (rows: seq<V>)
    ensures forall v :: v in rows <==> v in table.Values && keep(v)
  {
    rows := [];
    var pending := table.Keys;
    while |pending| > 0
      invariant pending <= table.Keys
      invariant forall v :: v in rows ==> v in table.Values && keep(v)
      invariant forall k :: k in table && k !in pending && keep(table[k]) ==> table[k] in rows
      decreases pending
    {
      var k := Choose(pending);
      if keep(table[k]) {
        rows := rows + [table[k]];
      }
      pending := pending - {k};
    }
  }

  class Store {
    var bookings: BookingTable
    var vehicles: map<int, Vehicle>
    /** The next value of the bookings table's auto-increment id. */
    var nextId: int

    ghost predicate Valid()
      reads this
    {
      && 1 <= nextId
      && (forall id :: id in bookings ==> bookings[id].id == id && 1 <= id < nextId)
      && (forall v :: v in vehicles ==> vehicles[v].id == v)
      && ConfirmedDisjoint(bookings)
    }

    /** A store over an onboarded fleet, with no bookings yet. */
    constructor (fleet: map<int, Vehicle>)
      requires forall v :: v in fleet ==> fleet[v].id == v
      ensures Valid()
      ensures bookings == map[] && vehicles == fleet && nextId == 1
    {
      bookings := map[];
      vehicles := fleet;
      nextId := 1;
    }

    /** FetchAvailableVehicles: the vehicles whose `is_available` flag is set. */
    method FetchAvailableVehicles() returns (rows: seq<Vehicle>)
      ensures forall v :: v in rows <==> v in vehicles.Values && v.isAvailable
    {
      rows := SelectValues(vehicles, (v: Vehicle) => v.isAvailable);
    }

    /** FetchBookingsForVehicle: the vehicle's `confirmed` bookings only. */
    method FetchBookingsForVehicle(vehicleId: int) returns (rows: seq<Booking>)
      ensures forall b :: b in rows <==> b in bookings.Values && b.vehicleId == vehicleId && b.status == Confirmed
    {
      rows := SelectValues(bookings, (b: Booking) => b.vehicleId == vehicleId && b.status == Confirmed);
    }

    /** FetchBookingsByUser: the user's `confirmed` and `modified` bookings, joined with their
        vehicle; the inner join drops a booking whose vehicle row is missing. */
    method FetchBookingsByUser(userId: int) returns (rows: seq<UserBookingRow>)
      ensures forall r :: r in rows <==>
        exists id :: id in bookings && bookings[id].userId == userId && IsActive(bookings[id].status)
          && bookings[id].vehicleId in vehicles && r == JoinRow(bookings[id], vehicles[bookings[id].vehicleId])
    {
      rows := [];
      var pending := bookings.Keys;
      while |pending| > 0
        invariant pending <= bookings.Keys
        invariant forall r :: r in rows ==>
          exists id :: id in bookings && bookings[id].userId == userId && IsActive(bookings[id].status)
            && bookings[id].vehicleId in vehicles && r == JoinRow(bookings[id], vehicles[bookings[id].vehicleId])
        invariant forall id :: id in bookings && id !in pending ==>
          (bookings[id].userId == userId && IsActive(bookings[id].status) && bookings[id].vehicleId in vehicles
           ==> JoinRow(bookings[id], vehicles[bookings[id].vehicleId]) in rows)
        decreases pending
      {
        var key := Choose(pending);
        var b := bookings[key];
        if b.userId == userId && IsActive(b.status) && b.vehicleId in vehicles {
          rows := rows + [JoinRow(b, vehicles[b.vehicleId])];
        }
        pending := pending - {key};
      }
    }

    /** CreateBooking: rejects the request when a `confirmed` booking of the vehicle matches the
        overlap clause, reporting that booking's interval; otherwise inserts one `confirmed` row.
        Only the vehicle id parameter and the user, start and end of `booking` are read. */
    method CreateBooking(vehicleId: int, booking: Booking, fault: bool) returns (err: Option<StoreError>)
      requires Valid()
      modifies this
      ensures Valid()
      ensures vehicles == old(vehicles)
      ensures err.None? <==> !fault && CreateConflicts(old(bookings), vehicleId, booking.start, booking.end) == {}
      ensures fault ==> err == Some(Storage)
      ensures err.Some? ==> bookings == old(bookings) && nextId == old(nextId)
      ensures err.Some? && !fault ==>
        err.value.OverlapsWith? &&
        exists id :: id in CreateConflicts(old(bookings), vehicleId, booking.start, booking.end)
          && old(bookings)[id].start == err.value.start && old(bookings)[id].end == err.value.end
      ensures err.None? ==>
        && old(nextId) !in old(bookings)
        && bookings == old(bookings)[old(nextId) := Booking(old(nextId), booking.userId, vehicleId, booking.start, booking.end, Confirmed)]
        && nextId == old(nextId) + 1
    {
      if fault {
        return Some(Storage);
      }
      var conflicts := CreateConflicts(bookings, vehicleId, booking.start, booking.end);
      if |conflicts| > 0 {
        var key := Choose(conflicts);
        return Some(OverlapsWith(bookings[key].start, bookings[key].end));
      }
      var inserted := Booking(nextId, booking.userId, vehicleId, booking.start, booking.end, Confirmed);
      forall id | id in bookings && id != nextId && bookings[id].status in {Confirmed}
        && bookings[id].vehicleId == vehicleId
        ensures !OverlapClause(bookings[id].start, bookings[id].end, inserted.start, inserted.end)
      {
        assert id !in conflicts;
      }
      UpdatePreservesNoOverlap(bookings, nextId, inserted, {Confirmed});
      bookings := bookings[nextId := inserted];
      nextId := nextId + 1;
      err := None;
    }

    /** CreateBooking with the conflict query corrected to consult `modified` rows as well. It keeps
        the active bookings of every vehicle pairwise disjoint, which CreateBooking does not. */
    method CreateBookingActiveChecked(vehicleId: int, booking: Booking, fault: bool) returns (err: Option<StoreError>)
      requires Valid()
      modifies this
      ensures Valid()
      ensures ActiveDisjoint(old(bookings)) ==> ActiveDisjoint(bookings)
      ensures vehicles == old(vehicles)
      ensures err.None? <==> !fault && ActiveConflicts(old(bookings), vehicleId, booking.start, booking.end) == {}
      ensures fault ==> err == Some(Storage)
      ensures err.Some? ==> bookings == old(bookings) && nextId == old(nextId)
      ensures err.Some? && !fault ==>
        err.value.OverlapsWith? &&
        exists id :: id in ActiveConflicts(old(bookings), vehicleId, booking.start, booking.end)
          && old(bookings)[id].start == err.value.start && old(bookings)[id].end == err.value.end
      ensures err.None? ==>
        && old(nextId) !in old(bookings)
        && bookings == old(bookings)[old(nextId) := Booking(old(nextId), booking.userId, vehicleId, booking.start, booking.end, Confirmed)]
        && nextId == old(nextId) + 1
    {
      if fault {
        return Some(Storage);
      }
      var conflicts := ActiveConflicts(bookings, vehicleId, booking.start, booking.end);
      if |conflicts| > 0 {
        var key := Choose(conflicts);
        return Some(OverlapsWith(bookings[key].start, bookings[key].end));
      }
      var inserted := Booking(nextId, booking.userId, vehicleId, booking.start, booking.end, Confirmed);
      forall id | id in bookings && id != nextId && bookings[id].status in {Confirmed}
        && bookings[id].vehicleId == vehicleId
        ensures !OverlapClause(bookings[id].start, bookings[id].end, inserted.start, inserted.end)
      {
        assert id !in conflicts;
      }
      UpdatePreservesNoOverlap(bookings, nextId, inserted, {Confirmed});
      if ActiveDisjoint(bookings) {
        ActiveCheckPreservesActiveDisjoint(bookings, nextId, inserted);
      }
      bookings := bookings[nextId := inserted];
      nextId := nextId + 1;
      err := None;
    }

    /** ModifyBooking: rejects the new interval when another `confirmed` or `modified` booking of
        the same vehicle matches the overlap clause; otherwise sets the interval and marks the
        booking `modified`, whatever its prior status. An unknown id changes nothing and succeeds. */
    method ModifyBooking(bookingId: int, newStart: Instant, newEnd: Instant, fault: bool) returns (err: Option<StoreError>)
      requires Valid()
      modifies this
      ensures Valid()
      ensures ActiveDisjoint(old(bookings)) ==> ActiveDisjoint(bookings)
      ensures vehicles == old(vehicles) && nextId == old(nextId)
      ensures err.None? <==> !fault && ModifyConflicts(old(bookings), bookingId, newStart, newEnd) == {}
      ensures err == Some(Storage) <==> fault
      ensures err.Some? && !fault ==> err == Some(OverlapExists)
      ensures err.Some? ==> bookings == old(bookings)
      ensures err.None? ==> bookings == RescheduleRow(old(bookings), bookingId, newStart, newEnd)
    {
      if fault {
        return Some(Storage);
      }
      var conflicts := ModifyConflicts(bookings, bookingId, newStart, newEnd);
      if |conflicts| > 0 {
        return Some(OverlapExists);
      }
      var after := RescheduleRow(bookings, bookingId, newStart, newEnd);
      ShrinkPreservesNoOverlap(bookings, after, {Confirmed});
      if bookingId in bookings && ActiveDisjoint(bookings) {
        var b := after[bookingId];
        forall id | id in bookings && id != bookingId && bookings[id].status in {Confirmed, Modified}
          && bookings[id].vehicleId == b.vehicleId
          ensures !OverlapClause(bookings[id].start, bookings[id].end, b.start, b.end)
        {
          assert id !in conflicts;
        }
        UpdatePreservesNoOverlap(bookings, bookingId, b, {Confirmed, Modified});
      }
      bookings := after;
      err := None;
    }

    /** CancelBooking: sets the booking's status to `canceled` without looking at its prior status. */
    method CancelBooking(bookingId: int, fault: bool) returns (err: Option<StoreError>)
      requires Valid()
      modifies this
      ensures Valid()
      ensures ActiveDisjoint(old(bookings)) ==> ActiveDisjoint(bookings)
      ensures vehicles == old(vehicles) && nextId == old(nextId)
      ensures err == (if fault then Some(Storage) else None)
      ensures bookings == if fault then old(bookings) else CancelRow(old(bookings), bookingId)
    {
      if fault {
        return Some(Storage);
      }
      var after := CancelRow(bookings, bookingId);
      ShrinkPreservesNoOverlap(bookings, after, {Confirmed});
      if ActiveDisjoint(bookings) {
        ShrinkPreservesNoOverlap(bookings, after, {Confirmed, Modified});
      }
      bookings := after;
      err := None;
    }

    /** The first loop of CheckAndUpdateAvailability: collect the `confirmed` bookings that ended
        strictly before `now`, in some order (the query has no ORDER BY). `cutoff == Some(k)`
        stands for a driver failure on reading expired row `k` (counting from 0): `rows.Next`
        then returns false and the loop ends with the `k` rows read so far. `readFailed` is what
        `rows.Err()` would report. */
    method ExpiredRows(now: Instant, cutoff: Option<nat>) returns (rows: seq<ExpiredRow>, readFailed: bool)
      ensures forall k :: 0 <= k < |rows| ==> DescribesExpired(rows[k], bookings, now)
      ensures DistinctBookings(rows)
      ensures readFailed <==> cutoff.Some? && cutoff.value < |ExpiredIds(bookings, now)|
      ensures readFailed ==> |rows| == cutoff.value
      ensures !readFailed ==> ListsExactlyExpired(rows, bookings, now)
    {
      rows := [];
      readFailed := false;
      var pending := bookings.Keys;
      while |pending| > 0
        invariant pending <= bookings.Keys
        invariant forall k :: 0 <= k < |rows| ==> DescribesExpired(rows[k], bookings, now)
        invariant forall k :: 0 <= k < |rows| ==> rows[k].bookingId !in pending
        invariant DistinctBookings(rows)
        invariant cutoff.Some? ==> |rows| <= cutoff.value
        invariant forall id :: id in bookings && id !in pending && Expired(bookings[id], now) ==>
          exists k :: 0 <= k < |rows| && rows[k].bookingId == id
        decreases pending
      {
        var key := Choose(pending);
        if Expired(bookings[key], now) {
          if cutoff.Some? && |rows| == cutoff.value {
            readFailed := true;
            DescribedRowsAreExpired(rows, bookings, now);
            DistinctBookingsCount(rows);
            assert key !in BookingIds(rows);
            assert BookingIds(rows) + {key} <= ExpiredIds(bookings, now);
            SubsetCardinality(BookingIds(rows) + {key}, ExpiredIds(bookings, now));
            return;
          }
          ghost var before := rows;
          rows := rows + [ExpiredRow(key, bookings[key].vehicleId, bookings[key].end)];
          assert rows[|rows| - 1].bookingId == key;
          assert forall k :: 0 <= k < |before| ==> rows[k] == before[k];
        }
        pending := pending - {key};
      }
      CompleteRowsNameAllExpired(rows, bookings, now);
      DistinctBookingsCount(rows);
    }

    /** The update loop of CheckAndUpdateAvailability, on the transaction's view of the tables:
        each listed booking becomes `completed` and each listed vehicle available. */
    method ApplyUpdates(updates: seq<ExpiredRow>) returns (txBookings: BookingTable, txVehicles: map<int, Vehicle>)
      ensures txBookings == MarkCompleted(bookings, BookingIds(updates))
      ensures txVehicles == MarkAvailable(vehicles, VehicleIds(updates))
    {
      txBookings, txVehicles := bookings, vehicles;
      assert txBookings == MarkCompleted(bookings, BookingIds(updates[..0]));
      assert txVehicles == MarkAvailable(vehicles, VehicleIds(updates[..0]));
      var i := 0;
      while i < |updates|
        invariant 0 <= i <= |updates|
        invariant txBookings == MarkCompleted(bookings, BookingIds(updates[..i]))
        invariant txVehicles == MarkAvailable(vehicles, VehicleIds(updates[..i]))
      {
        var u := updates[i];
        MarkStep(bookings, vehicles, updates, i, txBookings, txVehicles);
        if u.bookingId in txBookings {
          txBookings := txBookings[u.bookingId := txBookings[u.bookingId].(status := Completed)];
        }
        if u.vehicleId in txVehicles {
          txVehicles := txVehicles[u.vehicleId := txVehicles[u.vehicleId].(isAvailable := true)];
        }
        i := i + 1;
      }
      assert updates[..|updates|] == updates;
    }

    /** The sweep's transaction, committed: the listed bookings become `completed` and their
        vehicles available. */
    method CommitSweep(updates: seq<ExpiredRow>, now: Instant)
      requires Valid()
      requires forall k :: 0 <= k < |updates| ==> DescribesExpired(updates[k], bookings, now)
      modifies this
      ensures Valid()
      ensures ActiveDisjoint(old(bookings)) ==> ActiveDisjoint(bookings)
      ensures nextId == old(nextId)
      ensures bookings == MarkCompleted(old(bookings), BookingIds(updates))
      ensures vehicles == MarkAvailable(old(vehicles), VehiclesOf(old(bookings), BookingIds(updates)))
    {
      var txBookings, txVehicles := ApplyUpdates(updates);
      DescribedRowsAreExpired(updates, bookings, now);
      MarkCompletedPreservesNoOverlap(bookings, BookingIds(updates));
      bookings, vehicles := txBookings, txVehicles;
    }

    /** CheckAndUpdateAvailability with the clock reading passed in. The collecting SELECT runs
        outside any transaction; the updates then run in one transaction. `fault` stands for a
        failure of the query, of a row scan, of Begin, of an update or of the commit: each is
        returned as an error with both tables unchanged. A driver failure while iterating
        (`cutoff`) is not reported, because `rows.Err()` is never consulted: the rows read so far
        are committed and nil is returned. `completed` names the bookings that became
        `completed`. `modified` bookings and bookings ending exactly at `now` are left alone. */
    method CheckAndUpdateAvailability(now: Instant, cutoff: Option<nat>, fault: bool)
      returns (err: Option<StoreError>, ghost completed: set<int>)
      requires Valid()
      modifies this
      ensures Valid()
      ensures ActiveDisjoint(old(bookings)) ==> ActiveDisjoint(bookings)
      ensures nextId == old(nextId)
      ensures err == (if fault then Some(Storage) else None)
      ensures fault ==> bookings == old(bookings) && vehicles == old(vehicles)
      ensures !fault ==> completed <= ExpiredIds(old(bookings), now)
      ensures !fault ==> bookings == MarkCompleted(old(bookings), completed)
      ensures !fault ==> vehicles == MarkAvailable(old(vehicles), VehiclesOf(old(bookings), completed))
      ensures !fault && (cutoff.None? || |ExpiredIds(old(bookings), now)| <= cutoff.value) ==>
        bookings == SweptBookings(old(bookings), now) && vehicles == SweptVehicles(old(vehicles), old(bookings), now)
      ensures !fault && cutoff.Some? && cutoff.value < |ExpiredIds(old(bookings), now)| ==>
        |completed| == cutoff.value
    {
      completed := {};
      if fault {
        return Some(Storage), completed;
      }
      var updates, readFailed := ExpiredRows(now, cutoff);
      DistinctBookingsCount(updates);
      DescribedRowsAreExpired(updates, bookings, now);
      if !readFailed {
        MarkedRowsAreSwept(bookings, vehicles, updates, now);
      }
      completed := BookingIds(updates);
      if |updates| == 0 {
        assert bookings == MarkCompleted(bookings, completed);
        assert vehicles == MarkAvailable(vehicles, VehiclesOf(bookings, completed));
        return None, completed;
      }
      CommitSweep(updates, now);
      err := None;
    }

    /** The sweep as evidently intended: a driver failure while iterating is reported like any
        other, so the sweep either completes every expired booking or changes nothing. */
    method CheckAndUpdateAvailabilityChecked(now: Instant, cutoff: Option<nat>, fault: bool) returns (err: Option<StoreError>)
      requires Valid()
      modifies this
      ensures Valid()
      ensures ActiveDisjoint(old(bookings)) ==> ActiveDisjoint(bookings)
      ensures nextId == old(nextId)
      ensures err.None? <==> !fault && (cutoff.None? || |ExpiredIds(old(bookings), now)| <= cutoff.value)
      ensures err.Some? ==> err == Some(Storage) && bookings == old(bookings) && vehicles == old(vehicles)
      ensures err.None? ==>
        bookings == SweptBookings(old(bookings), now) && vehicles == SweptVehicles(old(vehicles), old(bookings), now)
    {
      if fault {
        return Some(Storage);
      }
      var updates, readFailed := ExpiredRows(now, cutoff);
      if readFailed {
        return Some(Storage);
      }
      MarkedRowsAreSwept(bookings, vehicles, updates, now);
      DescribedRowsAreExpired(updates, bookings, now);
      if |updates| == 0 {
        assert bookings == MarkCompleted(bookings, BookingIds(updates));
        assert vehicles == MarkAvailable(vehicles, VehicleIds(updates));
        return None;
      }
      CommitSweep(updates, now);
      err := None;
    }
  }

  /** Two back-to-back bookings of vehicle 3, [600,660] then [660,720], are both admitted:
      intervals that only meet at an end point do not conflict. */
  method BackToBackScenario() returns (store: Store)
    ensures fresh(store) && store.Valid()
    ensures store.vehicles == map[3 := Vehicle(3, "Tesla", "Model 3", "S1234A", true)]
    ensures store.bookings == map[1 := Booking(1, 7, 3, 600, 660, Confirmed), 2 := Booking(2, 8, 3, 660, 720, Confirmed)]
    ensures store.nextId == 3
  {
    store := new Store(map[3 := Vehicle(3, "Tesla", "Model 3", "S1234A", true)]);
    var first := store.CreateBooking(3, Booking(0, 7, 3, 600, 660, Confirmed), false);
    assert first == None;
    assert store.bookings == map[1 := Booking(1, 7, 3, 600, 660, Confirmed)];

    assert !OverlapClause(600, 660, 660, 720);
    assert CreateConflicts(store.bookings, 3, 660, 720) == {};
    var adjacent := store.CreateBooking(3, Booking(0, 8, 3, 660, 720, Confirmed), false);
    assert adjacent == None;
  }

  /** An overlapping request is rejected, with the window of one of the bookings it overlaps. */
  method ClashScenario() {
    var store := BackToBackScenario();
    assert 1 in CreateConflicts(store.bookings, 3, 630, 690);
    var clash := store.CreateBooking(3, Booking(0, 9, 3, 630, 690, Confirmed), false);
    assert clash.Some? && clash.value.OverlapsWith?;
    assert clash.value.start in {600, 660};
  }

  /** A reschedule is not blocked by the booking's own old interval; afterwards the create query
      skips the now `modified` booking and admits an overlapping one. */
  method RescheduleScenario() {
    var store := BackToBackScenario();
    assert !OverlapClause(660, 720, 610, 650);
    assert ModifyConflicts(store.bookings, 1, 610, 650) == {};
    var moved := store.ModifyBooking(1, 610, 650, false);
    assert moved == None && store.bookings[1].status == Modified;

    assert CreateConflicts(store.bookings, 3, 615, 640) == {} by {
      assert forall id :: id in store.bookings ==> id == 1 || id == 2;
    }
    var overlapping := store.CreateBooking(3, Booking(0, 9, 3, 615, 640, Confirmed), false);
    assert overlapping == None && store.bookings[3].status == Confirmed;
    assert StrictOverlap(store.bookings[1].start, store.bookings[1].end, store.bookings[3].start, store.bookings[3].end);
    assert !ActiveDisjoint(store.bookings);
  }

  /** The sweep completes the expired confirmed booking but not the `modified` one, and frees the
      vehicle; cancelling twice succeeds both times. */
  method SweepAndCancelScenario() {
    var store := BackToBackScenario();
    assert !OverlapClause(660, 720, 610, 650);
    assert ModifyConflicts(store.bookings, 1, 610, 650) == {};
    var moved := store.ModifyBooking(1, 610, 650, false);
    assert moved == None;

    var swept;
    ghost var done;
    swept, done := store.CheckAndUpdateAvailability(800, None, false);
    assert store.bookings[2].status == Completed;
    assert store.bookings[1].status == Modified;
    assert store.vehicles[3].isAvailable;

    var canceled := store.CancelBooking(1, false);
    var again := store.CancelBooking(1, false);
    assert canceled == None && again == None && store.bookings[1].status == Canceled;
  }

  /** A driver failure on reading the first expired row: the sweep reports success but completes
      nothing, so booking 1, which ended before 800, stays `confirmed`. */
  method SwallowedReadErrorScenario() {
    var store := BackToBackScenario();
    assert 1 in ExpiredIds(store.bookings, 800);
    var err;
    ghost var done;
    err, done := store.CheckAndUpdateAvailability(800, Some(0), false);
    assert err == None && done == {};
    assert store.bookings[1].status == Confirmed && store.bookings[1].end < 800;
  }
}
