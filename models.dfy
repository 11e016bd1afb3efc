/** Record shapes of the vehicle service (vehicle-service/models/vehicle.go). */
module Models {
  /** An instant in time, as a whole number of clock ticks. */
  type Instant = int

  /** The four values the `status` column of the bookings table takes. */
  datatype Status = Confirmed | Modified | Completed | Canceled

  /** A row of the bookings table; `created_at` is filled in by the database and is not modelled. */
  datatype Booking = Booking(
    id: int,
    userId: int,
    vehicleId: int,
    start: Instant,
    end: Instant,
    status: Status)

  /** A row of the vehicles table; `created_at` is not modelled. */
  datatype Vehicle = Vehicle(
    id: int,
    make: string,
    model: string,
    registrationNumber: string,
    isAvailable: bool)

  /** The text stored in the `status` column for each status. */
  function StatusText(s: Status): string {
    match s
    case Confirmed => "confirmed"
    case Modified => "modified"
    case Completed => "completed"
    case Canceled => "canceled"
  }

  /** Distinct statuses are stored as distinct texts, so the queries' string comparisons on the
      `status` column are comparisons of `Status` values. */
  lemma StatusTextInjective(a: Status, b: Status)
    ensures StatusText(a) == StatusText(b) <==> a == b
  {
  }
}
