/** The decisions the HTTP handlers of vehicle-service/handlers/vehicle_handlers.go take before
    and after calling the store: path-id checks, the two interval tests, the booking handed to
    CreateBooking, and the mapping of CreateBooking's error text to a response. */
module VehicleHandlers {
  import opened Wrappers
  import opened Models
  import opened GoStrings
  import Validators
  import VehicleQueries

  /** The reasons a handler answers 400 Bad Request. */
  datatype Rejection = InvalidId | StartInPast | StartAfterEnd

  /** What BookVehicle answers once CreateBooking has failed; `IndexPanic` is the handler
      indexing past the end of a Split result, which aborts the request. */
  datatype CreateFailure =
    | Conflict(conflictStart: string, conflictEnd: string)  // 409
    | InternalError                                          // 500
    | IndexPanic

  /** The HTTP status BookVehicle sends for each failure; a panic sends none. */
  function StatusCode(f: CreateFailure): Option<int> {
    match f
    case Conflict(_, _) => Some(409)
    case InternalError => Some(500)
    case IndexPanic => None
  }

  /** The interval tests of BookVehicle and of the ModifyBooking handler: first "start before
      now", then "start after end"; a start equal to the end passes. */
  function CheckInterval(start: Instant, end: Instant, now: Instant): (r: Option<Rejection>)
    ensures r.None? <==> now <= start && start <= end
    ensures start < now ==> r == Some(StartInPast)
    ensures now <= start && end < start ==> r == Some(StartAfterEnd)
  {
    if start < now then Some(StartInPast)
    else if start > end then Some(StartAfterEnd)
    else None
  }

  /** The handlers' tests admit exactly the intervals ValidateTimeRange admits, although the two
      order their tests differently and so name different errors for some rejected intervals. */
  lemma CheckIntervalAdmitsAsValidateTimeRange(start: Instant, end: Instant, now: Instant)
    ensures CheckInterval(start, end, now).None? <==> Validators.ValidateTimeRange(start, end, now).None?
    ensures CheckInterval(5, 3, 10) == Some(StartInPast)
    ensures Validators.ValidateTimeRange(5, 3, 10) == Some(Validators.StartAfterEnd)
  {
  }

  /** The id tests of CancelBooking, ModifyBooking, GetBookings and FetchRentalHistoryByUser:
      a path or query id must be positive. */
  function CheckId(id: int): (r: Option<Rejection>)
    ensures r.None? <==> Validators.ValidateID(id).None?
    ensures r.Some? ==> r.value == InvalidId
  {
    if id <= 0 then Some(InvalidId) else None
  }

  /** The JSON body of a booking request, with the times already parsed into instants. */
  datatype BookingRequest = BookingRequest(userId: int, start: Instant, end: Instant)

  /** BookVehicle up to the store call: the booking it passes to CreateBooking, or the 400. */
  function BookVehicleAdmission(vehicleId: int, request: BookingRequest, now: Instant): (r: Result<Booking, Rejection>)
    ensures r.Ok? <==> now <= request.start && request.start <= request.end
    ensures r.Err? ==> Some(r.error) == CheckInterval(request.start, request.end, now)
    ensures r.Ok? ==>
      && r.value.vehicleId == vehicleId
      && r.value.userId == request.userId
      && r.value.start == request.start
      && r.value.end == request.end
      && r.value.status == Confirmed
  {
    match CheckInterval(request.start, request.end, now)
    case Some(reason) => Err(reason)
    case None => Ok(Booking(0, request.userId, vehicleId, request.start, request.end, Confirmed))
  }

  /** The ModifyBooking handler up to the store call: the booking id is tested before the times. */
  function ModifyAdmission(bookingId: int, start: Instant, end: Instant, now: Instant): (r: Option<Rejection>)
    ensures r.None? <==> bookingId > 0 && now <= start && start <= end
    ensures bookingId <= 0 ==> r == Some(InvalidId)
    ensures bookingId > 0 ==> r == CheckInterval(start, end, now)
  {
    if CheckId(bookingId).Some? then CheckId(bookingId) else CheckInterval(start, end, now)
  }

  const OverlapMarker: string := "time range overlaps"
  const OverlapPrefix: string := "time range overlaps with an existing booking"

  /** The text of CreateBooking's conflict error, with the conflicting start and end as text. */
  function ConflictMessage(startText: string, endText: string): string {
    OverlapPrefix + " from " + startText + " to " + endText
  }

  /** The text of a CreateBooking error: the conflict message with its times formatted by
      `formatTime`, or for any driver failure the driver's text. */
  function CreateErrorText(e: VehicleQueries.StoreError, formatTime: Instant -> string, driverText: string): string {
    match e
    case OverlapsWith(s, t) => ConflictMessage(formatTime(s), formatTime(t))
    case _ => driverText
  }

  /** BookVehicle's reading of a CreateBooking error: a text containing the marker is split on
      " from " and then on " to " to recover the conflicting window; anything else is a 500. */
  function CreateErrorResponse(message: string): CreateFailure {
    if Contains(message, OverlapMarker) then
      var details := Split(message, " from ");
      if |details| < 2 then IndexPanic
      else
        var startEnd := Split(details[1], " to ");
        if |startEnd| < 2 then IndexPanic
        else Conflict(startEnd[0], startEnd[1])
    else InternalError
  }

  /** The condition under which the split recovers the two times: the separators occur nowhere in
      the message except where the format put them. It is more than "neither text contains a
      separator", because an occurrence can straddle a text and the literal around it. */
  predicate SplitSafe(startText: string, endText: string) {
    && !Contains(startText + " to " + endText, " from ")
    && !Contains(startText + " to", " to ")
    && !Contains(endText, " to ")
  }

  /** The fixed prefix holds no 'f', so " from " cannot start inside it. */
  lemma PrefixHasNoF()
    ensures forall i :: 0 <= i < |OverlapPrefix| ==> OverlapPrefix[i] != 'f'
  {
  }

  /** The conflict message carries the marker the handler looks for. */
  lemma ConflictMessageHasMarker(rest: string)
    ensures Contains(OverlapPrefix + " from " + rest, OverlapMarker)
  {
    var message := OverlapPrefix + " from " + rest;
    assert message[..19] == OverlapMarker;
    assert OccursAt(message, OverlapMarker, 0);
  }

  /** The first split yields the prefix and everything after " from ". */
  lemma {:induction false} SplitConflictOnFrom(rest: string)
    requires !Contains(rest, " from ")
    ensures Split(OverlapPrefix + " from " + rest, " from ") == [OverlapPrefix, rest]
  {
    var message := OverlapPrefix + " from " + rest;
    var p := |OverlapPrefix|;
    PrefixHasNoF();
    assert forall i :: 0 <= i < p ==> message[i] == OverlapPrefix[i];
    assert message[p] == ' ';
    forall j | 0 <= j < p && OccursAt(message, " from ", j) ensures false {
      OccursAtSecondChar(message, " from ", j);
    }
    SplitJoined(OverlapPrefix, " from ", rest);
  }

  /** The second split yields the start text and the end text. */
  lemma {:induction false} SplitTimesOnTo(startText: string, endText: string)
    requires !Contains(startText + " to", " to ") && !Contains(endText, " to ")
    ensures Split(startText + " to " + endText, " to ") == [startText, endText]
  {
    var rest := startText + " to " + endText;
    forall j | 0 <= j < |startText| && OccursAt(rest, " to ", j) ensures false {
      OccursInPrefix(rest, startText + " to", " to ", j);
    }
    SplitJoined(startText, " to ", endText);
  }

  /** For a text shaped like the conflict message, the response is decided by the second split alone. */
  lemma ResponseToConflictText(rest: string)
    requires !Contains(rest, " from ")
    ensures var startEnd := Split(rest, " to ");
      CreateErrorResponse(OverlapPrefix + " from " + rest)
        == if |startEnd| < 2 then IndexPanic else Conflict(startEnd[0], startEnd[1])
  {
    ConflictMessageHasMarker(rest);
    SplitConflictOnFrom(rest);
  }

  /** Splitting the conflict message recovers exactly the two times formatted into it. */
  lemma {:induction false} ConflictMessageRoundTrip(startText: string, endText: string)
    requires SplitSafe(startText, endText)
    ensures CreateErrorResponse(ConflictMessage(startText, endText)) == Conflict(startText, endText)
  {
    var rest := startText + " to " + endText;
    assert ConflictMessage(startText, endText) == OverlapPrefix + " from " + rest;
    ResponseToConflictText(rest);
    SplitTimesOnTo(startText, endText);
  }

  /** A time text as Go's default formatting prints it ("2006-01-02 15:04:05.999999999 -0700 MST"),
      in whatever zone the connection's `loc=Local` gives: the fixed parts hold digits, spaces and
      `-:.+` only, so what the split needs is that the zone abbreviation has no lower-case `f`
      or `t`, the second letters of the two separators. */
  predicate TimeText(s: string) {
    forall i :: 0 <= i < |s| ==> s[i] != 'f' && s[i] != 't'
  }

  /** A time in a zone whose abbreviation has lower-case letters is a time text. */
  lemma ChamorroTimeIsTimeText()
    ensures TimeText("2024-05-01 09:30:00 +1000 ChST")
  {
  }

  /** Time texts never produce a separator, so the round trip holds for them. */
  lemma {:induction false} TimeTextIsSplitSafe(startText: string, endText: string)
    requires TimeText(startText) && TimeText(endText)
    ensures SplitSafe(startText, endText)
  {
    var rest := startText + " to " + endText;
    forall i | 1 <= i && i + 6 <= |rest| + 1 ensures rest[i] != " from "[1] {
      if i < |startText| {
        assert rest[i] == startText[i];
      } else if i >= |startText| + 4 {
        assert rest[i] == endText[i - |startText| - 4];
      }
    }
    NoSecondCharNoContains(rest, " from ");
    var head := startText + " to";
    forall i | 1 <= i && i + 4 <= |head| + 1 ensures head[i] != " to "[1] {
      if i < |startText| {
        assert head[i] == startText[i];
      }
    }
    NoSecondCharNoContains(head, " to ");
    NoSecondCharNoContains(endText, " to ");
  }

  /** What BookVehicle answers for each CreateBooking error, given times formatted as Go does and
      a driver text without the marker: the conflict window for an overlap, 500 otherwise. */
  lemma {:induction false} CreateErrorMapping(e: VehicleQueries.StoreError, formatTime: Instant -> string, driverText: string)
    requires forall t :: TimeText(formatTime(t))
    requires !Contains(driverText, OverlapMarker)
    ensures e.OverlapsWith? ==>
      CreateErrorResponse(CreateErrorText(e, formatTime, driverText)) == Conflict(formatTime(e.start), formatTime(e.end))
    ensures !e.OverlapsWith? ==> CreateErrorResponse(CreateErrorText(e, formatTime, driverText)) == InternalError
    ensures StatusCode(CreateErrorResponse(CreateErrorText(e, formatTime, driverText)))
      == if e.OverlapsWith? then Some(409) else Some(500)
  {
    if e.OverlapsWith? {
      TimeTextIsSplitSafe(formatTime(e.start), formatTime(e.end));
      ConflictMessageRoundTrip(formatTime(e.start), formatTime(e.end));
    }
  }

  /** A text with the marker but without " from " makes the handler index past the split result. */
  lemma MarkerWithoutFromPanics(message: string)
    requires Contains(message, OverlapMarker) && !Contains(message, " from ")
    ensures CreateErrorResponse(message) == IndexPanic
  {
    SplitWithoutSeparator(message, " from ");
  }

  /** The second split of the straddled text "x to to y" stops after "x". */
  lemma SplitStraddledTimes()
    ensures Split("x to to y", " to ") == ["x", "to y"]
  {
    var rest := "x to to y";
    assert rest[1..5] == " to ";
    assert rest[0..4][0] != ' ';
    assert rest[..1] == "x" && rest[5..] == "to y";
    NoSecondCharNoContains("to y", " to ");
    SplitInTwo(rest, " to ", 1);
  }

  /** The text "x to" contains neither separator. */
  lemma StraddlingTextHasNoSeparator()
    ensures !Contains("x to", " to ") && !Contains("x to", " from ")
  {
    NoSecondCharNoContains("x to", " to ");
    NoSecondCharNoContains("x to", " from ");
  }

  /** A time text that ends in " to" is split at the wrong place, though it contains no separator
      (StraddlingTextHasNoSeparator). */
  lemma StraddlingSeparatorMisparses()
    ensures CreateErrorResponse(ConflictMessage("x to", "y")) == Conflict("x", "to y")
  {
    var rest := "x to to y";
    var message := ConflictMessage("x to", "y");
    assert message == OverlapPrefix + " from " + rest;
    NoSecondCharNoContains(rest, " from ");
    ResponseToConflictText(rest);
    SplitStraddledTimes();
  }
}
