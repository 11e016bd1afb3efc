/** The field validators of vehicle-service/utils/validators.go. A `None` result is Go's `nil` error. */
module Validators {
  import opened Wrappers

  /** One constructor per error the validators return; the error texts themselves are not modelled. */
  datatype ValidationError =
    | StartAfterEnd
    | InThePast
    | NonPositiveId
    | ChargeOutOfRange
    | InvalidCleanliness

  /** The clock reading `time.Now()` is passed in as `now`. The order test comes first, so it
      decides the error when both tests fail; `start == end` is accepted. */
  function ValidateTimeRange(start: int, end: int, now: int): (r: Option<ValidationError>)
    ensures r.None? <==> start <= end && now <= start && now <= end
    ensures end < start ==> r == Some(StartAfterEnd)
    ensures start <= end && (start < now || end < now) ==> r == Some(InThePast)
  {
    if start > end then Some(StartAfterEnd)
    else if start < now || end < now then Some(InThePast)
    else None
  }

  function ValidateID(id: int): (r: Option<ValidationError>)
    ensures r.None? <==> id > 0
    ensures r.Some? ==> r.value == NonPositiveId
  {
    if id <= 0 then Some(NonPositiveId) else None
  }

  function ValidateChargeLevel(chargeLevel: int): (r: Option<ValidationError>)
    ensures r.None? <==> 0 <= chargeLevel <= 100
    ensures r.Some? ==> r.value == ChargeOutOfRange
  {
    if chargeLevel < 0 || chargeLevel > 100 then Some(ChargeOutOfRange) else None
  }

  /** The keys of the `validStatuses` lookup table; a missing key reads as false. */
  const CleanlinessValues: set<string> := {"clean", "dirty", "needs maintenance"}

  function ValidateCleanliness(cleanliness: string): (r: Option<ValidationError>)
    ensures r.None? <==> cleanliness == "clean" || cleanliness == "dirty" || cleanliness == "needs maintenance"
    ensures r.Some? ==> r.value == InvalidCleanliness
  {
    if cleanliness !in CleanlinessValues then Some(InvalidCleanliness) else None
  }
}
