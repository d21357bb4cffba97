/**
 * The BookingStatusHistory record (src/models/BookingStatusHistory.ts):
 * one row per status a booking has had. `status`, `timestamp` and
 * `bookingId` are all required and none has a default.
 */
module HistoryModel {
  import opened Wrappers
  import opened Fields

  /** A row of the status-history table. */
  datatype HistoryEntry = HistoryEntry(
    id: nat,
    status: string,
    timestamp: int,
    bookingId: nat,
    createdAt: int,
    updatedAt: int)

  /** The attributes `BookingStatusHistory.create` reads. */
  datatype HistoryInput = HistoryInput(
    status: Field<string>,
    timestamp: Field<DateValue>,
    bookingId: Field<nat>)

  /** All validation errors of a creation: three `allowNull: false` attributes, and `timestamp` must be a date. */
  function CreateErrors(input: HistoryInput): seq<FieldError>
  {
    RequiredErrors("status", input.status)
    + RequiredDateErrors("timestamp", input.timestamp, None)
    + RequiredErrors("bookingId", input.bookingId)
  }

  /** `BookingStatusHistory.create`: validate, then build the row stored under the next id. */
  function Build(input: HistoryInput, id: nat, now: int): (r: Result<HistoryEntry, seq<FieldError>>)
    ensures r.Success? <==>
      input.status.Present? && input.timestamp.Present? && input.timestamp.value.Instant? && input.bookingId.Present?
    ensures input.timestamp.Absent? ==> r.Failure? && FieldError("timestamp", NotNull) in r.error
    ensures r.Success? ==>
      r.value == HistoryEntry(id, input.status.value, input.timestamp.value.ms, input.bookingId.value, now, now)
  {
    var errs := CreateErrors(input);
    if errs != [] then Failure(errs)
    else Success(HistoryEntry(id, input.status.value, input.timestamp.value.ms, input.bookingId.value, now, now))
  }
}
