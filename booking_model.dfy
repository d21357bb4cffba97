/**
 * The Booking record (src/models/Booking.ts): its columns, the attributes
 * accepted when a booking is created or updated, and the rules the ORM
 * applies to them. A booking row also carries `creditId`, the foreign key
 * that the association "a Booking belongs to a Credit" adds to it.
 */
module BookingModel {
  import opened Wrappers
  import opened Fields

  /** The value `status` takes when a booking is created without one. */
  const DefaultStatus := "pending"

  /** A row of the bookings table. `patientId` is NULL for an anonymous booking. */
  datatype Booking = Booking(
    id: nat,
    time: int,
    patientId: Option<string>,
    provider: string,
    status: string,
    creditId: Option<nat>,
    createdAt: int,
    updatedAt: int)

  /** The attributes `Booking.create` reads from its argument; `id` is always assigned by the table. */
  datatype BookingInput = BookingInput(
    time: Field<DateValue>,
    patientId: Field<string>,
    provider: Field<string>,
    status: Field<string>,
    creditId: Field<nat>)

  /** The attributes `Booking.update` reads from its argument. */
  datatype BookingPatch = BookingPatch(
    time: Field<DateValue>,
    patientId: Field<string>,
    provider: Field<string>,
    status: Field<string>,
    creditId: Field<nat>)

  /** All validation errors of a creation. `status` has a default, so only an explicit `null` fails; `patientId` and `creditId` are nullable. */
  function CreateErrors(input: BookingInput, loadedAt: int): seq<FieldError>
  {
    RequiredDateErrors("time", input.time, Some(loadedAt))
    + RequiredErrors("provider", input.provider)
    + NotNullErrors("status", input.status)
  }

  /** `Booking.create`: validate, then build the row the insert stores under the next id. */
  function Build(input: BookingInput, id: nat, now: int, loadedAt: int): (r: Result<Booking, seq<FieldError>>)
    requires id > 0
    ensures r.Success? <==>
      && input.time.Present? && input.time.value.Instant? && input.time.value.ms > loadedAt
      && input.provider.Present?
      && !input.status.Null?
    ensures r.Failure? ==> r.error != []
    ensures r.Success? ==> r.value.id == id
    ensures r.Success? ==>
      && r.value.time == input.time.value.ms
      && r.value.provider == input.provider.value
      && r.value.status == (if input.status.Present? then input.status.value else DefaultStatus)
      && (r.value.patientId.Some? <==> input.patientId.Present?)
      && (r.value.patientId.Some? ==> r.value.patientId.value == input.patientId.value)
      && (r.value.creditId.Some? <==> input.creditId.Present?)
      && (r.value.creditId.Some? ==> r.value.creditId.value == input.creditId.value)
      && r.value.createdAt == now && r.value.updatedAt == now
  {
    var errs := CreateErrors(input, loadedAt);
    if errs != [] then Failure(errs)
    else
      Success(Booking(
        id,
        input.time.value.ms,
        Nullable(input.patientId),
        input.provider.value,
        if input.status.Present? then input.status.value else DefaultStatus,
        Nullable(input.creditId),
        now,
        now))
  }

  /** All validation errors of an update: only the attributes it carries are checked. */
  function PatchErrors(patch: BookingPatch, loadedAt: int): (errs: seq<FieldError>)
    ensures errs == [] <==>
      && !patch.time.Null? && (patch.time.Present? ==> patch.time.value.Instant? && patch.time.value.ms > loadedAt)
      && !patch.provider.Null?
      && !patch.status.Null?
  {
    UpdatedDateErrors("time", patch.time, Some(loadedAt))
    + NotNullErrors("provider", patch.provider)
    + NotNullErrors("status", patch.status)
  }

  /** The column a patch attribute leaves behind: a missing attribute keeps the old value. */
  function Patched<T>(current: T, f: Field<T>): T
    requires !f.Null?
  {
    if f.Present? then f.value else current
  }

  /** The column a nullable patch attribute leaves behind: `null` clears it. */
  function PatchedNullable<T>(current: Option<T>, f: Field<T>): Option<T>
  {
    match f
    case Absent => current
    case Null => None
    case Present(v) => Some(v)
  }

  /** A row after an update that passed validation. */
  function ApplyPatch(b: Booking, patch: BookingPatch, now: int, loadedAt: int): (r: Booking)
    requires PatchErrors(patch, loadedAt) == []
    ensures r.id == b.id && r.createdAt == b.createdAt && r.updatedAt == now
    ensures b.time > loadedAt || patch.time.Present? ==> r.time > loadedAt
    ensures patch.status.Absent? ==> r.status == b.status
    ensures patch.status.Present? ==> r.status == patch.status.value
    ensures patch.time.Absent? ==> r.time == b.time
    ensures patch.time.Present? ==> patch.time.value.Instant? && r.time == patch.time.value.ms
    ensures patch.provider.Absent? ==> r.provider == b.provider
    ensures patch.provider.Present? ==> r.provider == patch.provider.value
    ensures patch.patientId.Absent? ==> r.patientId == b.patientId
    ensures patch.patientId.Present? ==> r.patientId == Some(patch.patientId.value)
    ensures patch.patientId.Null? ==> r.patientId.None?
    ensures patch.creditId.Absent? ==> r.creditId == b.creditId
    ensures patch.creditId.Present? ==> r.creditId == Some(patch.creditId.value)
    ensures patch.creditId.Null? ==> r.creditId.None?
  {
    b.(time := if patch.time.Present? then patch.time.value.ms else b.time,
       patientId := PatchedNullable(b.patientId, patch.patientId),
       provider := Patched(b.provider, patch.provider),
       status := Patched(b.status, patch.status),
       creditId := PatchedNullable(b.creditId, patch.creditId),
       updatedAt := now)
  }
}
