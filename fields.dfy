/**
 * What the three record schemas share: an attribute of a request body as the
 * ORM receives it, a date attribute as the ORM parses it, and the validation
 * errors it collects before anything reaches the database.
 */
module Fields {
  import opened Wrappers

  /** One attribute of a request body: `undefined`, `null`, or a value. */
  datatype Field<+T> = Absent | Null | Present(value: T)

  /** A date attribute: an instant (milliseconds since the epoch, UTC), or text that is not a date. */
  datatype DateValue = Instant(ms: int) | NotADate

  /** The three rules the schemas use: `allowNull: false`, `isDate`, `isAfter`. */
  datatype Rule = NotNull | IsDate | IsAfter

  /** One failed rule on one attribute. A validation error carries all of them. */
  datatype FieldError = FieldError(attribute: string, rule: Rule)

  /** The column value a nullable attribute is stored as: missing and `null` both give NULL. */
  function Nullable<T>(f: Field<T>): (r: Option<T>)
    ensures r.Some? <==> f.Present?
    ensures r.Some? ==> r.value == f.value
  {
    if f.Present? then Some(f.value) else None
  }

  /** Errors of a present date value: `isDate`, then `isAfter` when the attribute has one. */
  function DateErrors(name: string, v: DateValue, after: Option<int>): seq<FieldError>
  {
    match v
    case NotADate =>
      [FieldError(name, IsDate)] + (if after.Some? then [FieldError(name, IsAfter)] else [])
    case Instant(t) =>
      if after.Some? && t <= after.value then [FieldError(name, IsAfter)] else []
  }

  /** Errors of an attribute with `allowNull: false` when it is created: missing and `null` both fail. */
  function RequiredErrors<T>(name: string, f: Field<T>): seq<FieldError>
  {
    if f.Present? then [] else [FieldError(name, NotNull)]
  }

  /** Errors of an attribute with `allowNull: false` in an update: only an explicit `null` fails. */
  function NotNullErrors<T>(name: string, f: Field<T>): seq<FieldError>
  {
    if f.Null? then [FieldError(name, NotNull)] else []
  }

  /** Errors of a required date attribute when it is created. */
  function RequiredDateErrors(name: string, f: Field<DateValue>, after: Option<int>): (errs: seq<FieldError>)
    ensures errs == [] <==> f.Present? && f.value.Instant? && (after.Some? ==> f.value.ms > after.value)
  {
    if f.Present? then DateErrors(name, f.value, after) else [FieldError(name, NotNull)]
  }

  /** Errors of a non-null date attribute in an update: a missing one is not checked. */
  function UpdatedDateErrors(name: string, f: Field<DateValue>, after: Option<int>): (errs: seq<FieldError>)
    ensures errs == [] <==> !f.Null? && (f.Present? ==> f.value.Instant? && (after.Some? ==> f.value.ms > after.value))
  {
    match f
    case Absent => []
    case Null => [FieldError(name, NotNull)]
    case Present(v) => DateErrors(name, v, after)
  }
}
