/** Outcomes of the readings API: a value, a missing resource (HTTP 404) or a
    request that failed validation (HTTP 422), with field-level detail. */
module Http {

  datatype Option<+T> = None | Some(value: T) {
    /** The carried value, or `default` when absent (a query parameter's default). */
    function GetOr(default: T): T {
      match this
      case Some(v) => v
      case None => default
    }
  }

  /** The request fields that carry a range constraint. */
  datatype Field = Systolic | Diastolic | HeartRate | Skip | Limit

  /** Why a field was rejected: it is absent, or it lies outside an inclusive bound. */
  datatype Violation = Missing | BelowMinimum(min: int) | AboveMaximum(max: int)

  datatype FieldError = FieldError(field: Field, violation: Violation)

  /** Ok maps to the endpoint's success status (200, 201 or 204), NotFound to 404
      and Invalid to 422. */
  datatype Result<T> = Ok(value: T) | NotFound | Invalid(errors: seq<FieldError>)

  /** Whether `v` is a correct account of why `value` fails the bounds `lo..hi`. */
  predicate Reports(v: Violation, value: Option<int>, lo: int, hi: int) {
    match v
    case Missing => value.None?
    case BelowMinimum(min) => min == lo && value.Some? && value.value < lo
    case AboveMaximum(max) => max == hi && value.Some? && value.value > hi
  }

  /** The errors for a required integer field constrained to `lo..hi` inclusive:
      none when the field is present and in range, otherwise one that says why. */
  function CheckRequired(field: Field, value: Option<int>, lo: int, hi: int): (errs: seq<FieldError>)
    requires lo <= hi
    ensures errs == [] <==> value.Some? && lo <= value.value <= hi
    ensures |errs| <= 1
    ensures forall e :: e in errs ==> e.field == field && Reports(e.violation, value, lo, hi)
  {
    match value
    case None => [FieldError(field, Missing)]
    case Some(x) =>
      if x < lo then [FieldError(field, BelowMinimum(lo))]
      else if x > hi then [FieldError(field, AboveMaximum(hi))]
      else []
  }
}
