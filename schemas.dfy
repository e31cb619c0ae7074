/** Record shapes of the readings API and the range validation of a create
    request. Timestamps are instants counted in a fixed unit; the model only
    compares them. */
module Schemas {
  import opened Http

  const SystolicMin := 40
  const SystolicMax := 300
  const DiastolicMin := 20
  const DiastolicMax := 200
  const HeartRateMin := 20
  const HeartRateMax := 250

  /** A stored reading, which is also the response record: it always carries an
      id and a timestamp. */
  datatype Reading = Reading(id: int, systolic: int, diastolic: int, heartRate: int, timestamp: int)

  /** A validated create request: the timestamp is optional. */
  datatype ReadingCreate = ReadingCreate(systolic: int, diastolic: int, heartRate: int, timestamp: Option<int>)

  /** A create request body as received, before validation: any field may be absent. */
  datatype CreateBody = CreateBody(systolic: Option<int>, diastolic: Option<int>, heartRate: Option<int>, timestamp: Option<int>)

  /** The list response: a wrapper around a sequence of response records. */
  datatype ReadingList = ReadingList(readings: seq<Reading>)

  predicate ValidMeasurements(systolic: int, diastolic: int, heartRate: int) {
    && SystolicMin <= systolic <= SystolicMax
    && DiastolicMin <= diastolic <= DiastolicMax
    && HeartRateMin <= heartRate <= HeartRateMax
  }

  predicate ValidCreate(c: ReadingCreate) {
    ValidMeasurements(c.systolic, c.diastolic, c.heartRate)
  }

  predicate ValidReading(r: Reading) {
    ValidMeasurements(r.systolic, r.diastolic, r.heartRate)
  }

  /** Joining the at-most-one error of each of three different fields never
      names a field twice. */
  lemma OneErrorPerField(s: seq<FieldError>, d: seq<FieldError>, h: seq<FieldError>)
    requires |s| <= 1 && |d| <= 1 && |h| <= 1
    requires forall e :: e in s ==> e.field == Systolic
    requires forall e :: e in d ==> e.field == Diastolic
    requires forall e :: e in h ==> e.field == HeartRate
    ensures forall i, j :: 0 <= i < j < |s + d + h| ==> (s + d + h)[i].field != (s + d + h)[j].field
  {
    var errs := s + d + h;
    forall i | 0 <= i < |errs|
      ensures errs[i].field == (if i < |s| then Systolic else if i < |s| + |d| then Diastolic else HeartRate)
    {
      if i < |s| { assert errs[i] == s[i]; }
      else if i < |s| + |d| { assert errs[i] == d[i - |s|]; }
      else { assert errs[i] == h[i - |s| - |d|]; }
    }
  }

  /** Validates a create request body. It is accepted exactly when the three
      measurements are present and in range; then they and the (possibly absent)
      timestamp are carried over unchanged. Otherwise every offending field is
      reported, once, and nothing is reported about a field that is fine. */
  function Validate(body: CreateBody): (r: Result<ReadingCreate>)
    ensures r.Ok? <==>
      && body.systolic.Some? && 40 <= body.systolic.value <= 300
      && body.diastolic.Some? && 20 <= body.diastolic.value <= 200
      && body.heartRate.Some? && 20 <= body.heartRate.value <= 250
    ensures r.Ok? ==>
      && ValidCreate(r.value)
      && r.value.systolic == body.systolic.value
      && r.value.diastolic == body.diastolic.value
      && r.value.heartRate == body.heartRate.value
      && r.value.timestamp == body.timestamp
    ensures !r.NotFound?
    ensures r.Invalid? ==> 1 <= |r.errors| <= 3
    ensures r.Invalid? ==> forall e :: e in r.errors ==>
      match e.field
      case Systolic => Reports(e.violation, body.systolic, 40, 300)
      case Diastolic => Reports(e.violation, body.diastolic, 20, 200)
      case HeartRate => Reports(e.violation, body.heartRate, 20, 250)
      case _ => false
    ensures r.Invalid? && !(body.systolic.Some? && 40 <= body.systolic.value <= 300) ==>
      exists e :: e in r.errors && e.field == Systolic
    ensures r.Invalid? && !(body.diastolic.Some? && 20 <= body.diastolic.value <= 200) ==>
      exists e :: e in r.errors && e.field == Diastolic
    ensures r.Invalid? && !(body.heartRate.Some? && 20 <= body.heartRate.value <= 250) ==>
      exists e :: e in r.errors && e.field == HeartRate
    ensures r.Invalid? ==> forall i, j :: 0 <= i < j < |r.errors| ==> r.errors[i].field != r.errors[j].field
  {
    var s := CheckRequired(Systolic, body.systolic, SystolicMin, SystolicMax);
    var d := CheckRequired(Diastolic, body.diastolic, DiastolicMin, DiastolicMax);
    var h := CheckRequired(HeartRate, body.heartRate, HeartRateMin, HeartRateMax);
    var errs := s + d + h;
    if errs == [] then
      Ok(ReadingCreate(body.systolic.value, body.diastolic.value, body.heartRate.value, body.timestamp))
    else
      assert s != [] ==> s[0] in errs;
      assert d != [] ==> d[0] in errs;
      assert h != [] ==> h[0] in errs;
      OneErrorPerField(s, d, h);
      Invalid(errs)
  }
}
