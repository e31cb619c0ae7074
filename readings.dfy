/** The readings endpoints: list with pagination, create, get by id, delete by id
    and delete-all, over a table of readings keyed by id. The table lives in a
    ReadingStore object whose methods change it in place; the read-only queries
    are functions of the table. */
module Readings {
  import opened Http
  import opened Schemas
  import opened Ordering

  const DefaultSkip := 0
  const DefaultLimit := 100
  const MaxLimit := 100

  /** Validated pagination parameters. */
  datatype Page = Page(skip: nat, limit: nat)

  /** Reads the `skip` and `limit` query parameters: absent ones take their
      defaults (0 and 100), and the request is rejected unless skip >= 0 and
      1 <= limit <= 100, with one error per offending parameter. */
  function ParseListParams(skip: Option<int>, limit: Option<int>): (r: Result<Page>)
    ensures r.Ok? <==> skip.GetOr(0) >= 0 && 1 <= limit.GetOr(100) <= 100
    ensures r.Ok? ==> r.value.skip == skip.GetOr(0) && r.value.limit == limit.GetOr(100)
    ensures !r.NotFound?
    ensures r.Invalid? ==> r.errors != [] && forall e :: e in r.errors ==>
      match e.field
      case Skip => e.violation == BelowMinimum(0) && skip.GetOr(0) < 0
      case Limit =>
        || (e.violation == BelowMinimum(1) && limit.GetOr(100) < 1)
        || (e.violation == AboveMaximum(100) && limit.GetOr(100) > 100)
      case _ => false
    ensures skip.GetOr(0) < 0 ==> r.Invalid? && FieldError(Skip, BelowMinimum(0)) in r.errors
    ensures limit.GetOr(100) < 1 ==> r.Invalid? && FieldError(Limit, BelowMinimum(1)) in r.errors
    ensures limit.GetOr(100) > 100 ==> r.Invalid? && FieldError(Limit, AboveMaximum(100)) in r.errors
    ensures r.Invalid? ==> forall i, j :: 0 <= i < j < |r.errors| ==> r.errors[i].field != r.errors[j].field
  {
    var s := skip.GetOr(DefaultSkip);
    var l := limit.GetOr(DefaultLimit);
    var skipErrs := if s < 0 then [FieldError(Skip, BelowMinimum(0))] else [];
    var limitErrs :=
      if l < 1 then [FieldError(Limit, BelowMinimum(1))]
      else if l > MaxLimit then [FieldError(Limit, AboveMaximum(MaxLimit))]
      else [];
    if skipErrs == [] && limitErrs == [] then Ok(Page(s, l))
    else Invalid(skipErrs + limitErrs)
  }

  function Min(a: int, b: int): int { if a <= b then a else b }
  function Max(a: int, b: int): int { if a >= b then a else b }

  /** `OFFSET skip LIMIT limit` applied to an ordering `v`. */
  function Window(v: seq<Reading>, skip: nat, limit: nat): (w: seq<Reading>)
    ensures |w| == Min(limit, Max(0, |v| - skip))
    ensures forall i :: 0 <= i < |w| ==> w[i] == v[skip + i]
  {
    var lo := Min(skip, |v|);
    var hi := Min(skip + limit, |v|);
    v[lo..hi]
  }

  /** `SELECT * ORDER BY timestamp DESC OFFSET skip LIMIT limit` over the table:
      the [skip, skip + limit) window of an admissible timestamp-descending
      ordering of the table, so min(limit, max(0, |table| - skip)) entries, each
      an entry of the table, none twice, with timestamps never increasing. */
  function ListReadings(m: map<int, Reading>, skip: nat, limit: nat): (r: seq<Reading>)
    requires WellKeyed(m)
    ensures |r| == Min(limit, Max(0, |m| - skip))
    ensures forall i :: 0 <= i < |r| ==> r[i].id in m && m[r[i].id] == r[i]
    ensures NonIncreasing(r) && DistinctIds(r)
    ensures exists v :: IsDescendingView(m, v) && r == Window(v, skip, limit)
  {
    var v := SortedView(m);
    SortedViewIsDescending(m);
    Window(v, skip, limit)
  }

  /** The same window of two admissible orderings lists the same timestamps. */
  lemma WindowsAgree(m: map<int, Reading>, v1: seq<Reading>, v2: seq<Reading>, skip: nat, limit: nat)
    requires IsDescendingView(m, v1) && IsDescendingView(m, v2)
    ensures |Window(v1, skip, limit)| == |Window(v2, skip, limit)|
    ensures forall i :: 0 <= i < |Window(v1, skip, limit)| ==>
      Window(v1, skip, limit)[i].timestamp == Window(v2, skip, limit)[i].timestamp
  {
    DescendingViewsAgree(m, v1, v2);
    var w1, w2 := Window(v1, skip, limit), Window(v2, skip, limit);
    forall i | 0 <= i < |w1|
      ensures w1[i].timestamp == w2[i].timestamp
    {
      assert w1[i] == v1[skip + i] && w2[i] == v2[skip + i];
    }
  }

  /** Whatever order SQL picks among equal timestamps, the page lists the same
      timestamps; when no two readings share a timestamp, the page is exactly the
      window of any admissible ordering. */
  lemma ListAgreesWithEveryOrdering(m: map<int, Reading>, v: seq<Reading>, skip: nat, limit: nat)
    requires WellKeyed(m) && IsDescendingView(m, v)
    ensures |ListReadings(m, skip, limit)| == |Window(v, skip, limit)|
    ensures forall i :: 0 <= i < |ListReadings(m, skip, limit)| ==>
      ListReadings(m, skip, limit)[i].timestamp == Window(v, skip, limit)[i].timestamp
    ensures DistinctTimestamps(m) ==> ListReadings(m, skip, limit) == Window(v, skip, limit)
  {
    var sorted := SortedView(m);
    SortedViewIsDescending(m);
    assert ListReadings(m, skip, limit) == Window(sorted, skip, limit);
    WindowsAgree(m, sorted, v, skip, limit);
    if DistinctTimestamps(m) {
      DescendingViewUnique(m, sorted, v);
    }
  }

  /** The first page holds the most recent readings: no reading left off it is
      later than any reading on it. */
  lemma FirstPageIsMostRecent(m: map<int, Reading>, limit: nat, k: int)
    requires WellKeyed(m) && k in m
    requires forall i :: 0 <= i < |ListReadings(m, 0, limit)| ==> ListReadings(m, 0, limit)[i].id != k
    ensures forall i :: 0 <= i < |ListReadings(m, 0, limit)| ==>
      ListReadings(m, 0, limit)[i].timestamp >= m[k].timestamp
  {
    var r := ListReadings(m, 0, limit);
    var v: seq<Reading> :| IsDescendingView(m, v) && r == Window(v, 0, limit);
    var p :| 0 <= p < |v| && v[p].id == k;
    assert forall i :: 0 <= i < |r| ==> r[i] == v[i];
    assert p >= |r|;
    forall i | 0 <= i < |r|
      ensures r[i].timestamp >= m[k].timestamp
    {
      assert v[i].timestamp >= v[p].timestamp;
    }
  }

  /** GET /readings/: the validated page of the table, or the validation errors. */
  function GetReadings(m: map<int, Reading>, skip: Option<int>, limit: Option<int>): (r: Result<ReadingList>)
    requires WellKeyed(m)
    ensures r.Ok? <==> skip.GetOr(0) >= 0 && 1 <= limit.GetOr(100) <= 100
    ensures r.Ok? ==> r.value.readings == ListReadings(m, skip.GetOr(0), limit.GetOr(100))
    ensures r.Invalid? ==> ParseListParams(skip, limit) == Invalid(r.errors)
    ensures !r.NotFound?
  {
    match ParseListParams(skip, limit)
    case Ok(page) => Ok(ReadingList(ListReadings(m, page.skip, page.limit)))
    case NotFound => NotFound
    case Invalid(errs) => Invalid(errs)
  }

  /** GET /readings/{id}: the reading stored under `id`, or NotFound. */
  function GetReading(m: map<int, Reading>, id: int): (r: Result<Reading>)
    requires WellKeyed(m)
    ensures r.Ok? <==> id in m
    ensures r.Ok? ==> r.value.id == id && r.value == m[id]
    ensures !r.Ok? ==> r == NotFound
  {
    if id in m then Ok(m[id]) else NotFound
  }

  /** The timestamp a created reading gets: the one supplied, otherwise `now`. */
  function StampOrNow(timestamp: Option<int>, now: int): int {
    timestamp.GetOr(now)
  }

  /** The readings table. `nextId` stands for the database's primary-key
      sequence: every id in use is below it. */
  class ReadingStore {
    var table: map<int, Reading>
    var nextId: int

    /** Every entry sits under its own id, holds measurements that passed
        validation, and has an id the sequence has already handed out. */
    ghost predicate Valid()
      reads this
    {
      && WellKeyed(table)
      && (forall k :: k in table ==> ValidReading(table[k]))
      && (forall k :: k in table ==> k < nextId)
    }

    constructor ()
      ensures Valid() && table == map[]
    {
      table := map[];
      nextId := 1;
    }

    /** POST /readings/ once the body has passed validation: stores a new reading
        under an id not in use, copying the measurements and taking the supplied
        timestamp or `now`. Exactly that one entry is added. */
    method CreateReading(req: ReadingCreate, now: int) returns (r: Reading)
      requires Valid() && ValidCreate(req)
      modifies this
      ensures Valid()
      ensures r.id !in old(table)
      ensures r.systolic == req.systolic && r.diastolic == req.diastolic && r.heartRate == req.heartRate
      ensures r.timestamp == StampOrNow(req.timestamp, now)
      ensures table == old(table)[r.id := r]
      ensures |table| == |old(table)| + 1
      ensures GetReading(table, r.id) == Ok(r)
    {
      r := Reading(nextId, req.systolic, req.diastolic, req.heartRate, StampOrNow(req.timestamp, now));
      table := table[r.id := r];
      nextId := nextId + 1;
    }

    /** POST /readings/ with a raw body: an invalid body is answered with its
        validation errors and never reaches the table. */
    method PostReading(body: CreateBody, now: int) returns (r: Result<Reading>)
      requires Valid()
      modifies this
      ensures Valid()
      ensures !r.NotFound?
      ensures r.Ok? <==> Validate(body).Ok?
      ensures r.Invalid? ==> Validate(body) == Invalid(r.errors) && table == old(table)
      ensures r.Ok? ==>
        && r.value.id !in old(table)
        && r.value.systolic == body.systolic.value
        && r.value.diastolic == body.diastolic.value
        && r.value.heartRate == body.heartRate.value
        && r.value.timestamp == StampOrNow(body.timestamp, now)
        && table == old(table)[r.value.id := r.value]
    {
      match Validate(body)
      case Ok(req) =>
        var created := CreateReading(req, now);
        r := Ok(created);
      case Invalid(errs) =>
        r := Invalid(errs);
    }

    /** DELETE /readings/{id}: removes exactly that entry, or answers NotFound
        and leaves the table as it was. Either way, `id` is absent afterwards. */
    method DeleteReading(id: int) returns (r: Result<()>)
      requires Valid()
      modifies this
      ensures Valid()
      ensures r.Ok? <==> id in old(table)
      ensures !r.Ok? ==> r == NotFound && table == old(table)
      ensures r.Ok? ==> table == old(table) - {id} && |table| == |old(table)| - 1
      ensures GetReading(table, id) == NotFound
    {
      if id in table {
        table := table - {id};
        r := Ok(());
      } else {
        r := NotFound;
      }
    }

    /** DELETE /readings/: empties the table, whatever it held; every page listed
        afterwards is empty. */
    method DeleteAllReadings()
      requires Valid()
      modifies this
      ensures Valid()
      ensures table == map[]
      ensures forall skip: nat, limit: nat :: ListReadings(table, skip, limit) == []
    {
      table := map[];
    }
  }
}
