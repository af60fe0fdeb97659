/**
 * The rate handlers: request validation, the choice of status code, and
 * the call into the rate model.
 */
module RateController {
  import opened Options
  import opened Orders
  import opened Dates
  import opened Store
  import opened Responses
  import RateModel

  /** The value of `rate` in a request body, already read as a number. */
  datatype RateValue = Undefined | NotANumber | Number(value: real)

  datatype RateBody = RateBody(
    baseCurrencyCode: Option<string>,
    targetCurrencyCode: Option<string>,
    rate: RateValue,
    effectiveDate: Option<string>)

  /**
   * The query of the paginated listing; `offset` and `limit` are the results
   * of `parseInt`, `None` standing for NaN (absent or not a number).
   */
  datatype PageQuery = PageQuery(
    date: Option<string>,
    baseCurrency: Option<string>,
    offset: Option<int>,
    limit: Option<int>)

  const DefaultLimit: int := 15
  const MaxLimit: int := 50

  function GetLatestRates(db: Database, today: Date): (resp: Response)
    reads db
    ensures resp.status == StatusOk && resp.payload.Rates?
    ensures Sorted(resp.payload.rows, RateModel.PairLe)
    ensures forall x :: x in resp.payload.rows ==> Some(x.effectiveDate) == RateModel.LatestDate(db.rates, today)
    ensures resp.payload.rows == RateModel.GetLatestRates(db.currencies, db.rates, today)
  {
    Response(StatusOk, Rates(RateModel.GetLatestRates(db.currencies, db.rates, today)))
  }

  /**
   * 400 for a missing date or one not of the shape `YYYY-MM-DD` (without
   * querying); 500 when the database cannot cast it; 404 when no joined rate
   * has that date; otherwise 200 with the rows.
   */
  function GetHistoricalRates(db: Database, date: Option<string>): (resp: Response)
    reads db
    ensures resp.status == StatusBadRequest <==> date.None? || !HasIsoDateShape(date.value)
    ensures resp.status == StatusBadRequest ==> resp.payload == Failure(InvalidDateFormat)
    ensures resp.status == StatusServerError <==>
      date.Some? && HasIsoDateShape(date.value) && CastDate(date.value).None?
    ensures resp.status == StatusNotFound <==>
      && date.Some? && HasIsoDateShape(date.value) && CastDate(date.value).Some?
      && forall r :: r in db.rates && RateModel.Resolves(db.currencies, r) ==> Some(r.effectiveDate) != CastDate(date.value)
    ensures resp.status == StatusOk ==>
      && resp.payload.Rates? && resp.payload.rows != []
      && Sorted(resp.payload.rows, RateModel.PairLe)
      && forall x :: x in resp.payload.rows ==> CastDate(date.value) == Some(x.effectiveDate)
    ensures resp.status == StatusOk ==>
      RateModel.GetHistoricalRates(db.currencies, db.rates, date.value) == Ok(resp.payload.rows)
    ensures resp.status in {StatusOk, StatusBadRequest, StatusNotFound, StatusServerError}
  {
    if date.None? || !HasIsoDateShape(date.value) then Response(StatusBadRequest, Failure(InvalidDateFormat))
    else match RateModel.GetHistoricalRates(db.currencies, db.rates, date.value)
      case Err(_) => Response(StatusServerError, Failure(QueryFailed))
      case Ok(rows) =>
        RateModel.SelectEmptyIff(db.currencies, db.rates, CastDate(date.value), None);
        if |rows| == 0 then Response(StatusNotFound, Failure(NoRatesForDate))
        else Response(StatusOk, Rates(rows))
  }

  /** `parseInt(offset) || 0`: NaN and 0 both become 0. */
  function NormalOffset(offset: Option<int>): (n: int)
    ensures offset.Some? && offset.value != 0 ==> n == offset.value
    ensures offset.None? || offset.value == 0 ==> n == 0
  {
    if offset.None? then 0 else offset.value
  }

  /** `parseInt(limit) || 15`: NaN and 0 both become the default 15. */
  function NormalLimit(limit: Option<int>): (n: int)
    ensures limit.Some? && limit.value != 0 ==> n == limit.value
    ensures limit.None? || limit.value == 0 ==> n == DefaultLimit
  {
    if limit.None? || limit.value == 0 then DefaultLimit else limit.value
  }

  /** `offsetInt < 0 || limitInt < 1 || limitInt > 50` rejects the window. */
  predicate ValidWindow(offset: int, limit: int) {
    0 <= offset && 1 <= limit <= MaxLimit
  }

  /**
   * On the parsed parameters: an absent offset is fine, a negative one is
   * not; an absent or zero limit falls back to the default and is fine,
   * any other limit must lie in 1..50.
   */
  lemma ParsedWindowIsValid(offset: Option<int>, limit: Option<int>)
    ensures ValidWindow(NormalOffset(offset), NormalLimit(limit)) <==>
      && (offset.None? || 0 <= offset.value)
      && (limit.None? || limit.value == 0 || 1 <= limit.value <= MaxLimit)
  {
  }

  /**
   * 400 when the normalised window is out of range (without querying); 500
   * when the date text cannot be cast; otherwise 200 with the page, the
   * normalised offset and limit, and `hasMore` exactly when the page is full.
   * An empty page is a success, never a 404.
   */
  function GetPaginatedRates(db: Database, q: PageQuery, today: Date): (resp: Response)
    reads db
    ensures resp.status == StatusBadRequest <==> !ValidWindow(NormalOffset(q.offset), NormalLimit(q.limit))
    ensures resp.status == StatusBadRequest ==> resp.payload == Failure(InvalidPagination)
    ensures resp.status == StatusServerError <==>
      ValidWindow(NormalOffset(q.offset), NormalLimit(q.limit)) && RateModel.SelectsHistory(q.date) && CastDate(q.date.value).None?
    ensures resp.status == StatusOk ==>
      && resp.payload.RatePage?
      && resp.payload.offset == NormalOffset(q.offset)
      && resp.payload.limit == NormalLimit(q.limit)
      && (resp.payload.hasMore <==> |resp.payload.rows| == resp.payload.limit)
      && |resp.payload.rows| <= resp.payload.limit
      && Sorted(resp.payload.rows, RateModel.PairLe)
    ensures resp.status == StatusOk ==>
      RateModel.GetPaginatedRates(db.currencies, db.rates, q.date, q.baseCurrency,
                                  NormalOffset(q.offset), NormalLimit(q.limit), today) == Ok(resp.payload.rows)
    ensures resp.status in {StatusOk, StatusBadRequest, StatusServerError}
  {
    var offset, limit := NormalOffset(q.offset), NormalLimit(q.limit);
    if offset < 0 || limit < 1 || limit > MaxLimit then Response(StatusBadRequest, Failure(InvalidPagination))
    else match RateModel.GetPaginatedRates(db.currencies, db.rates, q.date, q.baseCurrency, offset, limit, today)
      case Err(_) => Response(StatusServerError, Failure(QueryFailed))
      case Ok(rows) => Response(StatusOk, RatePage(rows, offset, limit, |rows| == limit))
  }

  /** When a page comes back without `hasMore`, the request for the following page returns no rows. */
  lemma NoMoreMeansLastPage(db: Database, q: PageQuery, today: Date)
    requires GetPaginatedRates(db, q, today).status == StatusOk
    requires !GetPaginatedRates(db, q, today).payload.hasMore
    ensures var next := q.(offset := Some(NormalOffset(q.offset) + NormalLimit(q.limit)));
      GetPaginatedRates(db, next, today) == Response(StatusOk, RatePage([], NormalOffset(q.offset) + NormalLimit(q.limit), NormalLimit(q.limit), false))
  {
    var offset, limit := NormalOffset(q.offset), NormalLimit(q.limit);
    var all := RateModel.Select(db.currencies, db.rates, RateModel.PageDate(db.rates, q.date, today), RateModel.BaseFilter(q.baseCurrency));
    RateModel.ShortPageIsLast(all, offset, limit, offset + limit, limit);
  }

  /** Every joined rate with its id, newest effective date first. */
  function GetAllRates(db: Database): (resp: Response)
    reads db
    ensures resp.status == StatusOk && resp.payload.RateListings?
    ensures Sorted(resp.payload.listings, RateModel.DateDescending)
    ensures multiset(resp.payload.listings) == multiset(RateModel.Join(db.currencies, db.rates))
  {
    Response(StatusOk, RateListings(RateModel.GetAllRates(db.currencies, db.rates)))
  }

  /**
   * The checks create and update make, in order: every field present, the
   * date of the shape `YYYY-MM-DD`, the rate a non-negative number. `None`
   * means the body passes.
   */
  function RateBodyError(body: RateBody): (e: Option<Reason>)
    ensures e == Some(MissingRateFields) <==>
      !(Given(body.baseCurrencyCode) && Given(body.targetCurrencyCode) && !body.rate.Undefined? && Given(body.effectiveDate))
    ensures e == Some(InvalidDateFormat) <==>
      && Given(body.baseCurrencyCode) && Given(body.targetCurrencyCode) && !body.rate.Undefined? && Given(body.effectiveDate)
      && !HasIsoDateShape(body.effectiveDate.value)
    ensures e.None? <==>
      && Given(body.baseCurrencyCode) && Given(body.targetCurrencyCode) && Given(body.effectiveDate)
      && HasIsoDateShape(body.effectiveDate.value)
      && body.rate.Number? && body.rate.value >= 0.0
    ensures e.Some? ==> e.value in {MissingRateFields, InvalidDateFormat, InvalidRate}
  {
    if !Given(body.baseCurrencyCode) || !Given(body.targetCurrencyCode) || body.rate.Undefined? || !Given(body.effectiveDate) then
      Some(MissingRateFields)
    else if !HasIsoDateShape(body.effectiveDate.value) then Some(InvalidDateFormat)
    else if body.rate.NotANumber? || body.rate.value < 0.0 then Some(InvalidRate)
    else None
  }

  /** The resolution the model performs for a body that passed the checks. */
  function PlanOf(cs: seq<Currency>, body: RateBody): Result<RateModel.Resolved>
    requires RateBodyError(body).None?
  {
    RateModel.ResolveRateFields(cs, body.baseCurrencyCode.value, body.targetCurrencyCode.value, body.effectiveDate.value)
  }

  /** 400 without a write for a bad body; 500 with the model's error; 201 with the new row. */
  method CreateRate(db: Database, body: RateBody) returns (resp: Response)
    requires db.Valid()
    modifies db
    ensures db.Valid()
    ensures RateBodyError(body).Some? ==>
      resp == Response(StatusBadRequest, Failure(RateBodyError(body).value)) && db.rates == old(db.rates)
    ensures RateBodyError(body).None? ==>
      var plan := PlanOf(old(db.currencies), body);
      && (plan.Err? ==> resp == Response(StatusServerError, Failure(Failed(plan.error))) && db.rates == old(db.rates))
      && (plan.Ok? ==>
            var record := RateModel.RecordOf(old(db.nextRateId), plan.value, body.rate.value);
            resp == Response(StatusCreated, SavedRate(Some(record))) && db.rates == old(db.rates) + [record])
    ensures db.nextRateId ==
      if RateBodyError(body).None? && PlanOf(old(db.currencies), body).Ok? then old(db.nextRateId) + 1 else old(db.nextRateId)
    ensures db.currencies == old(db.currencies) && db.nextCurrencyId == old(db.nextCurrencyId)
    ensures NoDangling(old(db.currencies), old(db.rates)) ==> NoDangling(db.currencies, db.rates)
  {
    var error := RateBodyError(body);
    if error.Some? {
      return Response(StatusBadRequest, Failure(error.value));
    }
    var result := RateModel.CreateRate(db, body.baseCurrencyCode.value, body.targetCurrencyCode.value,
                                       body.rate.value, body.effectiveDate.value);
    match result
    case Err(e) => resp := Response(StatusServerError, Failure(Failed(e)));
    case Ok(record) => resp := Response(StatusCreated, SavedRate(Some(record)));
  }

  /**
   * 400 without a write for a bad body; 500 with the model's error; otherwise
   * 200 with the updated row, or with no row when the id is unknown.
   */
  method UpdateRate(db: Database, id: int, body: RateBody) returns (resp: Response)
    requires db.Valid()
    modifies db
    ensures db.Valid()
    ensures RateBodyError(body).Some? ==>
      resp == Response(StatusBadRequest, Failure(RateBodyError(body).value)) && db.rates == old(db.rates)
    ensures RateBodyError(body).None? ==>
      var plan := PlanOf(old(db.currencies), body);
      && (plan.Err? ==> resp == Response(StatusServerError, Failure(Failed(plan.error))) && db.rates == old(db.rates))
      && (plan.Ok? ==>
            && db.rates == RateModel.WithRateUpdated(old(db.rates), id, plan.value, body.rate.value)
            && resp == Response(StatusOk, SavedRate(
                 if HasRate(old(db.rates), id) then Some(RateModel.RecordOf(id, plan.value, body.rate.value)) else None)))
    ensures db.currencies == old(db.currencies)
    ensures db.nextCurrencyId == old(db.nextCurrencyId) && db.nextRateId == old(db.nextRateId)
    ensures NoDangling(old(db.currencies), old(db.rates)) ==> NoDangling(db.currencies, db.rates)
  {
    var error := RateBodyError(body);
    if error.Some? {
      return Response(StatusBadRequest, Failure(error.value));
    }
    var result := RateModel.UpdateRate(db, id, body.baseCurrencyCode.value, body.targetCurrencyCode.value,
                                       body.rate.value, body.effectiveDate.value);
    match result
    case Err(e) => resp := Response(StatusServerError, Failure(Failed(e)));
    case Ok(record) => resp := Response(StatusOk, SavedRate(record));
  }

  /** 400 without an id; 404 when no row has the id; otherwise 200 with the deleted id. */
  method DeleteRate(db: Database, id: Option<int>) returns (resp: Response)
    requires db.Valid()
    modifies db
    ensures db.Valid()
    ensures id.None? ==> resp == Response(StatusBadRequest, Failure(MissingRateId)) && db.rates == old(db.rates)
    ensures id.Some? && !HasRate(old(db.rates), id.value) ==>
      resp == Response(StatusNotFound, Failure(RateNotFound)) && db.rates == old(db.rates)
    ensures id.Some? && HasRate(old(db.rates), id.value) ==>
      resp == Response(StatusOk, DeletedRate(id.value)) && db.rates == RateModel.WithoutRate(old(db.rates), id.value)
    ensures db.currencies == old(db.currencies)
    ensures db.nextCurrencyId == old(db.nextCurrencyId) && db.nextRateId == old(db.nextRateId)
    ensures NoDangling(old(db.currencies), old(db.rates)) ==> NoDangling(db.currencies, db.rates)
  {
    if id.None? {
      return Response(StatusBadRequest, Failure(MissingRateId));
    }
    var deleted := RateModel.DeleteRate(db, id.value);
    if deleted.None? {
      resp := Response(StatusNotFound, Failure(RateNotFound));
    } else {
      resp := Response(StatusOk, DeletedRate(deleted.value));
    }
  }
}
