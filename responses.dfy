/**
 * What a handler sends back: an HTTP status and a JSON payload, either
 * `{success: false, message}` (a `Failure` with the reason the message
 * states) or `{success: true, data}`.
 */
module Responses {
  import opened Options
  import opened Store
  import RateModel

  const StatusOk: int := 200
  const StatusCreated: int := 201
  const StatusBadRequest: int := 400
  const StatusNotFound: int := 404
  const StatusConflict: int := 409
  const StatusServerError: int := 500

  datatype Reason =
    | InvalidDateFormat
    | NoRatesForDate
    | InvalidPagination
    | MissingRateFields
    | InvalidRate
    | MissingRateId
    | RateNotFound
    | MissingCurrencyFields
    | CurrencyNotFound
    | DuplicateCode
    | QueryFailed                   // a generic message; the cause is only logged
    | Failed(error: StoreError)     // the message of the model's error is passed on

  datatype Payload =
    | Failure(reason: Reason)
    | Rates(rows: seq<RateModel.RateRow>)
    | RatePage(rows: seq<RateModel.RateRow>, offset: int, limit: int, hasMore: bool)
    | RateListings(listings: seq<RateModel.JoinedRate>)
    | SavedRate(record: Option<RateRecord>)
    | DeletedRate(id: int)
    | Currencies(list: seq<Currency>)
    | OneCurrency(currency: Option<Currency>)

  datatype Response = Response(status: int, payload: Payload)

  /** A request text field that JavaScript treats as true: present and not empty. */
  predicate Given(field: Option<string>) {
    field.Some? && field.value != ""
  }
}
