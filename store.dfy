/**
 * The two tables of the relational store, `currencies` and `rates`, with the
 * serial counters that assign new ids, and the predicates that describe
 * their integrity.
 */
module Store {
  import opened Options
  import opened Dates

  /** A row of `currencies`. */
  datatype Currency = Currency(id: int, code: string, name: string)

  /** A row of `rates`: both currencies are referenced by id. */
  datatype RateRecord = RateRecord(
    id: int,
    baseCurrencyId: int,
    targetCurrencyId: int,
    rate: real,
    effectiveDate: Date)

  /** The errors the model methods raise; `Rate.js` and `Currency.js` throw them. */
  datatype StoreError =
    | UnknownBaseCurrency(code: string)
    | UnknownTargetCurrency(code: string)
    | InvalidDateValue
    | CurrencyInUse

  datatype Result<+T> = Ok(value: T) | Err(error: StoreError)

  predicate DistinctCurrencyIds(cs: seq<Currency>) {
    forall i, j :: 0 <= i < j < |cs| ==> cs[i].id != cs[j].id
  }

  predicate DistinctRateIds(rs: seq<RateRecord>) {
    forall i, j :: 0 <= i < j < |rs| ==> rs[i].id != rs[j].id
  }

  /** No two currencies share a code (compared exactly, case-sensitive). */
  predicate UniqueCodes(cs: seq<Currency>) {
    forall i, j :: 0 <= i < j < |cs| ==> cs[i].code != cs[j].code
  }

  predicate HasCurrency(cs: seq<Currency>, id: int) {
    exists c :: c in cs && c.id == id
  }

  /** Some currency has exactly this code. */
  predicate HasCode(cs: seq<Currency>, code: string) {
    exists c :: c in cs && c.code == code
  }

  predicate HasRate(rs: seq<RateRecord>, id: int) {
    exists r :: r in rs && r.id == id
  }

  /** Some rate uses currency `id` as its base or its target. */
  predicate IsReferenced(rs: seq<RateRecord>, id: int) {
    exists r :: r in rs && (r.baseCurrencyId == id || r.targetCurrencyId == id)
  }

  /** Every rate's base and target currency exists. */
  predicate NoDangling(cs: seq<Currency>, rs: seq<RateRecord>) {
    forall r :: r in rs ==> HasCurrency(cs, r.baseCurrencyId) && HasCurrency(cs, r.targetCurrencyId)
  }

  /**
   * What the store itself guarantees: ids are primary keys drawn from a
   * serial counter, and a date column holds only calendar dates.
   */
  predicate TablesValid(cs: seq<Currency>, rs: seq<RateRecord>, nextCurrencyId: int, nextRateId: int) {
    && 1 <= nextCurrencyId && 1 <= nextRateId
    && DistinctCurrencyIds(cs)
    && DistinctRateIds(rs)
    && (forall c :: c in cs ==> 1 <= c.id < nextCurrencyId)
    && (forall r :: r in rs ==> 1 <= r.id < nextRateId)
    && (forall r :: r in rs ==> IsCalendarDate(r.effectiveDate))
  }

  /** The database shared by the model methods of both tables. */
  class Database {
    var currencies: seq<Currency>
    var rates: seq<RateRecord>
    var nextCurrencyId: int
    var nextRateId: int

    ghost predicate Valid()
      reads this
    {
      TablesValid(currencies, rates, nextCurrencyId, nextRateId)
    }

    /** An empty database whose serial counters start at 1. */
    constructor ()
      ensures Valid()
      ensures currencies == [] && rates == []
      ensures nextCurrencyId == 1 && nextRateId == 1
    {
      currencies := [];
      rates := [];
      nextCurrencyId := 1;
      nextRateId := 1;
    }
  }
}
