/**
 * The currency handlers: the missing-field check, the duplicate-code rule
 * (409), 404 for unknown ids, and the delete error passed through as 500.
 */
module CurrencyController {
  import opened Options
  import opened Orders
  import opened Store
  import opened Responses
  import CurrencyModel

  datatype CurrencyBody = CurrencyBody(code: Option<string>, name: Option<string>)

  predicate HasCodeAndName(body: CurrencyBody) {
    Given(body.code) && Given(body.name)
  }

  /**
   * The 409 rule: the lookup by code finds a currency, and it is not the one
   * being updated (`self`; on create there is none).
   */
  function CodeTaken(cs: seq<Currency>, code: string, self: Option<int>): (taken: bool)
    ensures self.None? ==> (taken <==> HasCode(cs, code))
    ensures taken ==> exists c :: c in cs && c.code == code && (self.None? || c.id != self.value)
  {
    var hit := CurrencyModel.GetCurrencyByCode(cs, code);
    hit.Some? && (self.None? || hit.value.id != self.value)
  }

  /** With unique codes, a code is taken exactly when another currency holds it. */
  lemma CodeTakenIff(cs: seq<Currency>, code: string, self: Option<int>)
    requires UniqueCodes(cs)
    ensures CodeTaken(cs, code, self) <==> exists c :: c in cs && c.code == code && (self.None? || c.id != self.value)
  {
    if exists c :: c in cs && c.code == code && (self.None? || c.id != self.value) {
      var c :| c in cs && c.code == code && (self.None? || c.id != self.value);
      CurrencyModel.GetCurrencyByCodeFindsTheRow(cs, c);
    }
  }

  /** A currency keeping its own code is no conflict. */
  lemma OwnCodeIsNotTaken(cs: seq<Currency>, c: Currency)
    requires UniqueCodes(cs)
    requires c in cs
    ensures !CodeTaken(cs, c.code, Some(c.id))
  {
    CurrencyModel.GetCurrencyByCodeFindsTheRow(cs, c);
  }

  /** Appending a currency whose code is not taken keeps codes unique. */
  lemma CreateKeepsCodesUnique(cs: seq<Currency>, c: Currency)
    requires UniqueCodes(cs)
    requires !CodeTaken(cs, c.code, None)
    ensures UniqueCodes(cs + [c])
  {
    var all := cs + [c];
    forall i, j | 0 <= i < j < |all| ensures all[i].code != all[j].code {
      if j == |cs| {
        assert all[i] in cs;
      }
    }
  }

  /** Updating a row to a code no other row holds keeps codes unique. */
  lemma UpdateKeepsCodesUnique(cs: seq<Currency>, id: int, code: string, name: string)
    requires UniqueCodes(cs) && DistinctCurrencyIds(cs)
    requires !CodeTaken(cs, code, Some(id))
    ensures UniqueCodes(CurrencyModel.WithCurrencyUpdated(cs, id, code, name))
  {
    var r := CurrencyModel.WithCurrencyUpdated(cs, id, code, name);
    CodeTakenIff(cs, code, Some(id));
    forall i, j | 0 <= i < j < |r| ensures r[i].code != r[j].code {
      if cs[i].id == id {
        assert cs[j] in cs;
      } else if cs[j].id == id {
        assert cs[i] in cs;
      }
    }
  }

  function GetAllCurrencies(db: Database): (resp: Response)
    reads db
    ensures resp.status == StatusOk && resp.payload.Currencies?
    ensures Sorted(resp.payload.list, CurrencyModel.IdDescending)
    ensures multiset(resp.payload.list) == multiset(db.currencies)
  {
    Response(StatusOk, Currencies(CurrencyModel.GetAllCurrencies(db.currencies)))
  }

  /** 404 when no currency has the id, otherwise 200 with it. */
  function GetCurrencyById(db: Database, id: int): (resp: Response)
    reads db
    ensures resp.status == StatusNotFound <==> !HasCurrency(db.currencies, id)
    ensures resp.status == StatusNotFound ==> resp.payload == Failure(CurrencyNotFound)
    ensures resp.status != StatusNotFound ==>
      && resp.status == StatusOk && resp.payload.OneCurrency? && resp.payload.currency.Some?
      && resp.payload.currency.value in db.currencies && resp.payload.currency.value.id == id
  {
    match CurrencyModel.GetCurrencyById(db.currencies, id)
    case None => Response(StatusNotFound, Failure(CurrencyNotFound))
    case Some(c) => Response(StatusOk, OneCurrency(Some(c)))
  }

  /** 400 for a missing field, 409 for a code in use, otherwise 201 with the new row. */
  method CreateCurrency(db: Database, body: CurrencyBody) returns (resp: Response)
    requires db.Valid()
    modifies db
    ensures db.Valid()
    ensures !HasCodeAndName(body) ==>
      resp == Response(StatusBadRequest, Failure(MissingCurrencyFields)) && db.currencies == old(db.currencies)
    ensures HasCodeAndName(body) && HasCode(old(db.currencies), body.code.value) ==>
      resp == Response(StatusConflict, Failure(DuplicateCode)) && db.currencies == old(db.currencies)
    ensures HasCodeAndName(body) && !HasCode(old(db.currencies), body.code.value) ==>
      var created := Currency(old(db.nextCurrencyId), body.code.value, body.name.value);
      && resp == Response(StatusCreated, OneCurrency(Some(created)))
      && !HasCurrency(old(db.currencies), created.id)
      && db.currencies == old(db.currencies) + [created]
    ensures db.nextCurrencyId ==
      if HasCodeAndName(body) && !HasCode(old(db.currencies), body.code.value) then old(db.nextCurrencyId) + 1 else old(db.nextCurrencyId)
    ensures db.rates == old(db.rates) && db.nextRateId == old(db.nextRateId)
    ensures UniqueCodes(old(db.currencies)) ==> UniqueCodes(db.currencies)
    ensures NoDangling(old(db.currencies), old(db.rates)) ==> NoDangling(db.currencies, db.rates)
  {
    if !HasCodeAndName(body) {
      return Response(StatusBadRequest, Failure(MissingCurrencyFields));
    }
    if CodeTaken(db.currencies, body.code.value, None) {
      return Response(StatusConflict, Failure(DuplicateCode));
    }
    if UniqueCodes(db.currencies) {
      CreateKeepsCodesUnique(db.currencies, Currency(db.nextCurrencyId, body.code.value, body.name.value));
    }
    var created := CurrencyModel.CreateCurrency(db, body.code.value, body.name.value);
    resp := Response(StatusCreated, OneCurrency(Some(created)));
  }

  /**
   * 400 for a missing field, 404 for an unknown id, 409 when the code belongs
   * to another currency, otherwise 200 with the updated row.
   */
  method UpdateCurrency(db: Database, id: int, body: CurrencyBody) returns (resp: Response)
    requires db.Valid()
    modifies db
    ensures db.Valid()
    ensures !HasCodeAndName(body) ==>
      resp == Response(StatusBadRequest, Failure(MissingCurrencyFields)) && db.currencies == old(db.currencies)
    ensures HasCodeAndName(body) && !HasCurrency(old(db.currencies), id) ==>
      resp == Response(StatusNotFound, Failure(CurrencyNotFound)) && db.currencies == old(db.currencies)
    ensures HasCodeAndName(body) && HasCurrency(old(db.currencies), id) && CodeTaken(old(db.currencies), body.code.value, Some(id)) ==>
      resp == Response(StatusConflict, Failure(DuplicateCode)) && db.currencies == old(db.currencies)
    ensures HasCodeAndName(body) && HasCurrency(old(db.currencies), id) && !CodeTaken(old(db.currencies), body.code.value, Some(id)) ==>
      && resp == Response(StatusOk, OneCurrency(Some(Currency(id, body.code.value, body.name.value))))
      && db.currencies == CurrencyModel.WithCurrencyUpdated(old(db.currencies), id, body.code.value, body.name.value)
    ensures db.rates == old(db.rates)
    ensures db.nextCurrencyId == old(db.nextCurrencyId) && db.nextRateId == old(db.nextRateId)
    ensures UniqueCodes(old(db.currencies)) ==> UniqueCodes(db.currencies)
    ensures NoDangling(old(db.currencies), old(db.rates)) ==> NoDangling(db.currencies, db.rates)
  {
    if !HasCodeAndName(body) {
      return Response(StatusBadRequest, Failure(MissingCurrencyFields));
    }
    if CurrencyModel.GetCurrencyById(db.currencies, id).None? {
      return Response(StatusNotFound, Failure(CurrencyNotFound));
    }
    if CodeTaken(db.currencies, body.code.value, Some(id)) {
      return Response(StatusConflict, Failure(DuplicateCode));
    }
    if UniqueCodes(db.currencies) {
      UpdateKeepsCodesUnique(db.currencies, id, body.code.value, body.name.value);
    }
    var updated := CurrencyModel.UpdateCurrency(db, id, body.code.value, body.name.value);
    resp := Response(StatusOk, OneCurrency(updated));
  }

  /**
   * 404 for an unknown id; 500 with the model's refusal when a rate
   * references the currency, changing nothing; otherwise 200 with the
   * deleted row, after which no currency has the id.
   */
  method DeleteCurrency(db: Database, id: int) returns (resp: Response)
    requires db.Valid()
    modifies db
    ensures db.Valid()
    ensures !HasCurrency(old(db.currencies), id) ==>
      resp == Response(StatusNotFound, Failure(CurrencyNotFound)) && db.currencies == old(db.currencies)
    ensures HasCurrency(old(db.currencies), id) && IsReferenced(old(db.rates), id) ==>
      resp == Response(StatusServerError, Failure(Failed(CurrencyInUse))) && db.currencies == old(db.currencies)
    ensures HasCurrency(old(db.currencies), id) && !IsReferenced(old(db.rates), id) ==>
      && resp.status == StatusOk && resp.payload.OneCurrency? && resp.payload.currency.Some?
      && resp.payload.currency.value in old(db.currencies) && resp.payload.currency.value.id == id
      && db.currencies == CurrencyModel.WithoutCurrency(old(db.currencies), id)
      && !HasCurrency(db.currencies, id)
      && |db.currencies| == |old(db.currencies)| - 1
    ensures db.rates == old(db.rates)
    ensures db.nextCurrencyId == old(db.nextCurrencyId) && db.nextRateId == old(db.nextRateId)
    ensures NoDangling(old(db.currencies), old(db.rates)) ==> NoDangling(db.currencies, db.rates)
  {
    if CurrencyModel.GetCurrencyById(db.currencies, id).None? {
      return Response(StatusNotFound, Failure(CurrencyNotFound));
    }
    CurrencyModel.WithoutCurrencyRemovesOne(db.currencies, id);
    var result := CurrencyModel.DeleteCurrency(db, id);
    match result
    case Err(e) => resp := Response(StatusServerError, Failure(Failed(e)));
    case Ok(deleted) => resp := Response(StatusOk, OneCurrency(deleted));
  }
}
