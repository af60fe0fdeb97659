/**
 * The currency model: three lookups over `currencies` and the three writes
 * to it. A delete first reads `rates` and refuses a referenced currency.
 */
module CurrencyModel {
  import opened Options
  import opened Orders
  import opened Store

  /** The `ORDER BY id DESC` key order. */
  predicate IdDescending(a: Currency, b: Currency) {
    a.id >= b.id
  }

  lemma IdDescendingIsTotalPreorder()
    ensures TotalPreorder(IdDescending)
  {
  }

  /** Every currency, highest id first. */
  function GetAllCurrencies(cs: seq<Currency>): (r: seq<Currency>)
    ensures Sorted(r, IdDescending)
    ensures multiset(r) == multiset(cs)
  {
    IdDescendingIsTotalPreorder();
    SortBySorted(cs, IdDescending);
    SortBy(cs, IdDescending)
  }

  /** The first row whose id is `id`, or nothing when there is none. */
  function GetCurrencyById(cs: seq<Currency>, id: int): (r: Option<Currency>)
    ensures r.Some? ==> r.value in cs && r.value.id == id
    ensures r.None? <==> !HasCurrency(cs, id)
  {
    if cs == [] then None
    else if cs[0].id == id then Some(cs[0])
    else
      assert forall c :: c in cs ==> c == cs[0] || c in cs[1..];
      GetCurrencyById(cs[1..], id)
  }

  /** The first row whose code equals `code` exactly, or nothing. */
  function GetCurrencyByCode(cs: seq<Currency>, code: string): (r: Option<Currency>)
    ensures r.Some? ==> r.value in cs && r.value.code == code
    ensures r.None? <==> forall c :: c in cs ==> c.code != code
  {
    if cs == [] then None
    else if cs[0].code == code then Some(cs[0])
    else
      assert forall c :: c in cs ==> c == cs[0] || c in cs[1..];
      GetCurrencyByCode(cs[1..], code)
  }

  /** With ids as primary keys, the lookup by id finds the one row with that id. */
  lemma {:induction false} GetCurrencyByIdFindsTheRow(cs: seq<Currency>, c: Currency)
    requires DistinctCurrencyIds(cs)
    requires c in cs
    ensures GetCurrencyById(cs, c.id) == Some(c)
  {
    var k :| 0 <= k < |cs| && cs[k] == c;
    if k > 0 {
      assert cs[0].id != c.id;
      assert cs[1..][k - 1] == c;
      GetCurrencyByIdFindsTheRow(cs[1..], c);
    }
  }

  /** With unique codes, the lookup by code finds the one row with that code. */
  lemma {:induction false} GetCurrencyByCodeFindsTheRow(cs: seq<Currency>, c: Currency)
    requires UniqueCodes(cs)
    requires c in cs
    ensures GetCurrencyByCode(cs, c.code) == Some(c)
  {
    var k :| 0 <= k < |cs| && cs[k] == c;
    if k > 0 {
      assert cs[0].code != c.code;
      assert cs[1..][k - 1] == c;
      GetCurrencyByCodeFindsTheRow(cs[1..], c);
    }
  }

  /** The table after `UPDATE currencies SET code, name WHERE id`. */
  function WithCurrencyUpdated(cs: seq<Currency>, id: int, code: string, name: string): (r: seq<Currency>)
    ensures |r| == |cs|
    ensures forall i :: 0 <= i < |cs| ==> r[i].id == cs[i].id
    ensures forall i :: 0 <= i < |cs| && cs[i].id == id ==> r[i].code == code && r[i].name == name
    ensures forall i :: 0 <= i < |cs| && cs[i].id != id ==> r[i] == cs[i]
  {
    seq(|cs|, i requires 0 <= i < |cs| => if cs[i].id == id then Currency(id, code, name) else cs[i])
  }

  /** An update keeps every id, so no rate starts to dangle. */
  lemma UpdateKeepsIntegrity(cs: seq<Currency>, rs: seq<RateRecord>, id: int, code: string, name: string)
    requires NoDangling(cs, rs)
    ensures NoDangling(WithCurrencyUpdated(cs, id, code, name), rs)
  {
    var r := WithCurrencyUpdated(cs, id, code, name);
    forall k | HasCurrency(cs, k) ensures HasCurrency(r, k) {
      var c :| c in cs && c.id == k;
      var i :| 0 <= i < |cs| && cs[i] == c;
      assert r[i] in r;
    }
  }

  /** The table after `DELETE FROM currencies WHERE id`: the other rows, in order. */
  function WithoutCurrency(cs: seq<Currency>, id: int): (r: seq<Currency>)
    ensures forall c :: c in r <==> c in cs && c.id != id
    ensures |r| <= |cs|
  {
    if cs == [] then []
    else
      assert forall c :: c in cs ==> c == cs[0] || c in cs[1..];
      if cs[0].id == id then WithoutCurrency(cs[1..], id)
      else [cs[0]] + WithoutCurrency(cs[1..], id)
  }

  /** Deleting a present id removes exactly one row when ids are keys. */
  lemma {:induction false} WithoutCurrencyRemovesOne(cs: seq<Currency>, id: int)
    requires DistinctCurrencyIds(cs)
    requires HasCurrency(cs, id)
    ensures |WithoutCurrency(cs, id)| == |cs| - 1
  {
    if cs[0].id == id {
      assert !HasCurrency(cs[1..], id) by {
        forall c | c in cs[1..] ensures c.id != id {
          var k :| 0 <= k < |cs[1..]| && cs[1..][k] == c;
          assert cs[k + 1] == c;
        }
      }
      WithoutAbsentCurrency(cs[1..], id);
    } else {
      assert HasCurrency(cs[1..], id) by {
        var c :| c in cs && c.id == id;
        assert c != cs[0];
      }
      WithoutCurrencyRemovesOne(cs[1..], id);
    }
  }

  /** Deleting an absent id changes nothing. */
  lemma {:induction false} WithoutAbsentCurrency(cs: seq<Currency>, id: int)
    requires !HasCurrency(cs, id)
    ensures WithoutCurrency(cs, id) == cs
  {
    if cs != [] {
      assert cs[0] in cs;
      assert !HasCurrency(cs[1..], id) by {
        forall c | c in cs[1..] ensures c.id != id {
          assert c in cs;
        }
      }
      WithoutAbsentCurrency(cs[1..], id);
      assert cs == [cs[0]] + cs[1..];
    }
  }

  /** Deleting an unreferenced currency leaves no rate pointing at a missing currency. */
  lemma DeleteUnreferencedKeepsIntegrity(cs: seq<Currency>, rs: seq<RateRecord>, id: int)
    requires NoDangling(cs, rs)
    requires !IsReferenced(rs, id)
    ensures NoDangling(WithoutCurrency(cs, id), rs)
  {
    var rest := WithoutCurrency(cs, id);
    forall r | r in rs
      ensures HasCurrency(rest, r.baseCurrencyId) && HasCurrency(rest, r.targetCurrencyId)
    {
      var b :| b in cs && b.id == r.baseCurrencyId;
      var t :| t in cs && t.id == r.targetCurrencyId;
      assert b in rest && t in rest;
    }
  }

  /** `INSERT INTO currencies (code, name)`: one new row with the next serial id. */
  method CreateCurrency(db: Database, code: string, name: string) returns (created: Currency)
    requires db.Valid()
    modifies db
    ensures db.Valid()
    ensures created == Currency(old(db.nextCurrencyId), code, name)
    ensures !HasCurrency(old(db.currencies), created.id)
    ensures db.currencies == old(db.currencies) + [created]
    ensures db.nextCurrencyId == old(db.nextCurrencyId) + 1
    ensures db.rates == old(db.rates) && db.nextRateId == old(db.nextRateId)
    ensures NoDangling(old(db.currencies), old(db.rates)) ==> NoDangling(db.currencies, db.rates)
  {
    created := Currency(db.nextCurrencyId, code, name);
    db.currencies := db.currencies + [created];
    db.nextCurrencyId := db.nextCurrencyId + 1;
  }

  /** `UPDATE currencies ... RETURNING`: the updated row, or nothing for an unknown id. */
  method UpdateCurrency(db: Database, id: int, code: string, name: string) returns (updated: Option<Currency>)
    requires db.Valid()
    modifies db
    ensures db.Valid()
    ensures updated == if HasCurrency(old(db.currencies), id) then Some(Currency(id, code, name)) else None
    ensures db.currencies == WithCurrencyUpdated(old(db.currencies), id, code, name)
    ensures db.rates == old(db.rates)
    ensures db.nextCurrencyId == old(db.nextCurrencyId) && db.nextRateId == old(db.nextRateId)
    ensures NoDangling(old(db.currencies), old(db.rates)) ==> NoDangling(db.currencies, db.rates)
  {
    if NoDangling(db.currencies, db.rates) {
      UpdateKeepsIntegrity(db.currencies, db.rates, id, code, name);
    }
    var found := GetCurrencyById(db.currencies, id);
    var rows := WithCurrencyUpdated(db.currencies, id, code, name);
    forall c | c in rows ensures 1 <= c.id < db.nextCurrencyId {
      var i :| 0 <= i < |rows| && rows[i] == c;
      assert db.currencies[i] in db.currencies;
    }
    db.currencies := rows;
    updated := if found.Some? then Some(Currency(id, code, name)) else None;
  }

  /**
   * Refuses when any rate references the currency; otherwise deletes it and
   * returns the deleted row (nothing for an unknown id).
   */
  method DeleteCurrency(db: Database, id: int) returns (result: Result<Option<Currency>>)
    requires db.Valid()
    modifies db
    ensures db.Valid()
    ensures IsReferenced(old(db.rates), id) ==> result == Err(CurrencyInUse) && db.currencies == old(db.currencies)
    ensures !IsReferenced(old(db.rates), id) ==>
      && result == Ok(GetCurrencyById(old(db.currencies), id))
      && db.currencies == WithoutCurrency(old(db.currencies), id)
    ensures db.rates == old(db.rates)
    ensures db.nextCurrencyId == old(db.nextCurrencyId) && db.nextRateId == old(db.nextRateId)
    ensures NoDangling(old(db.currencies), old(db.rates)) ==> NoDangling(db.currencies, db.rates)
  {
    if IsReferenced(db.rates, id) {
      result := Err(CurrencyInUse);
      return;
    }
    result := Ok(GetCurrencyById(db.currencies, id));
    if NoDangling(db.currencies, db.rates) {
      DeleteUnreferencedKeepsIntegrity(db.currencies, db.rates, id);
    }
    DeletePreservesValid(db.currencies, db.rates, id, db.nextCurrencyId, db.nextRateId);
    db.currencies := WithoutCurrency(db.currencies, id);
  }

  lemma DeletePreservesValid(cs: seq<Currency>, rs: seq<RateRecord>, id: int, nc: int, nr: int)
    requires TablesValid(cs, rs, nc, nr)
    ensures TablesValid(WithoutCurrency(cs, id), rs, nc, nr)
  {
    WithoutCurrencyKeepsIdsDistinct(cs, id);
  }

  lemma {:induction false} WithoutCurrencyKeepsIdsDistinct(cs: seq<Currency>, id: int)
    requires DistinctCurrencyIds(cs)
    ensures DistinctCurrencyIds(WithoutCurrency(cs, id))
  {
    if cs != [] {
      var tail := WithoutCurrency(cs[1..], id);
      WithoutCurrencyKeepsIdsDistinct(cs[1..], id);
      if cs[0].id != id {
        var r := [cs[0]] + tail;
        forall j | 0 < j < |r| ensures r[j].id != cs[0].id {
          assert r[j] == tail[j - 1];
          assert r[j] in cs[1..];
          var k :| 0 <= k < |cs[1..]| && cs[1..][k] == r[j];
          assert cs[k + 1] == r[j];
        }
        assert forall i, j :: 0 < i < j < |r| ==> r[i] == tail[i - 1] && r[j] == tail[j - 1];
      }
    }
  }
}
