/**
 * The rate model. The read queries are an inner join of `rates` onto
 * `currencies` (once for the base, once for the target), a filter, an
 * `ORDER BY` and, for the paginated query, `LIMIT`/`OFFSET`. The writes
 * resolve currency codes to ids before touching `rates`.
 */
module RateModel {
  import opened Options
  import opened Orders
  import opened Dates
  import opened Store
  import opened CurrencyModel

  /** A rate joined with its two currency codes (the columns of the full listing). */
  datatype JoinedRate = JoinedRate(
    id: int,
    baseCurrencyCode: string,
    targetCurrencyCode: string,
    rate: real,
    effectiveDate: Date)

  /** A row of the latest, historical and paginated queries (no id column). */
  datatype RateRow = RateRow(
    baseCurrencyCode: string,
    targetCurrencyCode: string,
    rate: real,
    effectiveDate: Date)

  // ---------------------------------------------------------------- join

  /** Both of the rate's currencies are present, so the inner join keeps it. */
  predicate Resolves(cs: seq<Currency>, r: RateRecord) {
    HasCurrency(cs, r.baseCurrencyId) && HasCurrency(cs, r.targetCurrencyId)
  }

  function JoinOf(cs: seq<Currency>, r: RateRecord): JoinedRate
    requires Resolves(cs, r)
  {
    JoinedRate(r.id, GetCurrencyById(cs, r.baseCurrencyId).value.code,
               GetCurrencyById(cs, r.targetCurrencyId).value.code, r.rate, r.effectiveDate)
  }

  /** `rates JOIN currencies c1 ON base JOIN currencies c2 ON target`, in table order. */
  function Join(cs: seq<Currency>, rs: seq<RateRecord>): (js: seq<JoinedRate>)
    ensures |js| <= |rs|
    ensures forall j :: j in js <==> exists r :: r in rs && Resolves(cs, r) && JoinOf(cs, r) == j
    ensures forall j :: j in js ==> HasCode(cs, j.baseCurrencyCode) && HasCode(cs, j.targetCurrencyCode)
  {
    if rs == [] then []
    else
      assert forall r :: r in rs ==> r == rs[0] || r in rs[1..];
      if Resolves(cs, rs[0]) then [JoinOf(cs, rs[0])] + Join(cs, rs[1..])
      else Join(cs, rs[1..])
  }

  /** When no rate dangles, the inner join drops no rate. */
  lemma {:induction false} JoinKeepsEveryRate(cs: seq<Currency>, rs: seq<RateRecord>)
    requires NoDangling(cs, rs)
    ensures |Join(cs, rs)| == |rs|
  {
    if rs != [] {
      assert rs[0] in rs;
      assert NoDangling(cs, rs[1..]) by {
        forall r | r in rs[1..] ensures r in rs { }
      }
      JoinKeepsEveryRate(cs, rs[1..]);
    }
  }

  // ---------------------------------------------------------------- filter

  /**
   * The WHERE clause of all three read queries: the effective date equals
   * `on` (`None` is SQL NULL, which equals nothing), and, when a base code
   * is given, `c1.code` equals it exactly.
   */
  predicate Matches(j: JoinedRate, on: Option<Date>, base: Option<string>) {
    && on.Some? && j.effectiveDate == on.value
    && (base.None? || j.baseCurrencyCode == base.value)
  }

  function Where(js: seq<JoinedRate>, on: Option<Date>, base: Option<string>): (r: seq<JoinedRate>)
    ensures |r| <= |js|
    ensures forall j :: j in r <==> j in js && Matches(j, on, base)
  {
    if js == [] then []
    else
      assert forall j :: j in js ==> j == js[0] || j in js[1..];
      if Matches(js[0], on, base) then [js[0]] + Where(js[1..], on, base)
      else Where(js[1..], on, base)
  }

  /** The select list: base code, target code, rate, effective date. */
  function View(j: JoinedRate): RateRow {
    RateRow(j.baseCurrencyCode, j.targetCurrencyCode, j.rate, j.effectiveDate)
  }

  function Project(js: seq<JoinedRate>): seq<RateRow> {
    seq(|js|, i requires 0 <= i < |js| => View(js[i]))
  }

  // ---------------------------------------------------------------- order

  /** `ORDER BY c1.code, c2.code`. */
  predicate PairLe(a: RateRow, b: RateRow) {
    if a.baseCurrencyCode != b.baseCurrencyCode then TextLe(a.baseCurrencyCode, b.baseCurrencyCode)
    else TextLe(a.targetCurrencyCode, b.targetCurrencyCode)
  }

  lemma PairLeIsTotalPreorder()
    ensures TotalPreorder(PairLe)
  {
    forall a: RateRow, b: RateRow ensures PairLe(a, b) || PairLe(b, a) {
      TextLeTotal(a.baseCurrencyCode, b.baseCurrencyCode);
      TextLeTotal(a.targetCurrencyCode, b.targetCurrencyCode);
    }
    forall a: RateRow, b: RateRow, c: RateRow | PairLe(a, b) && PairLe(b, c) ensures PairLe(a, c) {
      var x, y, z := a.baseCurrencyCode, b.baseCurrencyCode, c.baseCurrencyCode;
      if x != y && y != z {
        TextLeTransitive(x, y, z);
        if x == z { TextLeAntisymmetric(x, y); }
      } else if x == y && y == z {
        TextLeTransitive(a.targetCurrencyCode, b.targetCurrencyCode, c.targetCurrencyCode);
      }
    }
  }

  /** `ORDER BY r.effective_date DESC`. */
  predicate DateDescending(a: JoinedRate, b: JoinedRate) {
    DateLe(b.effectiveDate, a.effectiveDate)
  }

  lemma DateDescendingIsTotalPreorder()
    ensures TotalPreorder(DateDescending)
  {
  }

  /**
   * The joined rows that pass the filter, projected and sorted by
   * (base code, target code): a sorted permutation of the matching rows.
   */
  function Select(cs: seq<Currency>, rs: seq<RateRecord>, on: Option<Date>, base: Option<string>): (rows: seq<RateRow>)
    ensures Sorted(rows, PairLe)
    ensures multiset(rows) == multiset(Project(Where(Join(cs, rs), on, base)))
    ensures forall x :: x in rows ==> on.Some? && x.effectiveDate == on.value
    ensures forall x :: x in rows ==> base.None? || x.baseCurrencyCode == base.value
    ensures forall x :: x in rows ==> HasCode(cs, x.baseCurrencyCode) && HasCode(cs, x.targetCurrencyCode)
  {
    var matching := Where(Join(cs, rs), on, base);
    PairLeIsTotalPreorder();
    SortBySorted(Project(matching), PairLe);
    var rows := SortBy(Project(matching), PairLe);
    forall x | x in rows
      ensures exists j :: j in matching && View(j) == x
    {
      assert x in multiset(Project(matching));
      var i :| 0 <= i < |matching| && Project(matching)[i] == x;
      assert matching[i] in matching;
    }
    rows
  }

  /** Every selected row is the view of a joined rate that passes the filter. */
  lemma SelectSound(cs: seq<Currency>, rs: seq<RateRecord>, on: Option<Date>, base: Option<string>, x: RateRow)
    requires x in Select(cs, rs, on, base)
    ensures exists r :: r in rs && Resolves(cs, r) && Matches(JoinOf(cs, r), on, base) && View(JoinOf(cs, r)) == x
  {
    var matching := Where(Join(cs, rs), on, base);
    assert x in multiset(Project(matching));
    var i :| 0 <= i < |matching| && Project(matching)[i] == x;
    assert matching[i] in matching;
  }

  /** Every joined rate that passes the filter is selected. */
  lemma SelectComplete(cs: seq<Currency>, rs: seq<RateRecord>, on: Option<Date>, base: Option<string>, r: RateRecord)
    requires r in rs && Resolves(cs, r) && Matches(JoinOf(cs, r), on, base)
    ensures View(JoinOf(cs, r)) in Select(cs, rs, on, base)
  {
    var matching := Where(Join(cs, rs), on, base);
    var j := JoinOf(cs, r);
    assert j in matching;
    var i :| 0 <= i < |matching| && matching[i] == j;
    assert Project(matching)[i] == View(j);
    assert View(j) in multiset(Project(matching));
  }

  /** A row is selected exactly when it is the view of a joined rate that passes the filter. */
  lemma InSelect(cs: seq<Currency>, rs: seq<RateRecord>, on: Option<Date>, base: Option<string>, x: RateRow)
    ensures x in Select(cs, rs, on, base) <==>
      exists r :: r in rs && Resolves(cs, r) && Matches(JoinOf(cs, r), on, base) && View(JoinOf(cs, r)) == x
  {
    if x in Select(cs, rs, on, base) {
      SelectSound(cs, rs, on, base, x);
    }
    if exists r :: r in rs && Resolves(cs, r) && Matches(JoinOf(cs, r), on, base) && View(JoinOf(cs, r)) == x {
      var r :| r in rs && Resolves(cs, r) && Matches(JoinOf(cs, r), on, base) && View(JoinOf(cs, r)) == x;
      SelectComplete(cs, rs, on, base, r);
    }
  }

  /** The selection is empty exactly when no joined rate passes the filter. */
  lemma SelectEmptyIff(cs: seq<Currency>, rs: seq<RateRecord>, on: Option<Date>, base: Option<string>)
    ensures Select(cs, rs, on, base) == [] <==>
      forall r :: r in rs && Resolves(cs, r) ==> !Matches(JoinOf(cs, r), on, base)
  {
    var rows := Select(cs, rs, on, base);
    if rows != [] {
      SelectSound(cs, rs, on, base, rows[0]);
    }
    forall r | r in rs && Resolves(cs, r) && Matches(JoinOf(cs, r), on, base)
      ensures View(JoinOf(cs, r)) in rows
    {
      SelectComplete(cs, rs, on, base, r);
    }
  }

  // ---------------------------------------------------------------- latest date

  /**
   * `SELECT MAX(effective_date) FROM rates WHERE effective_date <= today`,
   * taken over the whole table (not the join, not one base currency);
   * `None` is the NULL of an empty range.
   */
  function LatestDate(rs: seq<RateRecord>, today: Date): (d: Option<Date>)
    ensures d.None? <==> forall r :: r in rs ==> !DateLe(r.effectiveDate, today)
    ensures d.Some? ==> DateLe(d.value, today) && exists r :: r in rs && r.effectiveDate == d.value
    ensures d.Some? ==> forall r :: r in rs && DateLe(r.effectiveDate, today) ==> DateLe(r.effectiveDate, d.value)
  {
    if rs == [] then None
    else
      assert forall r :: r in rs ==> r == rs[0] || r in rs[1..];
      var rest := LatestDate(rs[1..], today);
      var here := rs[0].effectiveDate;
      if !DateLe(here, today) then rest
      else if rest.None? || DateLe(rest.value, here) then Some(here)
      else rest
  }

  // ---------------------------------------------------------------- queries

  /** The latest rates: every row is on the greatest effective date not after `today`. */
  function GetLatestRates(cs: seq<Currency>, rs: seq<RateRecord>, today: Date): (rows: seq<RateRow>)
    ensures Sorted(rows, PairLe)
    ensures forall x :: x in rows ==>
      && DateLe(x.effectiveDate, today)
      && forall r :: r in rs && DateLe(r.effectiveDate, today) ==> DateLe(r.effectiveDate, x.effectiveDate)
    ensures (forall r :: r in rs ==> !DateLe(r.effectiveDate, today)) ==> rows == []
    ensures multiset(rows) == multiset(Project(Where(Join(cs, rs), LatestDate(rs, today), None)))
    ensures forall r :: r in rs && Resolves(cs, r) && Some(r.effectiveDate) == LatestDate(rs, today) ==>
      View(JoinOf(cs, r)) in rows
  {
    var rows := Select(cs, rs, LatestDate(rs, today), None);
    forall r | r in rs && Resolves(cs, r) && Some(r.effectiveDate) == LatestDate(rs, today)
      ensures View(JoinOf(cs, r)) in rows
    {
      SelectComplete(cs, rs, LatestDate(rs, today), None, r);
    }
    rows
  }

  /** The rates of one exact date; the text is cast to a date first. */
  function GetHistoricalRates(cs: seq<Currency>, rs: seq<RateRecord>, date: string): (res: Result<seq<RateRow>>)
    ensures res.Err? <==> CastDate(date).None?
    ensures res.Err? ==> res.error == InvalidDateValue
    ensures res.Ok? ==> Sorted(res.value, PairLe)
    ensures res.Ok? ==> forall x :: x in res.value ==> CastDate(date) == Some(x.effectiveDate)
    ensures res.Ok? ==> multiset(res.value) == multiset(Project(Where(Join(cs, rs), CastDate(date), None)))
    ensures res.Ok? ==> forall r :: r in rs && Resolves(cs, r) && CastDate(date) == Some(r.effectiveDate) ==>
      View(JoinOf(cs, r)) in res.value
  {
    match CastDate(date)
    case None => Err(InvalidDateValue)
    case Some(d) =>
      var rows := Select(cs, rs, Some(d), None);
      forall r | r in rs && Resolves(cs, r) && Some(d) == Some(r.effectiveDate)
        ensures View(JoinOf(cs, r)) in rows
      {
        SelectComplete(cs, rs, Some(d), None, r);
      }
      Ok(rows)
  }

  /**
   * Currencies USD (id 1) and EUR (id 2) and one rate USD to EUR of 0.85 on
   * 2023-07-01: that date yields exactly that row, the next day none.
   */
  lemma HistoricalExample()
    ensures var cs := [Currency(1, "USD", "US Dollar"), Currency(2, "EUR", "Euro")];
      var rs := [RateRecord(1, 1, 2, 0.85, Date(2023, 7, 1))];
      && GetHistoricalRates(cs, rs, "2023-07-01") == Ok([RateRow("USD", "EUR", 0.85, Date(2023, 7, 1))])
      && GetHistoricalRates(cs, rs, "2023-07-02") == Ok([])
  {
    var cs := [Currency(1, "USD", "US Dollar"), Currency(2, "EUR", "Euro")];
    var rs := [RateRecord(1, 1, 2, 0.85, Date(2023, 7, 1))];
    assert DateOf("2023-07-01") == Date(2023, 7, 1);
    assert DateOf("2023-07-02") == Date(2023, 7, 2);
    assert cs[0] in cs && cs[1] in cs;
    var joined := JoinedRate(1, "USD", "EUR", 0.85, Date(2023, 7, 1));
    assert Join(cs, rs) == [joined];
    assert Where([joined], Some(Date(2023, 7, 1)), None) == [joined];
    assert Where([joined], Some(Date(2023, 7, 2)), None) == [];
    assert Project([joined]) == [View(joined)];
  }

  /** `date && date !== 'null'`: the historical branch of the paginated query. */
  predicate SelectsHistory(date: Option<string>) {
    date.Some? && date.value != "" && date.value != "null"
  }

  /** `baseCurrency && baseCurrency !== ''`: the base filter, if any. */
  function BaseFilter(base: Option<string>): (f: Option<string>)
    ensures f.Some? <==> base.Some? && base.value != ""
    ensures f.Some? ==> f == base
  {
    if base.Some? && base.value != "" then base else None
  }

  function Min(a: int, b: int): int { if a <= b then a else b }
  function Max(a: int, b: int): int { if a >= b then a else b }

  /** `LIMIT limit OFFSET offset`: drop `offset` rows, keep at most `limit`. */
  function Page<T>(s: seq<T>, offset: int, limit: int): (p: seq<T>)
    requires 0 <= offset && 0 <= limit
    ensures |p| == Min(limit, Max(0, |s| - offset))
    ensures forall i :: 0 <= i < |p| ==> p[i] == s[offset + i]
  {
    if offset >= |s| then [] else s[offset..Min(offset + limit, |s|)]
  }

  /** The effective date the paginated query filters on. */
  function PageDate(rs: seq<RateRecord>, date: Option<string>, today: Date): Option<Date>
    requires SelectsHistory(date) ==> CastDate(date.value).Some?
  {
    if SelectsHistory(date) then CastDate(date.value) else LatestDate(rs, today)
  }

  /** The four branches of the paginated query. */
  function GetPaginatedRates(cs: seq<Currency>, rs: seq<RateRecord>, date: Option<string>, base: Option<string>,
                             offset: int, limit: int, today: Date): (res: Result<seq<RateRow>>)
    requires 0 <= offset && 0 <= limit
    ensures res.Err? <==> SelectsHistory(date) && CastDate(date.value).None?
    ensures res.Err? ==> res.error == InvalidDateValue
    ensures res.Ok? ==> res.value == Page(Select(cs, rs, PageDate(rs, date, today), BaseFilter(base)), offset, limit)
    ensures res.Ok? ==> |res.value| <= limit && Sorted(res.value, PairLe)
    ensures res.Ok? ==> forall x :: x in res.value ==>
      && (SelectsHistory(date) ==> CastDate(date.value) == Some(x.effectiveDate))
      && (!SelectsHistory(date) ==> Some(x.effectiveDate) == LatestDate(rs, today))
      && (BaseFilter(base).Some? ==> x.baseCurrencyCode == base.value)
  {
    if SelectsHistory(date) && CastDate(date.value).None? then Err(InvalidDateValue)
    else
      var all := Select(cs, rs, PageDate(rs, date, today), BaseFilter(base));
      var page := Page(all, offset, limit);
      PageOfSortedIsSorted(all, offset, limit, PairLe);
      assert forall x :: x in page ==> x in all;
      Ok(page)
  }

  /** Every rate with its id, newest effective date first. */
  function GetAllRates(cs: seq<Currency>, rs: seq<RateRecord>): (js: seq<JoinedRate>)
    ensures Sorted(js, DateDescending)
    ensures multiset(js) == multiset(Join(cs, rs))
  {
    DateDescendingIsTotalPreorder();
    SortBySorted(Join(cs, rs), DateDescending);
    SortBy(Join(cs, rs), DateDescending)
  }

  // ---------------------------------------------------------------- pages

  lemma PageOfSortedIsSorted<T>(s: seq<T>, offset: int, limit: int, le: (T, T) -> bool)
    requires 0 <= offset && 0 <= limit
    requires Sorted(s, le)
    ensures Sorted(Page(s, offset, limit), le)
  {
    var p := Page(s, offset, limit);
    forall i, j | 0 <= i < j < |p| ensures le(p[i], p[j]) {
      assert p[i] == s[offset + i] && p[j] == s[offset + j];
    }
  }

  /** Two consecutive windows make one window: no row is skipped or repeated. */
  lemma PagesConcatenate<T>(s: seq<T>, offset: int, a: int, b: int)
    requires 0 <= offset && 0 <= a && 0 <= b
    ensures Page(s, offset, a) + Page(s, offset + a, b) == Page(s, offset, a + b)
  {
    var p, q, whole := Page(s, offset, a), Page(s, offset + a, b), Page(s, offset, a + b);
    assert |p + q| == |whole|;
    forall i | 0 <= i < |whole| ensures (p + q)[i] == whole[i] {
      if i >= |p| { assert (p + q)[i] == q[i - |p|]; }
    }
  }

  /** The pages from offset 0 on are prefixes of the full ordered list. */
  lemma FirstPagesArePrefix<T>(s: seq<T>, n: int)
    requires 0 <= n
    ensures Page(s, 0, n) == s[..Min(n, |s|)]
  {
  }

  /** A page shorter than its limit is the last one: every later page is empty. */
  lemma ShortPageIsLast<T>(s: seq<T>, offset: int, limit: int, later: int, next: int)
    requires 0 <= offset && 0 <= limit && 0 <= next
    requires |Page(s, offset, limit)| < limit
    requires offset + limit <= later
    ensures Page(s, later, next) == []
  {
  }

  /** Consecutive paginated requests with one filter tile the ordered result list. */
  lemma {:induction false} PaginatedPagesConcatenate(cs: seq<Currency>, rs: seq<RateRecord>, date: Option<string>,
                                                     base: Option<string>, offset: int, a: int, b: int, today: Date)
    requires 0 <= offset && 0 <= a && 0 <= b
    requires GetPaginatedRates(cs, rs, date, base, offset, a, today).Ok?
    ensures GetPaginatedRates(cs, rs, date, base, offset + a, b, today).Ok?
    ensures GetPaginatedRates(cs, rs, date, base, offset, a, today).value
            + GetPaginatedRates(cs, rs, date, base, offset + a, b, today).value
            == GetPaginatedRates(cs, rs, date, base, offset, a + b, today).value
  {
    PagesConcatenate(Select(cs, rs, PageDate(rs, date, today), BaseFilter(base)), offset, a, b);
  }

  /**
   * On the latest branch with a base filter, the date is the latest date of
   * the whole table: when the base has no rate on that date the result is
   * empty, even if it has rates on earlier dates.
   */
  lemma LatestWithBaseUsesGlobalDate(cs: seq<Currency>, rs: seq<RateRecord>, date: Option<string>,
                                     base: string, offset: int, limit: int, today: Date)
    requires !SelectsHistory(date) && base != ""
    requires 0 <= offset && 0 <= limit
    requires forall r :: r in rs && Resolves(cs, r) && JoinOf(cs, r).baseCurrencyCode == base
               ==> Some(r.effectiveDate) != LatestDate(rs, today)
    ensures GetPaginatedRates(cs, rs, date, Some(base), offset, limit, today) == Ok([])
  {
    var all := Select(cs, rs, LatestDate(rs, today), Some(base));
    if all != [] {
      SelectSound(cs, rs, LatestDate(rs, today), Some(base), all[0]);
    }
  }

  // ---------------------------------------------------------------- writes

  /** The ids and the date a write stores. */
  datatype Resolved = Resolved(baseCurrencyId: int, targetCurrencyId: int, effectiveDate: Date)

  /**
   * What create and update do before writing: look up the base code, then the
   * target code, failing on the first that is missing; then the date text is
   * cast as the statement binds it.
   */
  function ResolveRateFields(cs: seq<Currency>, baseCode: string, targetCode: string, effectiveDate: string): (r: Result<Resolved>)
    ensures r == Err(UnknownBaseCurrency(baseCode)) <==> !HasCode(cs, baseCode)
    ensures r == Err(UnknownTargetCurrency(targetCode)) <==> HasCode(cs, baseCode) && !HasCode(cs, targetCode)
    ensures r == Err(InvalidDateValue) <==> HasCode(cs, baseCode) && HasCode(cs, targetCode) && CastDate(effectiveDate).None?
    ensures r.Ok? <==> HasCode(cs, baseCode) && HasCode(cs, targetCode) && CastDate(effectiveDate).Some?
    ensures r.Ok? ==> exists b :: b in cs && b.code == baseCode && b.id == r.value.baseCurrencyId
    ensures r.Ok? ==> exists t :: t in cs && t.code == targetCode && t.id == r.value.targetCurrencyId
    ensures r.Ok? ==> CastDate(effectiveDate) == Some(r.value.effectiveDate)
  {
    var base := GetCurrencyByCode(cs, baseCode);
    var target := GetCurrencyByCode(cs, targetCode);
    if base.None? then Err(UnknownBaseCurrency(baseCode))
    else if target.None? then Err(UnknownTargetCurrency(targetCode))
    else match CastDate(effectiveDate)
      case None => Err(InvalidDateValue)
      case Some(d) => Ok(Resolved(base.value.id, target.value.id, d))
  }

  /** A successful resolution names existing currencies, so the write cannot dangle. */
  lemma ResolvedCurrenciesExist(cs: seq<Currency>, baseCode: string, targetCode: string, effectiveDate: string)
    requires ResolveRateFields(cs, baseCode, targetCode, effectiveDate).Ok?
    ensures var f := ResolveRateFields(cs, baseCode, targetCode, effectiveDate).value;
      HasCurrency(cs, f.baseCurrencyId) && HasCurrency(cs, f.targetCurrencyId) && IsCalendarDate(f.effectiveDate)
  {
  }

  /** The record a write stores under `id`. */
  function RecordOf(id: int, f: Resolved, rate: real): RateRecord {
    RateRecord(id, f.baseCurrencyId, f.targetCurrencyId, rate, f.effectiveDate)
  }

  /** The table after `UPDATE rates SET ... WHERE id`. */
  function WithRateUpdated(rs: seq<RateRecord>, id: int, f: Resolved, rate: real): (r: seq<RateRecord>)
    ensures |r| == |rs|
    ensures forall i :: 0 <= i < |rs| && rs[i].id == id ==> r[i] == RecordOf(id, f, rate)
    ensures forall i :: 0 <= i < |rs| && rs[i].id != id ==> r[i] == rs[i]
  {
    seq(|rs|, i requires 0 <= i < |rs| => if rs[i].id == id then RecordOf(id, f, rate) else rs[i])
  }

  /** The table after `DELETE FROM rates WHERE id`: the other rows, in order. */
  function WithoutRate(rs: seq<RateRecord>, id: int): (r: seq<RateRecord>)
    ensures forall x :: x in r <==> x in rs && x.id != id
    ensures |r| <= |rs|
  {
    if rs == [] then []
    else
      assert forall x :: x in rs ==> x == rs[0] || x in rs[1..];
      if rs[0].id == id then WithoutRate(rs[1..], id)
      else [rs[0]] + WithoutRate(rs[1..], id)
  }

  /** Deleting an absent id leaves the table as it was. */
  lemma {:induction false} WithoutAbsentRate(rs: seq<RateRecord>, id: int)
    requires !HasRate(rs, id)
    ensures WithoutRate(rs, id) == rs
  {
    if rs != [] {
      assert rs[0] in rs;
      assert !HasRate(rs[1..], id) by {
        forall x | x in rs[1..] ensures x.id != id {
          assert x in rs;
        }
      }
      WithoutAbsentRate(rs[1..], id);
      assert rs == [rs[0]] + rs[1..];
    }
  }

  lemma {:induction false} WithoutRateKeepsIdsDistinct(rs: seq<RateRecord>, id: int)
    requires DistinctRateIds(rs)
    ensures DistinctRateIds(WithoutRate(rs, id))
  {
    if rs != [] {
      var tail := WithoutRate(rs[1..], id);
      WithoutRateKeepsIdsDistinct(rs[1..], id);
      if rs[0].id != id {
        var r := [rs[0]] + tail;
        forall j | 0 < j < |r| ensures r[j].id != rs[0].id {
          assert r[j] == tail[j - 1];
          assert r[j] in rs[1..];
          var k :| 0 <= k < |rs[1..]| && rs[1..][k] == r[j];
          assert rs[k + 1] == r[j];
        }
        assert forall i, j :: 0 < i < j < |r| ==> r[i] == tail[i - 1] && r[j] == tail[j - 1];
      }
    }
  }

  /** `INSERT INTO rates ... RETURNING`: one new row with the next serial id. */
  method CreateRate(db: Database, baseCode: string, targetCode: string, rate: real, effectiveDate: string)
    returns (result: Result<RateRecord>)
    requires db.Valid()
    modifies db
    ensures db.Valid()
    ensures var plan := ResolveRateFields(old(db.currencies), baseCode, targetCode, effectiveDate);
      && (plan.Err? ==> result == Err(plan.error) && db.rates == old(db.rates) && db.nextRateId == old(db.nextRateId))
      && (plan.Ok? ==>
            && result == Ok(RecordOf(old(db.nextRateId), plan.value, rate))
            && !HasRate(old(db.rates), old(db.nextRateId))
            && db.rates == old(db.rates) + [result.value]
            && db.nextRateId == old(db.nextRateId) + 1)
    ensures db.currencies == old(db.currencies) && db.nextCurrencyId == old(db.nextCurrencyId)
    ensures NoDangling(old(db.currencies), old(db.rates)) ==> NoDangling(db.currencies, db.rates)
  {
    var plan := ResolveRateFields(db.currencies, baseCode, targetCode, effectiveDate);
    if plan.Err? {
      result := Err(plan.error);
      return;
    }
    ResolvedCurrenciesExist(db.currencies, baseCode, targetCode, effectiveDate);
    var record := RecordOf(db.nextRateId, plan.value, rate);
    db.rates := db.rates + [record];
    db.nextRateId := db.nextRateId + 1;
    result := Ok(record);
  }

  /** `UPDATE rates ... RETURNING`: the updated row, or nothing for an unknown id. */
  method UpdateRate(db: Database, id: int, baseCode: string, targetCode: string, rate: real, effectiveDate: string)
    returns (result: Result<Option<RateRecord>>)
    requires db.Valid()
    modifies db
    ensures db.Valid()
    ensures var plan := ResolveRateFields(old(db.currencies), baseCode, targetCode, effectiveDate);
      && (plan.Err? ==> result == Err(plan.error) && db.rates == old(db.rates))
      && (plan.Ok? ==>
            && db.rates == WithRateUpdated(old(db.rates), id, plan.value, rate)
            && result == Ok(if HasRate(old(db.rates), id) then Some(RecordOf(id, plan.value, rate)) else None))
    ensures db.currencies == old(db.currencies)
    ensures db.nextCurrencyId == old(db.nextCurrencyId) && db.nextRateId == old(db.nextRateId)
    ensures NoDangling(old(db.currencies), old(db.rates)) ==> NoDangling(db.currencies, db.rates)
  {
    var plan := ResolveRateFields(db.currencies, baseCode, targetCode, effectiveDate);
    if plan.Err? {
      result := Err(plan.error);
      return;
    }
    ResolvedCurrenciesExist(db.currencies, baseCode, targetCode, effectiveDate);
    var rows := WithRateUpdated(db.rates, id, plan.value, rate);
    forall x | x in rows
      ensures 1 <= x.id < db.nextRateId && IsCalendarDate(x.effectiveDate)
      ensures NoDangling(db.currencies, db.rates) ==>
                HasCurrency(db.currencies, x.baseCurrencyId) && HasCurrency(db.currencies, x.targetCurrencyId)
    {
      var i :| 0 <= i < |rows| && rows[i] == x;
      assert db.rates[i] in db.rates;
    }
    var found := HasRate(db.rates, id);
    db.rates := rows;
    result := Ok(if found then Some(RecordOf(id, plan.value, rate)) else None);
  }

  /** `DELETE FROM rates ... RETURNING id`: the id when a row was deleted, else nothing. */
  method DeleteRate(db: Database, id: int) returns (deleted: Option<int>)
    requires db.Valid()
    modifies db
    ensures db.Valid()
    ensures deleted == if HasRate(old(db.rates), id) then Some(id) else None
    ensures db.rates == WithoutRate(old(db.rates), id)
    ensures !HasRate(old(db.rates), id) ==> db.rates == old(db.rates)
    ensures db.currencies == old(db.currencies)
    ensures db.nextCurrencyId == old(db.nextCurrencyId) && db.nextRateId == old(db.nextRateId)
    ensures NoDangling(old(db.currencies), old(db.rates)) ==> NoDangling(db.currencies, db.rates)
  {
    deleted := if HasRate(db.rates, id) then Some(id) else None;
    if !HasRate(db.rates, id) {
      WithoutAbsentRate(db.rates, id);
    }
    WithoutRateKeepsIdsDistinct(db.rates, id);
    db.rates := WithoutRate(db.rates, id);
  }
}
