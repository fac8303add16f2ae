/**
 * The three MCP lookup tools of mcp_server/server.py, given the rows that
 * `_fetch_csv_rows` would have returned: `esg_hr`, `labor_violations` and
 * `ge_work_equality_violations`. Each walks the rows, skips those without a
 * company name or for another company or year, appends the projected item,
 * counts it, and stops once the output reaches `limit`.
 */
module Tools {
  import opened Wrappers
  import opened Text
  import opened Rows
  import opened Matching
  import opened Selection
  import opened YearCounts

  // Candidate column names, in the order `_pick` tries them.
  const EsgNameColumns: seq<string> := ["公司名稱", "公司", "公司名稱(中)", "company", "CompanyName"]
  const EsgYearColumns: seq<string> := ["申報年度", "年度", "Year", "year", "報告年度"]
  const EsgCodeColumns: seq<string> := ["公司代號", "股票代號", "StockCode"]
  const EsgMedianSalaryColumns: seq<string> :=
    ["員工薪資中位數", "薪資中位數", "MedianSalary", "薪資中位", "非擔任主管之全時員工薪資中位數(仟元/人)"]
  const EsgAverageSalaryColumns: seq<string> :=
    ["員工薪資平均數", "薪資平均數", "AverageSalary", "薪資平均", "員工薪資平均數(仟元/人)"]
  const EsgFemaleManagerColumns: seq<string> := ["女性主管比例", "女性主管比", "FemaleManagerRatio", "管理職女性主管佔比"]

  const ViolatorColumns: seq<string> := ["事業單位名稱或負責人", "事業單位名稱", "雇主名稱", "公司名稱", "name"]
  const LaborDateColumns: seq<string> := ["公告日期", "公布日期", "處分日期", "date", "公告日"]
  const GeDateColumns: seq<string> := ["公告日期", "公布日期", "處分日期", "date"]
  const AuthorityColumns: seq<string> := ["主管機關", "裁處機關", "機關"]
  const ArticleColumns: seq<string> := ["違法法規法條", "違反法條", "法條"]
  const ArticleTextColumns: seq<string> := ["違反法規內容", "違反法條內容", "違規內容", "事實摘要"]
  const FineColumns: seq<string> := ["罰鍰金額", "處分金額", "金額"]

  /** One `esg_hr` item; `raw` is the whole row (`資料列原始`). */
  datatype EsgItem = EsgItem(
    code: Option<string>,
    name: string,
    year: Option<string>,
    medianSalary: Option<string>,
    averageSalary: Option<string>,
    femaleManagerRatio: Option<string>,
    raw: Row)

  /** One item of either violation tool. */
  datatype ViolationItem = ViolationItem(
    name: string,
    date: Option<string>,
    authority: Option<string>,
    article: Option<string>,
    articleText: Option<string>,
    fine: Option<string>,
    raw: Row)

  /** What `esg_hr` returns, less the source URL and the fetch time. */
  datatype EsgResponse = EsgResponse(
    items: seq<EsgItem>,
    count: nat,
    query: string,
    year: Option<int>,
    partialMatch: bool)

  /** What either violation tool returns, less the source URL and the fetch time. */
  datatype ViolationResponse = ViolationResponse(
    items: seq<ViolationItem>,
    count: nat,
    countByYear: map<string, nat>,
    query: string,
    sinceYear: Option<int>,
    partialMatch: bool)

  /** Python's `str(v)` for an optional string: `None` prints as `"None"`. */
  function PyStr(v: Option<string>): string {
    if v.Some? then v.value else "None"
  }

  /** `(date or "")[:4]`, the year prefix a violation is counted under. */
  function YearPrefix(date: Option<string>): string {
    Prefix(date.GetOr(""), 4)
  }

  // ---------------------------------------------------------------- esg_hr

  /** `esg_hr` keeps row `r`: it has a company name, that name matches, and the year agrees. */
  predicate EsgKeeps(r: Row, company: string, year: Option<int>, cfg: MatchConfig, ops: TextOps) {
    var comp := Pick(r, EsgNameColumns);
    && comp.Some?
    && Match(comp.value, company, cfg, ops)
    && (year.None? || DecimalOf(year.value) == PyStr(Pick(r, EsgYearColumns)))
  }

  function EsgItemOf(r: Row): EsgItem {
    EsgItem(
      Pick(r, EsgCodeColumns),
      Pick(r, EsgNameColumns).GetOr(""),
      Pick(r, EsgYearColumns),
      Pick(r, EsgMedianSalaryColumns),
      Pick(r, EsgAverageSalaryColumns),
      Pick(r, EsgFemaleManagerColumns),
      r)
  }

  /** The row filter of `esg_hr`, as a function value. */
  function EsgFilter(company: string, year: Option<int>, cfg: MatchConfig, ops: TextOps): Row -> bool {
    r => EsgKeeps(r, company, year, cfg, ops)
  }

  /** Every `esg_hr` item for the query, before the limit. */
  function EsgMatches(rows: seq<Row>, company: string, year: Option<int>, cfg: MatchConfig, ops: TextOps): seq<EsgItem> {
    Select(rows, EsgFilter(company, year, cfg, ops), EsgItemOf)
  }

  /**
   * Every `esg_hr` item carries a non-empty company name that matches the
   * query, and when a year is asked for, the row's year column is present
   * and equal to it as text.
   */
  lemma EsgItemsFitQuery(rows: seq<Row>, company: string, year: Option<int>, cfg: MatchConfig, ops: TextOps)
    ensures forall it :: it in EsgMatches(rows, company, year, cfg, ops) ==>
      && it.name != ""
      && Match(it.name, company, cfg, ops)
      && (year.Some? ==> it.year == Some(DecimalOf(year.value)))
  {
    var keep := EsgFilter(company, year, cfg, ops);
    var items := EsgMatches(rows, company, year, cfg, ops);
    SelectIsKeptRows(rows, keep, EsgItemOf);
    var idx := KeptIndices(rows, keep);
    forall it | it in items
      ensures it.name != "" && Match(it.name, company, cfg, ops)
      ensures year.Some? ==> it.year == Some(DecimalOf(year.value))
    {
      var k :| 0 <= k < |items| && items[k] == it;
      var r := rows[idx[k]];
      assert keep(r);
      if year.Some? {
        NoneIsNotDecimal(year.value);
      }
    }
  }

  /** `str(year)` is never `"None"`, so a row without a year column fails a year filter. */
  lemma NoneIsNotDecimal(n: int)
    ensures DecimalOf(n) != "None"
  {
  }

  /** What `esg_hr` answers: the matching items up to the limit, and the query echoed back. */
  function EsgHrOf(rows: seq<Row>, company: string, year: Option<int>, limit: int, cfg: MatchConfig, ops: TextOps): EsgResponse {
    var items := Capped(EsgMatches(rows, company, year, cfg, ops), limit);
    EsgResponse(items, |items|, company, year, cfg.partialMatch)
  }

  /**
   * `esg_hr`'s answer: `count` is the number of items, at most `max(limit, 1)`;
   * the items are the first matches in row order, and every one of them has
   * a matching company name and, under a year, that year as its year column.
   */
  lemma EsgHrAnswer(rows: seq<Row>, company: string, year: Option<int>, limit: int, cfg: MatchConfig, ops: TextOps)
    ensures var res := EsgHrOf(rows, company, year, limit, cfg, ops);
      && res.count == |res.items| <= Cap(limit)
      && res.items <= EsgMatches(rows, company, year, cfg, ops)
      && (|res.items| < Cap(limit) ==> res.items == EsgMatches(rows, company, year, cfg, ops))
      && forall it :: it in res.items ==>
           && it.name != ""
           && Match(it.name, company, cfg, ops)
           && (year.Some? ==> it.year == Some(DecimalOf(year.value)))
  {
    EsgItemsFitQuery(rows, company, year, cfg, ops);
    CappedWithin(EsgMatches(rows, company, year, cfg, ops), limit);
  }

  /**
   * The per-row step of `esg_hr`: the company name and its match against the
   * query, the year column and its comparison, and the item built from the row.
   */
  method EsgRow(r: Row, company: string, year: Option<int>, cfg: MatchConfig, ops: TextOps)
    returns (picked: Option<EsgItem>)
    ensures picked == if EsgKeeps(r, company, year, cfg, ops) then Some(EsgItemOf(r)) else None
  {
    var comp := Pick(r, EsgNameColumns);
    if comp.None? {
      return None;
    }
    if !Match(comp.value, company, cfg, ops) {
      return None;
    }
    var y := Pick(r, EsgYearColumns);
    if year.Some? && DecimalOf(year.value) != PyStr(y) {
      return None;
    }
    picked := Some(EsgItem(
      Pick(r, EsgCodeColumns),
      comp.value,
      y,
      Pick(r, EsgMedianSalaryColumns),
      Pick(r, EsgAverageSalaryColumns),
      Pick(r, EsgFemaleManagerColumns),
      r));
  }

  /** `esg_hr(company, year, limit)` over the given rows. */
  method EsgHr(rows: seq<Row>, company: string, year: Option<int>, limit: int, cfg: MatchConfig, ops: TextOps)
    returns (res: EsgResponse)
    ensures res == EsgHrOf(rows, company, year, limit, cfg, ops)
  {
    ghost var keep := EsgFilter(company, year, cfg, ops);
    var out: seq<EsgItem> := [];
    var i := 0;
    while i < |rows|
      invariant 0 <= i <= |rows|
      invariant out == Select(rows[..i], keep, EsgItemOf)
      invariant |out| < Cap(limit)
    {
      var picked := EsgRow(rows[i], company, year, cfg, ops);
      SelectExtend(rows, i, keep, EsgItemOf, picked);
      i := i + 1;
      if picked.None? {
        continue;
      }
      var item := picked.value;
      out := out + [item];
      if |out| >= limit {
        CappedAtStop(rows, i, keep, EsgItemOf, limit);
        break;
      }
    }
    if |out| < Cap(limit) && i == |rows| {
      assert rows[..i] == rows;
      CappedAtEnd(rows, keep, EsgItemOf, limit);
    }
    res := EsgResponse(out, |out|, company, year, cfg.partialMatch);
  }

  // ------------------------------------------------- the two violation tools

  function ViolationItemOf(r: Row, dateColumns: seq<string>): ViolationItem {
    ViolationItem(
      Pick(r, ViolatorColumns).GetOr(""),
      Pick(r, dateColumns),
      Pick(r, AuthorityColumns),
      Pick(r, ArticleColumns),
      Pick(r, ArticleTextColumns),
      Pick(r, FineColumns),
      r)
  }

  function LaborItemOf(r: Row): ViolationItem {
    ViolationItemOf(r, LaborDateColumns)
  }

  function GeItemOf(r: Row): ViolationItem {
    ViolationItemOf(r, GeDateColumns)
  }

  /** The year prefixes of the items, in order: what `count_by_year` is built from. */
  function YearPrefixes(items: seq<ViolationItem>): (ys: seq<string>)
    ensures |ys| == |items|
  {
    seq(|items|, k requires 0 <= k < |items| => YearPrefix(items[k].date))
  }

  /**
   * `labor_violations`' year filter: with `since_year` set, the date's first
   * four characters must be digits whose value is at least `since_year`.
   */
  predicate LaborYearFilter(date: Option<string>, sinceYear: Option<int>) {
    var y := YearPrefix(date);
    sinceYear.None? || (IsDigits(y) && DigitsValue(y) >= sinceYear.value)
  }

  /**
   * `ge_work_equality_violations`' year filter: with `since_year` set, its
   * decimal text must occur somewhere in the date.
   */
  predicate GeYearFilter(date: Option<string>, sinceYear: Option<int>) {
    sinceYear.None? || Contains(date.GetOr(""), DecimalOf(sinceYear.value))
  }

  /** `labor_violations` keeps row `r`: a violator name containing `company`, and the year filter. */
  predicate LaborKeeps(r: Row, company: string, sinceYear: Option<int>) {
    var comp := Pick(r, ViolatorColumns);
    && comp.Some?
    && Contains(comp.value, company)
    && LaborYearFilter(Pick(r, LaborDateColumns), sinceYear)
  }

  /** `ge_work_equality_violations` keeps row `r`: a violator name containing `company`, and the year filter. */
  predicate GeKeeps(r: Row, company: string, sinceYear: Option<int>) {
    var comp := Pick(r, ViolatorColumns);
    && comp.Some?
    && Contains(comp.value, company)
    && GeYearFilter(Pick(r, GeDateColumns), sinceYear)
  }

  /** The row filters of the two violation tools, as function values. */
  function LaborFilter(company: string, sinceYear: Option<int>): Row -> bool {
    r => LaborKeeps(r, company, sinceYear)
  }

  function GeFilter(company: string, sinceYear: Option<int>): Row -> bool {
    r => GeKeeps(r, company, sinceYear)
  }

  /** Every item of each violation tool for the query, before the limit. */
  function LaborMatches(rows: seq<Row>, company: string, sinceYear: Option<int>): seq<ViolationItem> {
    Select(rows, LaborFilter(company, sinceYear), LaborItemOf)
  }

  function GeMatches(rows: seq<Row>, company: string, sinceYear: Option<int>): seq<ViolationItem> {
    Select(rows, GeFilter(company, sinceYear), GeItemOf)
  }

  /**
   * Every `labor_violations` item names a violator containing the query as a
   * plain substring, and under `since_year` it has a date whose first four
   * characters are digits worth at least `since_year`.
   */
  lemma LaborItemsFitQuery(rows: seq<Row>, company: string, sinceYear: Option<int>)
    ensures forall it :: it in LaborMatches(rows, company, sinceYear) ==>
      && it.name != ""
      && Contains(it.name, company)
      && (sinceYear.Some? ==>
            it.date.Some? && IsDigits(YearPrefix(it.date)) && DigitsValue(YearPrefix(it.date)) >= sinceYear.value)
  {
    var keep := LaborFilter(company, sinceYear);
    var items := LaborMatches(rows, company, sinceYear);
    SelectIsKeptRows(rows, keep, LaborItemOf);
    var idx := KeptIndices(rows, keep);
    forall it | it in items
      ensures it.name != "" && Contains(it.name, company)
      ensures sinceYear.Some? ==> it.date.Some? && IsDigits(YearPrefix(it.date))
      ensures sinceYear.Some? && IsDigits(YearPrefix(it.date)) ==> DigitsValue(YearPrefix(it.date)) >= sinceYear.value
    {
      var k :| 0 <= k < |items| && items[k] == it;
      assert keep(rows[idx[k]]);
    }
  }

  /**
   * Every `ge_work_equality_violations` item names a violator containing the
   * query, and under `since_year` it has a date in which `str(since_year)` occurs.
   */
  lemma GeItemsFitQuery(rows: seq<Row>, company: string, sinceYear: Option<int>)
    ensures forall it :: it in GeMatches(rows, company, sinceYear) ==>
      && it.name != ""
      && Contains(it.name, company)
      && (sinceYear.Some? ==> it.date.Some? && Contains(it.date.value, DecimalOf(sinceYear.value)))
  {
    var keep := GeFilter(company, sinceYear);
    var items := GeMatches(rows, company, sinceYear);
    SelectIsKeptRows(rows, keep, GeItemOf);
    var idx := KeptIndices(rows, keep);
    forall it | it in items
      ensures it.name != "" && Contains(it.name, company)
      ensures sinceYear.Some? ==> it.date.Some? && Contains(it.date.value, DecimalOf(sinceYear.value))
    {
      var k :| 0 <= k < |items| && items[k] == it;
      assert keep(rows[idx[k]]);
    }
  }

  /**
   * A date that starts with a four-digit year `n` passes `labor_violations`'
   * filter for every `since_year` up to `n`.
   */
  lemma LaborFilterOnLeadingYear(date: string, n: int, sinceYear: int)
    requires 1000 <= n <= 9999 && NatDecimal(n) <= date && sinceYear <= n
    ensures LaborYearFilter(Some(date), Some(sinceYear))
  {
    NatDecimalOfYear(n);
    assert YearPrefix(Some(date)) == NatDecimal(n);
    NatDecimalRoundTrip(n);
  }

  /**
   * The two year filters agree on a date that starts with the four-digit year
   * asked for: the numeric test of `labor_violations` and the substring test
   * of `ge_work_equality_violations` both pass.
   */
  lemma YearFiltersAgreeOnLeadingYear(date: string, year: int)
    requires 1000 <= year <= 9999
    requires DecimalOf(year) <= date
    ensures LaborYearFilter(Some(date), Some(year))
    ensures GeYearFilter(Some(date), Some(year))
  {
    LaborFilterOnLeadingYear(date, year, year);
    assert OccursAt(date, DecimalOf(year), 0);
    ContainsAt(date, DecimalOf(year));
  }

  /**
   * The substring test is not a numeric one: a date in a later year passes
   * the labor filter but not the gender-equality filter.
   */
  lemma LaterYearOnlyPassesLaborFilter(date: string, year: int)
    requires date == "2025/03/01" && year == 2024
    ensures LaborYearFilter(Some(date), Some(year))
    ensures !GeYearFilter(Some(date), Some(year))
  {
    NatDecimalOfYear(2025);
    LaborFilterOnLeadingYear(date, 2025, year);
    NatDecimalOfYear(year);
    YearAbsentFromDate(date, DecimalOf(year));
  }

  lemma YearAbsentFromDate(date: string, s: string)
    requires date == "2025/03/01" && s == "2024"
    ensures !Contains(date, s)
  {
    forall i | 0 <= i && i + |s| <= |date|
      ensures !OccursAt(date, s, i)
    {
      var w := date[i..i + |s|];
      assert w[0] == date[i] && w[1] == date[i + 1] && w[3] == date[i + 3];
    }
    ContainsAt(date, s);
  }

  /**
   * Conversely, a date written day-first passes the substring test but not
   * the numeric one, whose four leading characters are not all digits.
   */
  lemma DayFirstDateOnlyPassesGeFilter(date: string, year: int)
    requires date == "01/02/2024" && year == 2024
    ensures !LaborYearFilter(Some(date), Some(year))
    ensures GeYearFilter(Some(date), Some(year))
  {
    assert YearPrefix(Some(date))[2] == '/';
    var s := DecimalOf(year);
    NatDecimalOfYear(year);
    assert s == "2024";
    assert OccursAt(date, s, 6);
    ContainsAt(date, s);
  }

  /** A violation tool's answer for the given items: their count and the count per year prefix. */
  function ViolationAnswer(items: seq<ViolationItem>, company: string, sinceYear: Option<int>): ViolationResponse {
    ViolationResponse(items, |items|, CountByYear(YearPrefixes(items)), company, sinceYear, true)
  }

  /** What `labor_violations` answers. */
  function LaborViolationsOf(rows: seq<Row>, company: string, sinceYear: Option<int>, limit: int): ViolationResponse {
    ViolationAnswer(Capped(LaborMatches(rows, company, sinceYear), limit), company, sinceYear)
  }

  /** What `ge_work_equality_violations` answers. */
  function GeViolationsOf(rows: seq<Row>, company: string, sinceYear: Option<int>, limit: int): ViolationResponse {
    ViolationAnswer(Capped(GeMatches(rows, company, sinceYear), limit), company, sinceYear)
  }

  /**
   * `count_by_year` agrees with the items: its keys are exactly the non-empty
   * year prefixes of the items, each counts the items under it, and the
   * counters add up to the number of items with a non-empty prefix.
   */
  lemma CountByYearMatchesItems(items: seq<ViolationItem>, company: string, sinceYear: Option<int>, y: string)
    ensures var res := ViolationAnswer(items, company, sinceYear);
      && (y in res.countByYear <==> y != "" && exists k :: 0 <= k < |items| && YearPrefix(items[k].date) == y)
      && (y in res.countByYear ==> res.countByYear[y] == Occurrences(YearPrefixes(items), y))
      && Total(res.countByYear) == |items| - Occurrences(YearPrefixes(items), "")
  {
    var ys := YearPrefixes(items);
    CountByYearCounts(ys, y);
    CountByYearTotal(ys);
    if y in ys {
      var k :| 0 <= k < |ys| && ys[k] == y;
      assert YearPrefix(items[k].date) == y;
    }
    if exists k :: 0 <= k < |items| && YearPrefix(items[k].date) == y {
      var k :| 0 <= k < |items| && YearPrefix(items[k].date) == y;
      assert ys[k] == y;
    }
  }

  /**
   * `labor_violations`' answer: `count` is the number of items, at most
   * `max(limit, 1)`; the items are the first kept rows in row order; each
   * names a violator containing the query and, under `since_year`, carries a
   * date whose four leading digits are worth at least `since_year`.
   */
  lemma LaborViolationsAnswer(rows: seq<Row>, company: string, sinceYear: Option<int>, limit: int)
    ensures var res := LaborViolationsOf(rows, company, sinceYear, limit);
      && res.count == |res.items| <= Cap(limit)
      && res.items <= LaborMatches(rows, company, sinceYear)
      && (|res.items| < Cap(limit) ==> res.items == LaborMatches(rows, company, sinceYear))
      && forall it :: it in res.items ==>
           && it.name != ""
           && Contains(it.name, company)
           && (sinceYear.Some? ==>
                 it.date.Some? && IsDigits(YearPrefix(it.date)) && DigitsValue(YearPrefix(it.date)) >= sinceYear.value)
  {
    LaborItemsFitQuery(rows, company, sinceYear);
    CappedWithin(LaborMatches(rows, company, sinceYear), limit);
  }

  /**
   * `ge_work_equality_violations`' answer: `count` is the number of items, at
   * most `max(limit, 1)`; the items are the first kept rows in row order; each
   * names a violator containing the query and, under `since_year`, carries a
   * date in which `str(since_year)` occurs.
   */
  lemma GeViolationsAnswer(rows: seq<Row>, company: string, sinceYear: Option<int>, limit: int)
    ensures var res := GeViolationsOf(rows, company, sinceYear, limit);
      && res.count == |res.items| <= Cap(limit)
      && res.items <= GeMatches(rows, company, sinceYear)
      && (|res.items| < Cap(limit) ==> res.items == GeMatches(rows, company, sinceYear))
      && forall it :: it in res.items ==>
           && it.name != ""
           && Contains(it.name, company)
           && (sinceYear.Some? ==> it.date.Some? && Contains(it.date.value, DecimalOf(sinceYear.value)))
  {
    GeItemsFitQuery(rows, company, sinceYear);
    CappedWithin(GeMatches(rows, company, sinceYear), limit);
  }

  /** Appending an item bumps the counter of its year prefix, unless that prefix is empty. */
  lemma CountStep(items: seq<ViolationItem>, item: ViolationItem, byYear: map<string, nat>)
    requires byYear == CountByYear(YearPrefixes(items))
    ensures CountByYear(YearPrefixes(items + [item]))
         == if YearPrefix(item.date) != "" then Bump(byYear, YearPrefix(item.date)) else byYear
  {
    YearPrefixesSnoc(items, item);
    CountByYearSnoc(YearPrefixes(items), YearPrefix(item.date));
  }

  /** Adding one item to the output extends the year prefixes by its prefix. */
  lemma YearPrefixesSnoc(items: seq<ViolationItem>, it: ViolationItem)
    ensures YearPrefixes(items + [it]) == YearPrefixes(items) + [YearPrefix(it.date)]
  {
  }

  /**
   * The per-row step of `labor_violations`: the violator name, the
   * name filter, the date and its year filter, and the item built from the row.
   */
  method LaborRow(r: Row, company: string, sinceYear: Option<int>) returns (picked: Option<ViolationItem>)
    ensures picked == if LaborKeeps(r, company, sinceYear) then Some(LaborItemOf(r)) else None
  {
    var comp := Pick(r, ViolatorColumns);
    if comp.None? {
      return None;
    }
    if !Contains(comp.value, company) {
      return None;
    }
    var date := Pick(r, LaborDateColumns);
    var y := Prefix(date.GetOr(""), 4);
    if sinceYear.Some? && (!IsDigits(y) || DigitsValue(y) < sinceYear.value) {
      return None;
    }
    picked := Some(ViolationItem(
      comp.value,
      date,
      Pick(r, AuthorityColumns),
      Pick(r, ArticleColumns),
      Pick(r, ArticleTextColumns),
      Pick(r, FineColumns),
      r));
  }

  /** `labor_violations(company, since_year, limit)` over the given rows. */
  method LaborViolations(rows: seq<Row>, company: string, sinceYear: Option<int>, limit: int)
    returns (res: ViolationResponse)
    ensures res == LaborViolationsOf(rows, company, sinceYear, limit)
  {
    ghost var keep := LaborFilter(company, sinceYear);
    var out: seq<ViolationItem> := [];
    var byYear: map<string, nat> := map[];
    var i := 0;
    while i < |rows|
      invariant 0 <= i <= |rows|
      invariant out == Select(rows[..i], keep, LaborItemOf)
      invariant byYear == CountByYear(YearPrefixes(out))
      invariant |out| < Cap(limit)
    {
      var picked := LaborRow(rows[i], company, sinceYear);
      SelectExtend(rows, i, keep, LaborItemOf, picked);
      i := i + 1;
      if picked.None? {
        continue;
      }
      var item := picked.value;
      var y := YearPrefix(item.date);
      CountStep(out, item, byYear);
      out := out + [item];
      if y != "" {
        byYear := Bump(byYear, y);
      }
      if |out| >= limit {
        CappedAtStop(rows, i, keep, LaborItemOf, limit);
        assert out == Capped(LaborMatches(rows, company, sinceYear), limit);
        break;
      }
    }
    if |out| < Cap(limit) && i == |rows| {
      assert rows[..i] == rows;
      CappedAtEnd(rows, keep, LaborItemOf, limit);
    }
    assert out == Capped(LaborMatches(rows, company, sinceYear), limit);
    res := ViolationResponse(out, |out|, byYear, company, sinceYear, true);
  }

  /**
   * The per-row step of `ge_work_equality_violations`: the violator name, the
   * name filter, the date and its year filter, and the item built from the row.
   */
  method GeRow(r: Row, company: string, sinceYear: Option<int>) returns (picked: Option<ViolationItem>)
    ensures picked == if GeKeeps(r, company, sinceYear) then Some(GeItemOf(r)) else None
  {
    var comp := Pick(r, ViolatorColumns);
    if comp.None? {
      return None;
    }
    if !Contains(comp.value, company) {
      return None;
    }
    var date := Pick(r, GeDateColumns);
    if sinceYear.Some? && !Contains(date.GetOr(""), DecimalOf(sinceYear.value)) {
      return None;
    }
    picked := Some(ViolationItem(
      comp.value,
      date,
      Pick(r, AuthorityColumns),
      Pick(r, ArticleColumns),
      Pick(r, ArticleTextColumns),
      Pick(r, FineColumns),
      r));
  }

  /** `ge_work_equality_violations(company, since_year, limit)` over the given rows. */
  method GeWorkEqualityViolations(rows: seq<Row>, company: string, sinceYear: Option<int>, limit: int)
    returns (res: ViolationResponse)
    ensures res == GeViolationsOf(rows, company, sinceYear, limit)
  {
    ghost var keep := GeFilter(company, sinceYear);
    var out: seq<ViolationItem> := [];
    var byYear: map<string, nat> := map[];
    var i := 0;
    while i < |rows|
      invariant 0 <= i <= |rows|
      invariant out == Select(rows[..i], keep, GeItemOf)
      invariant byYear == CountByYear(YearPrefixes(out))
      invariant |out| < Cap(limit)
    {
      var picked := GeRow(rows[i], company, sinceYear);
      SelectExtend(rows, i, keep, GeItemOf, picked);
      i := i + 1;
      if picked.None? {
        continue;
      }
      var item := picked.value;
      var y := YearPrefix(item.date);
      CountStep(out, item, byYear);
      out := out + [item];
      if y != "" {
        byYear := Bump(byYear, y);
      }
      if |out| >= limit {
        CappedAtStop(rows, i, keep, GeItemOf, limit);
        assert out == Capped(GeMatches(rows, company, sinceYear), limit);
        break;
      }
    }
    if |out| < Cap(limit) && i == |rows| {
      assert rows[..i] == rows;
      CappedAtEnd(rows, keep, GeItemOf, limit);
    }
    assert out == Capped(GeMatches(rows, company, sinceYear), limit);
    res := ViolationResponse(out, |out|, byYear, company, sinceYear, true);
  }
}
