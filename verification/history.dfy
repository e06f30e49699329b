/** The `/api/history` endpoint of the gate server: the WHERE clause it assembles
    from the query string, the SQL text it sends, and the rows MySQL returns for it. */
module History {
  import opened Common
  import opened Text
  import opened Visits

  /** The parsed query string; a key absent from the request is absent here. */
  type QueryString = map<string, string>

  /** `req.query[key]`, with an absent key read as the falsy `""`. */
  function Param(q: QueryString, key: string): string {
    if key in q then q[key] else ""
  }

  /** One predicate on the calendar fields of `punch_in_time`. */
  datatype Clause = YearIs | MonthIs | DayIs

  /** The query-string key each clause is built from. */
  function KeyOf(c: Clause): string {
    match c
    case YearIs => "year"
    case MonthIs => "month"
    case DayIs => "day"
  }

  function Rank(c: Clause): nat {
    match c
    case YearIs => 0
    case MonthIs => 1
    case DayIs => 2
  }

  /** The `whereClauses` and `params` arrays, side by side. */
  datatype HistoryQuery = HistoryQuery(clauses: seq<Clause>, params: seq<string>)

  /** The query-string value a clause compares with. */
  function ValueFor(q: QueryString, c: Clause): string {
    Param(q, KeyOf(c))
  }

  /** `whereClauses.push(...)` and `params.push(value)` when `value` is truthy. */
  function Push(h: HistoryQuery, c: Clause, value: string): HistoryQuery {
    if value != "" then HistoryQuery(h.clauses + [c], h.params + [value]) else h
  }

  /** The arrays pair each clause with its own query value, hold clauses in
      rank order, and hold only clauses ranked below `bound`. */
  ghost predicate PairedBelow(q: QueryString, h: HistoryQuery, bound: nat) {
    && |h.clauses| == |h.params|
    && (forall i :: 0 <= i < |h.clauses| ==> h.params[i] == ValueFor(q, h.clauses[i]))
    && (forall i, j :: 0 <= i < j < |h.clauses| ==> Rank(h.clauses[i]) < Rank(h.clauses[j]))
    && (forall i :: 0 <= i < |h.clauses| ==> Rank(h.clauses[i]) < bound)
  }

  lemma PushKeepsPairing(q: QueryString, h: HistoryQuery, c: Clause)
    requires PairedBelow(q, h, Rank(c))
    ensures PairedBelow(q, Push(h, c, ValueFor(q, c)), Rank(c) + 1)
    ensures forall d :: d in Push(h, c, ValueFor(q, c)).clauses <==>
      d in h.clauses || (d == c && ValueFor(q, c) != "")
  {
  }

  /** One clause and one parameter for each of `year`, `month`, `day` that is
      present and non-empty, in that order; nothing else of the query is read. */
  function BuildQuery(q: QueryString): (h: HistoryQuery)
    ensures |h.clauses| == |h.params| <= 3
    ensures forall c :: c in h.clauses <==> ValueFor(q, c) != ""
    ensures forall i :: 0 <= i < |h.clauses| ==> h.params[i] == ValueFor(q, h.clauses[i])
    ensures forall i, j :: 0 <= i < j < |h.clauses| ==> Rank(h.clauses[i]) < Rank(h.clauses[j])
  {
    var h0 := HistoryQuery([], []);
    var h1 := Push(h0, YearIs, ValueFor(q, YearIs));
    var h2 := Push(h1, MonthIs, ValueFor(q, MonthIs));
    var h3 := Push(h2, DayIs, ValueFor(q, DayIs));
    PushKeepsPairing(q, h0, YearIs);
    PushKeepsPairing(q, h1, MonthIs);
    PushKeepsPairing(q, h2, DayIs);
    h3
  }

  /** Only `year`, `month` and `day` influence the query. */
  lemma BuildQueryReadsOnlyDateParts(q1: QueryString, q2: QueryString)
    requires Param(q1, "year") == Param(q2, "year")
    requires Param(q1, "month") == Param(q2, "month")
    requires Param(q1, "day") == Param(q2, "day")
    ensures BuildQuery(q1) == BuildQuery(q2)
  {
  }

  function TimestampDiffSql(unit: string, from: string, to: string): string {
    "TIMESTAMPDIFF(" + unit + ", " + from + ", " + to + ")"
  }

  const SelectSql := "SELECT *, " + TimestampDiffSql("MINUTE", "punch_in_time", "punch_out_time") + " AS duration_minutes FROM visits"
  const OrderSql := " ORDER BY punch_in_time DESC"

  /** The calendar field of `punch_in_time` a clause reads. */
  function FieldSql(c: Clause): string {
    match c
    case YearIs => "YEAR(punch_in_time)"
    case MonthIs => "MONTH(punch_in_time)"
    case DayIs => "DAY(punch_in_time)"
  }

  function ClauseSql(c: Clause): string {
    FieldSql(c) + " = ?"
  }

  function ClauseSqls(cs: seq<Clause>): (parts: seq<string>)
    ensures |parts| == |cs|
    ensures forall i :: 0 <= i < |cs| ==> parts[i] == ClauseSql(cs[i])
  {
    seq(|cs|, i requires 0 <= i < |cs| => ClauseSql(cs[i]))
  }

  /** ` WHERE ` and the clauses joined with ` AND `, or nothing without clauses. */
  function WhereSql(h: HistoryQuery): (r: string)
    ensures r == "" <==> |h.clauses| == 0
    ensures |h.clauses| > 0 ==> |r| > 7 && r[..7] == " WHERE "
    ensures |h.clauses| == 1 ==> r == " WHERE " + ClauseSql(h.clauses[0])
  {
    var clauses := ClauseSqls(h.clauses);
    if |clauses| > 0 then " WHERE " + Join(clauses, " AND ") else ""
  }

  /** The statement text: always the same select and ordering, around the WHERE
      part; without clauses it selects the whole table. */
  function SqlText(h: HistoryQuery): (r: string)
    ensures |r| == |SelectSql| + |WhereSql(h)| + |OrderSql|
    ensures r[..|SelectSql|] == SelectSql
    ensures r[|r| - |OrderSql|..] == OrderSql
    ensures r[|SelectSql|..|r| - |OrderSql|] == WhereSql(h)
    ensures |h.clauses| == 0 ==> r == SelectSql + OrderSql
  {
    var r := SelectSql + WhereSql(h) + OrderSql;
    assert r[|SelectSql|..|r| - |OrderSql|] == WhereSql(h);
    r
  }

  lemma {:induction false} NoPlaceholders(s: string)
    requires '?' !in s
    ensures Occurrences('?', s) == 0
  {
    if |s| > 0 {
      assert forall k :: 0 <= k < |s| - 1 ==> s[1..][k] == s[k + 1];
      NoPlaceholders(s[1..]);
    }
  }

  lemma FieldSqlHasNoPlaceholder(c: Clause)
    ensures Occurrences('?', FieldSql(c)) == 0
  {
    match c
    case YearIs => NoPlaceholders("YEAR(punch_in_time)");
    case MonthIs => NoPlaceholders("MONTH(punch_in_time)");
    case DayIs => NoPlaceholders("DAY(punch_in_time)");
  }

  lemma ComparisonHasOnePlaceholder()
    ensures Occurrences('?', " = ?") == 1
  {
    NoPlaceholders(" = ");
    OccurrencesConcat('?', " = ", "?");
    assert " = ?" == " = " + "?";
  }

  lemma ClauseSqlPlaceholders(c: Clause)
    ensures Occurrences('?', ClauseSql(c)) == 1
  {
    FieldSqlHasNoPlaceholder(c);
    ComparisonHasOnePlaceholder();
    OccurrencesConcat('?', FieldSql(c), " = ?");
  }

  lemma {:induction false} JoinedClausePlaceholders(cs: seq<Clause>)
    ensures Occurrences('?', Join(ClauseSqls(cs), " AND ")) == |cs|
  {
    var parts := ClauseSqls(cs);
    if |cs| == 1 {
      ClauseSqlPlaceholders(cs[0]);
    } else if |cs| > 1 {
      var tail := ClauseSqls(cs[1..]);
      assert parts[1..] == tail;
      JoinedClausePlaceholders(cs[1..]);
      ClauseSqlPlaceholders(cs[0]);
      NoPlaceholders(" AND ");
      OccurrencesConcat('?', parts[0], " AND ");
      OccurrencesConcat('?', parts[0] + " AND ", Join(tail, " AND "));
    }
  }

  lemma SelectSqlHasNoPlaceholder()
    ensures Occurrences('?', SelectSql) == 0
  {
    assert '?' !in TimestampDiffSql("MINUTE", "punch_in_time", "punch_out_time");
    NoPlaceholders(SelectSql);
  }

  lemma OrderSqlHasNoPlaceholder()
    ensures Occurrences('?', OrderSql) == 0
  {
    NoPlaceholders(OrderSql);
  }

  lemma WhereKeywordHasNoPlaceholder()
    ensures Occurrences('?', " WHERE ") == 0
  {
    NoPlaceholders(" WHERE ");
  }

  /** The WHERE part holds one `?` per clause and is empty without clauses. */
  lemma WherePlaceholders(h: HistoryQuery)
    ensures Occurrences('?', WhereSql(h)) == |h.clauses|
    ensures WhereSql(h) == "" <==> |h.clauses| == 0
  {
    var parts := ClauseSqls(h.clauses);
    JoinedClausePlaceholders(h.clauses);
    if |parts| > 0 {
      var joined := Join(parts, " AND ");
      assert Occurrences('?', joined) == |h.clauses|;
      WhereKeywordHasNoPlaceholder();
      OccurrencesConcat('?', " WHERE ", joined);
      assert WhereSql(h) == " WHERE " + joined;
    }
  }

  /** A statement carries exactly one `?` per clause. */
  lemma SqlPlaceholders(h: HistoryQuery)
    ensures Occurrences('?', SqlText(h)) == |h.clauses|
  {
    SelectSqlHasNoPlaceholder();
    OrderSqlHasNoPlaceholder();
    WherePlaceholders(h);
    OccurrencesConcat('?', SelectSql, WhereSql(h));
    OccurrencesConcat('?', SelectSql + WhereSql(h), OrderSql);
  }

  /** The statement `/api/history` sends binds exactly as many parameters as it
      has placeholders. */
  lemma SqlPlaceholdersMatchParams(q: QueryString)
    ensures Occurrences('?', SqlText(BuildQuery(q))) == |BuildQuery(q).params|
  {
    SqlPlaceholders(BuildQuery(q));
  }

  /** Without filters the statement has no WHERE clause at all. */
  lemma NoFiltersNoWhere(q: QueryString)
    requires ValueFor(q, YearIs) == "" && ValueFor(q, MonthIs) == "" && ValueFor(q, DayIs) == ""
    ensures SqlText(BuildQuery(q)) == SelectSql + OrderSql
  {
  }

  /** The calendar field of `punch_in_time` a clause compares. */
  function FieldOf(v: Visit, c: Clause): int {
    match c
    case YearIs => v.punchIn.year
    case MonthIs => v.punchIn.month
    case DayIs => v.punchIn.day
  }

  /** The row satisfies every clause with its parameter; MySQL compares the
      string parameter with the integer field numerically. */
  predicate Selects(h: HistoryQuery, v: Visit)
    requires |h.clauses| == |h.params|
  {
    forall i :: 0 <= i < |h.clauses| ==> FieldOf(v, h.clauses[i]) == LeadingValue(h.params[i])
  }

  /** `TIMESTAMPDIFF(MINUTE, punch_in_time, punch_out_time)`: NULL for an open
      visit, otherwise the elapsed whole minutes, truncated toward zero. */
  function DurationMinutes(v: Visit): (m: Option<int>)
    ensures m.None? <==> v.punchOut.None?
    ensures m.Some? && v.punchOut.value.seconds >= v.punchIn.seconds ==>
      0 <= v.punchOut.value.seconds - v.punchIn.seconds - 60 * m.value < 60
    ensures m.Some? && v.punchOut.value.seconds < v.punchIn.seconds ==>
      0 <= 60 * m.value - (v.punchOut.value.seconds - v.punchIn.seconds) < 60
  {
    match v.punchOut
    case None => None
    case Some(out) =>
      var elapsed := out.seconds - v.punchIn.seconds;
      Some(if elapsed >= 0 then elapsed / 60 else -((-elapsed) / 60))
  }

  /** A visit from 10:00:00 to 10:45:30 lasted 45 minutes. */
  lemma DurationExample()
    ensures DurationMinutes(Visit(1, "S1", "Reading", Instant(36000, 2024, 1, 1), Some(Instant(38730, 2024, 1, 1)))) == Some(45)
  {
  }

  /** One row of the JSON reply: the visit's columns and `duration_minutes`. */
  datatype HistoryRow = HistoryRow(visit: Visit, durationMinutes: Option<int>)

  ghost predicate SortedByPunchInDesc(s: seq<Visit>) {
    forall i, j :: 0 <= i < j < |s| ==> s[i].punchIn.seconds >= s[j].punchIn.seconds
  }

  /** Places `v` into a list already sorted latest-first. */
  function Insert(v: Visit, s: seq<Visit>): (r: seq<Visit>)
    requires SortedByPunchInDesc(s)
    ensures SortedByPunchInDesc(r)
    ensures multiset(r) == multiset(s) + multiset{v}
  {
    if |s| == 0 then [v]
    else if v.punchIn.seconds >= s[0].punchIn.seconds then [v] + s
    else
      var rest := Insert(v, s[1..]);
      assert s == [s[0]] + s[1..];
      InsertedBelowHead(v, s, rest);
      [s[0]] + rest
  }

  lemma InsertedBelowHead(v: Visit, s: seq<Visit>, rest: seq<Visit>)
    requires |s| > 0 && SortedByPunchInDesc(s) && v.punchIn.seconds < s[0].punchIn.seconds
    requires multiset(rest) == multiset(s[1..]) + multiset{v}
    ensures forall k :: 0 <= k < |rest| ==> rest[k].punchIn.seconds <= s[0].punchIn.seconds
  {
    forall k | 0 <= k < |rest| ensures rest[k].punchIn.seconds <= s[0].punchIn.seconds {
      assert rest[k] in multiset(rest);
      if rest[k] != v {
        assert rest[k] in multiset(s[1..]);
        var j :| 0 <= j < |s[1..]| && s[1..][j] == rest[k];
        assert s[j + 1] == rest[k];
      }
    }
  }

  /** `ORDER BY punch_in_time DESC`; rows with equal times keep no promised order. */
  function SortByPunchInDesc(s: seq<Visit>): (r: seq<Visit>)
    ensures SortedByPunchInDesc(r)
    ensures multiset(r) == multiset(s)
  {
    if |s| == 0 then []
    else
      assert s == [s[0]] + s[1..];
      Insert(s[0], SortByPunchInDesc(s[1..]))
  }

  /** The rows of `visits` the clauses select, in table order. */
  function SelectRows(h: HistoryQuery, store: Store): (r: seq<Visit>)
    requires |h.clauses| == |h.params|
    ensures forall v :: v in r <==> v in store && Selects(h, v)
    ensures forall v :: multiset(r)[v] == if Selects(h, v) then multiset(store)[v] else 0
  {
    if |store| == 0 then []
    else
      var rest := SelectRows(h, store[1..]);
      assert store == [store[0]] + store[1..];
      if Selects(h, store[0]) then [store[0]] + rest else rest
  }

  /** The reply of `/api/history` for query string `q` against `store`. */
  function QueryHistory(store: Store, q: QueryString): (rows: seq<HistoryRow>)
    ensures forall i :: 0 <= i < |rows| ==> rows[i].durationMinutes == DurationMinutes(rows[i].visit)
    ensures forall i, j :: 0 <= i < j < |rows| ==>
      rows[i].visit.punchIn.seconds >= rows[j].visit.punchIn.seconds
  {
    var h := BuildQuery(q);
    var sorted := SortByPunchInDesc(SelectRows(h, store));
    seq(|sorted|, i requires 0 <= i < |sorted| => HistoryRow(sorted[i], DurationMinutes(sorted[i])))
  }

  function VisitsOf(rows: seq<HistoryRow>): (vs: seq<Visit>)
    ensures |vs| == |rows|
    ensures forall i :: 0 <= i < |rows| ==> vs[i] == rows[i].visit
  {
    seq(|rows|, i requires 0 <= i < |rows| => rows[i].visit)
  }

  /** A visit matches the request when its punch-in year, month and day equal
      each supplied filter value. */
  ghost predicate MatchesFilters(q: QueryString, v: Visit) {
    && (ValueFor(q, YearIs) != "" ==> v.punchIn.year == LeadingValue(ValueFor(q, YearIs)))
    && (ValueFor(q, MonthIs) != "" ==> v.punchIn.month == LeadingValue(ValueFor(q, MonthIs)))
    && (ValueFor(q, DayIs) != "" ==> v.punchIn.day == LeadingValue(ValueFor(q, DayIs)))
  }

  lemma MatchesImpliesSelects(q: QueryString, v: Visit)
    requires MatchesFilters(q, v)
    ensures Selects(BuildQuery(q), v)
  {
    var h := BuildQuery(q);
    forall i | 0 <= i < |h.clauses|
      ensures FieldOf(v, h.clauses[i]) == LeadingValue(h.params[i])
    {
      assert h.clauses[i] in h.clauses;
    }
  }

  lemma SelectsImpliesMatches(q: QueryString, v: Visit)
    requires Selects(BuildQuery(q), v)
    ensures MatchesFilters(q, v)
  {
    var h := BuildQuery(q);
    forall c | c in h.clauses
      ensures FieldOf(v, c) == LeadingValue(ValueFor(q, c))
    {
      var i :| 0 <= i < |h.clauses| && h.clauses[i] == c;
    }
    assert ValueFor(q, YearIs) != "" ==> YearIs in h.clauses;
    assert ValueFor(q, MonthIs) != "" ==> MonthIs in h.clauses;
    assert ValueFor(q, DayIs) != "" ==> DayIs in h.clauses;
  }

  /** The WHERE clause selects exactly the visits that match the filters. */
  lemma SelectsIffMatches(q: QueryString, v: Visit)
    ensures Selects(BuildQuery(q), v) <==> MatchesFilters(q, v)
  {
    if MatchesFilters(q, v) {
      MatchesImpliesSelects(q, v);
    }
    if Selects(BuildQuery(q), v) {
      SelectsImpliesMatches(q, v);
    }
  }

  /** The reply holds, latest first, every visit of the table that matches the
      supplied filters, each as often as in the table, and nothing else. */
  lemma QueryHistoryContents(store: Store, q: QueryString)
    ensures forall v :: (multiset(VisitsOf(QueryHistory(store, q)))[v] ==
      if MatchesFilters(q, v) then multiset(store)[v] else 0)
  {
    var h := BuildQuery(q);
    var sorted := SortByPunchInDesc(SelectRows(h, store));
    assert VisitsOf(QueryHistory(store, q)) == sorted;
    forall v ensures multiset(sorted)[v] == if MatchesFilters(q, v) then multiset(store)[v] else 0 {
      SelectsIffMatches(q, v);
    }
  }

  /** Without filters the reply lists the whole table. */
  lemma NoFiltersAllVisits(store: Store, q: QueryString)
    requires ValueFor(q, YearIs) == "" && ValueFor(q, MonthIs) == "" && ValueFor(q, DayIs) == ""
    ensures multiset(VisitsOf(QueryHistory(store, q))) == multiset(store)
  {
    QueryHistoryContents(store, q);
  }
}
