/** The filter state of the history page and the two strings it derives from it:
    the query string sent to `/api/history` and the export file name. */
module HistoryPage {
  import opened Text
  import opened Seqs
  import History
  import Visits

  /** The six filter inputs, each the empty string when unset. */
  datatype Filters = Filters(year: string, month: string, day: string, purpose: string, fromDate: string, toDate: string)

  /** The `name` attribute of each filter input. */
  datatype Field = Year | Month | Day | Purpose | FromDate | ToDate

  function Name(f: Field): string {
    match f
    case Year => "year"
    case Month => "month"
    case Day => "day"
    case Purpose => "purpose"
    case FromDate => "fromDate"
    case ToDate => "toDate"
  }

  function Get(fs: Filters, f: Field): string {
    match f
    case Year => fs.year
    case Month => fs.month
    case Day => fs.day
    case Purpose => fs.purpose
    case FromDate => fs.fromDate
    case ToDate => fs.toDate
  }

  /** The key order of the filter object literal, which `Object.entries` follows. */
  const Fields: seq<Field> := [Year, Month, Day, Purpose, FromDate, ToDate]

  /** `handleFilterChange`: `{...filters, [name]: value}`. */
  function ChangeFilter(fs: Filters, f: Field, value: string): (r: Filters)
    ensures Get(r, f) == value
    ensures forall g :: g != f ==> Get(r, g) == Get(fs, g)
  {
    match f
    case Year => fs.(year := value)
    case Month => fs.(month := value)
    case Day => fs.(day := value)
    case Purpose => fs.(purpose := value)
    case FromDate => fs.(fromDate := value)
    case ToDate => fs.(toDate := value)
  }

  /** `clearFilters`, which also is the initial state. */
  function ClearFilters(): (r: Filters)
    ensures forall g :: Get(r, g) == ""
  {
    Filters("", "", "", "", "", "")
  }

  type Entry = (string, string)

  /** `Object.entries(filters)`. */
  function Entries(fs: Filters): seq<Entry> {
    Map((f: Field) => (Name(f), Get(fs, f)), Fields)
  }

  predicate IsSet(e: Entry) {
    e.1 != ""
  }

  /** The entries whose value is not `''`, in field order. */
  function ActiveFilters(fs: Filters): (r: seq<Entry>)
    ensures Subseq(r, Entries(fs))
    ensures forall i :: 0 <= i < |r| ==> r[i].1 != ""
  {
    Filter(IsSet, Entries(fs))
  }

  lemma EntriesListEveryField(fs: Filters)
    ensures forall f :: (Name(f), Get(fs, f)) in Entries(fs)
    ensures forall e :: e in Entries(fs) ==> exists f :: e == (Name(f), Get(fs, f))
  {
    forall f ensures (Name(f), Get(fs, f)) in Entries(fs) {
      var i := match f case Year => 0 case Month => 1 case Day => 2
        case Purpose => 3 case FromDate => 4 case ToDate => 5;
      assert Entries(fs)[i] == (Name(f), Get(fs, f));
    }
    forall e | e in Entries(fs) ensures exists f :: e == (Name(f), Get(fs, f)) {
      var i :| 0 <= i < |Entries(fs)| && Entries(fs)[i] == e;
      assert e == (Name(Fields[i]), Get(fs, Fields[i]));
    }
  }

  /** A filter is active exactly when its value is non-empty, and nothing else is. */
  lemma ActiveFiltersExactly(fs: Filters)
    ensures forall f :: (Name(f), Get(fs, f)) in ActiveFilters(fs) <==> Get(fs, f) != ""
    ensures forall e :: e in ActiveFilters(fs) ==> exists f :: e == (Name(f), Get(fs, f))
  {
    FilterMembers(IsSet, Entries(fs));
    EntriesListEveryField(fs);
  }

  /** The active filters, one field at a time. */
  lemma ActiveFiltersUnfold(fs: Filters)
    ensures ActiveFilters(fs) ==
      Opt(fs.year != "", ("year", fs.year)) + (Opt(fs.month != "", ("month", fs.month))
      + (Opt(fs.day != "", ("day", fs.day)) + (Opt(fs.purpose != "", ("purpose", fs.purpose))
      + (Opt(fs.fromDate != "", ("fromDate", fs.fromDate)) + Opt(fs.toDate != "", ("toDate", fs.toDate))))))
  {
    var e0, e1, e2 := ("year", fs.year), ("month", fs.month), ("day", fs.day);
    var e3, e4, e5 := ("purpose", fs.purpose), ("fromDate", fs.fromDate), ("toDate", fs.toDate);
    assert Entries(fs) == [e0, e1, e2, e3, e4, e5];
    var l5: seq<Entry> := [e5];
    var l4 := [e4] + l5;
    var l3 := [e3] + l4;
    var l2 := [e2] + l3;
    var l1 := [e1] + l2;
    var l0 := [e0] + l1;
    assert l0 == [e0, e1, e2, e3, e4, e5];
    assert ActiveFilters(fs) == Filter(IsSet, l0);
    FilterCons(IsSet, e5, []);
    assert l5 == [e5] + [];
    var f5 := Opt(fs.toDate != "", e5);
    assert Filter(IsSet, l5) == f5;
    FilterCons(IsSet, e4, l5);
    var f4 := Opt(fs.fromDate != "", e4) + f5;
    assert Filter(IsSet, l4) == f4;
    FilterCons(IsSet, e3, l4);
    var f3 := Opt(fs.purpose != "", e3) + f4;
    assert Filter(IsSet, l3) == f3;
    FilterCons(IsSet, e2, l3);
    var f2 := Opt(fs.day != "", e2) + f3;
    assert Filter(IsSet, l2) == f2;
    FilterCons(IsSet, e1, l2);
    var f1 := Opt(fs.month != "", e1) + f2;
    assert Filter(IsSet, l1) == f1;
    FilterCons(IsSet, e0, l1);
    assert Filter(IsSet, l0) == Opt(fs.year != "", e0) + f1;
  }

  /** Typing into one input turns that filter on when the value is non-empty and
      off when it is empty, and leaves every other filter as active as before. */
  lemma ChangeFilterActivation(fs: Filters, f: Field, value: string)
    ensures value != "" ==> (Name(f), value) in ActiveFilters(ChangeFilter(fs, f, value))
    ensures value == "" ==> forall e :: e in ActiveFilters(ChangeFilter(fs, f, value)) ==> e.0 != Name(f)
    ensures forall g :: g != f ==>
      ((Name(g), Get(fs, g)) in ActiveFilters(ChangeFilter(fs, f, value)) <==> Get(fs, g) != "")
  {
    var r := ChangeFilter(fs, f, value);
    ActiveFiltersExactly(r);
    forall e | value == "" && e in ActiveFilters(r) ensures e.0 != Name(f) {
      var g :| e == (Name(g), Get(r, g));
      NameInjective(f, g);
    }
  }

  /** `Object.fromEntries`: a later entry overrides an earlier one with the same key. */
  function ToQuery(es: seq<Entry>): (q: History.QueryString)
    ensures forall k :: k in q <==> exists e :: e in es && e.0 == k
  {
    if |es| == 0 then map[]
    else
      var init := ToQuery(es[..|es| - 1]);
      assert forall e :: e in es <==> e in es[..|es| - 1] || e == es[|es| - 1] by {
        assert es == es[..|es| - 1] + [es[|es| - 1]];
      }
      init[es[|es| - 1].0 := es[|es| - 1].1]
  }

  lemma {:induction false} ToQueryValue(es: seq<Entry>, k: string, v: string)
    requires (k, v) in es
    requires forall e :: e in es && e.0 == k ==> e.1 == v
    ensures k in ToQuery(es) && ToQuery(es)[k] == v
  {
    var last := es[|es| - 1];
    assert es == es[..|es| - 1] + [last];
    if last.0 != k {
      assert (k, v) in es[..|es| - 1];
      ToQueryValue(es[..|es| - 1], k, v);
    }
  }

  /** Each filter's entry is the only one carrying its name, so the query string
      holds the filter's own value under that name. */
  lemma {:induction false} ActiveFiltersQuery(fs: Filters)
    ensures forall f :: Name(f) in ToQuery(ActiveFilters(fs)) <==> Get(fs, f) != ""
    ensures forall f :: Get(fs, f) != "" ==>
      Name(f) in ToQuery(ActiveFilters(fs)) && ToQuery(ActiveFilters(fs))[Name(f)] == Get(fs, f)
    ensures forall k :: k in ToQuery(ActiveFilters(fs)) ==> exists f :: Name(f) == k
  {
    var es := ActiveFilters(fs);
    ActiveFiltersExactly(fs);
    forall f | Get(fs, f) != ""
      ensures Name(f) in ToQuery(es) && ToQuery(es)[Name(f)] == Get(fs, f)
    {
      forall e | e in es && e.0 == Name(f) ensures e.1 == Get(fs, f) {
        var g :| e == (Name(g), Get(fs, g));
        NameInjective(f, g);
      }
      ToQueryValue(es, Name(f), Get(fs, f));
    }
    forall f | Name(f) in ToQuery(es) ensures Get(fs, f) != "" {
      var e :| e in es && e.0 == Name(f);
      var g :| e == (Name(g), Get(fs, g));
      NameInjective(f, g);
    }
    forall k | k in ToQuery(es) ensures exists f :: Name(f) == k {
      var e :| e in es && e.0 == k;
      var g :| e == (Name(g), Get(fs, g));
    }
  }

  /** The query string sent for `fs`: one key per non-empty filter, named as the
      filter and carrying its value, and no other key. */
  function QueryOf(fs: Filters): (q: History.QueryString)
    ensures forall f :: Name(f) in q <==> Get(fs, f) != ""
    ensures forall f :: Name(f) in q ==> q[Name(f)] == Get(fs, f)
    ensures forall k :: k in q ==> exists f :: Name(f) == k
  {
    ActiveFiltersQuery(fs);
    ToQuery(ActiveFilters(fs))
  }

  function ClauseField(c: History.Clause): Field {
    match c
    case YearIs => Year
    case MonthIs => Month
    case DayIs => Day
  }

  lemma NameInjective(f: Field, g: Field)
    ensures Name(f) == Name(g) ==> f == g
  {
  }

  /** The server reads back each date part exactly as the page holds it. */
  lemma ServerReadsPageDateParts(fs: Filters, c: History.Clause)
    ensures History.ValueFor(QueryOf(fs), c) == Get(fs, ClauseField(c))
  {
    var f := ClauseField(c);
    var es := ActiveFilters(fs);
    ActiveFiltersExactly(fs);
    assert History.KeyOf(c) == Name(f);
    forall e | e in es && e.0 == Name(f) ensures e == (Name(f), Get(fs, f)) {
      var g :| e == (Name(g), Get(fs, g));
      NameInjective(f, g);
    }
    if Get(fs, f) != "" {
      ToQueryValue(es, Name(f), Get(fs, f));
    }
  }

  /** The server builds one clause for each date filter set on the page, and one
      with the page's value as its parameter. */
  lemma PageFiltersBecomeClauses(fs: Filters)
    ensures forall c :: c in History.BuildQuery(QueryOf(fs)).clauses <==> Get(fs, ClauseField(c)) != ""
    ensures var h := History.BuildQuery(QueryOf(fs));
      forall i :: 0 <= i < |h.clauses| ==> h.params[i] == Get(fs, ClauseField(h.clauses[i]))
  {
    forall c ensures History.ValueFor(QueryOf(fs), c) == Get(fs, ClauseField(c)) {
      ServerReadsPageDateParts(fs, c);
    }
  }

  const MonthNames: seq<string> := ["January", "February", "March", "April", "May", "June",
    "July", "August", "September", "October", "November", "December"]

  /** `monthNames[filters.month - 1]`; an index outside the list yields
      `undefined`, which `join` writes as the empty string. */
  function MonthPart(month: string): (r: string)
    ensures r != "" <==> JsNumber(month).Some? && 1 <= JsNumber(month).value <= 12
    ensures r != "" ==> r == MonthNames[JsNumber(month).value - 1]
    ensures r == "" || r in MonthNames
  {
    match JsNumber(month)
    case Some(n) => if 1 <= n <= 12 then MonthNames[n - 1] else ""
    case None => ""
  }

  /** The month select offers the values "1" to "12"; each names its month. */
  lemma MonthPartOfSelectValue(m: nat)
    requires 1 <= m <= 12
    ensures MonthPart(NatToString(m)) == MonthNames[m - 1]
  {
    NatToStringNumber(m);
  }

  /** The piece of the file name an active filter contributes. */
  function NamePart(e: Entry): string {
    if e.0 == "month" then MonthPart(e.1)
    else if e.0 == "fromDate" then "From_" + e.1
    else if e.0 == "toDate" then "To_" + e.1
    else e.1
  }

  /** `nameParts` after the six conditional pushes. */
  function NameParts(fs: Filters): seq<string> {
    ["History"]
    + (if fs.year != "" then [fs.year] else [])
    + (if fs.month != "" then [MonthPart(fs.month)] else [])
    + (if fs.day != "" then [fs.day] else [])
    + (if fs.purpose != "" then [fs.purpose] else [])
    + (if fs.fromDate != "" then ["From_" + fs.fromDate] else [])
    + (if fs.toDate != "" then ["To_" + fs.toDate] else [])
  }

  /** The file name lists the active filters in order, each rendered by `NamePart`. */
  lemma NamePartsFollowActiveFilters(fs: Filters)
    ensures NameParts(fs) == ["History"] + Map(NamePart, ActiveFilters(fs))
  {
    ActiveFiltersUnfold(fs);
    var o0, o1, o2 := Opt(fs.year != "", ("year", fs.year)), Opt(fs.month != "", ("month", fs.month)), Opt(fs.day != "", ("day", fs.day));
    var o3, o4 := Opt(fs.purpose != "", ("purpose", fs.purpose)), Opt(fs.fromDate != "", ("fromDate", fs.fromDate));
    var o5 := Opt(fs.toDate != "", ("toDate", fs.toDate));
    MapConcat(NamePart, o4, o5);
    MapConcat(NamePart, o3, o4 + o5);
    MapConcat(NamePart, o2, o3 + (o4 + o5));
    MapConcat(NamePart, o1, o2 + (o3 + (o4 + o5)));
    MapConcat(NamePart, o0, o1 + (o2 + (o3 + (o4 + o5))));
    MapOpt(NamePart, fs.year != "", ("year", fs.year));
    MapOpt(NamePart, fs.month != "", ("month", fs.month));
    MapOpt(NamePart, fs.day != "", ("day", fs.day));
    MapOpt(NamePart, fs.purpose != "", ("purpose", fs.purpose));
    MapOpt(NamePart, fs.fromDate != "", ("fromDate", fs.fromDate));
    MapOpt(NamePart, fs.toDate != "", ("toDate", fs.toDate));
    var p0, p1, p2 := Opt(fs.year != "", fs.year), Opt(fs.month != "", MonthPart(fs.month)), Opt(fs.day != "", fs.day);
    var p3, p4 := Opt(fs.purpose != "", fs.purpose), Opt(fs.fromDate != "", "From_" + fs.fromDate);
    var p5 := Opt(fs.toDate != "", "To_" + fs.toDate);
    assert Map(NamePart, ActiveFilters(fs)) == p0 + (p1 + (p2 + (p3 + (p4 + p5))));
    var h: seq<string> := ["History"];
    assert NameParts(fs) == h + p0 + p1 + p2 + p3 + p4 + p5;
    ConcatAssoc(h + p0 + p1 + p2 + p3, p4, p5);
    ConcatAssoc(h + p0 + p1 + p2, p3, p4 + p5);
    ConcatAssoc(h + p0 + p1, p2, p3 + (p4 + p5));
    ConcatAssoc(h + p0, p1, p2 + (p3 + (p4 + p5)));
    ConcatAssoc(h, p0, p1 + (p2 + (p3 + (p4 + p5))));
  }

  /** `handleExport`'s file name; `today` is the ISO date the browser reports. */
  function ExportFileName(fs: Filters, today: string): (name: string)
    ensures ActiveFilters(fs) == [] ==> name == "StudentVisits_upto_" + today + ".xlsx"
    ensures ActiveFilters(fs) != [] ==>
      name == Join(["History"] + Map(NamePart, ActiveFilters(fs)), "_") + ".xlsx"
    ensures ActiveFilters(fs) != [] <==> |name| >= 8 && name[..8] == "History_"
  {
    var parts := NameParts(fs);
    NamePartsFollowActiveFilters(fs);
    if |parts| > 1 then
      assert Join(parts, "_") == "History" + "_" + Join(parts[1..], "_");
      Join(parts, "_") + ".xlsx"
    else
      var name := "StudentVisits_upto_" + today + ".xlsx";
      assert name[0] == 'S';
      name
  }

  /** Cleared filters export under the dated default name. */
  lemma ClearedFiltersExportDefault(today: string)
    ensures ActiveFilters(ClearFilters()) == []
    ensures ExportFileName(ClearFilters(), today) == "StudentVisits_upto_" + today + ".xlsx"
  {
    ActiveFiltersUnfold(ClearFilters());
  }

  /** With the filters cleared the page is sent the whole `visits` table. */
  lemma ClearedFiltersListEveryVisit(store: Visits.Store)
    ensures multiset(History.VisitsOf(History.QueryHistory(store, QueryOf(ClearFilters())))) == multiset(store)
  {
    ServerReadsPageDateParts(ClearFilters(), History.YearIs);
    ServerReadsPageDateParts(ClearFilters(), History.MonthIs);
    ServerReadsPageDateParts(ClearFilters(), History.DayIs);
    History.NoFiltersAllVisits(store, QueryOf(ClearFilters()));
  }
}
