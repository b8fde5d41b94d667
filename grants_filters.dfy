/**
  The Grants.gov topic filters: a CFDA-number mask, an agency mask and a
  keyword mask, combined as CFDA or (agency and keyword), and the active
  window that drops grants closed more than thirty days ago.
*/
module GrantsFilters {
  import opened Wrappers
  import opened Text
  import opened Frames

  /** `SAFETY_CFDA_NUMBERS`. */
  const SafetyCfdaNumbers := ["20.600", "20.601", "20.602", "20.610", "20.205", "20.614", "20.616", "20.933", "20.934", "20.218"]

  /** `SAFETY_KEYWORDS`, all in lower case. */
  const SafetyKeywords := [
    "traffic safety", "highway safety", "pedestrian safety", "crash reduction", "vision zero",
    "safe routes to school", "intersection safety", "road safety", "bicycle safety", "roadway safety",
    "safe streets"]

  /** `SAFETY_AGENCIES`. */
  const SafetyAgencies := ["NHTSA", "FHWA", "DOT", "Department of Transportation", "Highway Administration"]

  const CfdaColumns := ["CFDANumbers", "CFDA_Numbers", "cfda_numbers", "CfdaNumber", "CFDANumber", "CFDA", "cfda"]
  const AgencyColumns := ["AgencyName", "Agency", "agency_name", "AGENCY_NAME", "GrantorContactName", "FundingAgency", "AgencyCode"]
  const TitleColumns := ["OpportunityTitle", "Title", "opportunity_title", "OPPORTUNITY_TITLE", "Grant_Title", "ProjectTitle"]
  const DescriptionColumns := ["Description", "OpportunityDescription", "description", "DESCRIPTION", "Synopsis", "Abstract", "Summary"]
  const DateColumns := ["CloseDate", "close_date", "CLOSE_DATE", "ApplicationDueDate", "DueDate", "Deadline", "ResponseDate"]

  // ---------------------------------------------------------------------
  // filter_by_cfda
  // ---------------------------------------------------------------------

  /** The first CFDA alias column holds one of the safety CFDA numbers, case and all. */
  predicate CfdaMatch(row: Row, cols: seq<string>) {
    var c := FirstPresent(CfdaColumns, cols);
    c.Some? && ContainsAny(TextOf(row, cols, c.value), SafetyCfdaNumbers)
  }

  /** The mask `filter_by_cfda` returns: all false when the table has no CFDA column. */
  function CfdaMask(rows: seq<Row>, cols: seq<string>): (mask: seq<bool>)
    ensures |mask| == |rows|
    ensures forall i :: 0 <= i < |rows| ==> mask[i] == CfdaMatch(rows[i], cols)
    ensures FirstPresent(CfdaColumns, cols).None? ==> forall i :: 0 <= i < |rows| ==> !mask[i]
  {
    match FirstPresent(CfdaColumns, cols)
    case None => AllMask(|rows|, false)
    case Some(c) => seq(|rows|, i requires 0 <= i < |rows| => ContainsAny(TextOf(rows[i], cols, c), SafetyCfdaNumbers))
  }

  // ---------------------------------------------------------------------
  // filter_by_agency
  // ---------------------------------------------------------------------

  /** One of the first `n` agency alias columns is present and names a safety agency, ignoring case. */
  predicate AgencyMatchUpTo(row: Row, cols: seq<string>, n: nat)
    requires n <= |AgencyColumns|
  {
    exists k :: 0 <= k < n && AgencyColumns[k] in cols && ContainsAnyIgnoreCase(TextOf(row, cols, AgencyColumns[k]), SafetyAgencies)
  }

  /** Some present agency column, of all seven, names a safety agency. */
  predicate AgencyMatch(row: Row, cols: seq<string>) {
    AgencyMatchUpTo(row, cols, |AgencyColumns|)
  }

  lemma AgencyMatchStep(row: Row, cols: seq<string>, k: nat)
    requires k < |AgencyColumns|
    ensures AgencyMatchUpTo(row, cols, k + 1) ==
      (AgencyMatchUpTo(row, cols, k) ||
       (AgencyColumns[k] in cols && ContainsAnyIgnoreCase(TextOf(row, cols, AgencyColumns[k]), SafetyAgencies)))
  {
    if AgencyColumns[k] in cols && ContainsAnyIgnoreCase(TextOf(row, cols, AgencyColumns[k]), SafetyAgencies) {
      assert AgencyMatchUpTo(row, cols, k + 1);
    }
  }

  /** The loop `for col in agency_columns: if col in df.columns: mask |= ...`. */
  method AgencyMask(rows: seq<Row>, cols: seq<string>) returns (mask: seq<bool>)
    ensures |mask| == |rows|
    ensures forall i :: 0 <= i < |rows| ==> mask[i] == AgencyMatch(rows[i], cols)
  {
    var n := |rows|;
    mask := AllMask(n, false);
    for k := 0 to |AgencyColumns|
      invariant |mask| == n
      invariant forall i :: 0 <= i < n ==> mask[i] == AgencyMatchUpTo(rows[i], cols, k)
    {
      var col := AgencyColumns[k];
      if col in cols {
        mask := OrMask(mask, seq(n, i requires 0 <= i < n => ContainsAnyIgnoreCase(TextOf(rows[i], cols, col), SafetyAgencies)));
      }
      forall i | 0 <= i < n ensures mask[i] == AgencyMatchUpTo(rows[i], cols, k + 1) {
        AgencyMatchStep(rows[i], cols, k);
      }
    }
  }

  // ---------------------------------------------------------------------
  // filter_by_keywords
  // ---------------------------------------------------------------------

  /** The lower-cased text contains one of the safety keywords. */
  predicate HasKeyword(text: string) {
    ContainsAny(Lower(text), SafetyKeywords)
  }

  predicate ColumnHasKeyword(row: Row, cols: seq<string>, col: Option<string>) {
    col.Some? && HasKeyword(TextOf(row, cols, col.value))
  }

  /** A keyword in the first present title column or in the first present description column. */
  predicate KeywordMatch(row: Row, cols: seq<string>) {
    || ColumnHasKeyword(row, cols, FirstPresent(TitleColumns, cols))
    || ColumnHasKeyword(row, cols, FirstPresent(DescriptionColumns, cols))
  }

  /** `mask |= df[col].astype(str).str.lower().str.contains(keyword_pattern)` for one resolved column. */
  method OrKeywordColumn(mask: seq<bool>, rows: seq<Row>, cols: seq<string>, col: Option<string>) returns (r: seq<bool>)
    requires |mask| == |rows|
    ensures |r| == |rows|
    ensures forall i :: 0 <= i < |rows| ==> r[i] == (mask[i] || ColumnHasKeyword(rows[i], cols, col))
  {
    r := mask;
    if col.Some? {
      var c := col.value;
      r := OrMask(mask, seq(|rows|, i requires 0 <= i < |rows| => HasKeyword(TextOf(rows[i], cols, c))));
    }
  }

  /** The two resolving loops of `filter_by_keywords`, each stopping at its first present column. */
  method KeywordMask(rows: seq<Row>, cols: seq<string>) returns (mask: seq<bool>)
    ensures |mask| == |rows|
    ensures forall i :: 0 <= i < |rows| ==> mask[i] == KeywordMatch(rows[i], cols)
  {
    mask := AllMask(|rows|, false);
    var title := Resolve(TitleColumns, cols);
    mask := OrKeywordColumn(mask, rows, cols, title);
    var description := Resolve(DescriptionColumns, cols);
    mask := OrKeywordColumn(mask, rows, cols, description);
  }

  // ---------------------------------------------------------------------
  // filter_grants
  // ---------------------------------------------------------------------

  /** The topic rule: a safety CFDA number, or a safety agency together with a safety keyword. */
  function TopicKeep(cols: seq<string>): Row -> bool {
    row => CfdaMatch(row, cols) || (AgencyMatch(row, cols) && KeywordMatch(row, cols))
  }

  function GrantsFiltered(t: Table): Table {
    Table(t.columns, FilterRows(t.rows, TopicKeep(t.columns)))
  }

  method FilterGrants(t: Table) returns (r: Table)
    ensures r == GrantsFiltered(t)
  {
    var cfda := CfdaMask(t.rows, t.columns);
    var agency := AgencyMask(t.rows, t.columns);
    var keyword := KeywordMask(t.rows, t.columns);
    var combined := OrMask(cfda, AndMask(agency, keyword));
    SelectByPredicate(t.rows, combined, TopicKeep(t.columns));
    r := Table(t.columns, Select(t.rows, combined));
  }

  /**
    filter_grants keeps the columns and exactly the rows the topic rule
    accepts, in their order: a CFDA match alone suffices, while an agency
    match without a keyword, or a keyword without an agency, does not.
  */
  lemma FilterGrantsSpec(t: Table)
    ensures var r := GrantsFiltered(t);
      && r.columns == t.columns
      && IsSubsequence(r.rows, t.rows)
      && |r.rows| <= |t.rows|
      && (forall x :: x in t.rows && CfdaMatch(x, t.columns) ==> x in r.rows)
      && (forall x :: x in t.rows && AgencyMatch(x, t.columns) && KeywordMatch(x, t.columns) ==> x in r.rows)
      && (forall x :: x in r.rows ==> x in t.rows && (CfdaMatch(x, t.columns) || (AgencyMatch(x, t.columns) && KeywordMatch(x, t.columns))))
      && (forall x :: x in t.rows && !CfdaMatch(x, t.columns) && !KeywordMatch(x, t.columns) ==> x !in r.rows)
      && (forall x :: x in t.rows && !CfdaMatch(x, t.columns) && !AgencyMatch(x, t.columns) ==> x !in r.rows)
  {
    FilterRowsIsSubsequence(t.rows, TopicKeep(t.columns));
  }

  /** A table with none of the CFDA and agency alias columns keeps no row, whatever its keywords. */
  lemma NoCfdaNoAgencyKeepsNothing(t: Table)
    requires forall k :: 0 <= k < |CfdaColumns| ==> CfdaColumns[k] !in t.columns
    requires forall k :: 0 <= k < |AgencyColumns| ==> AgencyColumns[k] !in t.columns
    ensures GrantsFiltered(t).rows == []
  {
    FilterRowsNone(t.rows, TopicKeep(t.columns));
  }

  // ---------------------------------------------------------------------
  // The topic rule on two grants
  // ---------------------------------------------------------------------

  const TopicColumns := ["CFDANumbers", "OpportunityTitle"]

  /** A grant listed under CFDA 20.205 with an unrelated title. */
  const HsipGrant := Row(0, [Str("20.205"), Str("Bridge repair")])

  /** A grant with no CFDA number whose title has a safety keyword. */
  const KeywordOnlyGrant := Row(1, [Null, Str("traffic safety plan")])

  lemma TopicColumnsResolve()
    ensures FirstPresent(CfdaColumns, TopicColumns) == Some("CFDANumbers")
    ensures forall k :: 0 <= k < |AgencyColumns| ==> AgencyColumns[k] !in TopicColumns
  {
    FirstPresentChoosesAlias(CfdaColumns, TopicColumns, 0);
  }

  /** The CFDA number alone keeps the first grant; the keyword alone does not keep the second. */
  lemma TopicRuleOnTwoGrants()
    ensures GrantsFiltered(Table(TopicColumns, [HsipGrant, KeywordOnlyGrant])).rows == [HsipGrant]
  {
    TopicColumnsResolve();
    var keep := TopicKeep(TopicColumns);
    assert TextOf(HsipGrant, TopicColumns, "CFDANumbers") == "20.205";
    assert OccursAt("20.205", SafetyCfdaNumbers[4], 0);
    assert keep(HsipGrant);
    assert TextOf(KeywordOnlyGrant, TopicColumns, "CFDANumbers") == "nan";
    assert !keep(KeywordOnlyGrant);
    FilterRowsCons(KeywordOnlyGrant, [], keep);
    FilterRowsCons(HsipGrant, [KeywordOnlyGrant], keep);
  }

  // ---------------------------------------------------------------------
  // filter_active_grants
  // ---------------------------------------------------------------------

  /** `timedelta(days=30)` in seconds. */
  const ActiveWindowSeconds := 30 * 86400

  /** pandas reads an integer given to `to_datetime` as nanoseconds since the epoch. */
  const NanosPerSecond := 1000000000

  /**
    `pd.to_datetime(..., errors='coerce')` on one cell, with the string
    parser given as `parse`: text it cannot read becomes missing.
  */
  function ToDatetime(c: Cell, parse: string -> Option<int>): (r: Cell)
    ensures r.Null? || r.Stamp?
    ensures c.Null? ==> r.Null?
    ensures c.Stamp? ==> r == c
    ensures c.Num? ==> r == Stamp(c.n / NanosPerSecond)
    ensures c.Str? ==> (r.Null? <==> parse(c.s).None?) && (r.Stamp? ==> parse(c.s) == Some(r.seconds))
  {
    match c
    case Null => Null
    case Stamp(_) => c
    case Num(n) => Stamp(n / NanosPerSecond)
    case Str(s) => if parse(s).Some? then Stamp(parse(s).value) else Null
  }

  /** The row with its cell at position `k` replaced, when it has one there. */
  function SetCell(row: Row, k: nat, v: Cell): (r: Row)
    ensures r.index == row.index && |r.cells| == |row.cells|
    ensures k < |row.cells| ==> r.cells[k] == v
    ensures forall j :: 0 <= j < |row.cells| && j != k ==> r.cells[j] == row.cells[j]
  {
    if k < |row.cells| then Row(row.index, row.cells[k := v]) else row
  }

  /** `df[col] = pd.to_datetime(df[col], errors='coerce')`. */
  function ConvertColumn(t: Table, c: string, parse: string -> Option<int>): (r: Table)
    requires c in t.columns
    ensures r.columns == t.columns && |r.rows| == |t.rows|
    ensures forall i :: 0 <= i < |t.rows| ==>
      r.rows[i] == SetCell(t.rows[i], Position(t.columns, c), ToDatetime(CellOf(t.rows[i], t.columns, c), parse))
  {
    var k := Position(t.columns, c);
    Table(t.columns, seq(|t.rows|, i requires 0 <= i < |t.rows| => SetCell(t.rows[i], k, ToDatetime(CellOf(t.rows[i], t.columns, c), parse))))
  }

  /** `df[col].isna() | (df[col] >= cutoff)` at one row. */
  predicate IsActive(row: Row, cols: seq<string>, c: string, cutoff: int) {
    var d := CellOf(row, cols, c);
    d.Null? || (d.Stamp? && d.seconds >= cutoff)
  }

  function ActiveKeep(cols: seq<string>, c: string, cutoff: int): Row -> bool {
    row => IsActive(row, cols, c, cutoff)
  }

  /** What filter_active_grants returns, with `datetime.now()` given as `now` in seconds. */
  function ActiveFiltered(t: Table, parse: string -> Option<int>, now: int): Table {
    match FirstPresent(DateColumns, t.columns)
    case None => t
    case Some(c) =>
      var converted := ConvertColumn(t, c, parse);
      Table(converted.columns, FilterRows(converted.rows, ActiveKeep(converted.columns, c, now - ActiveWindowSeconds)))
  }

  /**
    The function body of filter_active_grants: resolve the date column,
    overwrite it with its parsed values row by row, then keep the rows the
    window accepts.
  */
  method FilterActiveGrants(t: Table, parse: string -> Option<int>, now: int) returns (r: Table)
    ensures r == ActiveFiltered(t, parse, now)
  {
    var dateCol := Resolve(DateColumns, t.columns);
    if dateCol.None? {
      return t;
    }
    var c := dateCol.value;
    var k := Position(t.columns, c);
    var rows: seq<Row> := [];
    for i := 0 to |t.rows|
      invariant |rows| == i
      invariant forall j :: 0 <= j < i ==> rows[j] == SetCell(t.rows[j], k, ToDatetime(CellOf(t.rows[j], t.columns, c), parse))
    {
      rows := rows + [SetCell(t.rows[i], k, ToDatetime(CellOf(t.rows[i], t.columns, c), parse))];
    }
    assert rows == ConvertColumn(t, c, parse).rows;
    var cutoff := now - ActiveWindowSeconds;
    var mask := seq(|rows|, i requires 0 <= i < |rows| => IsActive(rows[i], t.columns, c, cutoff));
    SelectByPredicate(rows, mask, ActiveKeep(t.columns, c, cutoff));
    r := Table(t.columns, Select(rows, mask));
  }

  /** Replacing a cell and reading it back gives the new value. */
  lemma CellOfSetCell(row: Row, cols: seq<string>, c: string, v: Cell)
    requires c in cols && Position(cols, c) < |row.cells|
    ensures CellOf(SetCell(row, Position(cols, c), v), cols, c) == v
  {
  }

  /**
    filter_active_grants leaves a table without a date column untouched.
    Otherwise it keeps the columns, converts the date column and keeps, in
    order, exactly the converted rows whose date is missing or no earlier
    than thirty days before `now`; a row whose date is missing or cannot be
    parsed is never dropped.
  */
  lemma ActiveFilterSpec(t: Table, parse: string -> Option<int>, now: int)
    requires WellFormed(t)
    ensures FirstPresent(DateColumns, t.columns).None? ==> ActiveFiltered(t, parse, now) == t
    ensures FirstPresent(DateColumns, t.columns).Some? ==>
      var c := FirstPresent(DateColumns, t.columns).value;
      var converted := ConvertColumn(t, c, parse);
      var r := ActiveFiltered(t, parse, now);
      && r.columns == t.columns
      && IsSubsequence(r.rows, converted.rows)
      && |r.rows| <= |t.rows|
      && (forall x :: x in r.rows <==> x in converted.rows && IsActive(x, t.columns, c, now - ActiveWindowSeconds))
      && (forall i :: 0 <= i < |t.rows| ==>
            var d := CellOf(t.rows[i], t.columns, c);
            (d.Null? || (d.Str? && parse(d.s).None?)) ==> converted.rows[i] in r.rows)
  {
    match FirstPresent(DateColumns, t.columns)
    case None =>
    case Some(c) =>
      var converted := ConvertColumn(t, c, parse);
      FilterRowsIsSubsequence(converted.rows, ActiveKeep(converted.columns, c, now - ActiveWindowSeconds));
      forall i | 0 <= i < |t.rows|
        ensures var d := CellOf(t.rows[i], t.columns, c);
          (d.Null? || (d.Str? && parse(d.s).None?)) ==> IsActive(converted.rows[i], t.columns, c, now - ActiveWindowSeconds)
      {
        CellOfSetCell(t.rows[i], t.columns, c, ToDatetime(CellOf(t.rows[i], t.columns, c), parse));
      }
  }
}
