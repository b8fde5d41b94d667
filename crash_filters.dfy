/**
  The local filters of the crash pipeline: the Henrico jurisdiction mask,
  the state-route exclusion and the column renaming, each on a whole table.
*/
module CrashFilters {
  import opened Wrappers
  import opened Text
  import opened Frames

  const HenricoFips := "087"
  const HenricoJurisCode := "43"

  /** Searched as regular expressions after upper-casing; the `.` of the second is a wildcard. */
  const HenricoNamePatterns := ["HENRICO", "043. Henrico County"]

  const JurisColumns := ["Juris_Code", "JURIS_CODE", "juris_code", "Juris Code"]
  const NameColumns := ["Physical_Juris_Name", "PHYSICAL_JURIS_NAME", "Physical Juris Name"]
  const FipsColumns := ["COUNTYFP", "FIPS", "County_FIPS", "countyfp"]
  const RouteColumns := ["RTE_NAME", "RTE NAME", "Rte_Name", "Route_Name", "ROUTE_NAME", "RTE_Name"]

  // ---------------------------------------------------------------------
  // filter_henrico_county
  // ---------------------------------------------------------------------

  /** `col.replace(' ', '_')`. */
  function Underscored(c: string): (r: string)
    ensures |r| == |c| && ' ' !in r
  {
    seq(|c|, i requires 0 <= i < |c| => if c[i] == ' ' then '_' else c[i])
  }

  /** The column names after the in-place normalisation `df.columns = [...]`. */
  function UnderscoredColumns(cols: seq<string>): (r: seq<string>)
    ensures |r| == |cols| && forall i :: 0 <= i < |cols| ==> r[i] == Underscored(cols[i])
  {
    seq(|cols|, i requires 0 <= i < |cols| => Underscored(cols[i]))
  }

  /** The resolved column exists and its text, stripped, is `code`. */
  predicate CodeMatch(row: Row, cols: seq<string>, col: Option<string>, code: string) {
    col.Some? && Strip(TextOf(row, cols, col.value)) == code
  }

  /** One of the first `n` name patterns, upper-cased, is found in the upper-cased name. */
  predicate NameMatchUpTo(row: Row, cols: seq<string>, col: Option<string>, n: nat)
    requires n <= |HenricoNamePatterns|
  {
    col.Some? && exists k :: 0 <= k < n && ContainsDotPattern(Upper(TextOf(row, cols, col.value)), Upper(HenricoNamePatterns[k]))
  }

  /** The mask the source ORs together, as a predicate on one row of the normalised table. */
  function HenricoKeep(cols: seq<string>): Row -> bool {
    var juris := FirstPresent(JurisColumns, cols);
    var name := FirstPresent(NameColumns, cols);
    var fips := FirstPresent(FipsColumns, cols);
    row => CodeMatch(row, cols, juris, HenricoJurisCode) || NameMatchUpTo(row, cols, name, |HenricoNamePatterns|) || CodeMatch(row, cols, fips, HenricoFips)
  }

  /** What filter_henrico_county returns: the normalised table, restricted to the Henrico rows. */
  function HenricoFiltered(t: Table): Table {
    var cols := UnderscoredColumns(t.columns);
    Table(cols, FilterRows(t.rows, HenricoKeep(cols)))
  }

  /** `mask |= df[col].astype(str).str.strip() == code` when a column was resolved; otherwise the mask is kept. */
  method OrCodeColumn(mask: seq<bool>, rows: seq<Row>, cols: seq<string>, col: Option<string>, code: string) returns (r: seq<bool>)
    requires |mask| == |rows|
    ensures |r| == |rows|
    ensures forall i :: 0 <= i < |rows| ==> r[i] == (mask[i] || CodeMatch(rows[i], cols, col, code))
  {
    r := mask;
    if col.Some? {
      var c := col.value;
      r := OrMask(mask, seq(|rows|, i requires 0 <= i < |rows| => Strip(TextOf(rows[i], cols, c)) == code));
    }
  }

  /** One more pattern joins the disjunction of `NameMatchUpTo`. */
  lemma NameMatchStep(row: Row, cols: seq<string>, col: Option<string>, k: nat)
    requires k < |HenricoNamePatterns| && col.Some?
    ensures NameMatchUpTo(row, cols, col, k + 1) ==
      (NameMatchUpTo(row, cols, col, k) || ContainsDotPattern(Upper(TextOf(row, cols, col.value)), Upper(HenricoNamePatterns[k])))
  {
    var s := Upper(TextOf(row, cols, col.value));
    if ContainsDotPattern(s, Upper(HenricoNamePatterns[k])) {
      assert NameMatchUpTo(row, cols, col, k + 1);
    }
  }

  /** The loop `for pattern in HENRICO_NAME_PATTERNS: mask |= ...str.upper().str.contains(pattern.upper())`. */
  method OrNamePatterns(mask: seq<bool>, rows: seq<Row>, cols: seq<string>, col: Option<string>) returns (r: seq<bool>)
    requires |mask| == |rows|
    ensures |r| == |rows|
    ensures forall i :: 0 <= i < |rows| ==> r[i] == (mask[i] || NameMatchUpTo(rows[i], cols, col, |HenricoNamePatterns|))
  {
    r := mask;
    if col.None? {
      return;
    }
    var c := col.value;
    var n := |rows|;
    var upper := seq(n, i requires 0 <= i < n => Upper(TextOf(rows[i], cols, c)));
    for k := 0 to |HenricoNamePatterns|
      invariant |r| == n
      invariant forall i :: 0 <= i < n ==> r[i] == (mask[i] || NameMatchUpTo(rows[i], cols, col, k))
    {
      var pattern := Upper(HenricoNamePatterns[k]);
      r := OrMask(r, seq(n, i requires 0 <= i < n => ContainsDotPattern(upper[i], pattern)));
      forall i | 0 <= i < n ensures r[i] == (mask[i] || NameMatchUpTo(rows[i], cols, col, k + 1)) {
        NameMatchStep(rows[i], cols, col, k);
      }
    }
  }

  method FilterHenricoCounty(t: Table) returns (r: Table)
    ensures r == HenricoFiltered(t)
  {
    var cols := UnderscoredColumns(t.columns);
    var rows := t.rows;
    var mask := AllMask(|rows|, false);
    var juris := Resolve(JurisColumns, cols);
    mask := OrCodeColumn(mask, rows, cols, juris, HenricoJurisCode);
    var name := Resolve(NameColumns, cols);
    mask := OrNamePatterns(mask, rows, cols, name);
    var fips := Resolve(FipsColumns, cols);
    mask := OrCodeColumn(mask, rows, cols, fips, HenricoFips);
    assert forall i :: 0 <= i < |rows| ==> mask[i] == HenricoKeep(cols)(rows[i]);
    SelectByPredicate(rows, mask, HenricoKeep(cols));
    r := Table(cols, Select(rows, mask));
  }

  /** The second name pattern, as a regular expression, only matches text the first one matches. */
  lemma SecondNamePatternImpliesFirst(s: string)
    requires ContainsDotPattern(s, Upper(HenricoNamePatterns[1]))
    ensures Contains(s, "HENRICO")
  {
    var p := Upper(HenricoNamePatterns[1]);
    assert p == "043. HENRICO COUNTY";
    var i :| 0 <= i <= |s| - |p| && DotPatternAt(s, p, i);
    forall k | 0 <= k < 7 ensures s[i + 5 + k] == "HENRICO"[k] {
      assert p[5 + k] == "HENRICO"[k];
    }
    assert s[i + 5..i + 12] == "HENRICO";
    assert OccursAt(s, "HENRICO", i + 5);
  }

  /** A row of the normalised table is a Henrico row by one of the three resolved columns. */
  predicate IsHenricoRow(row: Row, cols: seq<string>) {
    || CodeMatch(row, cols, FirstPresent(JurisColumns, cols), HenricoJurisCode)
    || (FirstPresent(NameColumns, cols).Some? && Contains(Upper(TextOf(row, cols, FirstPresent(NameColumns, cols).value)), "HENRICO"))
    || CodeMatch(row, cols, FirstPresent(FipsColumns, cols), HenricoFips)
  }

  /** The two name patterns together amount to one substring test for "HENRICO". */
  lemma HenricoKeepIsHenricoRow(row: Row, cols: seq<string>)
    ensures HenricoKeep(cols)(row) == IsHenricoRow(row, cols)
  {
    var name := FirstPresent(NameColumns, cols);
    if name.Some? {
      var s := Upper(TextOf(row, cols, name.value));
      assert Upper(HenricoNamePatterns[0]) == "HENRICO";
      DotFreePattern(s, "HENRICO");
      if ContainsDotPattern(s, Upper(HenricoNamePatterns[1])) {
        SecondNamePatternImpliesFirst(s);
      }
      assert NameMatchUpTo(row, cols, name, |HenricoNamePatterns|) <==> Contains(s, "HENRICO");
    }
  }

  /**
    filter_henrico_county renames columns, keeps exactly the Henrico rows in
    their original order, and keeps nothing when none of the three
    jurisdiction columns exists.
  */
  lemma HenricoFilterSpec(t: Table)
    ensures var r := HenricoFiltered(t);
      && r.columns == UnderscoredColumns(t.columns)
      && (forall x :: x in r.rows <==> x in t.rows && IsHenricoRow(x, r.columns))
      && IsSubsequence(r.rows, t.rows)
      && ((forall c :: c in JurisColumns + NameColumns + FipsColumns ==> c !in r.columns) ==> r.rows == [])
  {
    var r := HenricoFiltered(t);
    forall x ensures HenricoKeep(r.columns)(x) == IsHenricoRow(x, r.columns) {
      HenricoKeepIsHenricoRow(x, r.columns);
    }
    FilterRowsIsSubsequence(t.rows, HenricoKeep(r.columns));
    if forall c :: c in JurisColumns + NameColumns + FipsColumns ==> c !in r.columns {
      assert forall k :: 0 <= k < |JurisColumns| ==> JurisColumns[k] in JurisColumns + NameColumns + FipsColumns;
      assert forall k :: 0 <= k < |NameColumns| ==> NameColumns[k] in JurisColumns + NameColumns + FipsColumns;
      assert forall k :: 0 <= k < |FipsColumns| ==> FipsColumns[k] in JurisColumns + NameColumns + FipsColumns;
      FilterRowsNone(t.rows, HenricoKeep(r.columns));
    }
  }

  // ---------------------------------------------------------------------
  // filter_exclude_state_routes
  // ---------------------------------------------------------------------

  /** After a case-insensitive `R-VA` prefix, what follows once `\s*` is consumed. */
  function StatePrefixRest(s: string): Option<string> {
    if StartsWithIgnoreCase(s, "R-VA") then Some(SkipSpaces(s[4..])) else None
  }

  /** `^R-VA\s*p`, ignoring case. */
  predicate StatePrefixThen(s: string, p: string) {
    StatePrefixRest(s).Some? && StartsWithIgnoreCase(StatePrefixRest(s).value, p)
  }

  /** "US" followed by a digit starts at position `i` of the upper-cased `u`. */
  predicate UsNumberAt(u: string, i: int) {
    0 <= i && i + 3 <= |u| && u[i] == 'U' && u[i + 1] == 'S' && IsDigit(u[i + 2])
  }

  /** `US\d+` anywhere, ignoring case. */
  predicate ContainsUsNumber(s: string) {
    exists i :: 0 <= i <= |s| - 3 && UsNumberAt(Upper(s), i)
  }

  /** `^I-|^R-VA\s*IS` */
  predicate IsInterstate(s: string) {
    StartsWithIgnoreCase(s, "I-") || StatePrefixThen(s, "IS")
  }

  /** `^R-VA\s*US|US\d+` */
  predicate IsUsRoute(s: string) {
    StatePrefixThen(s, "US") || ContainsUsNumber(s)
  }

  /** `^R-VA\s*SR|^R-VA\s*\d` */
  predicate IsStatePrimary(s: string) {
    StatePrefixThen(s, "SR") || (StatePrefixRest(s).Some? && |StatePrefixRest(s).value| > 0 && IsDigit(StatePrefixRest(s).value[0]))
  }

  /** `^R-VA\s*B|BUSINESS` */
  predicate IsBusiness(s: string) {
    StatePrefixThen(s, "B") || ContainsIgnoreCase(s, "BUSINESS")
  }

  /** The route text matches one of the four exclusion patterns. */
  predicate IsStateRoute(s: string) {
    IsInterstate(s) || IsUsRoute(s) || IsStatePrimary(s) || IsBusiness(s)
  }

  function RouteKeep(cols: seq<string>, c: string): Row -> bool {
    row => !IsStateRoute(TextOf(row, cols, c))
  }

  /** What filter_exclude_state_routes returns, with the mask aligned to the table's own rows. */
  function RouteFiltered(t: Table): Table {
    match FirstPresent(RouteColumns, t.columns)
    case None => t
    case Some(c) => Table(t.columns, FilterRows(t.rows, RouteKeep(t.columns, c)))
  }

  /**
    Without a route column the table passes unchanged. Otherwise a row stays
    iff its route matches none of the patterns, every dropped row matches
    one, and the surviving rows keep their order, so there are no more of them.
  */
  lemma RouteFilterSpec(t: Table)
    ensures var r := RouteFiltered(t);
      && (FirstPresent(RouteColumns, t.columns).None? ==> r == t)
      && (FirstPresent(RouteColumns, t.columns).Some? ==>
            var c := FirstPresent(RouteColumns, t.columns).value;
            && r.columns == t.columns
            && (forall x :: x in r.rows <==> x in t.rows && !IsStateRoute(TextOf(x, t.columns, c)))
            && (forall x :: x in t.rows && x !in r.rows ==> IsStateRoute(TextOf(x, t.columns, c))))
      && IsSubsequence(r.rows, t.rows)
      && |r.rows| <= |t.rows|
  {
    match FirstPresent(RouteColumns, t.columns)
    case None =>
      FilterRowsAll(t.rows, _ => true);
      FilterRowsIsSubsequence(t.rows, _ => true);
    case Some(c) =>
      FilterRowsIsSubsequence(t.rows, RouteKeep(t.columns, c));
  }

  const DuplicateLabels := "cannot reindex on an axis with duplicate labels"
  const Unalignable := "Unalignable boolean Series provided as indexer"

  /**
    filter_exclude_state_routes as the source writes it. The mask is a new
    Series on `RangeIndex(len(df))`, and each `mask &= ...` matches the
    route test to it label by label and keeps that index; pandas cannot do
    so when two rows share a label. `df[mask]` must then find a mask entry
    for every label of `df`. A table that filter_henrico_county has thinned
    keeps its original labels, so pandas raises as soon as one label is
    `len(df)` or more.
  */
  function RouteFilterAsWritten(t: Table): Result<Table> {
    match FirstPresent(RouteColumns, t.columns)
    case None => Ok(t)
    case Some(c) =>
      if !DistinctLabels(t.rows) then Err(DuplicateLabels)
      else if exists i :: 0 <= i < |t.rows| && !(0 <= t.rows[i].index < |t.rows|) then Err(Unalignable)
      else Ok(Table(t.columns, FilterRows(t.rows, RouteKeep(t.columns, c))))
  }

  /**
    The source's loop: the route column by alias, the four `&=` masks on
    `RangeIndex(len(df))`, matched by label, and `df[mask]`, which looks
    each row's label up in the mask.
  */
  method FilterExcludeStateRoutes(t: Table) returns (r: Result<Table>)
    ensures r == RouteFilterAsWritten(t)
  {
    var routeCol := Resolve(RouteColumns, t.columns);
    if routeCol.None? {
      return Ok(t);
    }
    var c := routeCol.value;
    var rows := t.rows;
    var n := |rows|;
    if !DistinctLabels(rows) {
      return Err(DuplicateLabels);
    }
    var values := seq(n, i requires 0 <= i < n => TextOf(rows[i], t.columns, c));
    var interstate := seq(n, i requires 0 <= i < n => !IsInterstate(values[i]));
    var us := seq(n, i requires 0 <= i < n => !IsUsRoute(values[i]));
    var primary := seq(n, i requires 0 <= i < n => !IsStatePrimary(values[i]));
    var business := seq(n, i requires 0 <= i < n => !IsBusiness(values[i]));
    var mask := AllMask(n, true);
    mask := AndAligned(mask, rows, interstate);
    mask := AndAligned(mask, rows, us);
    mask := AndAligned(mask, rows, primary);
    mask := AndAligned(mask, rows, business);
    if exists i :: 0 <= i < n && !(0 <= rows[i].index < n) {
      return Err(Unalignable);
    }
    var selected := seq(n, i requires 0 <= i < n => mask[rows[i].index]);
    forall i | 0 <= i < n ensures selected[i] == RouteKeep(t.columns, c)(rows[i]) {
      ValueAtOwnLabel(rows, interstate, i);
      ValueAtOwnLabel(rows, us, i);
      ValueAtOwnLabel(rows, primary, i);
      ValueAtOwnLabel(rows, business, i);
    }
    SelectByPredicate(rows, selected, RouteKeep(t.columns, c));
    r := Ok(Table(t.columns, Select(rows, selected)));
  }

  /** When the labels are `0 .. n-1` the written code and the aligned mask agree. */
  lemma AsWrittenAgreesOnRangeIndex(t: Table)
    requires Labels(t.rows) == RangeLabels(|t.rows|)
    ensures RouteFilterAsWritten(t) == Ok(RouteFiltered(t))
  {
    forall i | 0 <= i < |t.rows| ensures t.rows[i].index == i {
      assert Labels(t.rows)[i] == t.rows[i].index;
    }
  }

  /** The `i`-th of increasing naturals is at least `i`. */
  lemma {:induction false} IncreasingAbove(idx: seq<int>, i: nat)
    requires i < |idx| && forall k :: 0 <= k < |idx| ==> 0 <= idx[k]
    requires forall k, l :: 0 <= k < l < |idx| ==> idx[k] < idx[l]
    ensures idx[i] >= i
  {
    if i > 0 {
      IncreasingAbove(idx, i - 1);
    }
  }

  /** The `i`-th of increasing integers below `|idx|` is at most `i`. */
  lemma {:induction false} IncreasingBelow(idx: seq<int>, i: nat)
    requires i < |idx| && forall k :: 0 <= k < |idx| ==> idx[k] < |idx|
    requires forall k, l :: 0 <= k < l < |idx| ==> idx[k] < idx[l]
    ensures idx[i] <= i
    decreases |idx| - i
  {
    if i + 1 < |idx| {
      IncreasingBelow(idx, i + 1);
    }
  }

  /**
    Rows taken in order from rows labelled `0 .. n-1` have distinct labels,
    and all their labels fall below their own count exactly when they are
    the leading rows.
  */
  lemma ThinnedLabels(h: seq<Row>, rows: seq<Row>)
    requires Labels(rows) == RangeLabels(|rows|)
    requires IsSubsequence(h, rows) && |h| <= |rows|
    ensures DistinctLabels(h)
    ensures (forall i :: 0 <= i < |h| ==> 0 <= h[i].index < |h|) <==> h == rows[..|h|]
  {
    var m := |h|;
    var idx :| IsEmbedding(idx, h, rows);
    forall i | 0 <= i < m ensures h[i].index == idx[i] {
      assert Labels(rows)[idx[i]] == idx[i];
    }
    if forall i :: 0 <= i < m ==> 0 <= h[i].index < m {
      forall i | 0 <= i < m ensures h[i] == rows[..m][i] {
        IncreasingAbove(idx, i);
        IncreasingBelow(idx, i);
      }
    } else {
      var i :| 0 <= i < m && !(0 <= h[i].index < m);
      assert Labels(rows)[i] == i;
      assert rows[..m][i] == rows[i] != h[i];
    }
  }

  /**
    On a table labelled `0 .. n-1`, as `pd.DataFrame(records)` and
    `read_csv` build it, and with a route column, the route filter as
    written survives the Henrico filter exactly when that filter kept a
    leading run of rows: dropping any row before a kept one makes it raise.
  */
  lemma HenricoThenRouteAsWritten(t: Table)
    requires Labels(t.rows) == RangeLabels(|t.rows|)
    requires FirstPresent(RouteColumns, UnderscoredColumns(t.columns)).Some?
    ensures var h := HenricoFiltered(t);
      RouteFilterAsWritten(h).Ok? <==> h.rows == t.rows[..|h.rows|]
  {
    var h := HenricoFiltered(t);
    HenricoFilterSpec(t);
    ThinnedLabels(h.rows, t.rows);
  }

  /** Two crash rows for the finding below: one in another county, one on a Henrico county road. */
  const ExampleColumns: seq<string> := ["Juris_Code", "RTE_NAME"]
  const ExampleElsewhere := Row(0, [Str("51"), Str("S-VA620")])
  const ExampleLocal := Row(1, [Str("43"), Str("S-VA043")])

  /** The example column names have no spaces to replace. */
  lemma ExampleUnderscored()
    ensures UnderscoredColumns(ExampleColumns) == ExampleColumns
  {
    assert Underscored("Juris_Code") == "Juris_Code";
    assert Underscored("RTE_NAME") == "RTE_NAME";
  }

  /** Of the Henrico aliases only the jurisdiction code is among the example columns. */
  lemma ExampleAliases()
    ensures FirstPresent(JurisColumns, ExampleColumns) == Some("Juris_Code")
    ensures FirstPresent(NameColumns, ExampleColumns) == None
    ensures FirstPresent(FipsColumns, ExampleColumns) == None
  {
    FirstPresentChoosesAlias(JurisColumns, ExampleColumns, 0);
  }

  lemma ExampleColumnsResolve()
    ensures UnderscoredColumns(ExampleColumns) == ExampleColumns
    ensures FirstPresent(JurisColumns, ExampleColumns) == Some("Juris_Code")
    ensures FirstPresent(NameColumns, ExampleColumns) == None
    ensures FirstPresent(FipsColumns, ExampleColumns) == None
  {
    ExampleUnderscored();
    ExampleAliases();
  }

  /** A row of the two example columns reads back its two strings. */
  lemma ExampleRowText(index: int, juris: string, route: string)
    ensures TextOf(Row(index, [Str(juris), Str(route)]), ExampleColumns, "Juris_Code") == juris
    ensures TextOf(Row(index, [Str(juris), Str(route)]), ExampleColumns, "RTE_NAME") == route
  {
    assert Position(ExampleColumns, "Juris_Code") == 0;
    assert Position(ExampleColumns, "RTE_NAME") == 1;
  }

  /** On the example columns only the jurisdiction code decides the Henrico filter. */
  lemma ExampleHenricoKeep(index: int, juris: string, route: string)
    ensures HenricoKeep(ExampleColumns)(Row(index, [Str(juris), Str(route)])) <==> Strip(juris) == HenricoJurisCode
  {
    ExampleAliases();
    ExampleRowText(index, juris, route);
  }

  /** On the example columns the route filter reads the second cell. */
  lemma ExampleRouteKeep(index: int, juris: string, route: string)
    ensures FirstPresent(RouteColumns, ExampleColumns) == Some("RTE_NAME")
    ensures RouteKeep(ExampleColumns, "RTE_NAME")(Row(index, [Str(juris), Str(route)])) <==> !IsStateRoute(route)
  {
    ExampleRowText(index, juris, route);
  }

  lemma StripCodes()
    ensures Strip("43") == "43" && Strip("51") == "51"
  {
    assert !IsSpace('4') && !IsSpace('3') && !IsSpace('5') && !IsSpace('1');
  }

  lemma ExampleKeep()
    ensures var keep := HenricoKeep(ExampleColumns);
      !keep(ExampleElsewhere) && keep(ExampleLocal)
  {
    StripCodes();
    ExampleHenricoKeep(0, "51", "S-VA620");
    ExampleHenricoKeep(1, "43", "S-VA043");
  }

  /** filter_henrico_county keeps only the second row, still labelled 1. */
  lemma ExampleHenricoKeepsSecond()
    ensures HenricoFiltered(Table(ExampleColumns, [ExampleElsewhere, ExampleLocal])) == Table(ExampleColumns, [ExampleLocal])
  {
    ExampleUnderscored();
    ExampleKeep();
    var keep := HenricoKeep(ExampleColumns);
    FilterRowsCons(ExampleLocal, [], keep);
    FilterRowsCons(ExampleElsewhere, [ExampleLocal], keep);
  }

  /** On that one row the written route filter raises, while the aligned one keeps the county road. */
  lemma ExampleRouteFilterOnSecond()
    ensures RouteFilterAsWritten(Table(ExampleColumns, [ExampleLocal])).Err?
    ensures RouteFiltered(Table(ExampleColumns, [ExampleLocal])).rows == [ExampleLocal]
  {
    ExampleRouteKeep(1, "43", "S-VA043");
    NotStateRouteS("S-VA043");
  }

  /**
    The discrepancy: Henrico keeps the second row alone, with its label 1,
    and the written route filter raises instead of keeping that local road,
    which the aligned filter keeps.
  */
  lemma AsWrittenRaisesAfterHenricoDropsARow()
    ensures var henrico := HenricoFiltered(Table(ExampleColumns, [ExampleElsewhere, ExampleLocal]));
      && henrico.rows == [ExampleLocal]
      && RouteFilterAsWritten(henrico).Err?
      && RouteFiltered(henrico).rows == henrico.rows
  {
    ExampleHenricoKeepsSecond();
    ExampleRouteFilterOnSecond();
  }

  /** No exclusion pattern matches a secondary route "S-VA" followed by digits. */
  lemma NotStateRouteS(s: string)
    requires |s| >= 4 && s[..4] == "S-VA" && forall k :: 4 <= k < |s| ==> IsDigit(s[k])
    ensures !IsStateRoute(s)
  {
    var u := Upper(s);
    assert u[0] == 'S';
    assert !StartsWithIgnoreCase(s, "I-");
    assert !StartsWithIgnoreCase(s, "R-VA");
    forall i | 0 <= i <= |s| - 3 ensures !UsNumberAt(u, i) {
      if i == 0 { assert u[0] == 'S'; }
      else if i == 1 { assert u[1] == '-'; }
      else if i == 2 { assert u[2] == 'V'; }
      else if i == 3 { assert u[3] == 'A'; }
      else { assert IsDigit(s[i]); assert u[i] == s[i]; }
    }
    assert Upper("BUSINESS") == "BUSINESS";
    forall i | 0 <= i <= |u| - 8 ensures !OccursAt(u, "BUSINESS", i) {
      assert u[i..i + 8][1] == u[i + 1];
      if i + 1 >= 4 {
        assert IsDigit(s[i + 1]);
      }
    }
  }

  // ---------------------------------------------------------------------
  // standardize_columns
  // ---------------------------------------------------------------------

  /** `c` with every underscore written as a space. */
  function Spaced(c: string): (r: string)
    ensures |r| == |c| && '_' !in r
    ensures forall i :: 0 <= i < |c| ==> r[i] == (if c[i] == '_' then ' ' else c[i])
  {
    seq(|c|, i requires 0 <= i < |c| => if c[i] == '_' then ' ' else c[i])
  }

  /**
    The keys of the rename table, in the source's order, whose target is the
    key with its underscores written as spaces, in four groups. The one
    other key, "RTE_NAME", is renamed to "RTE Name".
  */
  const CrashFields: seq<string> := ["Juris_Code", "Physical_Juris_Name", "Document_Nbr", "Crash_Year", "Crash_Date", "Crash_Military_Time", "Crash_Severity", "Persons_Injured", "Pedestrians_Killed"]
  const ConditionFields: seq<string> := ["Pedestrians_Injured", "Vehicle_Count", "Collision_Type", "Weather_Condition", "Light_Condition", "Roadway_Surface_Condition", "Relation_To_Roadway", "Roadway_Alignment", "Roadway_Surface_Type"]
  const ControlFields: seq<string> := ["Roadway_Defect", "Roadway_Description", "Intersection_Type", "Traffic_Control_Type", "Traffic_Control_Status", "Work_Zone_Related", "Work_Zone_Location", "Work_Zone_Type", "School_Zone"]
  const LocationFields: seq<string> := ["First_Harmful_Event", "First_Harmful_Event_Loc", "RTE_Name", "Functional_Class", "Facility_Type", "Area_Type", "VDOT_District", "MPO_Name", "Planning_District"]
  const SpacedFields: seq<string> := CrashFields + ConditionFields + ControlFields + LocationFields

  /** `c` is a key of the rename table. */
  predicate IsMappedColumn(c: string) {
    c == "RTE_NAME" || c in SpacedFields
  }

  /** The name the rename table gives `c`; a column it does not list keeps its name. */
  function StandardName(c: string): string {
    if c == "RTE_NAME" then "RTE Name"
    else if c in SpacedFields then Spaced(c)
    else c
  }

  /** standardize_columns: mapped columns are renamed; other columns and every row stay as they are. */
  function StandardizeColumns(t: Table): (r: Table)
    ensures r.rows == t.rows && |r.columns| == |t.columns|
    ensures forall i :: 0 <= i < |t.columns| && !IsMappedColumn(t.columns[i]) ==> r.columns[i] == t.columns[i]
    ensures forall i :: 0 <= i < |t.columns| && IsMappedColumn(t.columns[i]) ==> r.columns[i] == StandardName(t.columns[i]) && '_' !in r.columns[i]
  {
    Table(seq(|t.columns|, i requires 0 <= i < |t.columns| => StandardName(t.columns[i])), t.rows)
  }

  lemma CrashFieldsHaveUnderscores()
    ensures forall k :: k in CrashFields ==> '_' in k
  {
  }

  lemma ConditionFieldsHaveUnderscores()
    ensures forall k :: k in ConditionFields ==> '_' in k
  {
  }

  lemma ControlFieldsHaveUnderscores()
    ensures forall k :: k in ControlFields ==> '_' in k
  {
  }

  lemma LocationFieldsHaveUnderscores()
    ensures forall k :: k in LocationFields ==> '_' in k
  {
  }

  /** Every key of the rename table has an underscore (one group at a time, which keeps each proof small). */
  lemma KeysHaveUnderscores(k: string)
    requires IsMappedColumn(k)
    ensures '_' in k
  {
    if k == "RTE_NAME" {
      assert k[3] == '_';
    } else {
      CrashFieldsHaveUnderscores();
      ConditionFieldsHaveUnderscores();
      ControlFieldsHaveUnderscores();
      LocationFieldsHaveUnderscores();
      assert k in CrashFields || k in ConditionFields || k in ControlFields || k in LocationFields;
    }
  }

  /**
    A key of the rename table gets a new name that is not itself a key, and
    any other column keeps its name.
  */
  lemma StandardNameSpec(c: string)
    ensures IsMappedColumn(c) ==> StandardName(c) != c && !IsMappedColumn(StandardName(c))
    ensures !IsMappedColumn(c) ==> StandardName(c) == c
  {
    if IsMappedColumn(c) {
      KeysHaveUnderscores(c);
      assert '_' !in StandardName(c);
      if IsMappedColumn(StandardName(c)) {
        KeysHaveUnderscores(StandardName(c));
      }
    }
  }

  /** The example columns take their dashboard names. */
  lemma ExampleRenaming(rows: seq<Row>)
    ensures StandardizeColumns(Table(ExampleColumns, rows)) == Table(["Juris Code", "RTE Name"], rows)
  {
    JurisCodeRenamed();
    RteNameRenamed();
    var r := StandardizeColumns(Table(ExampleColumns, rows));
    assert r.columns[0] == "Juris Code";
    assert r.columns[1] == "RTE Name";
  }

  lemma JurisCodeRenamed()
    ensures StandardName("Juris_Code") == "Juris Code"
  {
    assert SpacedFields[0] == "Juris_Code";
    assert Spaced("Juris_Code") == "Juris Code";
  }

  lemma RteNameRenamed()
    ensures StandardName("RTE_NAME") == "RTE Name"
  {
  }

  /** Renaming twice is renaming once. */
  lemma StandardizeIdempotent(t: Table)
    ensures StandardizeColumns(StandardizeColumns(t)) == StandardizeColumns(t)
  {
    var once := StandardizeColumns(t);
    var twice := StandardizeColumns(once);
    forall i | 0 <= i < |t.columns| ensures twice.columns[i] == once.columns[i] {
      StandardNameSpec(t.columns[i]);
    }
  }
}
