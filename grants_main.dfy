/**
  The grants pipeline's `main`: the federal extract is downloaded, filtered
  by topic and active window and mapped to the grant schema; the Virginia
  static grants go first, later rows with a title already seen are dropped,
  and the table is ordered by close date with missing dates last.
*/
module GrantsMain {
  import opened Wrappers
  import opened Frames
  import opened Calendar
  import opened GrantsExtract
  import opened GrantsFilters
  import opened GrantsOutput

  /** `all_columns`: the grant schema both tables are restricted to before they are stacked. */
  const AllColumns := [
    "grant_id", "title", "agency", "cfda_number", "program_type",
    "close_date", "post_date", "federal_share_pct", "award_ceiling",
    "award_floor", "emphasis_areas", "eligible_activities",
    "requires_crash_data", "application_url", "contact_info",
    "status", "virginia_specific", "description"]

  /** The titles of `VIRGINIA_STATIC_GRANTS`, in order. */
  const StaticTitles := [
    "Highway Safety Improvement Program (HSIP) FY2027",
    "Safe Streets and Roads for All (SS4A) FY2026",
    "NHTSA Section 402 Highway Safety Grant FY2027",
    "NHTSA Section 405b Occupant Protection FY2027",
    "NHTSA Section 405c Traffic Records FY2027",
    "NHTSA Section 405d Impaired Driving FY2027",
    "RAISE Discretionary Grants FY2026",
    "INFRA Discretionary Grants FY2026"]

  /** Their close dates, in the same order. */
  const StaticCloseDates := [
    "2026-10-31", "2026-04-15", "2026-02-28", "2026-02-28",
    "2026-02-28", "2026-02-28", "2026-04-15", "2026-05-15"]

  const LastUpdated := "last_updated"

  // ---------------------------------------------------------------------
  // The clock
  // ---------------------------------------------------------------------

  /** `datetime.now()`: a calendar date and the second of that day. */
  datatype Clock = Clock(date: Date, second: int)

  predicate ValidClock(c: Clock) {
    ValidDate(c.date) && 0 <= c.second < 86400
  }

  /** The ordinal of 1970-01-01, from which timestamps are counted. */
  const EpochDay := 719162

  lemma EpochDayIsNewYear1970()
    ensures ValidDate(Date(1970, 1, 1)) && DayNumber(Date(1970, 1, 1)) == EpochDay
  {
  }

  /** The clock as seconds since 1970-01-01 00:00, the scale of the parsed close dates. */
  function NowSeconds(c: Clock): (s: int)
    requires ValidClock(c)
    ensures s == (DayNumber(c.date) - DayNumber(Date(1970, 1, 1))) * 86400 + c.second
  {
    EpochDayIsNewYear1970();
    (DayNumber(c.date) - EpochDay) * 86400 + c.second
  }

  // ---------------------------------------------------------------------
  // The static grants
  // ---------------------------------------------------------------------

  /** `title` of a row. */
  function TitleOf(row: Row, cols: seq<string>): Cell {
    CellOf(row, cols, "title")
  }

  /**
    `get_virginia_static_grants()`: the eight static grants under the 18
    schema columns, labelled 0 to 7, with the titles and close dates above.
    The other fields are data the pipeline's logic never reads.
  */
  predicate IsStaticTable(t: Table) {
    && t.columns == AllColumns
    && WellFormed(t)
    && |t.rows| == |StaticTitles|
    && forall i :: 0 <= i < |t.rows| ==>
         && t.rows[i].index == i
         && TitleOf(t.rows[i], t.columns) == Str(StaticTitles[i])
         && CellOf(t.rows[i], t.columns, "close_date") == Str(StaticCloseDates[i])
  }

  /** No two static grants share a title. */
  lemma StaticTitlesDistinct()
    ensures forall i, j :: 0 <= i < j < |StaticTitles| ==> StaticTitles[i] != StaticTitles[j]
  {
    forall i, j | 0 <= i < j < |StaticTitles| ensures StaticTitles[i] != StaticTitles[j] {
      assert StaticTitles[i][0] != StaticTitles[j][0] || StaticTitles[i][16] != StaticTitles[j][16]
        || StaticTitles[i][17] != StaticTitles[j][17];
    }
  }

  // ---------------------------------------------------------------------
  // Stacking the two tables
  // ---------------------------------------------------------------------

  /** `t[col] = None` for each missing column, then `t[cols]`: the cells under `cols`, missing where `t` has no such column. */
  function Reindexed(t: Table, cols: seq<string>): (r: Table)
    ensures r.columns == cols && |r.rows| == |t.rows| && WellFormed(r)
    ensures forall i :: 0 <= i < |t.rows| ==> r.rows[i].index == t.rows[i].index
    ensures forall i, c :: 0 <= i < |t.rows| && c in cols ==> CellOf(r.rows[i], cols, c) == CellOf(t.rows[i], t.columns, c)
  {
    Table(cols, seq(|t.rows|, i requires 0 <= i < |t.rows| =>
      Row(t.rows[i].index, seq(|cols|, k requires 0 <= k < |cols| => CellOf(t.rows[i], t.columns, cols[k])))))
  }

  /** `pd.concat([a, b], ignore_index=True)` of two tables with the same columns: labels become 0, 1, ... */
  function Concat(a: Table, b: Table): (r: Table)
    requires a.columns == b.columns
    ensures r.columns == a.columns && |r.rows| == |a.rows| + |b.rows|
    ensures Labels(r.rows) == RangeLabels(|r.rows|)
    ensures forall i :: 0 <= i < |a.rows| ==> r.rows[i].cells == a.rows[i].cells
    ensures forall i :: 0 <= i < |b.rows| ==> r.rows[|a.rows| + i].cells == b.rows[i].cells
  {
    var rows := a.rows + b.rows;
    Table(a.columns, seq(|rows|, i requires 0 <= i < |rows| => Row(i, rows[i].cells)))
  }

  /** The table before de-duplication: the static grants alone, or both tables under the schema columns. */
  function Combined(supplement: Table, federal: Table): Table {
    if IsEmpty(federal) then supplement
    else Concat(Reindexed(supplement, AllColumns), Reindexed(federal, AllColumns))
  }

  // ---------------------------------------------------------------------
  // drop_duplicates(subset=['title'], keep='first')
  // ---------------------------------------------------------------------

  /**
    The rows whose key is neither in `seen` nor the key of an earlier row,
    in order. Two missing keys (`Null`) are equal.
  */
  function DedupFrom(rows: seq<Row>, key: Row -> Cell, seen: set<Cell>): (r: seq<Row>)
    ensures |r| <= |rows|
    ensures forall y :: y in r ==> y in rows && key(y) !in seen
  {
    if rows == [] then []
    else
      var head := key(rows[0]);
      if head in seen then DedupFrom(rows[1..], key, seen)
      else [rows[0]] + DedupFrom(rows[1..], key, seen + {head})
  }

  /** The `title` cell of a row, as a key for de-duplication. */
  function TitleKey(cols: seq<string>): Row -> Cell {
    row => TitleOf(row, cols)
  }

  lemma TitleKeyIs(cols: seq<string>)
    ensures forall row :: TitleKey(cols)(row) == TitleOf(row, cols)
  { }

  function DropDuplicateTitles(t: Table): Table {
    Table(t.columns, DedupFrom(t.rows, TitleKey(t.columns), {}))
  }

  /** Row `i` is the first row with its key, and that key has not been seen. */
  predicate FirstOfKey(rows: seq<Row>, key: Row -> Cell, seen: set<Cell>, i: int)
    requires 0 <= i < |rows|
  {
    key(rows[i]) !in seen && forall j :: 0 <= j < i ==> key(rows[j]) != key(rows[i])
  }

  /** Every row kept is the first row with its key. */
  lemma {:induction false} DedupKeepsOnlyFirst(rows: seq<Row>, key: Row -> Cell, seen: set<Cell>)
    ensures forall y :: y in DedupFrom(rows, key, seen) ==>
      exists i :: 0 <= i < |rows| && rows[i] == y && FirstOfKey(rows, key, seen, i)
  {
    if rows != [] {
      var x := rows[0];
      var head := key(x);
      var seen' := if head in seen then seen else seen + {head};
      DedupKeepsOnlyFirst(rows[1..], key, seen');
      forall y | y in DedupFrom(rows, key, seen)
        ensures exists i :: 0 <= i < |rows| && rows[i] == y && FirstOfKey(rows, key, seen, i)
      {
        if head !in seen && y == x {
          assert FirstOfKey(rows, key, seen, 0);
        } else {
          assert y in DedupFrom(rows[1..], key, seen');
          var i :| 0 <= i < |rows[1..]| && rows[1..][i] == y && FirstOfKey(rows[1..], key, seen', i);
          forall j | 0 <= j < i + 1 ensures key(rows[j]) != key(y) {
            if j > 0 {
              assert rows[j] == rows[1..][j - 1];
            }
          }
          assert FirstOfKey(rows, key, seen, i + 1);
        }
      }
    }
  }

  /** The first row with an unseen key is kept. */
  lemma {:induction false} DedupKeepsFirst(rows: seq<Row>, key: Row -> Cell, seen: set<Cell>, i: nat)
    requires i < |rows| && FirstOfKey(rows, key, seen, i)
    ensures rows[i] in DedupFrom(rows, key, seen)
  {
    var head := key(rows[0]);
    if i == 0 {
      assert DedupFrom(rows, key, seen) == [rows[0]] + DedupFrom(rows[1..], key, seen + {head});
    } else {
      var seen' := if head in seen then seen else seen + {head};
      assert rows[1..][i - 1] == rows[i];
      assert key(rows[0]) != key(rows[i]);
      forall j | 0 <= j < i - 1 ensures key(rows[1..][j]) != key(rows[i]) {
        assert rows[1..][j] == rows[j + 1];
      }
      DedupKeepsFirst(rows[1..], key, seen', i - 1);
    }
  }

  /** No two rows kept share a key. */
  lemma {:induction false} DedupDistinct(rows: seq<Row>, key: Row -> Cell, seen: set<Cell>)
    ensures forall i, j :: 0 <= i < j < |DedupFrom(rows, key, seen)| ==>
      key(DedupFrom(rows, key, seen)[i]) != key(DedupFrom(rows, key, seen)[j])
  {
    if rows != [] {
      var head := key(rows[0]);
      var r := DedupFrom(rows, key, seen);
      if head in seen {
        DedupDistinct(rows[1..], key, seen);
        assert r == DedupFrom(rows[1..], key, seen);
      } else {
        var rest := DedupFrom(rows[1..], key, seen + {head});
        DedupDistinct(rows[1..], key, seen + {head});
        assert r == [rows[0]] + rest;
        forall i, j | 0 <= i < j < |r| ensures key(r[i]) != key(r[j]) {
          assert r[j] == rest[j - 1];
          assert rest[j - 1] in rest;
          if i > 0 {
            assert r[i] == rest[i - 1];
          }
        }
      }
    }
  }

  /** The key of row `i`, when unseen, is the key of a kept row. */
  lemma {:induction false} DedupCoversOne(rows: seq<Row>, key: Row -> Cell, seen: set<Cell>, i: nat)
    requires i < |rows| && key(rows[i]) !in seen
    ensures exists y :: y in DedupFrom(rows, key, seen) && key(y) == key(rows[i])
  {
    var head := key(rows[0]);
    var r := DedupFrom(rows, key, seen);
    if head == key(rows[i]) {
      assert r == [rows[0]] + DedupFrom(rows[1..], key, seen + {head});
      assert rows[0] in r;
    } else {
      var seen' := if head in seen then seen else seen + {head};
      var tail := DedupFrom(rows[1..], key, seen');
      assert r == if head in seen then tail else [rows[0]] + tail;
      assert rows[1..][i - 1] == rows[i];
      DedupCoversOne(rows[1..], key, seen', i - 1);
      var y :| y in tail && key(y) == key(rows[i]);
      assert y in r;
    }
  }

  /** Every key of the input that was not seen before is the key of a kept row. */
  lemma DedupCoversKeys(rows: seq<Row>, key: Row -> Cell, seen: set<Cell>)
    ensures forall x :: x in rows && key(x) !in seen ==>
      exists y :: y in DedupFrom(rows, key, seen) && key(y) == key(x)
  {
    forall x | x in rows && key(x) !in seen
      ensures exists y :: y in DedupFrom(rows, key, seen) && key(y) == key(x)
    {
      var i :| 0 <= i < |rows| && rows[i] == x;
      DedupCoversOne(rows, key, seen, i);
    }
  }

  /** De-duplication removes rows and never reorders them. */
  lemma {:induction false} DedupIsSubsequence(rows: seq<Row>, key: Row -> Cell, seen: set<Cell>)
    ensures IsSubsequence(DedupFrom(rows, key, seen), rows)
  {
    if rows == [] {
      assert IsEmbedding([], [], rows);
    } else {
      var head := key(rows[0]);
      var seen' := if head in seen then seen else seen + {head};
      DedupIsSubsequence(rows[1..], key, seen');
      var rest := DedupFrom(rows[1..], key, seen');
      var idx :| IsEmbedding(idx, rest, rows[1..]);
      EmbeddingPrepend(idx, rest, rows[1..], rows[0]);
      assert [rows[0]] + rows[1..] == rows;
      var shifted := seq(|idx|, i requires 0 <= i < |idx| => idx[i] + 1);
      if head in seen {
        assert IsEmbedding(shifted, rest, rows);
      } else {
        assert IsEmbedding([0] + shifted, [rows[0]] + rest, rows);
      }
    }
  }

  /**
    drop_duplicates on the title keeps the columns and, in order, rows with
    pairwise different titles, and every title of the table is the title of
    a row kept.
  */
  lemma DropDuplicatesSpec(t: Table)
    ensures DropDuplicateTitles(t).columns == t.columns
    ensures IsSubsequence(DropDuplicateTitles(t).rows, t.rows)
    ensures var rs := DropDuplicateTitles(t).rows;
      forall i, j :: 0 <= i < j < |rs| ==> TitleOf(rs[i], t.columns) != TitleOf(rs[j], t.columns)
    ensures forall x :: x in t.rows ==>
      exists y :: y in DropDuplicateTitles(t).rows && TitleOf(y, t.columns) == TitleOf(x, t.columns)
  {
    var key := TitleKey(t.columns);
    TitleKeyIs(t.columns);
    DedupIsSubsequence(t.rows, key, {});
    DedupDistinct(t.rows, key, {});
    DedupCoversKeys(t.rows, key, {});
  }

  /** The rows drop_duplicates keeps are exactly the first rows of their titles. */
  lemma DropDuplicatesKeepsFirst(t: Table)
    ensures forall y :: y in DropDuplicateTitles(t).rows ==>
      exists i :: 0 <= i < |t.rows| && t.rows[i] == y && FirstOfKey(t.rows, TitleKey(t.columns), {}, i)
    ensures forall i :: 0 <= i < |t.rows| && FirstOfKey(t.rows, TitleKey(t.columns), {}, i) ==> t.rows[i] in DropDuplicateTitles(t).rows
  {
    var key := TitleKey(t.columns);
    DedupKeepsOnlyFirst(t.rows, key, {});
    forall i | 0 <= i < |t.rows| && FirstOfKey(t.rows, key, {}, i)
      ensures t.rows[i] in DropDuplicateTitles(t).rows
    {
      DedupKeepsFirst(t.rows, key, {}, i);
    }
  }

  /** A kept row whose key is the key of one of the first `n` rows is one of those rows. */
  lemma KeptRowAmongFirst(rows: seq<Row>, key: Row -> Cell, n: nat, y: Row, m: nat)
    requires n <= |rows| && m < n && key(rows[m]) == key(y)
    requires y in DedupFrom(rows, key, {})
    ensures exists i :: 0 <= i < n && rows[i] == y
  {
    DedupKeepsOnlyFirst(rows, key, {});
    var i :| 0 <= i < |rows| && rows[i] == y && FirstOfKey(rows, key, {}, i);
    assert i <= m;
  }

  /**
    Rows placed first win: a row kept whose title is also the title of one
    of the first `n` rows is itself one of those `n` rows.
  */
  lemma FirstRowsWin(t: Table, n: nat)
    requires n <= |t.rows|
    ensures var r := DropDuplicateTitles(t);
      && (forall y :: y in r.rows && (exists m :: 0 <= m < n && TitleOf(t.rows[m], t.columns) == TitleOf(y, t.columns))
            ==> exists i :: 0 <= i < n && t.rows[i] == y)
  {
    var r := DropDuplicateTitles(t);
    TitleKeyIs(t.columns);
    forall y | y in r.rows && (exists m :: 0 <= m < n && TitleOf(t.rows[m], t.columns) == TitleOf(y, t.columns))
      ensures exists i :: 0 <= i < n && t.rows[i] == y
    {
      var m :| 0 <= m < n && TitleOf(t.rows[m], t.columns) == TitleOf(y, t.columns);
      KeptRowAmongFirst(t.rows, TitleKey(t.columns), n, y, m);
    }
  }

  /**
    In the combined table a static grant always wins over a federal grant
    with the same title: every row kept whose title is a static title is
    one of the static rows at the front.
  */
  lemma StaticWinsOverFederal(supplement: Table, federal: Table)
    requires IsStaticTable(supplement)
    ensures var c := Combined(supplement, federal);
      forall y :: y in DropDuplicateTitles(c).rows && (exists i :: 0 <= i < |StaticTitles| && TitleOf(y, c.columns) == Str(StaticTitles[i]))
        ==> exists i :: 0 <= i < |StaticTitles| && c.rows[i] == y
  {
    var c := Combined(supplement, federal);
    CombinedShape(supplement, federal);
    TitleKeyIs(c.columns);
    forall y | y in DropDuplicateTitles(c).rows && (exists i :: 0 <= i < |StaticTitles| && TitleOf(y, c.columns) == Str(StaticTitles[i]))
      ensures exists m :: 0 <= m < |StaticTitles| && c.rows[m] == y
    {
      var i :| 0 <= i < |StaticTitles| && TitleOf(y, c.columns) == Str(StaticTitles[i]);
      KeptRowAmongFirst(c.rows, TitleKey(c.columns), |StaticTitles|, y, i);
    }
  }

  // ---------------------------------------------------------------------
  // sort_values('close_date', ascending=True, na_position='last')
  // ---------------------------------------------------------------------

  /** The sort key of a row: its converted close date, missing unless it is a timestamp. */
  function CloseKey(row: Row, cols: seq<string>): Option<int> {
    match CellOf(row, cols, "close_date")
    case Stamp(s) => Some(s)
    case _ => None
  }

  /** Ascending, with missing keys after every present one. */
  predicate KeyLe(a: Option<int>, b: Option<int>) {
    b.None? || (a.Some? && a.value <= b.value)
  }

  predicate SortedByClose(rows: seq<Row>, cols: seq<string>) {
    forall i, j :: 0 <= i < j < |rows| ==> KeyLe(CloseKey(rows[i], cols), CloseKey(rows[j], cols))
  }

  /** Every key is comparable with every other. */
  lemma KeyLeTotal(a: Option<int>, b: Option<int>)
    ensures KeyLe(a, b) || KeyLe(b, a)
  {
  }

  /** `x` put into the sorted `rows` before the first row whose key is greater. */
  function Insert(x: Row, rows: seq<Row>, cols: seq<string>): (r: seq<Row>)
    requires SortedByClose(rows, cols)
    ensures SortedByClose(r, cols)
    ensures multiset(r) == multiset(rows) + multiset{x}
  {
    if rows == [] then [x]
    else if KeyLe(CloseKey(x, cols), CloseKey(rows[0], cols)) then
      assert forall j :: 0 < j < |[x] + rows| ==> ([x] + rows)[j] == rows[j - 1];
      [x] + rows
    else
      var head := rows[0];
      var rest := Insert(x, rows[1..], cols);
      assert rows == [head] + rows[1..];
      KeyLeTotal(CloseKey(x, cols), CloseKey(head, cols));
      InsertBounded(head, x, rows, rest, cols);
      [head] + rest
  }

  /** The head of a sorted sequence is no greater than anything the rest of it, with `x` added, holds. */
  lemma InsertBounded(head: Row, x: Row, rows: seq<Row>, rest: seq<Row>, cols: seq<string>)
    requires rows != [] && rows[0] == head && SortedByClose(rows, cols) && SortedByClose(rest, cols)
    requires KeyLe(CloseKey(head, cols), CloseKey(x, cols))
    requires multiset(rest) == multiset(rows[1..]) + multiset{x}
    ensures SortedByClose([head] + rest, cols)
  {
    var r := [head] + rest;
    forall k | 0 <= k < |rest| ensures KeyLe(CloseKey(head, cols), CloseKey(rest[k], cols)) {
      assert rest[k] in multiset(rest);
      if rest[k] != x {
        assert rest[k] in multiset(rows[1..]);
        var m :| 0 <= m < |rows[1..]| && rows[1..][m] == rest[k];
        assert rows[m + 1] == rest[k];
      }
    }
    forall i, j | 0 <= i < j < |r| ensures KeyLe(CloseKey(r[i], cols), CloseKey(r[j], cols)) {
      assert r[j] == rest[j - 1];
      if i > 0 {
        assert r[i] == rest[i - 1];
      }
    }
  }

  /**
    The rows in close-date order. pandas sorts with an unstable quicksort,
    so nothing is claimed about the order of rows with equal keys.
  */
  function SortByClose(rows: seq<Row>, cols: seq<string>): (r: seq<Row>)
    ensures SortedByClose(r, cols)
    ensures multiset(r) == multiset(rows)
  {
    if rows == [] then []
    else
      assert rows == [rows[0]] + rows[1..];
      Insert(rows[0], SortByClose(rows[1..], cols), cols)
  }

  // ---------------------------------------------------------------------
  // main
  // ---------------------------------------------------------------------

  /** `combined_grants['last_updated'] = today` as `%Y-%m-%d` text. */
  function WithLastUpdated(t: Table, stamp: string): (r: Table)
    ensures r.columns == t.columns + [LastUpdated] && |r.rows| == |t.rows|
    ensures forall i :: 0 <= i < |t.rows| ==> r.rows[i] == Row(t.rows[i].index, t.rows[i].cells + [Str(stamp)])
  {
    Table(t.columns + [LastUpdated], seq(|t.rows|, i requires 0 <= i < |t.rows| => Row(t.rows[i].index, t.rows[i].cells + [Str(stamp)])))
  }

  /** The federal grants main builds from the outcome of download_grants_extract; an error leaves none. */
  function FederalGrants(download: Result<Table>, parse: string -> Option<int>, now: int): Table {
    match download
    case Err(_) => EmptyTable
    case Ok(df) =>
      if IsEmpty(df) then EmptyTable
      else
        var topical := GrantsFiltered(df);
        if IsEmpty(topical) then EmptyTable
        else OutputTable(ActiveFiltered(topical, parse, now))
  }

  /** The rows main sorts: combined, de-duplicated, stamped with today, their close dates parsed. */
  function Prepared(supplement: Table, federal: Table, clock: Clock, parse: string -> Option<int>): Table
    requires IsStaticTable(supplement) && ValidClock(clock)
  {
    var stamped := WithLastUpdated(DropDuplicateTitles(Combined(supplement, federal)), FormatIso(clock.date));
    ConvertColumn(stamped, "close_date", parse)
  }

  /** The table main writes: the prepared rows in close-date order. */
  function FinalTable(supplement: Table, federal: Table, clock: Clock, parse: string -> Option<int>): Table
    requires IsStaticTable(supplement) && ValidClock(clock)
  {
    var prepared := Prepared(supplement, federal, clock, parse);
    Table(prepared.columns, SortByClose(prepared.rows, prepared.columns))
  }

  /** The whole run, with the extract download given by `fetch` and `datetime.now()` by `clock`. */
  function GrantsPipeline(fetch: Fetch, clock: Clock, parse: string -> Option<int>, supplement: Table): Table
    requires IsStaticTable(supplement) && ValidClock(clock)
  {
    var download := LookbackFrom(Extracts(fetch), clock.date, MaxLookbackDays).result;
    FinalTable(supplement, FederalGrants(download, parse, NowSeconds(clock)), clock, parse)
  }

  /** main: it returns 0 whatever the download did, and writes `written`. */
  method GrantsMain(fetch: Fetch, clock: Clock, parse: string -> Option<int>, supplement: Table) returns (exitCode: int, written: Table)
    requires IsStaticTable(supplement) && ValidClock(clock)
    ensures exitCode == 0
    ensures written == GrantsPipeline(fetch, clock, parse, supplement)
  {
    var federal := EmptyTable;
    var df := DownloadGrantsExtract(fetch, clock.date, MaxLookbackDays);
    if df.Ok? && !IsEmpty(df.value) {
      var topical := FilterGrants(df.value);
      if !IsEmpty(topical) {
        var active := FilterActiveGrants(topical, parse, NowSeconds(clock));
        federal := MapToOutputColumns(active);
      }
    }
    assert federal == FederalGrants(LookbackFrom(Extracts(fetch), clock.date, MaxLookbackDays).result, parse, NowSeconds(clock));
    var combined := Combined(supplement, federal);
    combined := DropDuplicateTitles(combined);
    combined := WithLastUpdated(combined, FormatIso(clock.date));
    combined := ConvertColumn(combined, "close_date", parse);
    written := Table(combined.columns, SortByClose(combined.rows, combined.columns));
    exitCode := 0;
  }

  // ---------------------------------------------------------------------
  // What main writes
  // ---------------------------------------------------------------------

  /** The static grants stay first under the schema columns, whatever the federal table is. */
  lemma CombinedShape(supplement: Table, federal: Table)
    requires IsStaticTable(supplement)
    ensures var c := Combined(supplement, federal);
      && c.columns == AllColumns
      && WellFormed(c)
      && |supplement.rows| <= |c.rows|
      && (forall i :: 0 <= i < |supplement.rows| ==> TitleOf(c.rows[i], AllColumns) == Str(StaticTitles[i]))
  {
    if !IsEmpty(federal) {
      var a := Reindexed(supplement, AllColumns);
      var b := Reindexed(federal, AllColumns);
      var c := Concat(a, b);
      forall i | 0 <= i < |c.rows| ensures |c.rows[i].cells| == |AllColumns| {
        if i < |a.rows| {
          assert c.rows[i].cells == a.rows[i].cells;
        } else {
          assert c.rows[|a.rows| + (i - |a.rows|)].cells == b.rows[i - |a.rows|].cells;
        }
      }
      forall i | 0 <= i < |supplement.rows| ensures TitleOf(c.rows[i], AllColumns) == Str(StaticTitles[i]) {
        assert c.rows[i].cells == a.rows[i].cells;
        assert TitleOf(c.rows[i], AllColumns) == TitleOf(a.rows[i], AllColumns);
      }
    }
  }

  /** Rows whose keys are already pairwise different and unseen all stay. */
  lemma {:induction false} DedupOfDistinct(rows: seq<Row>, key: Row -> Cell, seen: set<Cell>)
    requires forall i :: 0 <= i < |rows| ==> key(rows[i]) !in seen
    requires forall i, j :: 0 <= i < j < |rows| ==> key(rows[i]) != key(rows[j])
    ensures DedupFrom(rows, key, seen) == rows
  {
    if rows != [] {
      var head := key(rows[0]);
      forall i | 0 <= i < |rows[1..]| ensures key(rows[1..][i]) !in seen + {head} {
        assert rows[1..][i] == rows[i + 1];
      }
      DedupOfDistinct(rows[1..], key, seen + {head});
      assert rows == [rows[0]] + rows[1..];
    }
  }

  /** Each static grant is the first row with its title, so de-duplication keeps every one of them. */
  lemma StaticRowsFirstOfTitle(supplement: Table, federal: Table, i: nat)
    requires IsStaticTable(supplement) && i < |supplement.rows|
    ensures var c := Combined(supplement, federal);
      i < |c.rows| && FirstOfKey(c.rows, TitleKey(c.columns), {}, i)
  {
    var c := Combined(supplement, federal);
    TitleKeyIs(c.columns);
    CombinedShape(supplement, federal);
    StaticTitlesDistinct();
    forall j | 0 <= j < i ensures TitleOf(c.rows[j], c.columns) != TitleOf(c.rows[i], c.columns) {
      assert StaticTitles[j] != StaticTitles[i];
    }
  }

  /** `last_updated` is not a schema column. */
  lemma LastUpdatedIsNew()
    ensures LastUpdated !in AllColumns
  {
    forall k | 0 <= k < |AllColumns| ensures AllColumns[k] != LastUpdated {
      if |AllColumns[k]| == |LastUpdated| {
        assert AllColumns[k][0] != LastUpdated[0];
      }
    }
  }

  /** The cell positions of the written table's columns. */
  lemma WrittenPositions()
    ensures Position(AllColumns + [LastUpdated], "title") == 1
    ensures Position(AllColumns + [LastUpdated], "close_date") == 5
    ensures Position(AllColumns + [LastUpdated], LastUpdated) == 18
  {
    var w := AllColumns + [LastUpdated];
    assert w[1] == "title" && w[0] != "title";
    PositionIs(w, "title", 1);
    assert w[5] == "close_date";
    assert forall j :: 0 <= j < 5 ==> w[j] != "close_date";
    PositionIs(w, "close_date", 5);
    LastUpdatedIsNew();
    assert forall j :: 0 <= j < 18 ==> w[j] == AllColumns[j];
    PositionIs(w, LastUpdated, 18);
  }

  /** Stamping and parsing the close date leave the title alone and put today in `last_updated`. */
  lemma StampedRow(row: Row, stamp: string, v: Cell)
    requires |row.cells| == |AllColumns|
    ensures var cols := AllColumns + [LastUpdated];
      var row' := SetCell(Row(row.index, row.cells + [Str(stamp)]), Position(cols, "close_date"), v);
      && TitleOf(row', cols) == TitleOf(row, AllColumns)
      && CellOf(row', cols, LastUpdated) == Str(stamp)
  {
    WrittenPositions();
  }

  /** Prepared row `k` is de-duplicated row `k`, same title, with today in `last_updated`. */
  lemma PreparedRows(supplement: Table, federal: Table, clock: Clock, parse: string -> Option<int>)
    requires IsStaticTable(supplement) && ValidClock(clock)
    ensures var p := Prepared(supplement, federal, clock, parse);
      var rs := DropDuplicateTitles(Combined(supplement, federal)).rows;
      && p.columns == AllColumns + [LastUpdated]
      && |p.rows| == |rs|
      && forall k :: 0 <= k < |rs| ==>
           && TitleOf(p.rows[k], p.columns) == TitleOf(rs[k], AllColumns)
           && CellOf(p.rows[k], p.columns, LastUpdated) == Str(FormatIso(clock.date))
  {
    var combined := Combined(supplement, federal);
    CombinedShape(supplement, federal);
    var rs := DropDuplicateTitles(combined).rows;
    var stamp := FormatIso(clock.date);
    var stamped := WithLastUpdated(DropDuplicateTitles(combined), stamp);
    var cols := AllColumns + [LastUpdated];
    var p := Prepared(supplement, federal, clock, parse);
    forall k | 0 <= k < |rs|
      ensures TitleOf(p.rows[k], cols) == TitleOf(rs[k], AllColumns)
      ensures CellOf(p.rows[k], cols, LastUpdated) == Str(stamp)
    {
      assert rs[k] in combined.rows;
      StampedRow(rs[k], stamp, ToDatetime(CellOf(stamped.rows[k], cols, "close_date"), parse));
    }
  }

  /** No two prepared rows share a title, and each static title is among them. */
  lemma PreparedTitles(supplement: Table, federal: Table, clock: Clock, parse: string -> Option<int>)
    requires IsStaticTable(supplement) && ValidClock(clock)
    ensures var p := Prepared(supplement, federal, clock, parse);
      && (forall k, l :: 0 <= k < l < |p.rows| ==> TitleOf(p.rows[k], p.columns) != TitleOf(p.rows[l], p.columns))
      && (forall i :: 0 <= i < |StaticTitles| ==> exists k :: 0 <= k < |p.rows| && TitleOf(p.rows[k], p.columns) == Str(StaticTitles[i]))
  {
    var combined := Combined(supplement, federal);
    CombinedShape(supplement, federal);
    DropDuplicatesSpec(combined);
    DropDuplicatesKeepsFirst(combined);
    PreparedRows(supplement, federal, clock, parse);
    var rs := DropDuplicateTitles(combined).rows;
    var p := Prepared(supplement, federal, clock, parse);
    forall i | 0 <= i < |StaticTitles| ensures exists k :: 0 <= k < |p.rows| && TitleOf(p.rows[k], p.columns) == Str(StaticTitles[i]) {
      StaticRowsFirstOfTitle(supplement, federal, i);
      assert combined.rows[i] in rs;
      var k :| 0 <= k < |rs| && rs[k] == combined.rows[i];
      assert TitleOf(p.rows[k], p.columns) == Str(StaticTitles[i]);
    }
  }

  /** Reordered rows are as many, and the same rows. */
  lemma PermutedRows(a: seq<Row>, b: seq<Row>)
    requires multiset(a) == multiset(b)
    ensures |a| == |b|
    ensures forall x :: x in a <==> x in b
  {
    assert |a| == |multiset(a)|;
    forall x ensures x in a <==> x in b {
      assert x in a <==> x in multiset(a);
    }
  }

  /**
    The table main writes has the schema columns and `last_updated`, is in
    close-date order with missing dates last, has one row per distinct
    title of the combined table, and carries today's date in every row.
  */
  lemma FinalTableShape(supplement: Table, federal: Table, clock: Clock, parse: string -> Option<int>)
    requires IsStaticTable(supplement) && ValidClock(clock)
    ensures var out := FinalTable(supplement, federal, clock, parse);
      && out.columns == AllColumns + [LastUpdated]
      && SortedByClose(out.rows, out.columns)
      && |out.rows| == |DropDuplicateTitles(Combined(supplement, federal)).rows|
      && (forall x :: x in out.rows ==> CellOf(x, out.columns, LastUpdated) == Str(FormatIso(clock.date)))
  {
    var p := Prepared(supplement, federal, clock, parse);
    var out := FinalTable(supplement, federal, clock, parse);
    PreparedRows(supplement, federal, clock, parse);
    PermutedRows(out.rows, p.rows);
    forall x | x in out.rows ensures CellOf(x, out.columns, LastUpdated) == Str(FormatIso(clock.date)) {
      var k :| 0 <= k < |p.rows| && p.rows[k] == x;
    }
  }

  /** Reordering rows whose keys are pairwise different leaves no two rows with one key. */
  lemma UniqueKeysPermuted(a: seq<Row>, b: seq<Row>, key: Row -> Cell)
    requires multiset(a) == multiset(b)
    requires forall k, l :: 0 <= k < l < |b| ==> key(b[k]) != key(b[l])
    ensures forall x, y :: x in a && y in a && key(x) == key(y) ==> x == y
  {
    PermutedRows(a, b);
    forall x, y | x in a && y in a && key(x) == key(y) ensures x == y {
      var k :| 0 <= k < |b| && b[k] == x;
      var l :| 0 <= l < |b| && b[l] == y;
      assert !(k < l) && !(l < k);
    }
  }

  /**
    The table main writes holds no two rows with the same title, and holds
    a row for each of the eight static grants, whatever came from Grants.gov.
  */
  lemma FinalTableTitles(supplement: Table, federal: Table, clock: Clock, parse: string -> Option<int>)
    requires IsStaticTable(supplement) && ValidClock(clock)
    ensures var out := FinalTable(supplement, federal, clock, parse);
      && (forall x, y :: x in out.rows && y in out.rows && TitleOf(x, out.columns) == TitleOf(y, out.columns) ==> x == y)
      && (forall i :: 0 <= i < |StaticTitles| ==> exists y :: y in out.rows && TitleOf(y, out.columns) == Str(StaticTitles[i]))
  {
    var p := Prepared(supplement, federal, clock, parse);
    var out := FinalTable(supplement, federal, clock, parse);
    var key := TitleKey(p.columns);
    assert out.columns == p.columns;
    TitleKeyIs(p.columns);
    PreparedTitles(supplement, federal, clock, parse);
    PermutedRows(out.rows, p.rows);
    UniqueKeysPermuted(out.rows, p.rows, key);
    forall i | 0 <= i < |StaticTitles| ensures exists y :: y in out.rows && TitleOf(y, p.columns) == Str(StaticTitles[i]) {
      var k :| 0 <= k < |p.rows| && TitleOf(p.rows[k], p.columns) == Str(StaticTitles[i]);
      assert p.rows[k] in out.rows;
    }
  }

  /**
    When Grants.gov yields nothing (the download failed, came back empty, or
    no row passed the topic filter), main writes exactly the eight static
    grants, in close-date order.
  */
  lemma StaticOnlyWhenNoFederal(supplement: Table, clock: Clock, parse: string -> Option<int>)
    requires IsStaticTable(supplement) && ValidClock(clock)
    ensures var out := FinalTable(supplement, EmptyTable, clock, parse);
      && |out.rows| == |StaticTitles|
      && forall i :: 0 <= i < |StaticTitles| ==> exists y :: y in out.rows && TitleOf(y, out.columns) == Str(StaticTitles[i])
  {
    StaticTitlesDistinct();
    TitleKeyIs(supplement.columns);
    DedupOfDistinct(supplement.rows, TitleKey(supplement.columns), {});
    FinalTableShape(supplement, EmptyTable, clock, parse);
    FinalTableTitles(supplement, EmptyTable, clock, parse);
  }

  /** A failed, empty or off-topic download leaves no federal grants. */
  lemma NoFederalGrants(download: Result<Table>, parse: string -> Option<int>, now: int)
    requires download.Err? || IsEmpty(download.value) || GrantsFiltered(download.value).rows == []
    ensures FederalGrants(download, parse, now) == EmptyTable
  {
  }
}
