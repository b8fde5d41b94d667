/**
  The crash pipeline's `main`: ArcGIS first, the CSV extract when that
  fails or comes back empty, then the Henrico filter, the state-route
  exclusion and the renaming, with exit code 1 on each dead end.
*/
module CrashMain {
  import opened Wrappers
  import opened Text
  import opened Frames
  import opened ArcGis
  import opened CrashFilters

  const NoHenricoRecords := "No Henrico County records found after filtering!"
  const NoLocalRecords := "No records remaining after excluding state routes!"

  /** What one run did: whether the fallback supplied the data, the exit code, and the table written to the CSV file. */
  datatype CrashRun = CrashRun(usedFallback: bool, exitCode: int, written: Option<Table>)

  /** The primary table: `pd.DataFrame(all_records)`, or nothing when `download_from_arcgis` raised. */
  function PrimaryTable(count: CountOracle, page: PageOracle): Option<Table> {
    match ArcgisDownload(count, page)
    case Ok(records) => Some(FromRecords(records))
    case Err(_) => None
  }

  /** `df is None or df.empty`: the fallback is consulted. */
  predicate NeedsFallback(primary: Option<Table>) {
    primary.None? || IsEmpty(primary.value)
  }

  /**
    The three filters and the two emptiness checks between them. The route
    filter is the one the source writes: when it raises, nothing catches
    the exception, and the process ends with a traceback and status 1.
  */
  function ProcessCrashes(t: Table): Result<Table> {
    var henrico := HenricoFiltered(t);
    if IsEmpty(henrico) then Err(NoHenricoRecords)
    else
      match RouteFilterAsWritten(henrico)
      case Err(e) => Err(e)
      case Ok(local) => if IsEmpty(local) then Err(NoLocalRecords) else Ok(StandardizeColumns(local))
  }

  /** The same steps with the route mask aligned with the table's own rows, as the route filter intends. */
  function ProcessCrashesCorrected(t: Table): Result<Table> {
    var henrico := HenricoFiltered(t);
    if IsEmpty(henrico) then Err(NoHenricoRecords)
    else
      var local := RouteFiltered(henrico);
      if IsEmpty(local) then Err(NoLocalRecords)
      else Ok(StandardizeColumns(local))
  }

  /** The whole run, with the fallback CSV download given as its outcome. */
  function CrashPipeline(count: CountOracle, page: PageOracle, fallback: Result<Table>): CrashRun {
    var primary := PrimaryTable(count, page);
    var used := NeedsFallback(primary);
    var source := if used then fallback else Ok(primary.value);
    match source
    case Err(_) => CrashRun(used, 1, None)
    case Ok(t) => RunOn(used, t)
  }

  method CrashMain(count: CountOracle, page: PageOracle, fallback: Result<Table>) returns (r: CrashRun)
    ensures r == CrashPipeline(count, page, fallback)
  {
    var df: Option<Table> := None;
    var downloaded := DownloadFromArcgis(count, page);
    if downloaded.Ok? {
      df := Some(FromRecords(downloaded.value));
    }
    assert df == PrimaryTable(count, page);
    var used := df.None? || IsEmpty(df.value);
    var t: Table;
    if used {
      if fallback.Err? {
        return CrashRun(true, 1, None);
      }
      t := fallback.value;
    } else {
      t := df.value;
    }
    ghost var source := t;
    assert CrashPipeline(count, page, fallback) == RunOn(used, source);
    t := FilterHenricoCounty(t);
    if IsEmpty(t) {
      return CrashRun(used, 1, None);
    }
    var routed := FilterExcludeStateRoutes(t);
    if routed.Err? {
      return CrashRun(used, 1, None);
    }
    t := routed.value;
    if IsEmpty(t) {
      return CrashRun(used, 1, None);
    }
    return CrashRun(used, 0, Some(StandardizeColumns(t)));
  }

  /** The run once the source table is known. */
  function RunOn(used: bool, t: Table): CrashRun {
    match ProcessCrashes(t)
    case Err(_) => CrashRun(used, 1, None)
    case Ok(out) => CrashRun(used, 0, Some(out))
  }

  /**
    The fallback is used exactly when ArcGIS failed or gave an empty table,
    and then ArcGIS's answer has no other effect; when it is not used, the
    fallback's outcome has no effect at all.
  */
  lemma FallbackDecision(count: CountOracle, page: PageOracle, fallback: Result<Table>, other: Result<Table>)
    ensures CrashPipeline(count, page, fallback).usedFallback <==>
      (ArcgisDownload(count, page).Err? || IsEmpty(FromRecords(ArcgisDownload(count, page).value)))
    ensures !CrashPipeline(count, page, fallback).usedFallback ==>
      CrashPipeline(count, page, fallback) == CrashPipeline(count, page, other)
    ensures fallback.Err? && CrashPipeline(count, page, fallback).usedFallback ==>
      CrashPipeline(count, page, fallback) == CrashRun(true, 1, None)
  {
  }

  /**
    The corrected run succeeds exactly when both filters leave rows. What
    it writes is never empty, carries the renamed columns, and consists of
    rows of the source table in their order, every one a Henrico row that
    no route pattern excludes.
  */
  lemma ProcessCrashesCorrectedSpec(t: Table)
    ensures ProcessCrashesCorrected(t).Ok? ==>
      var out := ProcessCrashesCorrected(t).value;
      var cols := UnderscoredColumns(t.columns);
      && !IsEmpty(out)
      && out.columns == StandardizeColumns(Table(cols, [])).columns
      && IsSubsequence(out.rows, t.rows)
      && (forall x :: x in out.rows ==> x in t.rows && IsHenricoRow(x, cols))
      && (FirstPresent(RouteColumns, cols).Some? ==>
            forall x :: x in out.rows ==> !IsStateRoute(TextOf(x, cols, FirstPresent(RouteColumns, cols).value)))
    ensures ProcessCrashesCorrected(t).Err? <==>
      (HenricoFiltered(t).rows == [] || |t.columns| == 0 || RouteFiltered(HenricoFiltered(t)).rows == [])
  {
    var henrico := HenricoFiltered(t);
    HenricoFilterSpec(t);
    RouteFilterSpec(henrico);
    if ProcessCrashesCorrected(t).Ok? {
      var local := RouteFiltered(henrico);
      IsSubsequenceTransitive(local.rows, henrico.rows, t.rows);
    }
  }

  /**
    The run as written fails when the corrected run fails and also when the
    route filter raises on the Henrico rows; when it succeeds it writes
    what the corrected run writes.
  */
  lemma ProcessCrashesSpec(t: Table)
    ensures ProcessCrashes(t).Ok? ==> ProcessCrashes(t) == ProcessCrashesCorrected(t)
    ensures ProcessCrashes(t).Err? <==>
      (ProcessCrashesCorrected(t).Err? || (!IsEmpty(HenricoFiltered(t)) && RouteFilterAsWritten(HenricoFiltered(t)).Err?))
  {
    var henrico := HenricoFiltered(t);
    if !IsEmpty(henrico) && RouteFilterAsWritten(henrico).Ok? {
      match FirstPresent(RouteColumns, henrico.columns)
      case None =>
      case Some(c) =>
    }
  }

  /**
    On a table labelled `0 .. n-1`, as ArcGIS records and the CSV extract
    give it, the run as written fails exactly when the corrected run fails
    or, there being a route column, the Henrico filter dropped a row before
    one it kept.
  */
  lemma ProcessCrashesOnFreshTable(t: Table)
    requires Labels(t.rows) == RangeLabels(|t.rows|)
    ensures var h := HenricoFiltered(t);
      ProcessCrashes(t).Err? <==>
        (ProcessCrashesCorrected(t).Err? ||
         (FirstPresent(RouteColumns, UnderscoredColumns(t.columns)).Some? && h.rows != t.rows[..|h.rows|]))
  {
    var h := HenricoFiltered(t);
    ProcessCrashesSpec(t);
    if FirstPresent(RouteColumns, UnderscoredColumns(t.columns)).Some? {
      HenricoThenRouteAsWritten(t);
      if h.rows == [] {
        assert ProcessCrashesCorrected(t).Err?;
      }
    }
  }

  /**
    A run exits 0 exactly when it writes a table, and 1 otherwise; what it
    writes is the processed source table, the fallback's when the fallback
    was used and ArcGIS's otherwise.
  */
  lemma ExitCodeSpec(count: CountOracle, page: PageOracle, fallback: Result<Table>)
    ensures var run := CrashPipeline(count, page, fallback);
      && (run.exitCode == 0 <==> run.written.Some?)
      && (run.exitCode == 0 || run.exitCode == 1)
      && (run.written.Some? ==>
            ProcessCrashes(if run.usedFallback then fallback.value else PrimaryTable(count, page).value) == Ok(run.written.value))
  {
  }

  /**
    The input of the finding reaching `main`: ArcGIS gives nothing, and the
    fallback holds a row of another county, then a Henrico county road.
    The Henrico filter keeps the county road with its label 1, the route
    filter raises, and the process exits 1 without writing, where the
    corrected run writes the county road.
  */
  lemma ThinnedFallbackExitsOne(count: CountOracle, page: PageOracle)
    requires NeedsFallback(PrimaryTable(count, page))
    ensures var fallback := Ok(Table(ExampleColumns, [ExampleElsewhere, ExampleLocal]));
      && CrashPipeline(count, page, fallback) == CrashRun(true, 1, None)
      && ProcessCrashesCorrected(fallback.value).Ok?
  {
    AsWrittenRaisesAfterHenricoDropsARow();
  }

  // ---------------------------------------------------------------------
  // The three-record scenario
  // ---------------------------------------------------------------------

  const LocalRoad := Row(0, [Str("43"), Str("S-VA620")])
  const Interstate := Row(1, [Str("43"), Str("I-64")])
  const OtherCounty := Row(2, [Str("51"), Str("S-VA620")])
  const Scenario := Table(ExampleColumns, [LocalRoad, Interstate, OtherCounty])

  lemma ScenarioKeep()
    ensures var keep := HenricoKeep(ExampleColumns);
      keep(LocalRoad) && keep(Interstate) && !keep(OtherCounty)
  {
    StripCodes();
    ExampleHenricoKeep(0, "43", "S-VA620");
    ExampleHenricoKeep(1, "43", "I-64");
    ExampleHenricoKeep(2, "51", "S-VA620");
  }

  lemma ScenarioHenrico()
    ensures HenricoFiltered(Scenario) == Table(ExampleColumns, [LocalRoad, Interstate])
  {
    ExampleUnderscored();
    ScenarioKeep();
    var keep := HenricoKeep(ExampleColumns);
    FilterRowsCons(OtherCounty, [], keep);
    FilterRowsCons(Interstate, [OtherCounty], keep);
    FilterRowsCons(LocalRoad, [Interstate, OtherCounty], keep);
  }

  lemma ScenarioRoutes()
    ensures RouteFiltered(Table(ExampleColumns, [LocalRoad, Interstate])) == Table(ExampleColumns, [LocalRoad])
  {
    ExampleRouteKeep(0, "43", "S-VA620");
    ExampleRouteKeep(1, "43", "I-64");
    NotStateRouteS("S-VA620");
    assert IsInterstate("I-64") by {
      assert Upper("I-64")[..2] == "I-";
    }
    var keep := RouteKeep(ExampleColumns, "RTE_NAME");
    assert [LocalRoad, Interstate][1..] == [Interstate];
    assert FilterRows([Interstate], keep) == [];
  }

  /**
    Three crash records: a Henrico local road, a Henrico interstate and a
    row from another county. Exactly the first is written, under the
    renamed columns, and the route filter as written agrees here because
    the Henrico filter dropped only the last row.
  */
  lemma ThreeRecordScenario()
    ensures ProcessCrashes(Scenario) == Ok(Table(["Juris Code", "RTE Name"], [LocalRoad]))
    ensures RouteFilterAsWritten(HenricoFiltered(Scenario)) == Ok(Table(ExampleColumns, [LocalRoad]))
  {
    ScenarioHenrico();
    ScenarioRoutes();
    ExampleRenaming([LocalRoad]);
    ScenarioAsWritten();
  }

  lemma ScenarioAsWritten()
    ensures RouteFilterAsWritten(Table(ExampleColumns, [LocalRoad, Interstate])) == Ok(Table(ExampleColumns, [LocalRoad]))
  {
    ScenarioRoutes();
    var t := Table(ExampleColumns, [LocalRoad, Interstate]);
    assert Labels(t.rows) == RangeLabels(2);
    AsWrittenAgreesOnRangeIndex(t);
  }
}
