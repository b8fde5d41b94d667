/**
  `map_to_output_columns`: the Grants.gov extract's columns renamed to the
  tool's grant schema, each output name taken from the first mapping entry
  whose source column the extract has (exactly, or else ignoring case),
  followed by the seven default columns.
*/
module GrantsOutput {
  import opened Wrappers
  import opened Text
  import opened Frames

  /** One entry of `column_mappings`: an extract column and the output column it feeds. */
  datatype Mapping = Mapping(source: string, target: string)

  /** `column_mappings`, in dictionary order. */
  const ColumnMappings := [
    Mapping("OpportunityID", "grant_id"),
    Mapping("OpportunityNumber", "grant_id"),
    Mapping("OpportunityTitle", "title"),
    Mapping("AgencyName", "agency"),
    Mapping("CFDANumbers", "cfda_number"),
    Mapping("Description", "description"),
    Mapping("Synopsis", "description"),
    Mapping("CloseDate", "close_date"),
    Mapping("PostDate", "post_date"),
    Mapping("AwardCeiling", "award_ceiling"),
    Mapping("AwardFloor", "award_floor"),
    Mapping("AdditionalInformationURL", "application_url"),
    Mapping("GrantorContactEmail", "contact_info")]

  /** The columns added with a constant value when the mapped table lacks them. */
  const DefaultColumns := ["program_type", "federal_share_pct", "emphasis_areas", "eligible_activities", "requires_crash_data", "status", "virginia_specific"]

  /** Their values, `None` written as a missing cell. */
  const DefaultCells := [Str("Federal"), Null, Str("Safety"), Null, Str("N"), Str("Open"), Str("N")]

  function Targets(a: seq<Mapping>): (ts: seq<string>)
    ensures |ts| == |a| && forall k :: 0 <= k < |a| ==> ts[k] == a[k].target
  {
    seq(|a|, k requires 0 <= k < |a| => a[k].target)
  }

  /** The position of the first column equal to `name` ignoring case, or `|cols|` when there is none. */
  function FirstLowerMatch(cols: seq<string>, name: string): (k: nat)
    ensures k <= |cols|
    ensures forall j :: 0 <= j < k ==> Lower(cols[j]) != Lower(name)
    ensures k < |cols| ==> Lower(cols[k]) == Lower(name)
  {
    if cols == [] then 0
    else if Lower(cols[0]) == Lower(name) then 0
    else 1 + FirstLowerMatch(cols[1..], name)
  }

  /** The inner loop over `df.columns` that looks for a case-insensitive match and breaks at the first. */
  method FindColumnIgnoringCase(cols: seq<string>, name: string) returns (k: nat)
    ensures k == FirstLowerMatch(cols, name)
  {
    k := 0;
    while k < |cols|
      invariant k <= |cols|
      invariant forall j :: 0 <= j < k ==> Lower(cols[j]) != Lower(name)
    {
      if Lower(cols[k]) == Lower(name) {
        FirstLowerMatchIs(cols, name, k);
        return;
      }
      k := k + 1;
    }
    FirstLowerMatchIs(cols, name, k);
  }

  /** The first position that matches is the one `FirstLowerMatch` finds. */
  lemma FirstLowerMatchIs(cols: seq<string>, name: string, k: nat)
    requires k <= |cols|
    requires forall j :: 0 <= j < k ==> Lower(cols[j]) != Lower(name)
    requires k < |cols| ==> Lower(cols[k]) == Lower(name)
    ensures FirstLowerMatch(cols, name) == k
  {
  }

  /**
    The extract column one mapping entry reads: the entry's own name when
    the extract has it, or else the first column equal to it ignoring case.
  */
  function EntrySource(cols: seq<string>, orig: string): (r: Option<string>)
    ensures orig in cols ==> r == Some(orig)
    ensures r.Some? ==> r.value in cols && Lower(r.value) == Lower(orig)
  {
    if orig in cols then Some(orig)
    else
      var k := FirstLowerMatch(cols, orig);
      if k < |cols| then Some(cols[k]) else None
  }

  /** An entry has no source column exactly when no column equals its name ignoring case. */
  lemma EntrySourceNone(cols: seq<string>, orig: string)
    ensures EntrySource(cols, orig).None? <==> forall j :: 0 <= j < |cols| ==> Lower(cols[j]) != Lower(orig)
  {
    if orig in cols {
      var j :| 0 <= j < |cols| && cols[j] == orig;
      assert Lower(cols[j]) == Lower(orig);
    }
  }

  /**
    The assignments `output_data` holds after the first `n` entries, in
    insertion order: an entry is skipped when its output name is already
    assigned or when no column matches it.
  */
  function Assigned(cols: seq<string>, n: nat): (a: seq<Mapping>)
    requires n <= |ColumnMappings|
    ensures NoDuplicates(Targets(a))
    ensures forall k :: 0 <= k < |a| ==> a[k].source in cols
    ensures |a| <= n
  {
    if n == 0 then []
    else
      var prev := Assigned(cols, n - 1);
      var e := ColumnMappings[n - 1];
      if e.target in Targets(prev) then prev
      else match EntrySource(cols, e.source)
        case None => prev
        case Some(s) =>
          assert Targets(prev + [Mapping(s, e.target)]) == Targets(prev) + [e.target];
          prev + [Mapping(s, e.target)]
  }

  /** Entry `k` has a column to read. */
  predicate HasSource(cols: seq<string>, k: nat)
    requires k < |ColumnMappings|
  {
    EntrySource(cols, ColumnMappings[k].source).Some?
  }

  /** Entry `k` is the one an assignment came from: the first entry for its output name that has a source column. */
  predicate ChosenBy(cols: seq<string>, k: nat, m: Mapping)
    requires k < |ColumnMappings|
  {
    && ColumnMappings[k].target == m.target
    && EntrySource(cols, ColumnMappings[k].source) == Some(m.source)
    && forall j :: 0 <= j < k && ColumnMappings[j].target == m.target ==> !HasSource(cols, j)
  }

  /** One entry's step: it adds an assignment exactly when its output name is free and it has a source column. */
  lemma AssignedStep(cols: seq<string>, n: nat)
    requires 0 < n <= |ColumnMappings|
    ensures var prev := Assigned(cols, n - 1); var e := ColumnMappings[n - 1];
      Assigned(cols, n) ==
        if e.target !in Targets(prev) && HasSource(cols, n - 1)
        then prev + [Mapping(EntrySource(cols, e.source).value, e.target)]
        else prev
  {
  }

  /** After `n` entries every assignment comes from the first of them that feeds its output name and has a source column. */
  lemma {:induction false} AssignedFromFirst(cols: seq<string>, n: nat)
    requires n <= |ColumnMappings|
    ensures forall m :: m in Assigned(cols, n) ==> exists k :: 0 <= k < n && ChosenBy(cols, k, m)
  {
    if n > 0 {
      AssignedFromFirst(cols, n - 1);
      AssignedComplete(cols, n - 1);
      AssignedStep(cols, n);
      var prev := Assigned(cols, n - 1);
      var e := ColumnMappings[n - 1];
      if e.target !in Targets(prev) && HasSource(cols, n - 1) {
        var m := Mapping(EntrySource(cols, e.source).value, e.target);
        assert ChosenBy(cols, n - 1, m);
        forall x | x in Assigned(cols, n) ensures exists k :: 0 <= k < n && ChosenBy(cols, k, x) {
          if x != m {
            assert x in prev;
          }
        }
      }
    }
  }

  /** Appending an assignment appends its output name. */
  lemma TargetsExtend(prev: seq<Mapping>, m: Mapping)
    ensures Targets(prev + [m]) == Targets(prev) + [m.target]
  {
  }

  /** After `n` entries every entry among them that has a source column has its output name assigned. */
  lemma {:induction false} AssignedComplete(cols: seq<string>, n: nat)
    requires n <= |ColumnMappings|
    ensures forall k :: 0 <= k < n && HasSource(cols, k) ==> ColumnMappings[k].target in Targets(Assigned(cols, n))
  {
    if n > 0 {
      AssignedComplete(cols, n - 1);
      AssignedStep(cols, n);
      var prev := Assigned(cols, n - 1);
      var e := ColumnMappings[n - 1];
      var ts := Targets(Assigned(cols, n));
      if e.target !in Targets(prev) && HasSource(cols, n - 1) {
        TargetsExtend(prev, Mapping(EntrySource(cols, e.source).value, e.target));
        assert ts == Targets(prev) + [e.target];
      } else {
        assert ts == Targets(prev);
      }
      forall k | 0 <= k < n && HasSource(cols, k)
        ensures ColumnMappings[k].target in ts
      {
        if k < n - 1 {
          assert ColumnMappings[k].target in Targets(prev);
        }
      }
    }
  }

  /** The assignments `map_to_output_columns` ends with. */
  function MappedColumns(cols: seq<string>): seq<Mapping> {
    Assigned(cols, |ColumnMappings|)
  }

  /** One output row: the mapped cells in assignment order, then the defaults. */
  function OutputCells(row: Row, cols: seq<string>, a: seq<Mapping>): (cells: seq<Cell>)
    ensures |cells| == |a| + |DefaultColumns|
  {
    seq(|a|, k requires 0 <= k < |a| => CellOf(row, cols, a[k].source)) + DefaultCells
  }

  /**
    What map_to_output_columns returns. `pd.DataFrame` of an empty dict has
    no rows, so when nothing maps the defaults are added to an empty table.
  */
  function OutputTable(t: Table): Table {
    BuildOutput(t, MappedColumns(t.columns))
  }

  /** `pd.DataFrame(output_data)` for the assignments `a`, with the defaults added. */
  function BuildOutput(t: Table, a: seq<Mapping>): Table {
    if a == [] then Table(DefaultColumns, [])
    else Table(Targets(a) + DefaultColumns,
      seq(|t.rows|, i requires 0 <= i < |t.rows| => Row(t.rows[i].index, OutputCells(t.rows[i], t.columns, a))))
  }

  /**
    The loop over `column_mappings` with its case-insensitive fallback, then
    the seven defaults. Each `if '<name>' not in df_output.columns` test is
    always true, since no mapping entry feeds a default column
    (`TargetsAreNotDefaults`).
  */
  method MapToOutputColumns(t: Table) returns (r: Table)
    ensures r == OutputTable(t)
  {
    var chosen: seq<Mapping> := [];
    for n := 0 to |ColumnMappings|
      invariant chosen == Assigned(t.columns, n)
    {
      var e := ColumnMappings[n];
      var taken := e.target in Targets(chosen);
      if e.source in t.columns && !taken {
        chosen := chosen + [Mapping(e.source, e.target)];
      } else if !taken {
        var k := FindColumnIgnoringCase(t.columns, e.source);
        if k < |t.columns| {
          chosen := chosen + [Mapping(t.columns[k], e.target)];
        }
      }
    }
    if chosen == [] {
      r := Table(DefaultColumns, []);
    } else {
      r := Table(Targets(chosen) + DefaultColumns,
        seq(|t.rows|, i requires 0 <= i < |t.rows| => Row(t.rows[i].index, OutputCells(t.rows[i], t.columns, chosen))));
    }
  }

  /** No mapping entry feeds one of the default columns. */
  lemma TargetsAreNotDefaults()
    ensures forall k :: 0 <= k < |ColumnMappings| ==> ColumnMappings[k].target !in DefaultColumns
  {
  }

  /** A column name of a table without repeated names sits at its own position. */
  lemma PositionOfDistinct(cols: seq<string>, k: nat)
    requires NoDuplicates(cols) && k < |cols|
    ensures Position(cols, cols[k]) == k
  {
  }

  /** The output names of a mapping are distinct and none is a default column. */
  lemma OutputColumnsDistinct(cols: seq<string>)
    ensures NoDuplicates(Targets(MappedColumns(cols)) + DefaultColumns)
  {
    var a := MappedColumns(cols);
    var ts := Targets(a);
    TargetsAreNotDefaults();
    AssignedFromFirst(cols, |ColumnMappings|);
    forall k | 0 <= k < |ts| ensures ts[k] !in DefaultColumns {
      assert a[k] in a;
      var j :| 0 <= j < |ColumnMappings| && ChosenBy(cols, j, a[k]);
    }
  }

  /** The table built from assignments keeps the row labels and has one row per input row, or none when nothing maps. */
  lemma BuildOutputShape(t: Table, a: seq<Mapping>)
    ensures var r := BuildOutput(t, a);
      && r.columns == Targets(a) + DefaultColumns
      && WellFormed(r)
      && |r.rows| == (if a == [] then 0 else |t.rows|)
      && (forall i :: 0 <= i < |r.rows| ==> r.rows[i].index == t.rows[i].index)
  {
  }

  /** With distinct output names, the column at position `p` of an output row reads the `p`-th output cell. */
  lemma BuildOutputAt(t: Table, a: seq<Mapping>, i: nat, p: nat)
    requires NoDuplicates(Targets(a) + DefaultColumns)
    requires a != [] && i < |t.rows| && p < |a| + |DefaultColumns|
    ensures var cols := Targets(a) + DefaultColumns;
      CellOf(BuildOutput(t, a).rows[i], cols, cols[p]) == OutputCells(t.rows[i], t.columns, a)[p]
  {
    PositionOfDistinct(Targets(a) + DefaultColumns, p);
  }

  /** An assigned output column holds the row's value in the column its assignment reads. */
  lemma BuildOutputTargets(t: Table, a: seq<Mapping>)
    requires NoDuplicates(Targets(a) + DefaultColumns)
    ensures var r := BuildOutput(t, a);
      forall i, k :: 0 <= i < |r.rows| && 0 <= k < |a| ==>
        CellOf(r.rows[i], r.columns, a[k].target) == CellOf(t.rows[i], t.columns, a[k].source)
  {
    var r := BuildOutput(t, a);
    forall i, k | 0 <= i < |r.rows| && 0 <= k < |a|
      ensures CellOf(r.rows[i], r.columns, a[k].target) == CellOf(t.rows[i], t.columns, a[k].source)
    {
      BuildOutputAt(t, a, i, k);
      assert (Targets(a) + DefaultColumns)[k] == a[k].target;
    }
  }

  /** A default column holds its constant. */
  lemma BuildOutputDefaults(t: Table, a: seq<Mapping>)
    requires NoDuplicates(Targets(a) + DefaultColumns)
    ensures var r := BuildOutput(t, a);
      forall i, k :: 0 <= i < |r.rows| && 0 <= k < |DefaultColumns| ==>
        CellOf(r.rows[i], r.columns, DefaultColumns[k]) == DefaultCells[k]
  {
    var r := BuildOutput(t, a);
    forall i, k | 0 <= i < |r.rows| && 0 <= k < |DefaultColumns|
      ensures CellOf(r.rows[i], r.columns, DefaultColumns[k]) == DefaultCells[k]
    {
      BuildOutputAt(t, a, i, |a| + k);
      assert (Targets(a) + DefaultColumns)[|a| + k] == DefaultColumns[k];
    }
  }

  /**
    map_to_output_columns gives the assigned output names followed by the
    defaults, all distinct. Each row keeps its label; an assigned output
    column holds the row's value in the column the assignment reads, and
    each default column holds its constant. A table that nothing maps gives
    no rows.
  */
  lemma OutputTableSpec(t: Table)
    ensures var a := MappedColumns(t.columns); var r := OutputTable(t);
      && r.columns == Targets(a) + DefaultColumns
      && NoDuplicates(r.columns)
      && WellFormed(r)
      && |r.rows| == (if a == [] then 0 else |t.rows|)
      && (forall i :: 0 <= i < |r.rows| ==> r.rows[i].index == t.rows[i].index)
      && (forall i, k :: 0 <= i < |r.rows| && 0 <= k < |a| ==>
            CellOf(r.rows[i], r.columns, a[k].target) == CellOf(t.rows[i], t.columns, a[k].source))
      && (forall i, k :: 0 <= i < |r.rows| && 0 <= k < |DefaultColumns| ==>
            CellOf(r.rows[i], r.columns, DefaultColumns[k]) == DefaultCells[k])
  {
    var a := MappedColumns(t.columns);
    OutputColumnsDistinct(t.columns);
    BuildOutputShape(t, a);
    BuildOutputTargets(t, a);
    BuildOutputDefaults(t, a);
  }

  /**
    The assignment for an output name reads the source of entry `k` when
    `k` is the first entry for that name with a source column.
  */
  lemma SourceOfTarget(cols: seq<string>, m: Mapping, k: nat)
    requires m in MappedColumns(cols)
    requires k < |ColumnMappings| && ColumnMappings[k].target == m.target && HasSource(cols, k)
    requires forall j :: 0 <= j < k && ColumnMappings[j].target == m.target ==> !HasSource(cols, j)
    ensures m.source == EntrySource(cols, ColumnMappings[k].source).value
  {
    AssignedFromFirst(cols, |ColumnMappings|);
    var k' :| 0 <= k' < |ColumnMappings| && ChosenBy(cols, k', m);
    assert k' == k;
  }

  /**
    `OpportunityID` wins `grant_id` over `OpportunityNumber`, and
    `Description` wins `description` over `Synopsis`, whenever the extract
    has them; without any spelling of `OpportunityID`, `OpportunityNumber`
    supplies `grant_id`.
  */
  lemma MappingPriority(cols: seq<string>, m: Mapping)
    requires m in MappedColumns(cols)
    ensures m.target == "grant_id" && "OpportunityID" in cols ==> m.source == "OpportunityID"
    ensures m.target == "description" && "Description" in cols ==> m.source == "Description"
    ensures m.target == "grant_id" && "OpportunityNumber" in cols && EntrySource(cols, "OpportunityID").None? ==>
      m.source == "OpportunityNumber"
  {
    if m.target == "grant_id" && "OpportunityID" in cols {
      SourceOfTarget(cols, m, 0);
    }
    if m.target == "description" && "Description" in cols {
      SourceOfTarget(cols, m, 5);
    }
    if m.target == "grant_id" && "OpportunityNumber" in cols && EntrySource(cols, "OpportunityID").None? {
      SourceOfTarget(cols, m, 1);
    }
  }

  /** Every output name that some entry can feed is assigned. */
  lemma MappedTargetsPresent(cols: seq<string>, k: nat)
    requires k < |ColumnMappings| && HasSource(cols, k)
    ensures ColumnMappings[k].target in Targets(MappedColumns(cols))
  {
    AssignedComplete(cols, |ColumnMappings|);
  }
}
