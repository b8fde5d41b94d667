/**
  The tabular values both pipelines pass around: pandas DataFrames, the
  attribute dictionaries of ArcGIS features, boolean row masks, and the
  column resolver that picks the first alias a table actually has.
*/
module Frames {
  import opened Wrappers
  import opened Text

  /** A DataFrame cell: missing (NaN or None), a string, an integer, or a parsed timestamp in seconds. */
  datatype Cell = Null | Str(s: string) | Num(n: int) | Stamp(seconds: int)

  /** `str(n)` of an integer: its decimal digits, with a sign when negative. */
  function IntText(n: int): string {
    if n >= 0 then Decimal(n, 1) else "-" + Decimal(-n, 1)
  }

  /** `astype(str)` of a cell. A missing value becomes the text "nan". */
  function CellText(c: Cell): string {
    match c
    case Null => "nan"
    case Str(s) => s
    case Num(n) => IntText(n)
    case Stamp(t) => IntText(t)
  }

  /** A DataFrame row: its index label (`index`) and its cells, one per column. */
  datatype Row = Row(index: int, cells: seq<Cell>)

  datatype Table = Table(columns: seq<string>, rows: seq<Row>)

  /** Every row has one cell per column. */
  predicate WellFormed(t: Table) {
    forall i :: 0 <= i < |t.rows| ==> |t.rows[i].cells| == |t.columns|
  }

  /** `DataFrame.empty`: no columns or no rows. */
  predicate IsEmpty(t: Table) {
    |t.columns| == 0 || |t.rows| == 0
  }

  /** `pd.DataFrame()`. */
  const EmptyTable := Table([], [])

  /** The labels `0 .. n-1` of a fresh `RangeIndex`. */
  function RangeLabels(n: nat): (r: seq<int>)
    ensures |r| == n && forall i :: 0 <= i < n ==> r[i] == i
  {
    seq(n, i => i)
  }

  function Labels(rows: seq<Row>): (r: seq<int>)
    ensures |r| == |rows| && forall i :: 0 <= i < |rows| ==> r[i] == rows[i].index
  {
    seq(|rows|, i requires 0 <= i < |rows| => rows[i].index)
  }

  /** The position of the first column named `c`. */
  function Position(cols: seq<string>, c: string): (k: nat)
    requires c in cols
    ensures k < |cols| && cols[k] == c
    ensures forall j :: 0 <= j < k ==> cols[j] != c
  {
    if cols[0] == c then 0 else 1 + Position(cols[1..], c)
  }

  /** The first position holding `c` is `Position(cols, c)`. */
  lemma PositionIs(cols: seq<string>, c: string, k: nat)
    requires k < |cols| && cols[k] == c
    requires forall j :: 0 <= j < k ==> cols[j] != c
    ensures Position(cols, c) == k
  {
  }

  /** `df[c]` read at one row; a column the row lacks reads as missing. */
  function CellOf(row: Row, cols: seq<string>, c: string): Cell {
    if c in cols && Position(cols, c) < |row.cells| then row.cells[Position(cols, c)] else Null
  }

  /** `df[c].astype(str)` at one row. */
  function TextOf(row: Row, cols: seq<string>, c: string): string {
    CellText(CellOf(row, cols, c))
  }

  // ---------------------------------------------------------------------
  // Column resolution: `for col in aliases: if col in df.columns: ...; break`
  // ---------------------------------------------------------------------

  /** The first alias, in priority order, that is one of the columns. */
  function FirstPresent(aliases: seq<string>, cols: seq<string>): (r: Option<string>)
    ensures r.None? <==> forall k :: 0 <= k < |aliases| ==> aliases[k] !in cols
    ensures r.Some? ==> exists k :: 0 <= k < |aliases| && aliases[k] == r.value && r.value in cols
                          && forall j :: 0 <= j < k ==> aliases[j] !in cols
  {
    if aliases == [] then None
    else if aliases[0] in cols then Some(aliases[0])
    else
      var r := FirstPresent(aliases[1..], cols);
      assert r.Some? ==> exists k :: 0 <= k < |aliases| && aliases[k] == r.value && r.value in cols
                          && forall j :: 0 <= j < k ==> aliases[j] !in cols by {
        if r.Some? {
          var k :| 0 <= k < |aliases| - 1 && aliases[1..][k] == r.value && r.value in cols
                   && forall j :: 0 <= j < k ==> aliases[1..][j] !in cols;
          assert aliases[k + 1] == r.value;
        }
      }
      r
  }

  /** Resolution depends on nothing but which aliases are present. */
  lemma {:induction false} FirstPresentChoosesAlias(aliases: seq<string>, cols: seq<string>, k: nat)
    requires k < |aliases| && aliases[k] in cols
    requires forall j :: 0 <= j < k ==> aliases[j] !in cols
    ensures FirstPresent(aliases, cols) == Some(aliases[k])
  {
    if k > 0 {
      FirstPresentChoosesAlias(aliases[1..], cols, k - 1);
    }
  }

  /** The resolver loop of the source, with its early `break`. */
  method Resolve(aliases: seq<string>, cols: seq<string>) returns (r: Option<string>)
    ensures r == FirstPresent(aliases, cols)
  {
    var i := 0;
    while i < |aliases|
      invariant 0 <= i <= |aliases|
      invariant forall j :: 0 <= j < i ==> aliases[j] !in cols
    {
      if aliases[i] in cols {
        FirstPresentChoosesAlias(aliases, cols, i);
        return Some(aliases[i]);
      }
      i := i + 1;
    }
    return None;
  }

  // ---------------------------------------------------------------------
  // Row selection: `df[mask]`
  // ---------------------------------------------------------------------

  /** `a` is `b` with some elements removed, order kept. */
  ghost predicate IsSubsequence<T>(a: seq<T>, b: seq<T>) {
    exists idx: seq<int> :: IsEmbedding(idx, a, b)
  }

  /** `idx` lists, in increasing order, the positions of `b` that make up `a`. */
  ghost predicate IsEmbedding<T>(idx: seq<int>, a: seq<T>, b: seq<T>) {
    && |idx| == |a|
    && (forall i :: 0 <= i < |idx| ==> 0 <= idx[i] < |b| && a[i] == b[idx[i]])
    && (forall i, j :: 0 <= i < j < |idx| ==> idx[i] < idx[j])
  }

  /** The rows that `keep` accepts, in their original order. */
  function FilterRows(rows: seq<Row>, keep: Row -> bool): (r: seq<Row>)
    ensures |r| <= |rows|
    ensures forall x :: x in r <==> x in rows && keep(x)
  {
    if rows == [] then []
    else (if keep(rows[0]) then [rows[0]] else []) + FilterRows(rows[1..], keep)
  }

  /** One step of `FilterRows` on a row put in front. */
  lemma FilterRowsCons(x: Row, rest: seq<Row>, keep: Row -> bool)
    ensures FilterRows([x] + rest, keep) == (if keep(x) then [x] else []) + FilterRows(rest, keep)
  {
    assert ([x] + rest)[1..] == rest;
  }

  /** Keeping rows of rows that were kept keeps rows of the original, in order. */
  lemma IsSubsequenceTransitive<T>(a: seq<T>, b: seq<T>, c: seq<T>)
    requires IsSubsequence(a, b) && IsSubsequence(b, c)
    ensures IsSubsequence(a, c)
  {
    var ab :| IsEmbedding(ab, a, b);
    var bc :| IsEmbedding(bc, b, c);
    var ac := seq(|ab|, i requires 0 <= i < |ab| => bc[ab[i]]);
    assert IsEmbedding(ac, a, c);
  }

  /** An embedding into `b` shifted by one is an embedding into `[x] + b`, and then `x` can lead both sides. */
  lemma EmbeddingPrepend<T>(idx: seq<int>, a: seq<T>, b: seq<T>, x: T)
    requires IsEmbedding(idx, a, b)
    ensures var shifted := seq(|idx|, i requires 0 <= i < |idx| => idx[i] + 1);
      IsEmbedding(shifted, a, [x] + b) && IsEmbedding([0] + shifted, [x] + a, [x] + b)
  {
    var shifted := seq(|idx|, i requires 0 <= i < |idx| => idx[i] + 1);
    assert IsEmbedding(shifted, a, [x] + b);
    var both := [0] + shifted;
    forall i | 0 <= i < |both| ensures 0 <= both[i] < |[x] + b| && ([x] + a)[i] == ([x] + b)[both[i]] {
      if i > 0 {
        assert both[i] == shifted[i - 1];
      }
    }
  }

  /** Filtering removes rows and never reorders them. */
  lemma {:induction false} FilterRowsIsSubsequence(rows: seq<Row>, keep: Row -> bool)
    ensures IsSubsequence(FilterRows(rows, keep), rows)
  {
    if rows == [] {
      assert IsEmbedding([], [], rows);
    } else {
      FilterRowsIsSubsequence(rows[1..], keep);
      var rest := FilterRows(rows[1..], keep);
      var idx :| IsEmbedding(idx, rest, rows[1..]);
      EmbeddingPrepend(idx, rest, rows[1..], rows[0]);
      assert [rows[0]] + rows[1..] == rows;
      var shifted := seq(|idx|, i requires 0 <= i < |idx| => idx[i] + 1);
      if keep(rows[0]) {
        assert FilterRows(rows, keep) == [rows[0]] + rest;
        assert IsEmbedding([0] + shifted, [rows[0]] + rest, rows);
      } else {
        assert FilterRows(rows, keep) == [] + rest == rest;
        assert IsEmbedding(shifted, rest, rows);
      }
    }
  }

  /** A predicate that accepts every row keeps the table as it is. */
  lemma {:induction false} FilterRowsAll(rows: seq<Row>, keep: Row -> bool)
    requires forall x :: x in rows ==> keep(x)
    ensures FilterRows(rows, keep) == rows
  {
    if rows != [] {
      FilterRowsAll(rows[1..], keep);
    }
  }

  /** A predicate that accepts no row leaves no row. */
  lemma FilterRowsNone(rows: seq<Row>, keep: Row -> bool)
    requires forall x :: x in rows ==> !keep(x)
    ensures FilterRows(rows, keep) == []
  {
  }

  /** Filtering keeps every row well formed. */
  lemma FilterRowsWellFormed(t: Table, keep: Row -> bool)
    requires WellFormed(t)
    ensures WellFormed(Table(t.columns, FilterRows(t.rows, keep)))
  {
    var r := FilterRows(t.rows, keep);
    forall i | 0 <= i < |r| ensures |r[i].cells| == |t.columns| {
      assert r[i] in r;
    }
  }

  /** `df[mask]` for a boolean mask with one entry per row. */
  function Select(rows: seq<Row>, mask: seq<bool>): seq<Row>
    requires |mask| == |rows|
  {
    if rows == [] then []
    else (if mask[0] then [rows[0]] else []) + Select(rows[1..], mask[1..])
  }

  /** A mask computed row by row from a predicate selects what the predicate accepts. */
  lemma {:induction false} SelectByPredicate(rows: seq<Row>, mask: seq<bool>, keep: Row -> bool)
    requires |mask| == |rows|
    requires forall i :: 0 <= i < |rows| ==> mask[i] == keep(rows[i])
    ensures Select(rows, mask) == FilterRows(rows, keep)
  {
    if rows != [] {
      SelectByPredicate(rows[1..], mask[1..], keep);
    }
  }

  function AllMask(n: nat, b: bool): (m: seq<bool>)
    ensures |m| == n && forall i :: 0 <= i < n ==> m[i] == b
  {
    seq(n, i => b)
  }

  /** `mask | other`, element by element. */
  function OrMask(a: seq<bool>, b: seq<bool>): (m: seq<bool>)
    requires |a| == |b|
    ensures |m| == |a| && forall i :: 0 <= i < |a| ==> m[i] == (a[i] || b[i])
  {
    seq(|a|, i requires 0 <= i < |a| => a[i] || b[i])
  }

  /** `mask & other`, element by element. */
  function AndMask(a: seq<bool>, b: seq<bool>): (m: seq<bool>)
    requires |a| == |b|
    ensures |m| == |a| && forall i :: 0 <= i < |a| ==> m[i] == (a[i] && b[i])
  {
    seq(|a|, i requires 0 <= i < |a| => a[i] && b[i])
  }

  /** No two rows share a label. */
  predicate DistinctLabels(rows: seq<Row>) {
    forall i, j :: 0 <= i < j < |rows| ==> rows[i].index != rows[j].index
  }

  /**
    The entry of `values`, a boolean Series on the labels of `rows`, at
    label `k`: false when no row has that label, as a logical operator
    fills a missing entry.
  */
  function ValueAtLabel(rows: seq<Row>, values: seq<bool>, k: int): bool
    requires |values| == |rows|
  {
    if rows == [] then false
    else if rows[0].index == k then values[0]
    else ValueAtLabel(rows[1..], values[1..], k)
  }

  /** With distinct labels, a row's own label finds that row's entry. */
  lemma {:induction false} ValueAtOwnLabel(rows: seq<Row>, values: seq<bool>, i: nat)
    requires |values| == |rows| && DistinctLabels(rows) && i < |rows|
    ensures ValueAtLabel(rows, values, rows[i].index) == values[i]
  {
    if i > 0 {
      assert rows[0].index != rows[i].index;
      assert rows[1..][i - 1] == rows[i];
      ValueAtOwnLabel(rows[1..], values[1..], i - 1);
    }
  }

  /** A label no row carries finds no entry. */
  lemma {:induction false} ValueAtMissingLabel(rows: seq<Row>, values: seq<bool>, k: int)
    requires |values| == |rows| && forall i :: 0 <= i < |rows| ==> rows[i].index != k
    ensures !ValueAtLabel(rows, values, k)
  {
    if rows != [] {
      ValueAtMissingLabel(rows[1..], values[1..], k);
    }
  }

  /**
    `mask &= other` where `mask` sits on `RangeIndex(|mask|)` and `other` on
    the labels of `rows`: the two are matched label by label, a label
    missing from `other` gives false, and the result keeps `mask`'s index.
  */
  function AndAligned(mask: seq<bool>, rows: seq<Row>, other: seq<bool>): (m: seq<bool>)
    requires |other| == |rows|
    ensures |m| == |mask|
  {
    seq(|mask|, k requires 0 <= k < |mask| => mask[k] && ValueAtLabel(rows, other, k))
  }

  /** On `RangeIndex(n)` labels, aligning by label is aligning by position. */
  lemma AndAlignedOnRange(mask: seq<bool>, rows: seq<Row>, other: seq<bool>)
    requires |other| == |rows| == |mask| && Labels(rows) == RangeLabels(|rows|)
    ensures AndAligned(mask, rows, other) == AndMask(mask, other)
  {
    forall k | 0 <= k < |mask| ensures ValueAtLabel(rows, other, k) == other[k] {
      assert Labels(rows)[k] == k;
      forall i, j | 0 <= i < j < |rows| ensures rows[i].index != rows[j].index {
        assert Labels(rows)[i] == i && Labels(rows)[j] == j;
      }
      ValueAtOwnLabel(rows, other, k);
    }
  }

  // ---------------------------------------------------------------------
  // Records: ordered dictionaries, and `pd.DataFrame(list_of_dicts)`
  // ---------------------------------------------------------------------

  datatype Field = Field(name: string, value: Cell)

  /** A Python dict from column name to value, in insertion order. */
  type Record = seq<Field>

  function Keys(r: Record): (ks: seq<string>)
    ensures |ks| == |r| && forall i :: 0 <= i < |r| ==> ks[i] == r[i].name
  {
    seq(|r|, i requires 0 <= i < |r| => r[i].name)
  }

  /** `r.get(k)`: the value of key `k`, missing if there is none. */
  function Get(r: Record, k: string): Cell {
    if r == [] then Null else if r[0].name == k then r[0].value else Get(r[1..], k)
  }

  /** Looking a key up in a record with a field put in front. */
  lemma GetCons(f: Field, rest: Record)
    ensures Keys([f] + rest) == [f.name] + Keys(rest)
    ensures forall key :: Get([f] + rest, key) == if f.name == key then f.value else Get(rest, key)
  {
    assert ([f] + rest)[1..] == rest;
  }

  /** `r[k] = v`: overwrite the value of an existing key in place, or append a new key. */
  function Put(r: Record, k: string, v: Cell): (r': Record)
    ensures k in Keys(r) ==> Keys(r') == Keys(r)
    ensures k !in Keys(r) ==> Keys(r') == Keys(r) + [k]
    ensures Get(r', k) == v
    ensures forall k' :: k' != k ==> Get(r', k') == Get(r, k')
  {
    if r == [] then [Field(k, v)]
    else
      GetCons(r[0], r[1..]);
      assert [r[0]] + r[1..] == r;
      if r[0].name == k then
        GetCons(Field(k, v), r[1..]);
        [Field(k, v)] + r[1..]
      else
        var tail := Put(r[1..], k, v);
        GetCons(r[0], tail);
        [r[0]] + tail
  }

  /** `cols` followed by the keys of `keys` it does not hold yet, in order. */
  function AddKeys(cols: seq<string>, keys: seq<string>): (r: seq<string>)
    ensures cols <= r
    ensures forall c :: c in r <==> c in cols || c in keys
    ensures NoDuplicates(cols) ==> NoDuplicates(r)
    decreases |keys|
  {
    if keys == [] then cols
    else AddKeys(if keys[0] in cols then cols else cols + [keys[0]], keys[1..])
  }

  predicate NoDuplicates(s: seq<string>) {
    forall i, j :: 0 <= i < j < |s| ==> s[i] != s[j]
  }

  /** The columns `pd.DataFrame(records)` gets: every key, in order of first appearance. */
  function ColumnsFrom(acc: seq<string>, records: seq<Record>): (r: seq<string>)
    ensures NoDuplicates(acc) ==> NoDuplicates(r)
    ensures forall c :: c in r <==> c in acc || exists i :: 0 <= i < |records| && c in Keys(records[i])
    decreases |records|
  {
    if records == [] then acc
    else
      var r := ColumnsFrom(AddKeys(acc, Keys(records[0])), records[1..]);
      assert forall c :: c in r <==> c in acc || exists i :: 0 <= i < |records| && c in Keys(records[i]) by {
        forall c ensures c in r <==> c in acc || exists i :: 0 <= i < |records| && c in Keys(records[i]) {
          if exists i :: 0 <= i < |records| && c in Keys(records[i]) {
            var i :| 0 <= i < |records| && c in Keys(records[i]);
            if i > 0 { assert c in Keys(records[1..][i - 1]); }
          }
          if c in r && c !in acc && c !in Keys(records[0]) {
            var i :| 0 <= i < |records| - 1 && c in Keys(records[1..][i]);
            assert c in Keys(records[i + 1]);
          }
        }
      }
      r
  }

  /**
    `pd.DataFrame(records)`: one row per record with a fresh `RangeIndex`,
    every key a column, and a missing value where a record lacks a key.
  */
  function FromRecords(records: seq<Record>): (t: Table)
    ensures WellFormed(t) && NoDuplicates(t.columns)
    ensures Labels(t.rows) == RangeLabels(|records|)
    ensures forall c :: c in t.columns <==> exists i :: 0 <= i < |records| && c in Keys(records[i])
    ensures forall i, j :: 0 <= i < |records| && 0 <= j < |t.columns| ==> t.rows[i].cells[j] == Get(records[i], t.columns[j])
  {
    var cols := ColumnsFrom([], records);
    Table(cols, seq(|records|, i requires 0 <= i < |records| =>
      Row(i, seq(|cols|, j requires 0 <= j < |cols| => Get(records[i], cols[j])))))
  }
}
