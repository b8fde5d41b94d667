/**
  The paginated query adapter of the crash pipeline: a count query per
  candidate WHERE clause, then offset pagination over the chosen clause,
  with every ArcGIS feature flattened into one record. HTTP is replaced by
  two oracles: `CountOracle` answers count queries, `PageOracle` answers
  data queries by WHERE clause and offset.
*/
module ArcGis {
  import opened Wrappers
  import opened Frames

  /** `RECORDS_PER_REQUEST`: the page size, and the step of the offset. */
  const RecordsPerRequest := 2000

  /** The candidate WHERE clauses, most specific first. */
  const WhereClauses := [
    "Juris_Code = '43' OR Juris_Code = 43",
    "Physical_Juris_Name LIKE '%HENRICO%' OR Physical_Juris_Name LIKE '%Henrico%'",
    "COUNTYFP = '087' OR FIPS = '087'"
  ]

  /** The unconditional clause used when no candidate matches anything. */
  const SelectAll := "1=1"

  const ApiError := "ArcGIS API error"
  const NoRecords := "No records returned from ArcGIS API"

  /** One element of a response's `features`: its `attributes` and its `geometry` (None if absent or null). */
  datatype Feature = Feature(attributes: Record, geometry: Option<Record>)

  /** A count query's outcome: the reported `count`, or a failure (transport, non-2xx or an `error` payload). */
  datatype CountReply = Count(n: int) | CountFailed

  /** A data query's outcome: the `features` array, or a failure. */
  datatype PageReply = Page(features: seq<Feature>) | PageFailed

  type CountOracle = string -> CountReply

  type PageOracle = (string, int) -> PageReply

  // ---------------------------------------------------------------------
  // Feature flattening (download_arcgis_page)
  // ---------------------------------------------------------------------

  /** `'geometry' in feature and feature['geometry']`: present, not null and not an empty dict. */
  predicate HasGeometry(f: Feature) {
    f.geometry.Some? && |f.geometry.value| > 0
  }

  /** The record of one feature: its attributes, plus `x` and `y` taken from a present geometry. */
  function FlattenFeature(f: Feature): (r: Record)
    ensures forall k :: k != "x" && k != "y" ==> Get(r, k) == Get(f.attributes, k)
    ensures HasGeometry(f) ==> && Get(r, "x") == Get(f.geometry.value, "x")
                               && Get(r, "y") == Get(f.geometry.value, "y")
                               && "x" in Keys(r) && "y" in Keys(r)
                               && forall k :: k in Keys(f.attributes) ==> k in Keys(r)
    ensures !HasGeometry(f) ==> r == f.attributes
  {
    if HasGeometry(f) then
      var g := f.geometry.value;
      var withX := Put(f.attributes, "x", Get(g, "x"));
      Put(withX, "y", Get(g, "y"))
    else f.attributes
  }

  /** The records a data query yields, or None when the query raised. */
  function PageRecords(page: PageOracle, clause: string, offset: int): (r: Option<seq<Record>>)
    ensures r.None? <==> page(clause, offset).PageFailed?
    ensures r.Some? ==> |r.value| == |page(clause, offset).features|
    ensures r.Some? ==> forall i :: 0 <= i < |r.value| ==> r.value[i] == FlattenFeature(page(clause, offset).features[i])
  {
    match page(clause, offset)
    case PageFailed => None
    case Page(fs) => Some(seq(|fs|, i requires 0 <= i < |fs| => FlattenFeature(fs[i])))
  }

  /** download_arcgis_page: one data query, and the loop that flattens its features. */
  method DownloadPage(page: PageOracle, clause: string, offset: int) returns (r: Option<seq<Record>>)
    ensures r == PageRecords(page, clause, offset)
  {
    var reply := page(clause, offset);
    if reply.PageFailed? {
      return None;
    }
    var features := reply.features;
    var records: seq<Record> := [];
    var i := 0;
    while i < |features|
      invariant 0 <= i <= |features|
      invariant |records| == i
      invariant forall j :: 0 <= j < i ==> records[j] == FlattenFeature(features[j])
    {
      records := records + [FlattenFeature(features[i])];
      i := i + 1;
    }
    assert records == seq(|features|, j requires 0 <= j < |features| => FlattenFeature(features[j]));
    return Some(records);
  }

  // ---------------------------------------------------------------------
  // WHERE-clause trial
  // ---------------------------------------------------------------------

  /** The clause the download uses and the count the server reported for it. */
  datatype Choice = Choice(clause: string, total: int)

  predicate Positive(count: CountOracle, clause: string) {
    count(clause).Count? && count(clause).n > 0
  }

  /** The for-else branch: count everything; a failure here is not caught. */
  function FallbackChoice(count: CountOracle): Result<Choice> {
    match count(SelectAll)
    case Count(n) => Ok(Choice(SelectAll, n))
    case CountFailed => Err(ApiError)
  }

  /** Try the candidates in order; the first with a positive count wins. */
  function TrialFrom(cands: seq<string>, count: CountOracle): (r: Result<Choice>)
    ensures (forall k :: 0 <= k < |cands| ==> !Positive(count, cands[k])) ==> r == FallbackChoice(count)
    ensures forall k :: 0 <= k < |cands| && Positive(count, cands[k]) && (forall j :: 0 <= j < k ==> !Positive(count, cands[j]))
              ==> r == Ok(Choice(cands[k], count(cands[k]).n))
  {
    if cands == [] then FallbackChoice(count)
    else if Positive(count, cands[0]) then Ok(Choice(cands[0], count(cands[0]).n))
    else
      var r := TrialFrom(cands[1..], count);
      assert forall k :: 0 < k < |cands| ==> cands[k] == cands[1..][k - 1];
      r
  }

  // ---------------------------------------------------------------------
  // Offset pagination
  // ---------------------------------------------------------------------

  /** The offsets requested, and the concatenated records (None when a page raised). */
  datatype PageRun = PageRun(offsets: seq<int>, records: Option<seq<Record>>)

  /** `prefix + rest`, where a raised exception absorbs what came before. */
  function Prepend(prefix: seq<Record>, rest: Option<seq<Record>>): Option<seq<Record>> {
    match rest
    case None => None
    case Some(xs) => Some(prefix + xs)
  }

  lemma PrependNothing(rest: Option<seq<Record>>)
    ensures Prepend([], rest) == rest
  {
    if rest.Some? {
      assert [] + rest.value == rest.value;
    }
  }

  lemma PrependTwice(a: seq<Record>, b: seq<Record>, rest: Option<seq<Record>>)
    ensures Prepend(a, Prepend(b, rest)) == Prepend(a + b, rest)
  {
    if rest.Some? {
      assert a + (b + rest.value) == (a + b) + rest.value;
    }
  }

  /** The pagination loop from `offset` on: stop at `total`, on an empty page, or on a raised page. */
  function Paginate(page: PageOracle, clause: string, total: int, offset: int): PageRun
    decreases total - offset
  {
    if offset >= total then PageRun([], Some([]))
    else
      match PageRecords(page, clause, offset)
      case None => PageRun([offset], None)
      case Some(recs) =>
        if recs == [] then PageRun([offset], Some([]))
        else
          var rest := Paginate(page, clause, total, offset + RecordsPerRequest);
          PageRun([offset] + rest.offsets, Prepend(recs, rest.records))
  }

  /** `ceil(n / RecordsPerRequest)` for a positive `n`, and 0 otherwise. */
  function PageCount(n: int): nat {
    if n <= 0 then 0 else (n + RecordsPerRequest - 1) / RecordsPerRequest
  }

  /**
    The offsets requested are `offset, offset + 2000, ...`, all below `total`,
    and there are at most `ceil((total - offset) / 2000)` of them.
  */
  lemma {:induction false} PaginateOffsets(page: PageOracle, clause: string, total: int, offset: int)
    ensures var run := Paginate(page, clause, total, offset);
      && |run.offsets| <= PageCount(total - offset)
      && forall i :: 0 <= i < |run.offsets| ==> run.offsets[i] == offset + RecordsPerRequest * i && run.offsets[i] < total
    decreases total - offset
  {
    var run := Paginate(page, clause, total, offset);
    if offset < total {
      var recs := PageRecords(page, clause, offset);
      if recs.Some? && recs.value != [] {
        var next := offset + RecordsPerRequest;
        PaginateOffsets(page, clause, total, next);
        var rest := Paginate(page, clause, total, next);
        assert run.offsets == [offset] + rest.offsets;
        assert PageCount(total - next) + 1 <= PageCount(total - offset);
        forall i | 0 < i < |run.offsets|
          ensures run.offsets[i] == offset + RecordsPerRequest * i
        {
          assert run.offsets[i] == rest.offsets[i - 1];
        }
      }
    }
  }

  /**
    Pagination stops only where the source stops: every page but the last
    was non-empty, a raised page is the last one requested, and a run that
    ended on a non-empty page ended because the offset reached `total`.
    A page shorter than 2000 records does not stop it.
  */
  lemma {:induction false} PaginateStops(page: PageOracle, clause: string, total: int, offset: int)
    ensures var run := Paginate(page, clause, total, offset);
      && (forall i :: 0 <= i < |run.offsets| - 1 ==>
            PageRecords(page, clause, run.offsets[i]).Some? && PageRecords(page, clause, run.offsets[i]).value != [])
      && (run.records.None? ==> run.offsets != [] && PageRecords(page, clause, run.offsets[|run.offsets| - 1]).None?)
      && (run.offsets == [] ==> offset >= total)
      && ((run.records.Some? && run.offsets != [] && PageRecords(page, clause, run.offsets[|run.offsets| - 1]) != Some([]))
            ==> run.offsets[|run.offsets| - 1] + RecordsPerRequest >= total)
    decreases total - offset
  {
    var run := Paginate(page, clause, total, offset);
    if offset < total {
      var recs := PageRecords(page, clause, offset);
      if recs.Some? && recs.value != [] {
        var next := offset + RecordsPerRequest;
        PaginateStops(page, clause, total, next);
        PaginateOffsets(page, clause, total, next);
        var rest := Paginate(page, clause, total, next);
        assert run.offsets == [offset] + rest.offsets;
        forall i | 0 < i < |run.offsets| - 1
          ensures PageRecords(page, clause, run.offsets[i]).Some? && PageRecords(page, clause, run.offsets[i]).value != []
        {
          assert run.offsets[i] == rest.offsets[i - 1];
        }
        if rest.offsets == [] {
          assert run.offsets == [offset];
        }
      }
    }
  }

  /** The records of the pages at `offsets`, concatenated in order; None if one of them raised. */
  function Fetched(page: PageOracle, clause: string, offsets: seq<int>): Option<seq<Record>> {
    if offsets == [] then Some([])
    else
      match PageRecords(page, clause, offsets[0])
      case None => None
      case Some(recs) => Prepend(recs, Fetched(page, clause, offsets[1..]))
  }

  /** The downloaded records are the in-order concatenation of the pages requested. */
  lemma {:induction false} PaginateConcatenates(page: PageOracle, clause: string, total: int, offset: int)
    ensures var run := Paginate(page, clause, total, offset);
      run.records == Fetched(page, clause, run.offsets)
    decreases total - offset
  {
    var run := Paginate(page, clause, total, offset);
    if offset < total {
      var recs := PageRecords(page, clause, offset);
      if recs.Some? && recs.value != [] {
        var next := offset + RecordsPerRequest;
        PaginateConcatenates(page, clause, total, next);
        var rest := Paginate(page, clause, total, next);
        assert run.offsets == [offset] + rest.offsets;
        assert run.offsets[0] == offset && run.offsets[1..] == rest.offsets;
        assert Fetched(page, clause, run.offsets) == Prepend(recs.value, Fetched(page, clause, rest.offsets));
      } else {
        assert run.offsets == [offset] && [offset][1..] == [];
        PrependNothing(Some([]));
      }
    }
  }

  // ---------------------------------------------------------------------
  // download_from_arcgis
  // ---------------------------------------------------------------------

  /** The outcome of download_from_arcgis: the records, or the exception it raises. */
  function ArcgisDownload(count: CountOracle, page: PageOracle): Result<seq<Record>> {
    match TrialFrom(WhereClauses, count)
    case Err(e) => Err(e)
    case Ok(choice) =>
      match Paginate(page, choice.clause, choice.total, 0).records
      case None => Err(ApiError)
      case Some(all) => if all == [] then Err(NoRecords) else Ok(all)
  }

  /** A successful download is never empty. */
  lemma DownloadNonEmpty(count: CountOracle, page: PageOracle)
    ensures ArcgisDownload(count, page).Ok? ==> ArcgisDownload(count, page).value != []
  {
  }

  method DownloadFromArcgis(count: CountOracle, page: PageOracle) returns (r: Result<seq<Record>>)
    ensures r == ArcgisDownload(count, page)
  {
    // Try each WHERE clause until one counts a positive number of records.
    var clause := SelectAll;
    var total := 0;
    var found := false;
    var i := 0;
    while i < |WhereClauses|
      invariant 0 <= i <= |WhereClauses|
      invariant forall j :: 0 <= j < i ==> !Positive(count, WhereClauses[j])
      invariant found ==> i < |WhereClauses| && TrialFrom(WhereClauses, count) == Ok(Choice(clause, total))
      decreases |WhereClauses| - i, !found
    {
      var reply := count(WhereClauses[i]);
      if reply.Count? && reply.n > 0 {
        clause, total, found := WhereClauses[i], reply.n, true;
        break;
      }
      i := i + 1;
    }
    if !found {
      var reply := count(SelectAll);
      if reply.CountFailed? {
        return Err(ApiError);
      }
      clause, total := SelectAll, reply.n;
    }
    assert TrialFrom(WhereClauses, count) == Ok(Choice(clause, total));

    // Download with pagination.
    var all: seq<Record> := [];
    var offset := 0;
    PrependNothing(Paginate(page, clause, total, 0).records);
    while offset < total
      invariant Paginate(page, clause, total, 0).records == Prepend(all, Paginate(page, clause, total, offset).records)
      decreases total - offset
    {
      var records := DownloadPage(page, clause, offset);
      if records.None? {
        return Err(ApiError);
      }
      if records.value == [] {
        assert Paginate(page, clause, total, offset).records == Some([]);
        assert all + [] == all;
        break;
      }
      PrependTwice(all, records.value, Paginate(page, clause, total, offset + RecordsPerRequest).records);
      all := all + records.value;
      offset := offset + RecordsPerRequest;
    }
    assert Paginate(page, clause, total, 0).records == Some(all) by {
      if offset >= total {
        assert all + [] == all;
      }
    }
    if all == [] {
      return Err(NoRecords);
    }
    return Ok(all);
  }
}
