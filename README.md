# Henrico crash and grants pipelines in Dafny

This project models the two data-collection scripts of the Henrico County
traffic-safety dashboard.

**download_crash_data.py** pulls crash records from an ArcGIS feature
service:
- It tries three jurisdiction WHERE clauses and falls back to counting
  everything.
- It pages through the chosen clause 2000 records at a time and flattens
  each feature's attributes and geometry into one record.
- When that fails or returns nothing, it falls back to a CSV extract.
- It keeps the Henrico rows, excludes interstate, US, state-primary and
  business routes, and renames columns to the dashboard's names.
- It exits with code 1 at each dead end.

**download_grants_data.py** pulls the daily Grants.gov extract:
- It looks back one day at a time for up to seven days.
- It picks and parses an archive member.
- It keeps grants that match a safety CFDA number, or a safety agency
  together with a safety keyword.
- It drops grants closed more than thirty days ago and maps the result to
  the grant schema.
- It puts the eight Virginia static grants first and drops later rows with
  a title already seen.
- It stamps the date of the run and sorts by close date, with missing
  dates last.

Modules:

| module | file | what it holds |
|---|---|---|
| `Wrappers` | wrappers.dfy | `Option` and `Result` |
| `Text` | text.dfy | the string operations the pandas `.str` accessors use |
| `Frames` | frames.dfy | a DataFrame as columns plus labelled rows of cells; alias resolution; boolean-mask selection; `pd.DataFrame(records)` |
| `ArcGis` | arcgis.dfy | count and page queries (as oracles), feature flattening, WHERE-clause trial, offset pagination |
| `CrashFilters` | crash_filters.dfy | `filter_henrico_county`, `filter_exclude_state_routes`, `standardize_columns` |
| `CrashMain` | crash_main.dfy | the crash `main` with its fallback and exit codes |
| `Calendar` | calendar.dfy | proleptic Gregorian dates, one-day steps, `%Y%m%d` and `%Y-%m-%d` |
| `GrantsExtract` | grants_extract.dfy | `get_grants_url`, archive member choice, parser order, the look-back search |
| `GrantsFilters` | grants_filters.dfy | CFDA, agency and keyword masks, `filter_grants`, `filter_active_grants` |
| `GrantsOutput` | grants_output.dfy | `map_to_output_columns` |
| `GrantsMain` | grants_main.dfy | the grants `main`: stacking, de-duplication by title, date stamp, sort |

Operations that loop over their input, or that step through masks and
candidate lists, are methods. Each is proved equal to a specification
function: `ensures r == HenricoFiltered(t)`, `ensures r ==
ArcgisDownload(count, page)` and so on. The lemmas state the properties of
those functions.

HTTP, the ZIP reader, the pandas parsers and `datetime.now()` are
parameters:
- `CountOracle` and `PageOracle` answer the two ArcGIS queries.
- `Fetch` maps a URL to a reply.
- `Parses` holds what each of the three readers makes of an archive member.
- `parse` is the string parser of `pd.to_datetime`.
- `Clock` is the current time.

## Model

Paths are relative to the repository root.

| member | source | states |
|---|---|---|
| `ArcGis.FlattenFeature` | download_crash_data.py:82-88 | A flattened record has the feature's attributes. Only when the geometry is present and non-empty does it also carry `x` and `y`, set from that geometry and overwriting attributes of the same name. |
| `ArcGis.PageRecords` | download_crash_data.py:61-89 | A page yields no records exactly when the query raises. Otherwise it yields one flattened record per feature, in order. |
| `ArcGis.DownloadPage` | download_crash_data.py:61-89 | Its feature loop returns exactly `PageRecords`. |
| `ArcGis.TrialFrom` | download_crash_data.py:101-124 | The first candidate clause with a positive count is chosen, with that count. When none has one, the result is the uncaught `1=1` count, or its error. |
| `ArcGis.PaginateOffsets` | download_crash_data.py:126-136 | The requested offsets are `0, 2000, 4000, …`. Each is below the count, and there are at most ceil(count/2000) of them. |
| `ArcGis.PaginateStops` | download_crash_data.py:126-136 | Every page but the last was non-empty. A raising page is the last one requested. A run that ends on a non-empty page ends because the offset reached the count; a short page does not stop it. |
| `ArcGis.PaginateConcatenates` | download_crash_data.py:126-136 | The downloaded records are the requested pages concatenated in order. |
| `ArcGis.DownloadNonEmpty` | download_crash_data.py:140-143 | A successful download is never empty. |
| `ArcGis.DownloadFromArcgis` | download_crash_data.py:92-143 | The clause loop and the pagination loop return exactly `ArcgisDownload`: records, the API error, or "No records returned". |
| `Frames.FromRecords` | download_crash_data.py:143 | `pd.DataFrame(records)` has labels `0..n-1`. Its columns are the union of the record keys, without repeats. Each cell is the record's value, missing where the record lacks the key. |
| `Frames.Put` | download_crash_data.py:86-87 | Setting a key gives it the new value, keeps every other key's value, and appends the key only if it is new. |
| `Frames.FirstPresent` | download_crash_data.py:207-213 | The resolved column is absent only when no alias is a column. Otherwise it is an alias that is a column. |
| `Frames.FirstPresentChoosesAlias` | download_crash_data.py:172-176 | The first alias that is a column is the one chosen. |
| `Frames.Resolve` | download_crash_data.py:208-213 | The alias loop with `break` returns `FirstPresent`. |
| `Frames.FilterRows` | download_crash_data.py:193 | `df[mask]` keeps exactly the rows the predicate accepts, and never more rows. |
| `Frames.AndAlignedOnRange` | download_crash_data.py:220-236 | When the other Series is labelled `0..n-1`, `mask &= other` matched by label is the element-wise conjunction. |
| `Frames.FilterRowsIsSubsequence` | download_crash_data.py:238 | Boolean selection keeps the surviving rows in their original order. |
| `Frames.SelectByPredicate` | download_crash_data.py:193 | Selecting with a mask computed row by row from a predicate equals filtering by that predicate. |
| `Frames.OrMask` | download_crash_data.py:175 | The in-place OR of two masks is their element-wise disjunction. |
| `Frames.AndMask` | download_crash_data.py:227 | The in-place AND of two masks is their element-wise conjunction. |
| `CrashFilters.Underscored` | download_crash_data.py:166 | Replacing spaces by underscores keeps the length and leaves no space. |
| `CrashFilters.UnderscoredColumns` | download_crash_data.py:166 | Every column name is normalised, position by position. |
| `CrashFilters.OrCodeColumn` | download_crash_data.py:171-176 | The mask gains exactly the rows whose resolved code column, stripped, equals the code. It is unchanged when no alias column exists. |
| `CrashFilters.OrNamePatterns` | download_crash_data.py:178-184 | The pattern loop adds exactly the rows whose upper-cased name matches one of the two upper-cased patterns as a regular expression. |
| `CrashFilters.FilterHenricoCounty` | download_crash_data.py:161-197 | The method returns exactly `HenricoFiltered`: the normalised columns and the rows the OR of the three tests accepts. |
| `CrashFilters.SecondNamePatternImpliesFirst` | download_crash_data.py:30 | Any text that "043. HENRICO COUNTY" matches, with `.` as a wildcard, contains "HENRICO". |
| `CrashFilters.HenricoKeepIsHenricoRow` | download_crash_data.py:168-191 | A row passes the mask iff its jurisdiction code is 43, or its name contains HENRICO, or its FIPS code is 087. |
| `CrashFilters.HenricoFilterSpec` | download_crash_data.py:161-197 | The columns are the underscored columns. A row is kept iff it is a Henrico row, and order is kept. Without any of the jurisdiction columns nothing is kept. |
| `CrashFilters.FilterExcludeStateRoutes` | download_crash_data.py:200-242 | The four `&=` masks on `RangeIndex(len(df))`, matched by label, and `df[mask]` return exactly `RouteFilterAsWritten`. That is the aligned filter's table when the labels are distinct and below `len(df)`, and otherwise the error pandas raises. |
| `CrashFilters.ThinnedLabels` | download_crash_data.py:222-238 | Rows kept in order from a table labelled `0..n-1` have distinct labels. Their labels all fall below their count exactly when they are the leading rows. |
| `CrashFilters.HenricoThenRouteAsWritten` | download_crash_data.py:172-238 | On a table labelled `0..n-1` that has a route column, the route filter as written succeeds on the Henrico rows exactly when the Henrico filter kept a leading run of rows. |
| `CrashFilters.RouteFilterSpec` | download_crash_data.py:200-242 | Without a route column the table is returned unchanged. Otherwise a row stays iff its route matches none of the four patterns, every dropped row matches one, and order is kept. |
| `CrashFilters.NotStateRouteS` | download_crash_data.py:220-236 | A secondary route "S-VA" followed by digits matches none of the exclusion patterns. |
| `CrashFilters.AsWrittenAgreesOnRangeIndex` | download_crash_data.py:222-238 | On a table labelled `0..n-1`, the code as written and the aligned filter give the same table. |
| `CrashFilters.AsWrittenRaisesAfterHenricoDropsARow` | download_crash_data.py:222-238 | Take a county road whose row survives the Henrico filter with label 1 while the row before it is dropped. The filter as written raises on it; the aligned filter keeps it. |
| `CrashFilters.ExampleHenricoKeepsSecond` | download_crash_data.py:172-193 | The Henrico filter keeps the second row alone, with its label. |
| `CrashFilters.StandardizeColumns` | download_crash_data.py:245-292 | Rows are untouched. A column not in the rename table keeps its name, and a mapped column gets its new name, which has no underscore. |
| `CrashFilters.StandardNameSpec` | download_crash_data.py:248-290 | A mapped name changes to a name that is not itself mapped. Any other name is kept. |
| `CrashFilters.StandardizeIdempotent` | download_crash_data.py:288-290 | Renaming twice equals renaming once. |
| `CrashFilters.ExampleRenaming` | download_crash_data.py:249-278 | `Juris_Code` becomes `Juris Code` and `RTE_NAME` becomes `RTE Name`. |
| `CrashMain.CrashMain` | download_crash_data.py:295-347 | The run (fallback used, exit code, CSV written) is `CrashPipeline`. The route filter is the one the source writes, and its raise ends the run with status 1 and nothing written. |
| `CrashMain.FallbackDecision` | download_crash_data.py:304-319 | The fallback is used iff ArcGIS raised or gave an empty table. When it is not used, its outcome is irrelevant. A failed fallback exits 1 with nothing written. |
| `CrashMain.ProcessCrashesSpec` | download_crash_data.py:321-336 | Processing as written fails iff the corrected processing fails or the route filter raises on a non-empty Henrico table. When it succeeds it writes what the corrected processing writes. |
| `CrashMain.ProcessCrashesCorrectedSpec` | download_crash_data.py:321-336 | With the aligned route filter, a written table is non-empty and has the renamed columns. Its rows are, in order, rows of the source that are Henrico rows on no state route. Processing fails iff either filter leaves nothing. |
| `CrashMain.ProcessCrashesOnFreshTable` | download_crash_data.py:321-336 | On a table labelled `0..n-1`, processing as written fails iff the corrected processing fails or, with a route column present, the Henrico filter dropped a row before one it kept. |
| `CrashMain.ExitCodeSpec` | download_crash_data.py:314-347 | The exit code is 0 exactly when a table is written, and 1 otherwise. What is written is the processed fallback table when the fallback was used, and the processed ArcGIS table otherwise. |
| `CrashMain.ThinnedFallbackExitsOne` | download_crash_data.py:314-352 | ArcGIS gives nothing and the fallback holds another county's row, then a Henrico county road. The run exits 1 and writes nothing, while the corrected processing succeeds. |
| `CrashMain.ThreeRecordScenario` | download_crash_data.py:321-336 | For a Henrico local road, a Henrico interstate and another county's road, exactly the first is written under renamed columns. |
| `CrashMain.ScenarioAsWritten` | download_crash_data.py:222-238 | On the scenario's two Henrico rows, labelled 0 and 1, the route filter as written keeps the local road, as the aligned filter does. |
| `Calendar.PrevDay` | download_grants_data.py:319 | Stepping back a day fails only at 0001-01-01 and otherwise gives a valid date. |
| `Calendar.PrevDayNumber` | download_grants_data.py:319 | The previous day is one day number earlier. |
| `Calendar.PrevThenNext` | download_grants_data.py:319 | The next day of the previous day is the day itself. |
| `Calendar.MinusDaysNumber` | download_grants_data.py:247-319 | Stepping back `n` times lands `n` day numbers earlier, and fails only when fewer than `n` days precede. |
| `Calendar.DayNumberInjective` | download_grants_data.py:319 | Different dates have different day numbers. |
| `Calendar.FormatYmd` | download_grants_data.py:236 | `%Y%m%d` is eight digits. |
| `Calendar.FormatParseRoundTrip` | download_grants_data.py:236 | Reading back `%Y%m%d` gives the date. |
| `GrantsExtract.GrantsUrl` | download_grants_data.py:234-237 | The URL is the template prefix, eight digits, and `v2.zip`. |
| `GrantsExtract.UrlDateRoundTrip` | download_grants_data.py:234-237 | The URL names the date it was built for. |
| `GrantsExtract.GrantsUrlInjective` | download_grants_data.py:234-237 | Different days request different URLs. |
| `GrantsExtract.Names` | download_grants_data.py:259 | `namelist()` lists the member names in order. |
| `GrantsExtract.FirstWhere` | download_grants_data.py:264-273 | The result is the first name the test accepts, or the length when none is accepted. |
| `GrantsExtract.ChooseMemberSpec` | download_grants_data.py:262-276 | The chosen member is a name of the archive and is absent only for an empty archive. It is chosen by "opportunit" in the lower-cased name, then `.csv`/`.xml`, then the first member. |
| `GrantsExtract.SelectMember` | download_grants_data.py:262-276 | The three loops return `ChooseMember`. |
| `GrantsExtract.OpenMember` | download_grants_data.py:281 | Opening a name finds a member of that name exactly when the archive lists it. |
| `GrantsExtract.ParseMember` | download_grants_data.py:284-306 | CSV is tried first, then XML, then pipe-delimited; the first reader that does not raise gives the table. |
| `GrantsExtract.ReadExtract` | download_grants_data.py:251-306 | One attempt's body returns `ExtractFrom`. Only a 200 response holding a readable, parseable member gives a table. |
| `GrantsExtract.Extracts` | download_grants_data.py:248-306 | The attempt for a day reads the reply to that day's URL. |
| `GrantsExtract.Attempts` | download_grants_data.py:247 | `range(max_attempts)` makes no attempt for a negative count. |
| `GrantsExtract.LookbackStep` | download_grants_data.py:247-319 | A table ends the search. Otherwise the search steps back a day, or raises at 0001-01-01. |
| `GrantsExtract.Search` | download_grants_data.py:245-322 | The attempt loop returns the result of `LookbackFrom`. |
| `GrantsExtract.DownloadGrantsExtract` | download_grants_data.py:240-322 | The download returns the look-back result from today with `max_attempts` tries. |
| `GrantsExtract.LookbackLength` | download_grants_data.py:247 | At most `max_attempts` requests go out. |
| `GrantsExtract.LookbackDates` | download_grants_data.py:245-319 | Attempt `i` requests the extract of the day `i` days before today. |
| `GrantsExtract.LookbackFailures` | download_grants_data.py:285-319 | Every attempt before the last one failed. |
| `GrantsExtract.LookbackResult` | download_grants_data.py:247-322 | The search ends in one of three ways: with the last attempt's table; with the empty table after all attempts failed; or with the overflow error after a failed attempt at 0001-01-01. |
| `GrantsExtract.NoExtractGivesEmptyTable` | download_grants_data.py:321-322 | When no day of the window yields a table, every attempt is made and the result is the empty table. |
| `GrantsFilters.CfdaMask` | download_grants_data.py:325-346 | The mask is true exactly where the first CFDA alias column contains a safety CFDA number, case-sensitively. It is all false without a CFDA column. |
| `GrantsFilters.AgencyMask` | download_grants_data.py:349-365 | The loop over all seven agency columns (no `break`) marks exactly the rows where some present column names a safety agency, ignoring case. |
| `GrantsFilters.OrKeywordColumn` | download_grants_data.py:379-384 | The mask gains the rows whose lower-cased column contains a keyword. |
| `GrantsFilters.KeywordMask` | download_grants_data.py:368-399 | A row is marked iff the first title column or the first description column holds a keyword. |
| `GrantsFilters.FilterGrants` | download_grants_data.py:402-417 | The combined mask selects exactly `GrantsFiltered`. |
| `GrantsFilters.FilterGrantsSpec` | download_grants_data.py:406-414 | Kept rows are, in order, rows with a CFDA match, or with an agency and a keyword match. Each of those is kept. Without a CFDA match, agency alone or keyword alone does not keep a row. |
| `GrantsFilters.NoCfdaNoAgencyKeepsNothing` | download_grants_data.py:338-412 | With neither CFDA nor agency columns, nothing is kept. |
| `GrantsFilters.TopicRuleOnTwoGrants` | download_grants_data.py:412 | In the two-grant example, the CFDA 20.205 grant is kept and the keyword-only grant is dropped. |
| `GrantsFilters.ToDatetime` | download_grants_data.py:435 | Coercing parses text, or makes it missing when parsing fails. Missing stays missing and timestamps stay. An integer is nanoseconds since 1970. |
| `GrantsFilters.ConvertColumn` | download_grants_data.py:569 | Only the named column's cell changes, in every row. |
| `GrantsFilters.SetCell` | download_grants_data.py:435 | Replacing one cell keeps the label and the other cells. |
| `GrantsFilters.FilterActiveGrants` | download_grants_data.py:420-444 | The conversion loop and the window mask return `ActiveFiltered`. |
| `GrantsFilters.ActiveFilterSpec` | download_grants_data.py:420-444 | Without a date column the table is unchanged. Otherwise the kept rows are, in order, exactly the converted rows that are undated or no earlier than now minus 30 days. An undated or unparseable row is never dropped. |
| `GrantsOutput.FirstLowerMatch` | download_grants_data.py:472-476 | The result is the first column equal to the name ignoring case, or the length of the column list when there is none. |
| `GrantsOutput.FindColumnIgnoringCase` | download_grants_data.py:473-476 | The inner loop with `break` returns `FirstLowerMatch`. |
| `GrantsOutput.EntrySource` | download_grants_data.py:469-476 | An exact column name wins. Otherwise the first case-insensitive match is used. |
| `GrantsOutput.EntrySourceNone` | download_grants_data.py:469-476 | An entry has no source iff no column matches it ignoring case. |
| `GrantsOutput.Assigned` | download_grants_data.py:466-476 | Output names are assigned at most once, each from a real column. |
| `GrantsOutput.AssignedStep` | download_grants_data.py:468-476 | An entry assigns exactly when its output name is free and it has a source. |
| `GrantsOutput.AssignedFromFirst` | download_grants_data.py:466-476 | Every assignment comes from the first entry for its output name that has a source. |
| `GrantsOutput.AssignedComplete` | download_grants_data.py:466-476 | Every entry with a source gets its output name assigned. |
| `GrantsOutput.MapToOutputColumns` | download_grants_data.py:447-496 | The mapping loop and the defaults return `OutputTable`. |
| `GrantsOutput.TargetsAreNotDefaults` | download_grants_data.py:449-494 | No mapping feeds a default column, so all seven defaults are added. |
| `GrantsOutput.OutputColumnsDistinct` | download_grants_data.py:466-494 | The output column names are distinct. |
| `GrantsOutput.BuildOutputShape` | download_grants_data.py:478-494 | One row per input row keeps the label. When nothing maps there are no rows. |
| `GrantsOutput.OutputTableSpec` | download_grants_data.py:447-496 | The output columns are the mapped names, then the defaults. Mapped cells copy their source, defaults hold their constants, labels are kept, and nothing mapped gives no rows. |
| `GrantsOutput.MappingPriority` | download_grants_data.py:451-457 | `OpportunityID` beats `OpportunityNumber` and `Description` beats `Synopsis` when present. `OpportunityNumber` is used when no spelling of `OpportunityID` exists. |
| `GrantsOutput.SourceOfTarget` | download_grants_data.py:468-476 | An assignment reads the source of the first entry for its name that has one. |
| `GrantsOutput.MappedTargetsPresent` | download_grants_data.py:468-476 | Every output name some entry can feed is assigned. |
| `GrantsMain.NowSeconds` | download_grants_data.py:436 | `now` counts seconds since 1970-01-01 00:00. |
| `GrantsMain.StaticTitlesDistinct` | download_grants_data.py:69-231 | No two static grants share a title. |
| `GrantsMain.Reindexed` | download_grants_data.py:552-558 | Missing columns become missing cells, in the schema's order, and labels are kept. |
| `GrantsMain.Concat` | download_grants_data.py:558 | `ignore_index=True` relabels `0..n-1`, putting the first table's rows before the second's. |
| `GrantsMain.CombinedShape` | download_grants_data.py:541-560 | The combined table has the schema columns, with the static grants first and in order. |
| `GrantsMain.DedupFrom` | download_grants_data.py:563 | Kept rows come from the input, with keys not already seen; `drop_duplicates` runs it with the title as key. |
| `GrantsMain.DedupKeepsOnlyFirst` | download_grants_data.py:563 | Every kept row is the first row with its key. |
| `GrantsMain.DedupKeepsFirst` | download_grants_data.py:563 | The first row of each unseen key is kept. |
| `GrantsMain.DedupDistinct` | download_grants_data.py:563 | No two kept rows share a key, and two missing keys count as equal. |
| `GrantsMain.DedupCoversKeys` | download_grants_data.py:563 | Every unseen key of the input is the key of a kept row. |
| `GrantsMain.DedupIsSubsequence` | download_grants_data.py:563 | De-duplication keeps the order. |
| `GrantsMain.DropDuplicatesSpec` | download_grants_data.py:563 | Columns are kept, order is kept, titles are distinct, and every title survives. |
| `GrantsMain.DropDuplicatesKeepsFirst` | download_grants_data.py:563 | The rows kept are exactly the first rows of their titles. |
| `GrantsMain.DedupOfDistinct` | download_grants_data.py:563 | Rows with distinct, unseen keys all stay. |
| `GrantsMain.KeptRowAmongFirst` | download_grants_data.py:558-563 | A kept row whose key is the key of one of the first `n` rows is one of those rows. |
| `GrantsMain.FirstRowsWin` | download_grants_data.py:558-563 | A kept row sharing a title with one of the first `n` rows is one of those rows. |
| `GrantsMain.StaticWinsOverFederal` | download_grants_data.py:541-563 | A static grant beats a federal grant with the same title. |
| `GrantsMain.StaticRowsFirstOfTitle` | download_grants_data.py:558-563 | Each static grant is the first row with its title. |
| `GrantsMain.WithLastUpdated` | download_grants_data.py:566 | Every row gets today's date in a new last column. |
| `GrantsMain.Insert` | download_grants_data.py:570 | Insertion keeps the order ascending with missing dates last, and adds exactly the one row. |
| `GrantsMain.SortByClose` | download_grants_data.py:570 | The result is ordered by close date, with missing dates last, and is a permutation of the input. |
| `GrantsMain.GrantsMain` | download_grants_data.py:504-585 | The exit code is 0 whatever the download did, and the written table is `GrantsPipeline`. |
| `GrantsMain.PreparedRows` | download_grants_data.py:563-569 | Row `k` keeps row `k`'s title after de-duplication and carries today in `last_updated`. |
| `GrantsMain.PreparedTitles` | download_grants_data.py:541-569 | Titles are distinct and every static title is present. |
| `GrantsMain.FinalTableShape` | download_grants_data.py:541-575 | The written table has the schema columns plus `last_updated`, is ordered by close date with missing dates last, has the de-duplicated row count and today's date in every row. |
| `GrantsMain.FinalTableTitles` | download_grants_data.py:541-575 | The written table holds no two rows with one title and holds every static grant, whatever Grants.gov returned. |
| `GrantsMain.StaticOnlyWhenNoFederal` | download_grants_data.py:513-571 | Without federal grants, exactly the eight static grants are written. |
| `GrantsMain.NoFederalGrants` | download_grants_data.py:517-539 | A failed, empty or off-topic download leaves no federal grants. |

## Left out

- HTTP, the ZIP reader and the pandas readers (`read_csv`, `read_xml`) are oracles. Their contents and error messages are not modelled.
- `get_arcgis_record_count` is the `CountOracle`. A reply without a `count` key is the oracle answering 0, as `data.get('count', 0)` does. An `error` payload, a transport failure and a non-2xx status are one failure.
- `download_from_fallback` is given as its outcome, a table or a failure. The CSV download and parse are not modelled. Its table is taken as is; `read_csv` labels rows `0..n-1`, and the Henrico mask alignment relies on that.
- The Grants.gov table the `Parses` oracle yields is likewise taken to be labelled `0..n-1`, as `read_csv` and `read_xml` label it. The CFDA, agency and keyword masks are built on `RangeIndex(len(df))` and combined and applied by label, and they are modelled position by position, which agrees only on such labels.
- `to_datetime` on text is the `parse` oracle returning whole seconds since 1970. Sub-second precision of `now` and of timestamps is dropped, and time zones are not modelled. Neither is the exception path of `filter_active_grants`: comparing timezone-aware dates with a naive `now` raises, which is caught, and the table is then returned with its date column converted but no row dropped.
- The three `datetime.now()` calls of a grants run (download, active window, stamp) are one `Clock`.
- `GrantsMain.IsStaticTable`: the static grants are a parameter table. Only the properties the logic reads are fixed: the 18 schema columns, labels `0..7`, and the titles and close dates. The other literal fields are data nothing inspects.
- The final `strftime('%Y-%m-%d')` of `close_date`, `to_csv`, `os.makedirs`, logging, and the Monday scheduler loop (download_grants_data.py:588-600) are not modelled. The written table is the sorted table before the dates are formatted back.
- `GrantsMain.SortByClose`: pandas' sort is not stable, so only order by key and permutation are stated. The order among rows with equal close dates is not.
- Case folding and `\s`/`\d` cover ASCII letters, ASCII digits and the Unicode whitespace characters only. Python's full Unicode `upper()`/`lower()`, for example `ß` becoming `SS`, is not modelled.
- Regular expressions are modelled only for the fixed patterns the scripts use: literal alternations, the anchored route patterns, and the `.` wildcard of "043. Henrico County".
- `astype(str)` of a number is modelled for integers. A float prints as pandas prints it, for example `43.0`, and that text is not modelled beyond the `Num` cells given.
- Duplicate column names, for example when `RTE_NAME` and `RTE_Name` are both renamed to `RTE Name`, are kept as duplicates. Cell lookup reads the first of them.
- Row labels shared by two rows never arise in the pipeline. For them the route filter is taken to raise at the first `mask &=`, because pandas cannot re-index a Series whose labels repeat.
- The crash `main` follows the code as written. It uses the route filter that raises on thinned labels, so a statewide download (the `1=1` clause or the CSV extract) ends with status 1 whenever it has a route column and the Henrico filter drops a row before one it keeps (`CrashMain.ProcessCrashesOnFreshTable`). The corrected processing is `CrashMain.ProcessCrashesCorrected`, and no separate corrected `main` is modelled.
- Exceptions raised inside the grants `try` block other than the date overflow of the look-back are not modelled.

## Findings

| source | as written | input that shows it | evidently intended | confidence | as-written member | corrected member |
|---|---|---|---|---|---|---|
| download_crash_data.py:222-238 | The route mask is a new Series on `RangeIndex(len(df))`. `mask &= …` re-aligns the result to that index. `df[mask]` then raises "Unalignable boolean Series provided as indexer" whenever a row label of `df` is `len(df)` or more. Nothing catches it, so `main` ends with status 1 and writes nothing. | Two crash rows, `Juris_Code` 51 then 43, both on county road `S-VA…`. The Henrico filter keeps the second row with label 1, and `filter_exclude_state_routes` raises on it. | A mask aligned with `df`'s own rows, keeping every row whose route matches no exclusion pattern. | medium, not executed | `CrashFilters.RouteFilterAsWritten`, `CrashFilters.AsWrittenRaisesAfterHenricoDropsARow`, `CrashMain.ThinnedFallbackExitsOne` | `CrashFilters.RouteFiltered`, `CrashFilters.RouteFilterSpec`, `CrashMain.ProcessCrashesCorrectedSpec` |
