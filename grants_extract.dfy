/**
  `get_grants_url` and `download_grants_extract`: the daily Grants.gov
  extract is requested for today and then for each earlier day in turn,
  and the first archive that yields a table ends the search.
*/
module GrantsExtract {
  import opened Wrappers
  import opened Text
  import opened Frames
  import opened Calendar

  const UrlPrefix := "https://prod-grants-gov-chatbot.s3.amazonaws.com/extracts/GrantsDBExtract"
  const UrlSuffix := "v2.zip"

  /** `MAX_LOOKBACK_DAYS`, the default number of attempts. */
  const MaxLookbackDays := 7

  /** Raised by `target_date -= timedelta(days=1)` below 0001-01-01. */
  const DateOverflow := "date value out of range"

  // ---------------------------------------------------------------------
  // get_grants_url
  // ---------------------------------------------------------------------

  function GrantsUrl(d: Date): (url: string)
    requires ValidDate(d)
    ensures StartsWith(url, UrlPrefix) && EndsWith(url, UrlSuffix)
    ensures |url| == |UrlPrefix| + 8 + |UrlSuffix|
  {
    var url := UrlPrefix + FormatYmd(d) + UrlSuffix;
    assert url[..|UrlPrefix|] == UrlPrefix;
    assert url[|url| - |UrlSuffix|..] == UrlSuffix;
    url
  }

  /** The date an extract URL names, read from the eight digits between prefix and suffix. */
  function UrlDate(url: string): (r: Option<Date>)
    ensures r.Some? ==> ValidDate(r.value)
  {
    if |url| == |UrlPrefix| + 8 + |UrlSuffix| && StartsWith(url, UrlPrefix) && EndsWith(url, UrlSuffix)
    then ParseYmd(url[|UrlPrefix|..|UrlPrefix| + 8])
    else None
  }

  /** Every extract URL names the date it was built for, so different days request different files. */
  lemma UrlDateRoundTrip(d: Date)
    requires ValidDate(d)
    ensures UrlDate(GrantsUrl(d)) == Some(d)
  {
    var url := GrantsUrl(d);
    assert url[|UrlPrefix|..|UrlPrefix| + 8] == FormatYmd(d);
    FormatParseRoundTrip(d);
  }

  lemma GrantsUrlInjective(a: Date, b: Date)
    requires ValidDate(a) && ValidDate(b) && GrantsUrl(a) == GrantsUrl(b)
    ensures a == b
  {
    UrlDateRoundTrip(a);
    UrlDateRoundTrip(b);
  }

  // ---------------------------------------------------------------------
  // The archive
  // ---------------------------------------------------------------------

  /**
    What each of the three readers makes of a member's bytes:
    `read_csv`, `read_xml` and `read_csv(delimiter='|')`, each a table or a raised error.
  */
  datatype Parses = Parses(csv: Option<Table>, xml: Option<Table>, pipe: Option<Table>)

  /** An archive member: its name and, unless reading it raises, what the readers make of it. */
  datatype Member = Member(name: string, content: Option<Parses>)

  /** The response body: a ZIP archive or anything `zipfile` rejects. */
  datatype Body = NotZip | Zip(members: seq<Member>)

  /** One GET: a response with its status, or a timeout, or any other raised error. */
  datatype HttpReply = Response(status: int, body: Body) | Timeout | Failure

  /** `requests.get(url, timeout=300)`, given as a function of the URL. */
  type Fetch = string -> HttpReply

  /** `zf.namelist()`. */
  function Names(members: seq<Member>): (r: seq<string>)
    ensures |r| == |members| && forall i :: 0 <= i < |members| ==> r[i] == members[i].name
  {
    seq(|members|, i requires 0 <= i < |members| => members[i].name)
  }

  /** `'opportunit' in filename.lower()`. */
  predicate MentionsOpportunities(name: string) {
    Contains(Lower(name), "opportunit")
  }

  /** `filename.endswith('.csv') or filename.endswith('.xml')`. */
  predicate IsDataFile(name: string) {
    EndsWith(name, ".csv") || EndsWith(name, ".xml")
  }

  /** The index of the first name `p` accepts, or `|names|` when it accepts none. */
  function FirstWhere(names: seq<string>, p: string -> bool): (r: nat)
    ensures r <= |names|
    ensures forall j :: 0 <= j < r ==> !p(names[j])
    ensures r < |names| ==> p(names[r])
  {
    if names == [] then 0
    else if p(names[0]) then 0
    else 1 + FirstWhere(names[1..], p)
  }

  /** The member the source reads: by name, then by extension, then the first of all. */
  function ChooseMember(names: seq<string>): Option<string> {
    var byName := FirstWhere(names, MentionsOpportunities);
    var byType := FirstWhere(names, IsDataFile);
    if byName < |names| then Some(names[byName])
    else if byType < |names| then Some(names[byType])
    else if names != [] then Some(names[0])
    else None
  }

  /**
    The chosen member is one of the names: the first whose name mentions
    opportunities when any does, else the first data file when there is
    one, else the first member, and nothing only for an empty archive.
  */
  lemma ChooseMemberSpec(names: seq<string>)
    ensures ChooseMember(names).None? <==> names == []
    ensures ChooseMember(names).Some? ==> ChooseMember(names).value in names
    ensures forall i ::
              (0 <= i < |names| && MentionsOpportunities(names[i]) &&
               forall j :: 0 <= j < i ==> !MentionsOpportunities(names[j])) ==>
              ChooseMember(names) == Some(names[i])
    ensures (forall j :: 0 <= j < |names| ==> !MentionsOpportunities(names[j])) ==>
              forall i ::
                (0 <= i < |names| && IsDataFile(names[i]) &&
                 forall j :: 0 <= j < i ==> !IsDataFile(names[j])) ==>
                ChooseMember(names) == Some(names[i])
    ensures names != [] && (forall j :: 0 <= j < |names| ==> !MentionsOpportunities(names[j]) && !IsDataFile(names[j])) ==>
              ChooseMember(names) == Some(names[0])
  {
  }

  /** The three loops over `file_list`, each stopping at its first hit. */
  method SelectMember(fileList: seq<string>) returns (chosen: Option<string>)
    ensures chosen == ChooseMember(fileList)
  {
    chosen := None;
    var i := 0;
    while i < |fileList|
      invariant 0 <= i <= |fileList|
      invariant forall j :: 0 <= j < i ==> !MentionsOpportunities(fileList[j])
    {
      if MentionsOpportunities(fileList[i]) {
        chosen := Some(fileList[i]);
        return;
      }
      i := i + 1;
    }
    i := 0;
    while i < |fileList|
      invariant 0 <= i <= |fileList|
      invariant forall j :: 0 <= j < i ==> !IsDataFile(fileList[j])
    {
      if IsDataFile(fileList[i]) {
        chosen := Some(fileList[i]);
        return;
      }
      i := i + 1;
    }
    if fileList != [] {
      chosen := Some(fileList[0]);
    }
  }

  /** `zf.open(name)`: the archive's name table keeps the last member of each name. */
  function OpenMember(members: seq<Member>, name: string): (r: Option<Member>)
    ensures r.None? <==> name !in Names(members)
    ensures r.Some? ==> r.value.name == name && r.value in members
  {
    if members == [] then None
    else
      var last := members[|members| - 1];
      if last.name == name then Some(last)
      else
        var r := OpenMember(members[..|members| - 1], name);
        assert Names(members) == Names(members[..|members| - 1]) + [last.name];
        r
  }

  /** The readers in the source's order: the first that does not raise gives the table. */
  function ParseMember(p: Parses): (r: Option<Table>)
    ensures r.None? <==> p.csv.None? && p.xml.None? && p.pipe.None?
    ensures p.csv.Some? ==> r == p.csv
    ensures p.csv.None? && p.xml.Some? ==> r == p.xml
    ensures p.csv.None? && p.xml.None? ==> r == p.pipe
  {
    if p.csv.Some? then p.csv
    else if p.xml.Some? then p.xml
    else p.pipe
  }

  /**
    One attempt's table: only a 200 response whose body is an archive with
    a member to read, a (non-empty) member name, a readable member and one
    reader that succeeds gives one.
  */
  function ExtractFrom(reply: HttpReply): Option<Table> {
    if reply.Response? && reply.status == 200 && reply.body.Zip? then
      var members := reply.body.members;
      var chosen := ChooseMember(Names(members));
      if chosen.None? || chosen.value == "" then None
      else
        match OpenMember(members, chosen.value)
        case None => None
        case Some(m) => if m.content.None? then None else ParseMember(m.content.value)
    else None
  }

  /** The body of one attempt, from the status check to the three readers. */
  method ReadExtract(reply: HttpReply) returns (r: Option<Table>)
    ensures r == ExtractFrom(reply)
  {
    r := None;
    if !(reply.Response? && reply.status == 200) || reply.body.NotZip? {
      return;
    }
    var members := reply.body.members;
    var chosen := SelectMember(Names(members));
    if chosen.None? || chosen.value == "" {
      return;
    }
    ChooseMemberSpec(Names(members));
    var m := OpenMember(members, chosen.value).value;
    if m.content.None? {
      return;
    }
    var p := m.content.value;
    if p.csv.Some? {
      return p.csv;
    }
    if p.xml.Some? {
      return p.xml;
    }
    if p.pipe.Some? {
      return p.pipe;
    }
  }

  // ---------------------------------------------------------------------
  // download_grants_extract
  // ---------------------------------------------------------------------

  /** What the attempt for one day yields: its table, or nothing when the search moves on. */
  type Attempt = Date -> Option<Table>

  /** The attempt for a day is a GET of that day's URL followed by the archive reading above. */
  function Extracts(fetch: Fetch): (attempt: Attempt)
    ensures forall d :: ValidDate(d) ==> attempt(d) == ExtractFrom(fetch(GrantsUrl(d)))
  {
    d => if ValidDate(d) then ExtractFrom(fetch(GrantsUrl(d))) else None
  }

  /** The days whose extract was requested, in order, and what the search returned. */
  datatype Lookback = Lookback(days: seq<Date>, result: Result<Table>)

  /**
    The search from day `d` with `remaining` attempts left. A failed attempt
    steps back a day even when it was the last one, so 0001-01-01 raises
    after its own attempt.
  */
  function LookbackFrom(attempt: Attempt, d: Date, remaining: nat): Lookback
    requires ValidDate(d)
    decreases remaining
  {
    if remaining == 0 then Lookback([], Ok(EmptyTable))
    else
      match attempt(d)
      case Some(t) => Lookback([d], Ok(t))
      case None =>
        match PrevDay(d)
        case None => Lookback([d], Err(DateOverflow))
        case Some(p) =>
          var rest := LookbackFrom(attempt, p, remaining - 1);
          Lookback([d] + rest.days, rest.result)
  }

  /** `range(max_attempts)` runs no attempt for a count below one. */
  function Attempts(maxAttempts: int): (n: nat)
    ensures maxAttempts >= 0 ==> n == maxAttempts
    ensures maxAttempts < 0 ==> n == 0
  {
    if maxAttempts < 0 then 0 else maxAttempts
  }

  /** One step of the search: the first attempt's outcome and what follows it. */
  lemma LookbackStep(attempt: Attempt, d: Date, remaining: nat)
    requires ValidDate(d) && remaining > 0
    ensures attempt(d).Some? ==> LookbackFrom(attempt, d, remaining) == Lookback([d], Ok(attempt(d).value))
    ensures attempt(d).None? && PrevDay(d).None? ==> LookbackFrom(attempt, d, remaining) == Lookback([d], Err(DateOverflow))
    ensures attempt(d).None? && PrevDay(d).Some? ==>
      var rest := LookbackFrom(attempt, PrevDay(d).value, remaining - 1);
      LookbackFrom(attempt, d, remaining) == Lookback([d] + rest.days, rest.result)
  {
  }

  /** Attempt `i` is for the day `i` days before `d`. */
  predicate CountsBack(d: Date, days: seq<Date>)
    requires ValidDate(d)
  {
    forall i :: 0 <= i < |days| ==> MinusDays(d, i) == Some(days[i])
  }

  /** Every attempt but the last failed. */
  predicate EarlierFailed(attempt: Attempt, days: seq<Date>) {
    forall i :: 0 <= i < |days| - 1 ==> attempt(days[i]).None?
  }

  /** One pass of the loop body up to the step back: build the URL, GET it, read the archive. */
  method TryDay(fetch: Fetch, d: Date) returns (r: Option<Table>)
    requires ValidDate(d)
    ensures r == Extracts(fetch)(d)
  {
    var url := GrantsUrl(d);
    r := ReadExtract(fetch(url));
  }

  /**
    The `for attempt in range(max_attempts)` loop: try the day, stop at the
    first table, step back a day otherwise.
  */
  method Search(attempt: Attempt, today: Date, n: nat) returns (r: Result<Table>)
    requires ValidDate(today)
    ensures r == LookbackFrom(attempt, today, n).result
  {
    var target := today;
    for i := 0 to n
      invariant ValidDate(target)
      invariant LookbackFrom(attempt, today, n).result == LookbackFrom(attempt, target, n - i).result
    {
      var table := attempt(target);
      LookbackStep(attempt, target, n - i);
      if table.Some? {
        return Ok(table.value);
      }
      var previous := PrevDay(target);
      if previous.None? {
        return Err(DateOverflow);
      }
      target := previous.value;
    }
    r := Ok(EmptyTable);
  }

  /**
    `download_grants_extract`, with `datetime.now()` given as `today`: the
    table of the first day that yields one, the empty table when none of the
    attempts does, or the overflow error of stepping back from 0001-01-01.
  */
  method DownloadGrantsExtract(fetch: Fetch, today: Date, maxAttempts: int) returns (r: Result<Table>)
    requires ValidDate(today)
    ensures r == LookbackFrom(Extracts(fetch), today, Attempts(maxAttempts)).result
  {
    r := Search(Extracts(fetch), today, Attempts(maxAttempts));
  }

  /** At most `remaining` requests go out. */
  lemma {:induction false} LookbackLength(attempt: Attempt, d: Date, remaining: nat)
    requires ValidDate(d)
    ensures |LookbackFrom(attempt, d, remaining).days| <= remaining
    decreases remaining
  {
    if remaining > 0 && attempt(d).None? && PrevDay(d).Some? {
      LookbackLength(attempt, PrevDay(d).value, remaining - 1);
    }
  }

  /** Attempt `i` requests the extract of the day `i` days before `d`. */
  lemma {:induction false} LookbackDates(attempt: Attempt, d: Date, remaining: nat)
    requires ValidDate(d)
    ensures CountsBack(d, LookbackFrom(attempt, d, remaining).days)
    decreases remaining
  {
    if remaining > 0 && attempt(d).None? && PrevDay(d).Some? {
      var p := PrevDay(d).value;
      LookbackDates(attempt, p, remaining - 1);
      var days := LookbackFrom(attempt, d, remaining).days;
      var rest := LookbackFrom(attempt, p, remaining - 1).days;
      assert days == [d] + rest;
      forall i | 0 < i < |days| ensures MinusDays(d, i) == Some(days[i]) {
        assert days[i] == rest[i - 1];
        assert MinusDays(d, i) == MinusDays(p, i - 1);
      }
    }
  }

  /** Every attempt before the last one failed: the search stops at the first table. */
  lemma {:induction false} LookbackFailures(attempt: Attempt, d: Date, remaining: nat)
    requires ValidDate(d)
    ensures EarlierFailed(attempt, LookbackFrom(attempt, d, remaining).days)
    decreases remaining
  {
    if remaining > 0 && attempt(d).None? && PrevDay(d).Some? {
      var p := PrevDay(d).value;
      LookbackFailures(attempt, p, remaining - 1);
      var days := LookbackFrom(attempt, d, remaining).days;
      var rest := LookbackFrom(attempt, p, remaining - 1).days;
      assert days == [d] + rest;
      forall i | 0 <= i < |days| - 1 ensures attempt(days[i]).None? {
        if i > 0 {
          assert days[i] == rest[i - 1];
        } else {
          assert days[0] == d;
        }
      }
    }
  }

  /**
    How the search ends: with the table of its last attempt, with an empty
    table after exactly `remaining` failed attempts, or with the overflow
    error after a failed attempt for 0001-01-01.
  */
  lemma {:induction false} LookbackResult(attempt: Attempt, d: Date, remaining: nat)
    requires ValidDate(d)
    ensures var run := LookbackFrom(attempt, d, remaining);
      var k := |run.days|;
      || (k > 0 && run.result.Ok? && attempt(run.days[k - 1]) == Some(run.result.value))
      || (k == remaining && run.result == Ok(EmptyTable) && (k > 0 ==> attempt(run.days[k - 1]).None?))
      || (k > 0 && run.result == Err(DateOverflow) && run.days[k - 1] == Date(MinYear, 1, 1)
            && attempt(run.days[k - 1]).None?)
    decreases remaining
  {
    if remaining > 0 && attempt(d).None? && PrevDay(d).Some? {
      var p := PrevDay(d).value;
      LookbackResult(attempt, p, remaining - 1);
      var run := LookbackFrom(attempt, d, remaining);
      var rest := LookbackFrom(attempt, p, remaining - 1);
      assert run.days == [d] + rest.days;
      if |rest.days| > 0 {
        assert run.days[|run.days| - 1] == rest.days[|rest.days| - 1];
      }
    }
  }

  /**
    When no extract of the window can be read and the window stays after
    0001-01-01, every attempt is made and the result is the empty table.
  */
  lemma NoExtractGivesEmptyTable(attempt: Attempt, today: Date, remaining: nat)
    requires ValidDate(today) && remaining <= DayNumber(today)
    requires forall i :: 0 <= i < remaining && MinusDays(today, i).Some? ==> attempt(MinusDays(today, i).value).None?
    ensures LookbackFrom(attempt, today, remaining).result == Ok(EmptyTable)
    ensures |LookbackFrom(attempt, today, remaining).days| == remaining
  {
    var run := LookbackFrom(attempt, today, remaining);
    LookbackLength(attempt, today, remaining);
    LookbackDates(attempt, today, remaining);
    LookbackResult(attempt, today, remaining);
    var k := |run.days|;
    if k > 0 {
      var last := run.days[k - 1];
      assert MinusDays(today, k - 1) == Some(last);
      MinusDaysAfterFirst(today, k - 1);
      assert attempt(last).None?;
      assert run.result.Ok? ==> attempt(last) != Some(run.result.value);
    }
    assert run.result != Err(DateOverflow);
  }
}
