/**
 The local-export pipeline (`csv_to_json_optimized.py`): which violation rows
 are English-proficiency violations, the map from inspection to
 out-of-service flag built from them, the join of the inspection rows
 against that map, and the report assembled from the resulting counts.
 */
module CsvPipeline {
  import opened Wrappers
  import opened Seqs
  import opened Text
  import opened Dates
  import opened Tables
  import opened Summary
  import opened Movers

  // ---------------------------------------------------------------------------
  // Violation rows
  // ---------------------------------------------------------------------------

  /**
   The test on the two code columns: part 391 once stripped, and a section
   that, stripped and upper-cased, is 11(B)(2) written out or starts with
   `11B2` (`11B2`, `11B2-Z`, `11B2-S`, ...).
   */
  predicate IsElpCode(part: string, section: string) {
    var sec := Upper(Strip(section));
    Strip(part) == "391" && (sec == "11(B)(2)" || "11B2" <= sec)
  }

  /** A violation row of part 391 section 11(b)(2), read from either spelling of the column names. */
  predicate IsElpRow(row: Row) {
    IsElpCode(Either(row, "PART_NO", "part_no"), Either(row, "PART_NO_SECTION", "part_no_section"))
  }

  /** Whitespace around either code and the case of the section letters do not change the verdict. */
  lemma ElpCodeIgnoresPaddingAndCase(w1: string, part: string, w2: string, v1: string, section: string, v2: string)
    requires AllSpace(w1) && AllSpace(w2) && AllSpace(v1) && AllSpace(v2)
    ensures IsElpCode(w1 + part + w2, v1 + section + v2) == IsElpCode(part, Upper(section))
  {
    StripPadded(w1, part, w2);
    StripPadded(v1, section, v2);
    UpperStripCommute(section);
    UpperStripCommute(Upper(section));
    UpperIdempotent(section);
    StripIdempotent(Upper(section));
  }

  /** The section spellings the script names all match. */
  lemma ElpCodeMatches()
    ensures IsElpCode("391", "11B2") && IsElpCode("391", "11b2-z") && IsElpCode("391", "11(B)(2)")
  {
    StripUnpadded("391");
    StripUnpadded("11B2");
    assert Upper("11B2") == "11B2";
    StripUnpadded("11b2-z");
    assert Upper("11b2-z") == "11B2-Z";
    StripUnpadded("11(B)(2)");
    assert Upper("11(B)(2)") == "11(B)(2)";
  }

  /** Another section of part 391, or the same section of another part, does not match. */
  lemma ElpCodeRejects()
    ensures !IsElpCode("391", "11B3") && !IsElpCode("392", "11B2") && !IsElpCode("", "11B2")
  {
    StripUnpadded("391");
    StripUnpadded("392");
    StripUnpadded("11B3");
    StripUnpadded("11B2");
  }

  /** The indicator spellings read as "out of service", once stripped and upper-cased. */
  predicate IsOosIndicator(text: string) {
    Upper(Strip(text)) in ["TRUE", "T", "Y", "YES", "1"]
  }

  /** The out-of-service flag of a violation row. */
  predicate IsOosRow(row: Row) {
    IsOosIndicator(Either(row, "OUT_OF_SERVICE_INDICATOR", "out_of_service_indicator"))
  }

  /** Whitespace around the indicator and its letter case do not change the flag. */
  lemma OosIndicatorIgnoresPaddingAndCase(w1: string, text: string, w2: string)
    requires AllSpace(w1) && AllSpace(w2)
    ensures IsOosIndicator(w1 + text + w2) == IsOosIndicator(Upper(text))
  {
    StripPadded(w1, text, w2);
    UpperStripCommute(text);
    UpperStripCommute(Upper(text));
    UpperIdempotent(text);
    StripIdempotent(Upper(text));
  }

  /** The accepted spellings set the flag in any letter case. */
  lemma OosIndicatorAccepts()
    ensures IsOosIndicator("yes") && IsOosIndicator("True") && IsOosIndicator("y") && IsOosIndicator("1")
  {
    StripUnpadded("yes");
    assert Upper("yes") == "YES";
    StripUnpadded("True");
    assert Upper("True") == "TRUE";
    StripUnpadded("y");
    assert Upper("y") == "Y";
    StripUnpadded("1");
    assert Upper("1") == "1";
  }

  /** An empty indicator, and spellings outside the list, do not set the flag. */
  lemma OosIndicatorRejects()
    ensures !IsOosIndicator("") && !IsOosIndicator("N") && !IsOosIndicator("no")
  {
    assert Strip("") == "";
    StripUnpadded("N");
    StripUnpadded("no");
    assert Upper("no") == "NO";
  }

  /** A row with neither indicator column, or with both empty, is not out of service. */
  lemma MissingIndicatorIsNotOos(row: Row)
    requires Get(row, "OUT_OF_SERVICE_INDICATOR") == "" && Get(row, "out_of_service_indicator") == ""
    ensures !IsOosRow(row)
  {
    assert Strip("") == "";
  }

  /**
   The change-date test: the first word of the stripped text is eight
   digits `YYYYMMDD` whose year is at least the cutoff.
   */
  predicate IsRecentDate(text: string) {
    var day := FirstWord(Strip(text));
    if |day| == 8 && AllDigits(day) then
      assert AllDigits(day[..4]);
      Value(day[..4]) >= CutoffYear
    else false
  }

  /** The change date of a violation row is recent. */
  predicate IsRecent(row: Row) {
    IsRecentDate(Either(row, "CHANGE_DATE", "change_date"))
  }

  /**
   A change date written `YYYYMMDD` and followed by a time (or by nothing)
   passes exactly when its year is the cutoff year or later.
   */
  lemma RecentDateReadsCompactDate(d: Date, time: string)
    requires IsValid(d)
    requires time == "" || IsSpace(time[0])
    ensures IsRecentDate(FormatCompact(d) + time) <==> CutoffYear <= d.year
  {
    var c := FormatCompact(d);
    var s := c + time;
    assert s[0] == c[0] && s[7] == c[7];
    LeadIs(s, 0);
    var r := Strip(s);
    assert |r| >= 8;
    assert r[..8] == c;
    LeadIs(r, 0);
    WordPrefixIs(r, 8);
    assert FirstWord(r) == c;
    assert c[..4] == Digits(d.year, 4);
    ValueOfDigits(d.year, 4);
  }

  /** The inspection a row belongs to (both files use the same columns). */
  function InspectionId(row: Row): string {
    Either(row, "INSPECTION_ID", "inspection_id")
  }

  /** A violation row that enters the map: ELP, recent, and with an inspection id. */
  predicate Accepts(row: Row) {
    IsElpRow(row) && IsRecent(row) && InspectionId(row) != ""
  }

  /**
   A dictionary filled by assignment: `index[key(x)] = flag(x)` for each
   accepted `x` in turn.
   */
  function LastWins<T>(rows: seq<T>, accept: T -> bool, key: T -> string, flag: T -> bool): map<string, bool> {
    if |rows| == 0 then map[]
    else
      var m := LastWins(rows[..|rows| - 1], accept, key, flag);
      var x := rows[|rows| - 1];
      if accept(x) then m[key(x) := flag(x)] else m
  }

  /** Row `i` is the last accepted row with key `k`. */
  ghost predicate LastFor<T>(rows: seq<T>, accept: T -> bool, key: T -> string, k: string, i: int) {
    && 0 <= i < |rows| && accept(rows[i]) && key(rows[i]) == k
    && forall j :: i < j < |rows| ==> !(accept(rows[j]) && key(rows[j]) == k)
  }

  /**
   The dictionary holds exactly the keys of the accepted rows, and the flag
   of each key is the flag of its last accepted row.
   */
  lemma {:induction false} LastWinsSpec<T>(rows: seq<T>, accept: T -> bool, key: T -> string, flag: T -> bool)
    ensures forall k :: k in LastWins(rows, accept, key, flag) <==>
      exists i :: 0 <= i < |rows| && accept(rows[i]) && key(rows[i]) == k
    ensures forall k, i :: LastFor(rows, accept, key, k, i) ==>
      k in LastWins(rows, accept, key, flag) && LastWins(rows, accept, key, flag)[k] == flag(rows[i])
  {
    if |rows| > 0 {
      var init := rows[..|rows| - 1];
      LastWinsSpec(init, accept, key, flag);
      var m, m0 := LastWins(rows, accept, key, flag), LastWins(init, accept, key, flag);
      var last := |rows| - 1;
      assert m == if accept(rows[last]) then m0[key(rows[last]) := flag(rows[last])] else m0;
      forall k ensures k in m <==> exists i :: 0 <= i < |rows| && accept(rows[i]) && key(rows[i]) == k {
        if accept(rows[last]) && key(rows[last]) == k {
          assert 0 <= last < |rows| && accept(rows[last]) && key(rows[last]) == k;
        }
        if exists i :: 0 <= i < |init| && accept(init[i]) && key(init[i]) == k {
          var i :| 0 <= i < |init| && accept(init[i]) && key(init[i]) == k;
          assert rows[i] == init[i];
        }
        if exists i :: 0 <= i < |rows| && accept(rows[i]) && key(rows[i]) == k {
          var i :| 0 <= i < |rows| && accept(rows[i]) && key(rows[i]) == k;
          if i < |init| {
            assert init[i] == rows[i];
          }
        }
      }
      forall k, i | LastFor(rows, accept, key, k, i) ensures k in m && m[k] == flag(rows[i]) {
        if i < |init| {
          assert LastFor(init, accept, key, k, i);
        }
      }
    }
  }

  /** The dictionary is empty exactly when no row is accepted. */
  lemma LastWinsEmpty<T>(rows: seq<T>, accept: T -> bool, key: T -> string, flag: T -> bool)
    ensures |LastWins(rows, accept, key, flag)| == 0 <==> Count(rows, accept) == 0
  {
    var m := LastWins(rows, accept, key, flag);
    LastWinsSpec(rows, accept, key, flag);
    CountPositive(rows, accept);
    if Count(rows, accept) > 0 {
      var i :| 0 <= i < |rows| && accept(rows[i]);
      assert key(rows[i]) in m;
    }
    if |m| > 0 {
      var k :| k in m;
    }
  }

  /**
   `load_elp_violations`: inspection id to the out-of-service flag of its
   accepted violation rows, a later row overwriting an earlier one. No
   inspection is recorded under an empty id.
   */
  function LoadViolations(rows: seq<Row>): (m: map<string, bool>)
    ensures "" !in m
  {
    LastWinsSpec(rows, Accepts, InspectionId, IsOosRow);
    LastWins(rows, Accepts, InspectionId, IsOosRow)
  }

  /** A row that is not ELP, too old, or without an id leaves the map as it was. */
  lemma RejectedRowIgnored(rows: seq<Row>, row: Row)
    requires !Accepts(row)
    ensures LoadViolations(rows + [row]) == LoadViolations(rows)
  {
    assert (rows + [row])[..|rows|] == rows;
  }

  /** Of two accepted rows of one inspection, the later decides its flag. */
  lemma LaterRowWins(rows: seq<Row>, first: Row, second: Row)
    requires Accepts(first) && Accepts(second) && InspectionId(first) == InspectionId(second)
    ensures LoadViolations(rows + [first, second])[InspectionId(first)] == IsOosRow(second)
  {
    var all := rows + [first, second];
    LastWinsSpec(all, Accepts, InspectionId, IsOosRow);
    assert LastFor(all, Accepts, InspectionId, InspectionId(first), |all| - 1);
  }

  // ---------------------------------------------------------------------------
  // Inspection rows
  // ---------------------------------------------------------------------------

  /** Why an inspection row contributes to no count. */
  datatype Skip = NotElp | NoState | NoDate | BadDate | BeforeCutoff

  /** What one inspection row does to the counts. */
  datatype Outcome = Counted(event: Event) | Skipped(reason: Skip)

  /** The report state as given (not stripped). */
  function ReportState(row: Row): string {
    Either(row, "REPORT_STATE", "report_state")
  }

  /** The inspection date as given. */
  function InspectionDate(row: Row): string {
    Either(row, "INSP_DATE", "insp_date")
  }

  /**
   One pass of the loop body of `process_inspections`: the row is skipped
   unless its inspection is in the map, it names a state, its date reads in
   one of the four encodings, and that date is in the cutoff year or later.
   */
  function Classify(elp: map<string, bool>, row: Row): (o: Outcome)
    ensures o.Counted? ==> CutoffYear <= o.event.month.year && 1 <= o.event.month.month <= 12
    ensures o.Counted? ==> o.event.state != "" && InspectionId(row) in elp
  {
    var id := InspectionId(row);
    if id !in elp then Skipped(NotElp)
    else if ReportState(row) == "" then Skipped(NoState)
    else if InspectionDate(row) == "" then Skipped(NoDate)
    else
      match Normalize(Strip(InspectionDate(row)))
      case None => Skipped(BadDate)
      case Some(d) =>
        if d.year < CutoffYear then Skipped(BeforeCutoff)
        else Counted(Event(MonthOf(d), ReportState(row), elp[id]))
  }

  /** One of the four encodings reads `s` as `d`. */
  ghost predicate ReadsAs(s: string, d: Date) {
    || ParseCompact(s) == Some(d) || ParseIso(BeforeT(s)) == Some(d)
    || ParseDayMonYy(Upper(s)) == Some(d) || ParseSlash(s) == Some(d)
  }

  /**
   A row counts exactly when its inspection is in the map, it has a state,
   and one of the four encodings reads its stripped date as a date in the
   cutoff year or later; it then counts under that date's month, its state
   and its inspection's flag.
   */
  lemma ClassifyCounts(elp: map<string, bool>, row: Row)
    ensures Classify(elp, row).Counted? <==>
      && InspectionId(row) in elp && ReportState(row) != ""
      && exists d :: ReadsAs(Strip(InspectionDate(row)), d) && CutoffYear <= d.year
    ensures forall d :: ReadsAs(Strip(InspectionDate(row)), d) && Classify(elp, row).Counted? ==>
      Classify(elp, row).event == Event(MonthOf(d), ReportState(row), elp[InspectionId(row)])
  {
    var s := Strip(InspectionDate(row));
    forall d ensures Normalize(s) == Some(d) <==> ReadsAs(s, d) {
      NormalizeIsTheMatchingEncoding(s, d);
    }
    if InspectionDate(row) == "" {
      assert s == "";
      assert Normalize(s) == None;
    }
  }

  /**
   A row of a mapped inspection, with a state, dated in the cutoff year or
   later in any of the four encodings (two-digit years only up to 2068),
   counts under that date's month.
   */
  lemma ClassifyReadsEveryEncoding(elp: map<string, bool>, row: Row, d: Date, text: string)
    requires IsValid(d) && CutoffYear <= d.year
    requires InspectionId(row) in elp && ReportState(row) != ""
    requires InspectionDate(row) == text
    requires || text == FormatCompact(d) || text == FormatIso(d) || text == FormatSlash(d)
             || (d.year <= 2068 && text == FormatDayMonYy(d))
    ensures Classify(elp, row) == Counted(Event(MonthOf(d), ReportState(row), elp[InspectionId(row)]))
  {
    NormalizeRoundTrips(d);
    EncodingsUnpadded(d);
    assert Normalize(Strip(text)) == Some(d);
  }

  /** The event of a counted row, nothing for a skipped one. */
  function CountedEvent(elp: map<string, bool>): Row -> Option<Event> {
    (row: Row) => match Classify(elp, row)
      case Counted(e) => Some(e)
      case Skipped(_) => None
  }

  /** The events of the counted inspection rows, in row order. */
  function Events(elp: map<string, bool>, rows: seq<Row>): (evs: seq<Event>)
    ensures EventMonthsValid(evs)
    ensures forall i :: 0 <= i < |evs| ==> CutoffYear <= evs[i].month.year
  {
    EventsOf(rows, CountedEvent(elp))
  }

  // ---------------------------------------------------------------------------
  // The report
  // ---------------------------------------------------------------------------

  /** One state of `state_monthly`. */
  datatype StateMonthly = StateMonthly(state: string, entries: seq<MonthEntry>)

  /** The fields of `elp_data.json` the counts determine. */
  datatype CsvReport = CsvReport(
    totalOos: nat,
    totalAll: nat,
    oosRate: real,
    avgPerMonth: int,
    peakMonth: string,
    peakCount: nat,
    momChange: real,
    labels: seq<string>,
    monthlyOos: seq<nat>,
    monthlyAll: seq<nat>,
    states: seq<StateRow>,
    stateMonthly: seq<StateMonthly>,
    movers: MoverLists,
    stateCount: nat)

  /** `generate_json` over the count tables. */
  function GenerateJson(ts: Tables): (r: CsvReport)
    requires MonthsValid(ts.monthly.order)
    ensures |r.labels| == |r.monthlyOos| == |r.monthlyAll| == |ts.monthly.order|
    ensures |r.states| <= 10 && |r.stateMonthly| == |ts.states.order|
    ensures Valid(ts) ==> Sum(r.monthlyOos) == r.totalOos && Sum(r.monthlyAll) == r.totalAll
  {
    var ms := SortedMonths(ts.monthly);
    SortedMonthsValid(ts.monthly);
    MonthlySeriesAddUp(ts);
    var oos := OosSeries(ts.monthly, ms);
    CsvReport(
      ts.totalOos,
      ts.totalAll,
      Rate(ts.totalOos, ts.totalAll),
      AvgPerMonth(ts.totalOos, |ms|),
      PeakName(ts.monthly),
      PeakCount(ts.monthly),
      CsvMom(oos),
      Labels(ms),
      oos,
      AllSeries(ts.monthly, ms),
      TopStates(ts.states),
      seq(|ts.states.order|, i requires 0 <= i < |ts.states.order| =>
        StateMonthly(ts.states.order[i], StateBreakdown(ts.cells, ts.states.order[i], ms))),
      CsvMovers(ts.states.order, ts.cells, ms),
      StateCount(ts.states))
  }

  /** Why the script stops without writing a report. */
  datatype CsvError = NoElpViolations | NoInspectionsMatched

  /**
   The two counting passes of `main`: the map from the violation rows
   (`load_elp_violations`), then the count tables from the inspection rows
   (`process_inspections`), or the reason the script stops.
   */
  function CsvCounts(violations: seq<Row>, inspections: seq<Row>): (r: Result<Tables, CsvError>)
    ensures r.Success? ==> 0 < r.value.totalAll && MonthsValid(r.value.monthly.order) && Valid(r.value)
  {
    var elp := LoadViolations(violations);
    if |elp| == 0 then Failure(NoElpViolations)
    else
      var evs := Events(elp, inspections);
      var ts := Aggregate(evs);
      AggregateMonthsValid(evs);
      AggregateValid(evs);
      if ts.totalAll == 0 then Failure(NoInspectionsMatched) else Success(ts)
  }

  /** `main` without its files, prompt and output: the report, or the reason the script stops. */
  function Run(violations: seq<Row>, inspections: seq<Row>): (r: Result<CsvReport, CsvError>)
    ensures r.Success? ==> Sum(r.value.monthlyOos) == r.value.totalOos && Sum(r.value.monthlyAll) == r.value.totalAll
  {
    match CsvCounts(violations, inspections)
    case Failure(e) => Failure(e)
    case Success(ts) => Success(GenerateJson(ts))
  }

  /**
   The script stops for want of violations exactly when no violation row is
   accepted, and for want of matches exactly when no inspection row counts;
   otherwise the totals count the counted rows.
   */
  lemma CsvCountsOutcome(violations: seq<Row>, inspections: seq<Row>)
    ensures var elp := LoadViolations(violations); var r := CsvCounts(violations, inspections);
      && (r == Failure(NoElpViolations) <==> Count(violations, Accepts) == 0)
      && (r == Failure(NoInspectionsMatched) <==>
            Count(violations, Accepts) > 0 && Count(inspections, Counts(CountedEvent(elp), Overall)) == 0)
      && (r.Success? ==>
            && r.value.totalAll == Count(inspections, Counts(CountedEvent(elp), Overall))
            && r.value.totalOos == Count(inspections, CountsOos(CountedEvent(elp), Overall)))
  {
    var elp := LoadViolations(violations);
    LastWinsEmpty(violations, Accepts, InspectionId, IsOosRow);
    EventsOfTally(inspections, CountedEvent(elp), Overall);
  }
}
