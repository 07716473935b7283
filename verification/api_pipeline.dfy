/**
 The API pipeline (`update_data.py`): the matcher that picks English
 proficiency violations out of the fetched inspection records, the
 counting in `process_violations`, and the summary it returns.
 */
module ApiPipeline {
  import opened Wrappers
  import opened Seqs
  import opened Text
  import opened Dates
  import opened Tables
  import opened Summary
  import opened Movers

  // ---------------------------------------------------------------------------
  // The matcher
  // ---------------------------------------------------------------------------

  /** The violation codes looked for, as substrings of `violation_code`. */
  function ElpCodes(): seq<string> {
    ["391.11B2", "391.11(B)(2)", "391.11B(2)"]
  }

  /**
   The matcher on the two text fields: the code contains one of the ELP
   codes (case-sensitively), or the lower-cased description mentions
   "english" or "language".
   */
  predicate IsElpText(code: string, desc: string) {
    var lower := Lower(desc);
    || Contains(code, "391.11B2") || Contains(code, "391.11(B)(2)") || Contains(code, "391.11B(2)")
    || Contains(lower, "english") || Contains(lower, "language")
  }

  /** The matcher on one fetched record; a missing field reads as "". */
  predicate IsElpRecord(rec: Row) {
    IsElpText(Get(rec, "violation_code"), Get(rec, "violation_desc"))
  }

  /**
   The matcher is a substring search: a record matches exactly when one of
   the codes occurs somewhere in its code, or one of the two words somewhere
   in its lower-cased description.
   */
  lemma IsElpTextIsSubstringSearch(code: string, desc: string)
    ensures IsElpText(code, desc) <==>
      || (exists c, i :: c in ElpCodes() && OccursAt(code, c, i))
      || (exists i :: OccursAt(Lower(desc), "english", i))
      || (exists i :: OccursAt(Lower(desc), "language", i))
  {
    if exists c, i :: c in ElpCodes() && OccursAt(code, c, i) {
      var c, i :| c in ElpCodes() && OccursAt(code, c, i);
      assert c == "391.11B2" || c == "391.11(B)(2)" || c == "391.11B(2)";
    }
    if Contains(code, "391.11B2") {
      var i :| OccursAt(code, "391.11B2", i);
      assert ElpCodes()[0] == "391.11B2";
    }
    if Contains(code, "391.11(B)(2)") {
      var i :| OccursAt(code, "391.11(B)(2)", i);
      assert ElpCodes()[1] == "391.11(B)(2)";
    }
    if Contains(code, "391.11B(2)") {
      var i :| OccursAt(code, "391.11B(2)", i);
      assert ElpCodes()[2] == "391.11B(2)";
    }
  }

  /** Codes match anywhere in the code field; the two words match in any case. */
  lemma IsElpTextMatches()
    ensures IsElpText("391.11B2", "") && IsElpText("V391.11(B)(2)", "")
    ensures IsElpText("", "ENGLISH proficiency") && IsElpText("", "Language")
  {
    assert OccursAt("391.11B2", "391.11B2", 0);
    assert OccursAt("V391.11(B)(2)", "391.11(B)(2)", 1);
    assert Lower("ENGLISH proficiency")[..7] == "english";
    assert OccursAt(Lower("ENGLISH proficiency"), "english", 0);
    assert Lower("Language") == "language";
    assert OccursAt("language", "language", 0);
  }

  /** Codes are matched case-sensitively, and an unrelated record does not match. */
  lemma IsElpTextRejects()
    ensures !IsElpText("391.11b2", "") && !IsElpText("392.2", "speeding")
  {
    assert !OccursAt("391.11b2", "391.11B2", 0) by {
      assert "391.11b2"[6] != "391.11B2"[6];
    }
    assert Lower("") == "";
    var low := Lower("speeding");
    assert low == "speeding";
    assert low[0..7] != "english" by { assert low[0..7][0] == low[0] == 's'; }
    assert low[1..8] != "english" by { assert low[1..8][0] == low[1] == 'p'; }
    assert !Contains(low, "english") by {
      assert forall i :: OccursAt(low, "english", i) ==> i == 0 || i == 1;
    }
    assert low[0..8] != "language" by { assert low[0..8][0] == low[0] == 's'; }
    assert !Contains(low, "language") by {
      assert forall i :: OccursAt(low, "language", i) ==> i == 0;
    }
  }

  /** `fetch_elp_violations` after the request: the matching records of one page, in order. */
  function KeepElp(records: seq<Row>): (r: seq<Row>)
    ensures forall i :: 0 <= i < |r| ==> IsElpRecord(r[i]) && r[i] in records
  {
    Filter(records, IsElpRecord)
  }

  /** Filtering page by page and concatenating the pages filters the whole result set. */
  lemma KeepElpPagewise(page: seq<Row>, rest: seq<Row>)
    ensures KeepElp(page + rest) == KeepElp(page) + KeepElp(rest)
  {
    FilterAppend(page, rest, IsElpRecord);
  }

  // ---------------------------------------------------------------------------
  // Counting
  // ---------------------------------------------------------------------------

  /** `oos_indicator` exactly `"Y"` or `"1"`: no trimming, no case folding. */
  predicate IsOosRecord(rec: Row) {
    Get(rec, "oos_indicator") == "Y" || Get(rec, "oos_indicator") == "1"
  }

  /** `violation.get("state", "UNKNOWN")`: a missing state is counted under "UNKNOWN". */
  function StateOf(rec: Row): string {
    if "state" in rec then rec["state"] else "UNKNOWN"
  }

  /**
   One pass of the loop body of `process_violations`: a record without an
   `inspection_date`, or whose date before any `T` is not `YYYY-MM-DD`, is
   skipped; any other counts under its month, its state and its flag.
   */
  function ApiClassify(rec: Row): (r: Option<Event>)
    ensures r.Some? ==> 1 <= r.value.month.month <= 12
    ensures r.Some? ==> Get(rec, "inspection_date") != ""
  {
    var date := Get(rec, "inspection_date");
    if date == "" then None
    else
      match ParseIso(BeforeT(date))
      case None => None
      case Some(d) => Some(Event(MonthOf(d), StateOf(rec), IsOosRecord(rec)))
  }

  /**
   A record stamped with a date and an optional time after `T` (the form the
   API returns) counts under that date's month.
   */
  lemma ApiClassifyReadsTimestamps(rec: Row, d: Date, time: string)
    requires IsValid(d) && (time == "" || time[0] == 'T')
    requires Get(rec, "inspection_date") == FormatIso(d) + time
    ensures ApiClassify(rec) == Some(Event(MonthOf(d), StateOf(rec), IsOosRecord(rec)))
  {
    IsoBeforeT(d, time);
    IsoRoundTrip(d);
  }

  /** The indicator test is exact: lower case, words and padding do not count. */
  lemma OosIsExact()
    ensures IsOosRecord(map["oos_indicator" := "Y"]) && IsOosRecord(map["oos_indicator" := "1"])
    ensures !IsOosRecord(map["oos_indicator" := "y"]) && !IsOosRecord(map["oos_indicator" := "YES"])
    ensures !IsOosRecord(map["oos_indicator" := " Y"]) && !IsOosRecord(map[])
  {
  }

  /** The events of the counted records, in order. */
  function ApiEvents(records: seq<Row>): (evs: seq<Event>)
    ensures EventMonthsValid(evs)
  {
    EventsOf(records, ApiClassify)
  }

  // ---------------------------------------------------------------------------
  // The summary
  // ---------------------------------------------------------------------------

  /** The fields of the dictionary `process_violations` returns that the counts determine. */
  datatype ApiReport = ApiReport(
    totalOos: nat,
    totalAll: nat,
    oosRate: real,
    avgPerMonth: int,
    peakMonth: string,
    peakCount: nat,
    momChange: real,
    labels: seq<string>,
    monthlyOos: seq<nat>,
    monthlyAll: seq<nat>,
    states: seq<StateRow>,
    movers: MoverLists,
    stateCount: nat)

  /**
   The statistics part of `process_violations` over the count tables. The
   movers are computed as the code is written: the drops are the first three
   negative changes of the ranking, so the ones closest to zero.
   */
  function ApiSummary(ts: Tables): (r: ApiReport)
    requires MonthsValid(ts.monthly.order)
    ensures |r.labels| == |r.monthlyOos| == |r.monthlyAll| == |ts.monthly.order|
    ensures |r.states| <= 10
    ensures Valid(ts) ==> Sum(r.monthlyOos) == r.totalOos && Sum(r.monthlyAll) == r.totalAll
  {
    var ms := SortedMonths(ts.monthly);
    SortedMonthsValid(ts.monthly);
    MonthlySeriesAddUp(ts);
    var oos := OosSeries(ts.monthly, ms);
    ApiReport(
      ts.totalOos,
      ts.totalAll,
      Rate(ts.totalOos, ts.totalAll),
      AvgPerMonth(ts.totalOos, |ms|),
      PeakName(ts.monthly),
      PeakCount(ts.monthly),
      ApiMom(oos),
      Labels(ms),
      oos,
      AllSeries(ts.monthly, ms),
      TopStates(ts.states),
      ApiMoversAsWritten(ts.states.order, ts.cells, ms),
      StateCount(ts.states))
  }

  /** The count tables of `process_violations`. */
  function ApiTables(records: seq<Row>): (ts: Tables)
    ensures MonthsValid(ts.monthly.order)
  {
    var evs := ApiEvents(records);
    AggregateMonthsValid(evs);
    Aggregate(evs)
  }

  /**
   The totals count the records that carry a readable date, one each, and
   the out-of-service ones among them; every table adds up to the totals.
   */
  lemma ApiTablesCount(records: seq<Row>)
    ensures var ts := ApiTables(records);
      && Valid(ts)
      && ts.totalAll == Count(records, Counts(ApiClassify, Overall))
      && ts.totalOos == Count(records, CountsOos(ApiClassify, Overall))
  {
    AggregateValid(ApiEvents(records));
    EventsOfTally(records, ApiClassify, Overall);
  }

  /** Why `process_violations` raises instead of returning a summary. */
  datatype ApiError = MonthTextUnreadable

  /**
   Whether every counted month survives the round trip through its key
   text: `strftime("%Y-%m")` writes a year before 1000 with fewer than four
   digits (as the C library on Linux does, on CPython releases that do not
   pad `%Y` themselves), and `strptime(month, "%Y-%m")` reads exactly four.
   */
  predicate ReadableMonths(ms: seq<YearMonth>) {
    forall i :: 0 <= i < |ms| ==> 1000 <= ms[i].year
  }

  lemma ReadableMonthsNoEarlyYear(ms: seq<YearMonth>)
    ensures ReadableMonths(ms) <==> !exists m :: m in ms && m.year < 1000
  {
    if !ReadableMonths(ms) {
      var i :| 0 <= i < |ms| && ms[i].year < 1000;
      assert ms[i] in ms;
    }
  }

  /**
   `process_violations` over the matched records: it raises when a counted
   month's key text cannot be read back; otherwise its totals count the
   records with a readable date and their OOS flags, and its monthly series
   add up to those totals.
   */
  function ProcessViolations(records: seq<Row>): (r: Result<ApiReport, ApiError>)
    ensures r.Failure? <==> exists m :: m in ApiTables(records).monthly.order && m.year < 1000
    ensures r.Success? ==>
      && r.value.totalAll == Count(records, Counts(ApiClassify, Overall))
      && r.value.totalOos == Count(records, CountsOos(ApiClassify, Overall))
      && Sum(r.value.monthlyOos) == r.value.totalOos && Sum(r.value.monthlyAll) == r.value.totalAll
  {
    var ts := ApiTables(records);
    ApiTablesCount(records);
    ReadableMonthsNoEarlyYear(ts.monthly.order);
    if !ReadableMonths(ts.monthly.order) then Failure(MonthTextUnreadable)
    else Success(ApiSummary(ts))
  }
}
