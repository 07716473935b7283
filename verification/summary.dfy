/**
 The summary figures both scripts derive from the count tables: the OOS
 rate, the average per month, the peak month, month-over-month change,
 the top states, the number of states with an OOS violation, and the
 ranked lists behind "biggest movers". Percentages are exact rationals;
 the scripts' `round(..., 1)` is not applied.
 */
module Summary {
  import opened Wrappers
  import opened Seqs
  import opened Sorting
  import opened Dates
  import opened Tables
  import opened Ranking

  // ---------------------------------------------------------------------------
  // Figures
  // ---------------------------------------------------------------------------

  /** `total_oos / total_all * 100`, or 0 when nothing was counted: the OOS rate in percent. */
  function Rate(oos: nat, all: nat): (r: real)
    ensures all == 0 ==> r == 0.0
    ensures all > 0 ==> r * all as real == 100.0 * oos as real
    ensures oos <= all ==> 0.0 <= r <= 100.0
  {
    if all > 0 then oos as real / all as real * 100.0 else 0.0
  }

  /**
   `round(total / months)` with Python's ties-to-even rule, or 0 when there
   are no months: the whole number nearest the exact average.
   */
  function AvgPerMonth(total: nat, months: nat): (r: int)
    ensures months == 0 ==> r == 0
    ensures months > 0 ==> NearestEven(r, total, months)
  {
    if months == 0 then 0
    else
      var q, rem := total / months, total % months;
      if 2 * rem < months then q
      else if 2 * rem > months then q + 1
      else if q % 2 == 0 then q
      else q + 1
  }

  /** `r` is within one half of `n / d`, and even when `n / d` lies exactly halfway. */
  ghost predicate NearestEven(r: int, n: int, d: int) {
    var e := 2 * (r * d - n);
    -d <= e <= d && ((e == d || e == -d) ==> r % 2 == 0)
  }

  /** The rounded average is the only whole number nearest the exact average, ties going to the even one. */
  lemma AvgPerMonthUnique(total: nat, months: nat, r: int)
    requires months > 0 && NearestEven(r, total, months)
    ensures r == AvgPerMonth(total, months)
  {
    var a := AvgPerMonth(total, months);
    if r != a {
      var lo, hi := if r < a then r else a, if r < a then a else r;
      if hi - lo == 1 {
        Spread(lo, hi, months, 1);
        assert false;
      } else {
        Spread(lo, hi, months, 2);
        assert false;
      }
    }
  }

  /** Whole numbers at least `k` apart have multiples of `d` at least `k * d` apart. */
  lemma Spread(x: int, y: int, d: nat, k: nat)
    requires x + k <= y
    ensures x * d + k * d <= y * d
  {
    var g := y - x - k;
    assert y * d == x * d + k * d + g * d;
  }

  /**
   `(current - previous) / previous * 100`, or 0 when `previous` is 0: the
   percent change between two counts.
   */
  function PercentChange(current: nat, previous: nat): (r: real)
    ensures previous == 0 ==> r == 0.0
    ensures previous > 0 ==> r * previous as real == 100.0 * (current as real - previous as real)
    ensures previous > 0 ==> (r > 0.0 <==> current > previous) && (r < 0.0 <==> current < previous)
    ensures r >= -100.0
  {
    if previous > 0 then (current as real - previous as real) / previous as real * 100.0 else 0.0
  }

  // ---------------------------------------------------------------------------
  // Peak month: Python's `max(d.items(), key=...)` keeps the first maximum
  // ---------------------------------------------------------------------------

  /** Position of the first element with the largest key, as `max(s, key=key)` finds it. */
  function FirstMax<T>(s: seq<T>, key: T -> int): (i: nat)
    requires |s| > 0
    ensures i < |s|
    ensures forall j :: 0 <= j < |s| ==> key(s[j]) <= key(s[i])
    ensures forall j :: 0 <= j < i ==> key(s[j]) < key(s[i])
  {
    if |s| == 1 then 0
    else
      var i := FirstMax(s[..|s| - 1], key);
      if key(s[|s| - 1]) > key(s[i]) then |s| - 1 else i
  }

  /** The two properties of `FirstMax` single out one position. */
  lemma FirstMaxUnique<T>(s: seq<T>, key: T -> int, i: nat)
    requires i < |s|
    requires forall j :: 0 <= j < |s| ==> key(s[j]) <= key(s[i])
    requires forall j :: 0 <= j < i ==> key(s[j]) < key(s[i])
    ensures i == FirstMax(s, key)
  {
    var f := FirstMax(s, key);
    if i < f {
      assert false;
    } else if f < i {
      assert false;
    }
  }

  /** The OOS count of a month, as `max` compares months. */
  function MonthOos(t: Table<YearMonth>): YearMonth -> int {
    m => Lookup(t, m).oos
  }

  /**
   `max(monthly_data.items(), key=oos)` when there is a month: the first
   month, in the order months were first counted, with the largest OOS count.
   */
  function PeakMonth(t: Table<YearMonth>): (r: Option<YearMonth>)
    ensures r.None? <==> |t.order| == 0
    ensures r.Some? ==> r.value in t.order
    ensures r.Some? ==> forall m :: m in t.order ==> Lookup(t, m).oos <= Lookup(t, r.value).oos
  {
    if |t.order| == 0 then None else Some(t.order[FirstMax(t.order, MonthOos(t))])
  }

  /** Months counted before the peak month all have fewer OOS violations than it. */
  lemma PeakIsFirst(t: Table<YearMonth>)
    requires |t.order| > 0
    ensures var i := FirstMax(t.order, MonthOos(t));
      PeakMonth(t) == Some(t.order[i])
      && forall j :: 0 <= j < i ==> Lookup(t, t.order[j]).oos < Lookup(t, t.order[i]).oos
  {
  }

  /** `peak_count`: the largest monthly OOS count, 0 when there are no months. */
  function PeakCount(t: Table<YearMonth>): (n: nat)
    ensures |t.order| == 0 ==> n == 0
    ensures forall m :: m in t.order ==> Lookup(t, m).oos <= n
    ensures |t.order| > 0 ==> exists m :: m in t.order && Lookup(t, m).oos == n
  {
    match PeakMonth(t)
    case None => 0
    case Some(m) => Lookup(t, m).oos
  }

  /** `peak_month`: the label `%b '%y` of the peak month, or `N/A` when there are no months. */
  function PeakName(t: Table<YearMonth>): string
    requires MonthsValid(t.order)
  {
    match PeakMonth(t)
    case None => "N/A"
    case Some(m) => PeakLabel(m)
  }

  // ---------------------------------------------------------------------------
  // The monthly series, in calendar order
  // ---------------------------------------------------------------------------

  /** Every month in `ms` is a real calendar month. */
  ghost predicate MonthsValid(ms: seq<YearMonth>) {
    forall i :: 0 <= i < |ms| ==> 1 <= ms[i].month <= 12
  }

  /** `sorted(monthly_data.keys())`: the counted months, earliest first. */
  function SortedMonths(t: Table<YearMonth>): (r: seq<YearMonth>)
    ensures multiset(r) == multiset(t.order)
    ensures Ascending(r, MonthRank)
  {
    SortBy(t.order, MonthRank)
  }

  /** Sorting keeps the months real calendar months. */
  lemma SortedMonthsValid(t: Table<YearMonth>)
    requires MonthsValid(t.order)
    ensures MonthsValid(SortedMonths(t))
  {
    var r := SortedMonths(t);
    forall i | 0 <= i < |r| ensures 1 <= r[i].month <= 12 {
      assert r[i] in multiset(t.order);
    }
  }

  /** Distinct real months sorted by rank are in strictly increasing calendar order. */
  lemma SortedMonthsStrict(t: Table<YearMonth>)
    requires WellFormed(t) && MonthsValid(t.order)
    ensures var r := SortedMonths(t);
      forall i, j :: 0 <= i < j < |r| ==>
        r[i].year < r[j].year || (r[i].year == r[j].year && r[i].month < r[j].month)
  {
    var r := SortedMonths(t);
    SortedMonthsValid(t);
    forall i, j | 0 <= i < j < |r|
      ensures r[i].year < r[j].year || (r[i].year == r[j].year && r[i].month < r[j].month)
    {
      assert r[i] != r[j] by {
        DistinctPermutation(t.order, r);
      }
      MonthRankChronological(r[i], r[j]);
    }
  }

  /** `monthly.labels`: `%b %y` of each month. */
  function Labels(ms: seq<YearMonth>): (r: seq<string>)
    requires MonthsValid(ms)
    ensures |r| == |ms| && forall i :: 0 <= i < |ms| ==> r[i] == MonthLabel(ms[i])
  {
    seq(|ms|, i requires 0 <= i < |ms| => MonthLabel(ms[i]))
  }

  /** `monthly.oos`: the OOS count of each month. */
  function OosSeries(t: Table<YearMonth>, ms: seq<YearMonth>): (r: seq<nat>)
    ensures |r| == |ms| && forall i :: 0 <= i < |ms| ==> r[i] == Lookup(t, ms[i]).oos
  {
    seq(|ms|, i requires 0 <= i < |ms| => Lookup(t, ms[i]).oos)
  }

  /** `monthly.all`: the count of each month. */
  function AllSeries(t: Table<YearMonth>, ms: seq<YearMonth>): (r: seq<nat>)
    ensures |r| == |ms| && forall i :: 0 <= i < |ms| ==> r[i] == Lookup(t, ms[i]).all
  {
    seq(|ms|, i requires 0 <= i < |ms| => Lookup(t, ms[i]).all)
  }

  /** The two series sum to the bucket-wise sum over the same months. */
  lemma {:induction false} SeriesSums(t: Table<YearMonth>, ms: seq<YearMonth>)
    ensures Sum(OosSeries(t, ms)) == Total(ms, t).oos
    ensures Sum(AllSeries(t, ms)) == Total(ms, t).all
  {
    if |ms| > 0 {
      var init := ms[..|ms| - 1];
      SeriesSums(t, init);
      assert OosSeries(t, ms)[..|ms| - 1] == OosSeries(t, init);
      assert AllSeries(t, ms)[..|ms| - 1] == AllSeries(t, init);
    }
  }

  /**
   `monthly.oos` and `monthly.all` add up to `total_oos` and `total_all`:
   every counted inspection lands in exactly one month of the series.
   */
  lemma MonthlySeriesAddUp(ts: Tables)
    ensures var ms := SortedMonths(ts.monthly);
      Valid(ts) ==> Sum(OosSeries(ts.monthly, ms)) == ts.totalOos && Sum(AllSeries(ts.monthly, ms)) == ts.totalAll
  {
    var ms := SortedMonths(ts.monthly);
    TotalPermutation(ms, ts.monthly.order, ts.monthly);
    SeriesSums(ts.monthly, ms);
  }

  // ---------------------------------------------------------------------------
  // Month-over-month change
  // ---------------------------------------------------------------------------

  /**
   `mom_change` of the CSV build: with three or more months it compares the
   second-to-last month with the one before (the latest month may still be
   incomplete); with exactly two it compares the last two; otherwise 0.
   */
  function CsvMom(oos: seq<nat>): (r: real)
    ensures |oos| < 2 ==> r == 0.0
    ensures |oos| >= 3 && oos[|oos| - 3] == 0 ==> r == 0.0
    ensures |oos| >= 3 && oos[|oos| - 3] > 0 ==>
      r * oos[|oos| - 3] as real == 100.0 * (oos[|oos| - 2] as real - oos[|oos| - 3] as real)
    ensures |oos| == 2 && oos[0] == 0 ==> r == 0.0
    ensures |oos| == 2 && oos[0] > 0 ==> r * oos[0] as real == 100.0 * (oos[1] as real - oos[0] as real)
    ensures r >= -100.0
  {
    var n := |oos|;
    if n >= 3 then PercentChange(oos[n - 2], oos[n - 3])
    else if n == 2 then PercentChange(oos[1], oos[0])
    else 0.0
  }

  /** `mom_change` of the API build: the last month against the month before, or 0 with fewer than two months. */
  function ApiMom(oos: seq<nat>): (r: real)
    ensures |oos| < 2 ==> r == 0.0
    ensures |oos| >= 2 && oos[|oos| - 2] == 0 ==> r == 0.0
    ensures |oos| >= 2 && oos[|oos| - 2] > 0 ==>
      r * oos[|oos| - 2] as real == 100.0 * (oos[|oos| - 1] as real - oos[|oos| - 2] as real)
    ensures r >= -100.0
  {
    var n := |oos|;
    if n >= 2 then PercentChange(oos[n - 1], oos[n - 2]) else 0.0
  }

  /**
   The CSV figure is the API figure with the latest month left out, once
   there are at least two months before it; with exactly two months the two
   builds agree.
   */
  lemma CsvMomSkipsLatest(oos: seq<nat>, latest: nat)
    ensures |oos| >= 2 ==> CsvMom(oos + [latest]) == ApiMom(oos)
    ensures |oos| == 2 ==> CsvMom(oos) == ApiMom(oos)
  {
  }

  /** The CSV figure does not depend on the count of the latest month. */
  lemma CsvMomIgnoresLatest(oos: seq<nat>, a: nat, b: nat)
    requires |oos| >= 2
    ensures CsvMom(oos + [a]) == CsvMom(oos + [b])
  {
  }

  // ---------------------------------------------------------------------------
  // Top states and the number of states with an OOS violation
  // ---------------------------------------------------------------------------

  /** The OOS count of a key, as `key=lambda x: x[1]["oos"]` compares entries. */
  function OosOf<K>(t: Table<K>): K -> real {
    k => Lookup(t, k).oos as real
  }

  /** An entry of the `states` list. */
  datatype StateRow = StateRow(state: string, oos: nat, all: nat)

  /**
   The states of `sorted(state_data.items(), key=oos, reverse=True)[:10]`:
   at most ten states, most OOS violations first, no state left out that has
   more OOS violations than one listed, and states with equal counts in the
   order they were first counted.
   */
  function TopStateNames(t: Table<string>): (r: seq<string>)
    ensures |r| == if |t.order| < 10 then |t.order| else 10
    ensures forall i :: 0 <= i < |r| ==> r[i] in t.order
    ensures Descending(r, OosOf(t))
    ensures forall s, i :: s in t.order && s !in r && 0 <= i < |r| ==> Lookup(t, s).oos <= Lookup(t, r[i]).oos
    ensures forall k :: Tied(r, OosOf(t), k) <= Tied(t.order, OosOf(t), k)
  {
    var ranked := RankDesc(t.order, OosOf(t));
    var r := Take(ranked, 10);
    TakeBeatsRest(ranked, OosOf(t), 10);
    assert forall i :: 0 <= i < |r| ==> r[i] in t.order by {
      forall i | 0 <= i < |r| ensures r[i] in t.order {
        assert r[i] == ranked[i] && ranked[i] in multiset(t.order);
      }
    }
    assert forall s :: s in t.order ==> s in ranked by {
      forall s | s in t.order ensures s in ranked {
        assert s in multiset(ranked);
      }
    }
    assert forall k :: Tied(r, OosOf(t), k) <= Tied(t.order, OosOf(t), k) by {
      forall k ensures Tied(r, OosOf(t), k) <= Tied(t.order, OosOf(t), k) {
        TiedTake(ranked, OosOf(t), 10, k);
      }
    }
    r
  }

  /** `states`: the top states with their counts. */
  function TopStates(t: Table<string>): (r: seq<StateRow>)
    ensures |r| == |TopStateNames(t)|
    ensures forall i :: 0 <= i < |r| ==>
      var s := TopStateNames(t)[i]; r[i] == StateRow(s, Lookup(t, s).oos, Lookup(t, s).all)
  {
    var names := TopStateNames(t);
    seq(|names|, i requires 0 <= i < |names| => StateRow(names[i], Lookup(t, names[i]).oos, Lookup(t, names[i]).all))
  }

  /** Whether a key has at least one OOS violation. */
  function HasOos<K>(t: Table<K>): K -> bool {
    k => Lookup(t, k).oos > 0
  }

  /** `state_count`: how many counted states have at least one OOS violation. */
  function StateCount(t: Table<string>): (n: nat)
    ensures n <= |t.order|
  {
    Count(t.order, HasOos(t))
  }

  /** Each counted state is counted once: `state_count` is the number of states with an OOS violation. */
  lemma StateCountIsSetSize(t: Table<string>)
    requires WellFormed(t)
    ensures StateCount(t) == |set s | s in t.counts && Lookup(t, s).oos > 0|
  {
    CountDistinct(t.order, HasOos(t));
    var listed := Picked(t.order, HasOos(t));
    var counted := set s | s in t.counts && Lookup(t, s).oos > 0;
    assert |listed| == StateCount(t);
    forall s ensures s in listed <==> s in counted {
      assert s in t.counts <==> s in t.order;
    }
    assert listed == counted;
  }

  /** The states of the out-of-service events. */
  ghost function OosStates(evs: seq<Event>): set<string> {
    set e | e in evs && e.oos :: e.state
  }

  /** `state_count` counts the distinct states among the out-of-service events. */
  lemma StateCountOfEvents(evs: seq<Event>)
    ensures StateCount(Aggregate(evs).states) == |OosStates(evs)|
  {
    var t := Aggregate(evs).states;
    AggregateValid(evs);
    StateCountIsSetSize(t);
    forall s ensures (s in t.counts && Lookup(t, s).oos > 0) <==> s in OosStates(evs) {
      AggregateTally(evs, InState(s));
      CountPositive(evs, HitsOos(InState(s)));
      if s in OosStates(evs) {
        var e :| e in evs && e.oos && e.state == s;
        var i :| 0 <= i < |evs| && evs[i] == e;
        assert HitsOos(InState(s))(evs[i]);
      }
    }
    assert (set s | s in t.counts && Lookup(t, s).oos > 0) == OosStates(evs);
  }

  // ---------------------------------------------------------------------------
  // Per-state monthly breakdown (`state_monthly`, CSV build only)
  // ---------------------------------------------------------------------------

  /** One month of a state's breakdown: `month_label: {"oos": ..., "all": ...}`. */
  datatype MonthEntry = MonthEntry(key: string, oos: nat, all: nat)

  /** The entry of state `s` in month `m`. */
  function EntryOf(cells: Table<Cell>, s: string, m: YearMonth): MonthEntry
    requires 1 <= m.month <= 12
  {
    var b := Lookup(cells, Cell(s, m));
    MonthEntry(MonthLabel(m), b.oos, b.all)
  }

  /**
   `state_monthly[s]`: for each month of `ms`, in order, the entry of the
   months in which `s` was counted, and nothing for the others.
   */
  function StateEntries(cells: Table<Cell>, s: string, ms: seq<YearMonth>): (r: seq<MonthEntry>)
    requires MonthsValid(ms)
    ensures |r| <= |ms|
    ensures forall x :: x in r ==> exists m :: m in ms && Cell(s, m) in cells.counts && x == EntryOf(cells, s, m)
    ensures forall m :: m in ms && Cell(s, m) in cells.counts ==> EntryOf(cells, s, m) in r
  {
    if |ms| == 0 then []
    else
      var init, m := ms[..|ms| - 1], ms[|ms| - 1];
      assert MonthsValid(init);
      assert ms == init + [m];
      StateEntries(cells, s, init) + (if Cell(s, m) in cells.counts then [EntryOf(cells, s, m)] else [])
  }

  /** The sum of the counts of some entries. */
  function EntriesTotal(es: seq<MonthEntry>): Bucket {
    if |es| == 0 then Zero()
    else Plus(EntriesTotal(es[..|es| - 1]), Bucket(es[|es| - 1].oos, es[|es| - 1].all))
  }

  lemma EntriesTotalSnoc(es: seq<MonthEntry>, x: MonthEntry)
    ensures EntriesTotal(es + [x]) == Plus(EntriesTotal(es), Bucket(x.oos, x.all))
  {
    assert (es + [x])[..|es|] == es;
  }

  /** Adding a month adds the state's cell in that month, or nothing when it has none. */
  lemma EntriesStep(cells: Table<Cell>, s: string, ms: seq<YearMonth>)
    requires MonthsValid(ms) && |ms| > 0
    ensures MonthsValid(ms[..|ms| - 1])
    ensures EntriesTotal(StateEntries(cells, s, ms))
      == Plus(EntriesTotal(StateEntries(cells, s, ms[..|ms| - 1])), Lookup(cells, Cell(s, ms[|ms| - 1])))
  {
    var init, m := ms[..|ms| - 1], ms[|ms| - 1];
    assert MonthsValid(init);
    var e := StateEntries(cells, s, init);
    var b := Lookup(cells, Cell(s, m));
    if Cell(s, m) in cells.counts {
      var x := EntryOf(cells, s, m);
      assert StateEntries(cells, s, ms) == e + [x];
      EntriesTotalSnoc(e, x);
      assert Bucket(x.oos, x.all) == b;
    } else {
      assert StateEntries(cells, s, ms) == e;
      assert b == Zero();
      assert Plus(EntriesTotal(e), b) == EntriesTotal(e);
    }
  }

  /** The sum over a state's cells grows by the cell of each added month. */
  lemma CellTotalStep(cells: Table<Cell>, s: string, ms: seq<YearMonth>)
    requires |ms| > 0
    ensures Total(Project(ms, CellAt(s)), cells)
      == Plus(Total(Project(ms[..|ms| - 1], CellAt(s)), cells), Lookup(cells, Cell(s, ms[|ms| - 1])))
  {
    var keys := Project(ms, CellAt(s));
    assert keys[..|keys| - 1] == Project(ms[..|ms| - 1], CellAt(s));
    assert keys[|keys| - 1] == Cell(s, ms[|ms| - 1]);
  }

  /** Leaving out the months without a cell leaves the sum over the state's cells unchanged. */
  lemma {:induction false} EntriesTotalIsCellTotal(cells: Table<Cell>, s: string, ms: seq<YearMonth>)
    requires MonthsValid(ms)
    ensures EntriesTotal(StateEntries(cells, s, ms)) == Total(Project(ms, CellAt(s)), cells)
  {
    if |ms| == 0 {
      assert |Project(ms, CellAt(s))| == 0;
    } else {
      EntriesStep(cells, s, ms);
      EntriesTotalIsCellTotal(cells, s, ms[..|ms| - 1]);
      CellTotalStep(cells, s, ms);
    }
  }

  /** The months of the events all are real calendar months. */
  ghost predicate EventMonthsValid(evs: seq<Event>) {
    forall i :: 0 <= i < |evs| ==> 1 <= evs[i].month.month <= 12
  }

  /** Aggregating events with real months lists only real months. */
  lemma AggregateMonthsValid(evs: seq<Event>)
    requires EventMonthsValid(evs)
    ensures MonthsValid(Aggregate(evs).monthly.order)
  {
    var t := Aggregate(evs).monthly;
    AggregateValid(evs);
    forall i | 0 <= i < |t.order| ensures 1 <= t.order[i].month <= 12 {
      var m := t.order[i];
      AggregateKeys(evs, m, "", Cell("", m));
      CountPositive(evs, Hits(InMonth(m)));
    }
  }

  /** Every event's month is among the sorted months of the aggregate. */
  lemma SortedMonthsCover(evs: seq<Event>)
    ensures forall i :: 0 <= i < |evs| ==> evs[i].month in SortedMonths(Aggregate(evs).monthly)
  {
    var t := Aggregate(evs).monthly;
    AggregateValid(evs);
    forall i | 0 <= i < |evs| ensures evs[i].month in SortedMonths(t) {
      var m := evs[i].month;
      AggregateKeys(evs, m, "", Cell("", m));
      CountPositive(evs, Hits(InMonth(m)));
      assert m in t.order;
      assert m in multiset(SortedMonths(t));
    }
  }

  // ---------------------------------------------------------------------------
  // The breakdown as a dict keyed by month label
  // ---------------------------------------------------------------------------

  /** Whether no two entries carry the same label. */
  ghost predicate KeysDistinct(es: seq<MonthEntry>) {
    forall i, j :: 0 <= i < j < |es| ==> es[i].key != es[j].key
  }

  lemma KeysDistinctSnoc(es: seq<MonthEntry>, x: MonthEntry)
    requires KeysDistinct(es) && forall y :: y in es ==> y.key != x.key
    ensures KeysDistinct(es + [x])
  {
    var r := es + [x];
    forall i, j | 0 <= i < j < |r| ensures r[i].key != r[j].key {
      assert r[i] == es[i];
      if j < |es| {
        assert r[j] == es[j];
      }
    }
  }

  /**
   `d[x.key] = x` on a dict kept as its entries in insertion order: a label
   already present keeps its place and takes the new counts, a new one goes last.
   */
  function Put(d: seq<MonthEntry>, x: MonthEntry): seq<MonthEntry> {
    if |d| == 0 then [x]
    else if d[0].key == x.key then [x] + d[1..]
    else [d[0]] + Put(d[1..], x)
  }

  /** Dropping the first entry keeps the labels distinct, and none of the rest has the first label. */
  lemma DistinctTail(d: seq<MonthEntry>)
    requires KeysDistinct(d) && |d| > 0
    ensures KeysDistinct(d[1..])
    ensures forall y :: y in d[1..] ==> y.key != d[0].key
  {
    var rest := d[1..];
    forall i, j | 0 <= i < j < |rest| ensures rest[i].key != rest[j].key {
      assert rest[i] == d[i + 1] && rest[j] == d[j + 1];
    }
    forall y | y in rest ensures y.key != d[0].key {
      var k :| 0 <= k < |rest| && rest[k] == y;
      assert d[k + 1] == y;
    }
  }

  /** An entry in front of distinct labels that differ from its own keeps them distinct. */
  lemma DistinctCons(x: MonthEntry, d: seq<MonthEntry>)
    requires KeysDistinct(d) && forall y :: y in d ==> y.key != x.key
    ensures KeysDistinct([x] + d)
  {
    var r := [x] + d;
    forall i, j | 0 <= i < j < |r| ensures r[i].key != r[j].key {
      assert r[j] == d[j - 1];
      if i > 0 {
        assert r[i] == d[i - 1];
      }
    }
  }

  /** The assigned entry is in the dict, and every other entry is an old one under another label. */
  lemma {:induction false} PutMembers(d: seq<MonthEntry>, x: MonthEntry)
    requires KeysDistinct(d)
    ensures x in Put(d, x)
    ensures forall y :: y in Put(d, x) ==> y == x || (y in d && y.key != x.key)
  {
    if |d| > 0 {
      DistinctTail(d);
      if d[0].key != x.key {
        PutMembers(d[1..], x);
        assert Put(d, x) == [d[0]] + Put(d[1..], x);
      }
    }
  }

  /** An old entry under another label stays. */
  lemma {:induction false} PutKeeps(d: seq<MonthEntry>, x: MonthEntry, y: MonthEntry)
    requires y in d && y.key != x.key
    ensures y in Put(d, x)
  {
    if y != d[0] {
      assert y in d[1..];
      if d[0].key != x.key {
        PutKeeps(d[1..], x, y);
      }
    }
  }

  /** Assignment keeps the labels distinct. */
  lemma {:induction false} PutDistinct(d: seq<MonthEntry>, x: MonthEntry)
    requires KeysDistinct(d)
    ensures KeysDistinct(Put(d, x))
  {
    if |d| > 0 {
      DistinctTail(d);
      if d[0].key == x.key {
        DistinctCons(x, d[1..]);
      } else {
        PutDistinct(d[1..], x);
        PutMembers(d[1..], x);
        DistinctCons(d[0], Put(d[1..], x));
      }
    }
  }

  /** A new label goes last. */
  lemma {:induction false} PutFresh(d: seq<MonthEntry>, x: MonthEntry)
    requires forall y :: y in d ==> y.key != x.key
    ensures Put(d, x) == d + [x]
  {
    if |d| > 0 {
      assert d[0] in d;
      assert forall y :: y in d[1..] ==> y in d;
      PutFresh(d[1..], x);
      assert d == [d[0]] + d[1..];
    }
  }

  /**
   The dict comprehension that builds `state_monthly[state]`: the entries
   keyed by label, in order, where a later entry whose label is already
   present replaces that label's counts.
   */
  function KeyedByLabel(es: seq<MonthEntry>): seq<MonthEntry> {
    if |es| == 0 then [] else Put(KeyedByLabel(es[..|es| - 1]), es[|es| - 1])
  }

  /** Entry `y` is the last entry of `es` with its label. */
  ghost predicate LastOfLabel(es: seq<MonthEntry>, y: MonthEntry) {
    exists i :: 0 <= i < |es| && es[i] == y && forall j :: i < j < |es| ==> es[j].key != y.key
  }

  /** The dict's labels are distinct. */
  lemma {:induction false} KeyedByLabelDistinctKeys(es: seq<MonthEntry>)
    ensures KeysDistinct(KeyedByLabel(es))
  {
    if |es| > 0 {
      KeyedByLabelDistinctKeys(es[..|es| - 1]);
      PutDistinct(KeyedByLabel(es[..|es| - 1]), es[|es| - 1]);
    }
  }

  /** Every entry of the dict is the last entry of `es` with its label. */
  lemma {:induction false} KeyedByLabelLast(es: seq<MonthEntry>)
    ensures forall y :: y in KeyedByLabel(es) ==> LastOfLabel(es, y)
  {
    if |es| > 0 {
      var init, x := es[..|es| - 1], es[|es| - 1];
      KeyedByLabelLast(init);
      KeyedByLabelDistinctKeys(init);
      var d := KeyedByLabel(init);
      PutMembers(d, x);
      forall y | y in Put(d, x) ensures LastOfLabel(es, y) {
        if y == x {
          assert es[|es| - 1] == y;
        } else {
          assert LastOfLabel(init, y);
          var i :| 0 <= i < |init| && init[i] == y && forall j :: i < j < |init| ==> init[j].key != y.key;
          assert es[i] == y;
          forall j | i < j < |es| ensures es[j].key != y.key {
            if j < |init| {
              assert es[j] == init[j];
            }
          }
        }
      }
    }
  }

  /** Every label of `es` is in the dict. */
  lemma {:induction false} KeyedByLabelCovers(es: seq<MonthEntry>)
    ensures forall i :: 0 <= i < |es| ==> exists y :: y in KeyedByLabel(es) && y.key == es[i].key
  {
    if |es| > 0 {
      var init, x := es[..|es| - 1], es[|es| - 1];
      KeyedByLabelCovers(init);
      KeyedByLabelDistinctKeys(init);
      var d := KeyedByLabel(init);
      PutMembers(d, x);
      forall i | 0 <= i < |es| ensures exists y :: y in Put(d, x) && y.key == es[i].key {
        if i < |init| {
          assert es[i] == init[i];
          var y :| y in d && y.key == init[i].key;
          if y.key != x.key {
            PutKeeps(d, x, y);
          }
        }
      }
    }
  }

  /**
   The dict has one entry per label of `es`, and that entry is the last one
   of `es` with the label.
   */
  lemma KeyedByLabelSpec(es: seq<MonthEntry>)
    ensures KeysDistinct(KeyedByLabel(es))
    ensures forall y :: y in KeyedByLabel(es) ==> LastOfLabel(es, y)
    ensures forall i :: 0 <= i < |es| ==> exists y :: y in KeyedByLabel(es) && y.key == es[i].key
  {
    KeyedByLabelDistinctKeys(es);
    KeyedByLabelLast(es);
    KeyedByLabelCovers(es);
  }

  /** With distinct labels no entry is replaced: the dict holds the entries as they are. */
  lemma {:induction false} KeyedByLabelDistinct(es: seq<MonthEntry>)
    requires KeysDistinct(es)
    ensures KeyedByLabel(es) == es
  {
    if |es| > 0 {
      var init, x := es[..|es| - 1], es[|es| - 1];
      assert KeysDistinct(init) by {
        forall i, j | 0 <= i < j < |init| ensures init[i].key != init[j].key {
          assert init[i] == es[i] && init[j] == es[j];
        }
      }
      KeyedByLabelDistinct(init);
      forall y | y in init ensures y.key != x.key {
        var k :| 0 <= k < |init| && init[k] == y;
        assert es[k] == y;
      }
      PutFresh(init, x);
      assert es == init + [x];
    }
  }

  /** Two entries under one label: the dict keeps the label once, with the later counts. */
  lemma KeyedByLabelCollision()
    ensures KeyedByLabel([MonthEntry("Jan 25", 1, 1), MonthEntry("Jan 25", 0, 1)]) == [MonthEntry("Jan 25", 0, 1)]
  {
    var es := [MonthEntry("Jan 25", 1, 1), MonthEntry("Jan 25", 0, 1)];
    assert es[..1] == [MonthEntry("Jan 25", 1, 1)];
    assert es[..1][..0] == [];
    assert KeyedByLabel(es[..1]) == [MonthEntry("Jan 25", 1, 1)];
  }

  /** The entries of one state's breakdown carry distinct labels when the months do. */
  lemma {:induction false} StateEntriesDistinct(cells: Table<Cell>, s: string, ms: seq<YearMonth>)
    requires MonthsValid(ms)
    requires forall i, j :: 0 <= i < j < |ms| ==> MonthLabel(ms[i]) != MonthLabel(ms[j])
    ensures KeysDistinct(StateEntries(cells, s, ms))
  {
    if |ms| > 0 {
      var init, m := ms[..|ms| - 1], ms[|ms| - 1];
      assert MonthsValid(init);
      StateEntriesDistinct(cells, s, init);
      var e := StateEntries(cells, s, init);
      if Cell(s, m) in cells.counts {
        var x := EntryOf(cells, s, m);
        forall y | y in e ensures y.key != x.key {
          var m' :| m' in init && Cell(s, m') in cells.counts && y == EntryOf(cells, s, m');
          var k :| 0 <= k < |init| && init[k] == m';
          assert ms[k] == m';
        }
        KeysDistinctSnoc(e, x);
        assert StateEntries(cells, s, ms) == e + [x];
      } else {
        assert StateEntries(cells, s, ms) == e;
      }
    }
  }

  /**
   `state_monthly[s]` of the report: the state's entries keyed by chart
   label. Each entry is the state's bucket in one of the months, and each
   month the state was counted in has its label in the dict.
   */
  function StateBreakdown(cells: Table<Cell>, s: string, ms: seq<YearMonth>): (r: seq<MonthEntry>)
    requires MonthsValid(ms)
    ensures KeysDistinct(r)
    ensures forall y :: y in r ==> exists m :: m in ms && Cell(s, m) in cells.counts && y == EntryOf(cells, s, m)
    ensures forall m :: m in ms && Cell(s, m) in cells.counts ==> exists y :: y in r && y.key == MonthLabel(m)
  {
    var es := StateEntries(cells, s, ms);
    KeyedByLabelSpec(es);
    forall m | m in ms && Cell(s, m) in cells.counts ensures exists y :: y in KeyedByLabel(es) && y.key == MonthLabel(m) {
      var x := EntryOf(cells, s, m);
      assert x in es;
      var i :| 0 <= i < |es| && es[i] == x;
    }
    forall y | y in KeyedByLabel(es) ensures y in es {
      assert LastOfLabel(es, y);
    }
    KeyedByLabel(es)
  }

  /** No two months of the events share a chart label: none lie a century apart. */
  ghost predicate LabelsIdentifyMonths(evs: seq<Event>) {
    && EventMonthsValid(evs)
    && forall i, j :: 0 <= i < |evs| && 0 <= j < |evs| && MonthLabel(evs[i].month) == MonthLabel(evs[j].month) ==>
         evs[i].month == evs[j].month
  }

  /** Events within one century from the cutoff have distinct chart labels. */
  lemma CenturyLabelsIdentify(evs: seq<Event>)
    requires EventMonthsValid(evs)
    requires forall i :: 0 <= i < |evs| ==> CutoffYear <= evs[i].month.year < CutoffYear + 100
    ensures LabelsIdentifyMonths(evs)
  {
    forall i, j | 0 <= i < |evs| && 0 <= j < |evs| && MonthLabel(evs[i].month) == MonthLabel(evs[j].month)
      ensures evs[i].month == evs[j].month
    {
      var a, b := evs[i].month, evs[j].month;
      MonthLabelIdentifies(a, b);
      assert (a.year - CutoffYear) % 100 == (b.year - CutoffYear) % 100;
    }
  }

  /** Every sorted month is the month of some event. */
  lemma SortedMonthsFromEvents(evs: seq<Event>)
    ensures forall m :: m in SortedMonths(Aggregate(evs).monthly) ==> exists i :: 0 <= i < |evs| && evs[i].month == m
  {
    var t := Aggregate(evs).monthly;
    AggregateValid(evs);
    forall m | m in SortedMonths(t) ensures exists i :: 0 <= i < |evs| && evs[i].month == m {
      assert m in multiset(SortedMonths(t));
      assert m in t.order;
      AggregateKeys(evs, m, "", Cell("", m));
      CountPositive(evs, Hits(InMonth(m)));
    }
  }

  /**
   Each state's monthly breakdown adds up to the state's totals: no counted
   inspection is lost from, or counted twice in, `state_monthly`, as long as
   no two counted months share a chart label.
   */
  lemma StateMonthlyAddsUp(evs: seq<Event>, s: string)
    requires LabelsIdentifyMonths(evs)
    ensures var ts := Aggregate(evs); var ms := SortedMonths(ts.monthly);
      MonthsValid(ms) && EntriesTotal(StateBreakdown(ts.cells, s, ms)) == Lookup(ts.states, s)
  {
    var ts := Aggregate(evs);
    AggregateMonthsValid(evs);
    SortedMonthsValid(ts.monthly);
    var ms := SortedMonths(ts.monthly);
    AggregateValid(evs);
    DistinctPermutation(ts.monthly.order, ms);
    SortedMonthsCover(evs);
    SortedMonthsFromEvents(evs);
    forall i, j | 0 <= i < j < |ms| ensures MonthLabel(ms[i]) != MonthLabel(ms[j]) {
      assert ms[i] in ms && ms[j] in ms;
      var a :| 0 <= a < |evs| && evs[a].month == ms[i];
      var b :| 0 <= b < |evs| && evs[b].month == ms[j];
    }
    StateEntriesDistinct(ts.cells, s, ms);
    KeyedByLabelDistinct(StateEntries(ts.cells, s, ms));
    CellsAddUp(evs, ms, s);
    EntriesTotalIsCellTotal(ts.cells, s, ms);
  }
}
