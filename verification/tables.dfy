/**
 The counting engine shared by both pipelines: three `defaultdict`s of
 `{"oos", "all"}` buckets (per month, per state, per state and month) and
 two running totals, fed one counted event at a time.
 */
module Tables {
  import opened Wrappers
  import opened Seqs
  import opened Dates

  /** One counter: `{"oos": n, "all": m}`. */
  datatype Bucket = Bucket(oos: nat, all: nat)

  /** The value a `defaultdict` hands out for a key it has not seen. */
  function Zero(): Bucket {
    Bucket(0, 0)
  }

  function Plus(a: Bucket, b: Bucket): Bucket {
    Bucket(a.oos + b.oos, a.all + b.all)
  }

  lemma PlusAssoc(a: Bucket, b: Bucket, c: Bucket)
    ensures Plus(a, Plus(b, c)) == Plus(Plus(a, b), c)
  {
  }

  /** What one counted event adds to each bucket it falls in. */
  function Unit(oos: bool): Bucket {
    Bucket(if oos then 1 else 0, 1)
  }

  /**
   A `defaultdict` of buckets: the keys in insertion order (which `dict`
   iteration follows) and the bucket of each key.
   */
  datatype Table<K> = Table(order: seq<K>, counts: map<K, Bucket>)

  function EmptyTable<K>(): Table<K> {
    Table([], map[])
  }

  /** `table[key]` read without inserting: a missing key reads as zero. */
  function Lookup<K>(t: Table<K>, k: K): Bucket {
    if k in t.counts then t.counts[k] else Zero()
  }

  /**
   The shape every table keeps: each key listed once, the listed keys are the
   keys with a bucket, and every bucket has seen at least one event, no more
   out-of-service ones than events.
   */
  ghost predicate WellFormed<K(!new)>(t: Table<K>) {
    && Distinct(t.order)
    && (forall k :: k in t.counts <==> k in t.order)
    && (forall k :: k in t.counts ==> t.counts[k].oos <= t.counts[k].all && t.counts[k].all > 0)
  }

  /** `table[key]["all"] += 1`, and `table[key]["oos"] += 1` when `oos`. */
  function Bump<K(!new)>(t: Table<K>, k: K, oos: bool): (r: Table<K>)
    ensures Lookup(r, k) == Plus(Lookup(t, k), Unit(oos))
    ensures k in t.counts ==> r.order == t.order
    ensures k !in t.counts ==> r.order == t.order + [k]
  {
    var b := Plus(Lookup(t, k), Unit(oos));
    Table(if k in t.counts then t.order else t.order + [k], t.counts[k := b])
  }

  /** Bumping changes the bucket of the bumped key and no other. */
  lemma BumpLookup<K(!new)>(t: Table<K>, k: K, oos: bool, j: K)
    ensures Lookup(Bump(t, k, oos), j) == if j == k then Plus(Lookup(t, k), Unit(oos)) else Lookup(t, j)
  {
  }

  /** Bumping adds the bumped key to the keys with a bucket, and nothing else. */
  lemma BumpKeys<K(!new)>(t: Table<K>, k: K, oos: bool)
    ensures Bump(t, k, oos).counts.Keys == t.counts.Keys + {k}
  {
  }

  /** Bumping keeps a table well formed. */
  lemma BumpWellFormed<K(!new)>(t: Table<K>, k: K, oos: bool)
    requires WellFormed(t)
    ensures WellFormed(Bump(t, k, oos))
  {
    var r := Bump(t, k, oos);
    var b := Plus(Lookup(t, k), Unit(oos));
    assert r.counts == t.counts[k := b];
    assert b.oos <= b.all && b.all > 0;
    if k !in t.counts {
      assert k !in t.order;
      DistinctSnoc(t.order, k);
    }
    forall j ensures j in r.counts <==> j in r.order {
      if j != k {
        assert j in r.order <==> j in t.order;
      }
    }
    forall j | j in r.counts ensures r.counts[j].oos <= r.counts[j].all && r.counts[j].all > 0 {
      if j != k {
        assert r.counts[j] == t.counts[j];
      }
    }
  }

  /** The bucket-wise sum over `keys`. */
  function Total<K>(keys: seq<K>, t: Table<K>): Bucket {
    if |keys| == 0 then Zero()
    else Plus(Total(keys[..|keys| - 1], t), Lookup(t, keys[|keys| - 1]))
  }

  /** Bumping a key that is not listed leaves the sum over the listed keys alone. */
  lemma {:induction false} TotalBumpUnlisted<K(!new)>(keys: seq<K>, t: Table<K>, k: K, oos: bool)
    requires k !in keys
    ensures Total(keys, Bump(t, k, oos)) == Total(keys, t)
  {
    if |keys| > 0 {
      assert k !in keys[..|keys| - 1];
      TotalBumpUnlisted(keys[..|keys| - 1], t, k, oos);
    }
  }

  /** Bumping a key listed once, at position `p`, raises the sum over the listed keys by one unit. */
  lemma {:induction false} TotalBumpListed<K(!new)>(keys: seq<K>, p: nat, t: Table<K>, k: K, oos: bool)
    requires p < |keys| && keys[p] == k
    requires forall i :: 0 <= i < |keys| && i != p ==> keys[i] != k
    ensures Total(keys, Bump(t, k, oos)) == Plus(Total(keys, t), Unit(oos))
  {
    var init := keys[..|keys| - 1];
    if p == |keys| - 1 {
      assert k !in init;
      TotalBumpUnlisted(init, t, k, oos);
      TotalStepLast(keys, t, Bump(t, k, oos), Unit(oos));
    } else {
      TotalBumpListed(init, p, t, k, oos);
      TotalStepPrefix(keys, t, Bump(t, k, oos), Unit(oos));
    }
  }

  /** The sums of two tables differ by `u` when their prefix sums do and their last buckets agree. */
  lemma TotalStepPrefix<K>(keys: seq<K>, t: Table<K>, r: Table<K>, u: Bucket)
    requires |keys| > 0
    requires Total(keys[..|keys| - 1], r) == Plus(Total(keys[..|keys| - 1], t), u)
    requires Lookup(r, keys[|keys| - 1]) == Lookup(t, keys[|keys| - 1])
    ensures Total(keys, r) == Plus(Total(keys, t), u)
  {
  }

  /** The sums of two tables differ by `u` when their prefix sums agree and their last buckets differ by `u`. */
  lemma TotalStepLast<K>(keys: seq<K>, t: Table<K>, r: Table<K>, u: Bucket)
    requires |keys| > 0
    requires Total(keys[..|keys| - 1], r) == Total(keys[..|keys| - 1], t)
    requires Lookup(r, keys[|keys| - 1]) == Plus(Lookup(t, keys[|keys| - 1]), u)
    ensures Total(keys, r) == Plus(Total(keys, t), u)
  {
    PlusAssoc(Total(keys[..|keys| - 1], t), Lookup(t, keys[|keys| - 1]), u);
  }

  /** The sum over two runs of keys is the sum of the two sums. */
  lemma {:induction false} TotalAppend<K>(u: seq<K>, v: seq<K>, t: Table<K>)
    ensures Total(u + v, t) == Plus(Total(u, t), Total(v, t))
    decreases |v|
  {
    if |v| == 0 {
      assert u + v == u;
    } else {
      var v' := v[..|v| - 1];
      assert (u + v)[..|u + v| - 1] == u + v';
      TotalAppend(u, v', t);
      PlusAssoc(Total(u, t), Total(v', t), Lookup(t, v[|v| - 1]));
    }
  }

  /** The sum over some keys does not depend on the order in which they are listed. */
  lemma {:induction false} TotalPermutation<K>(a: seq<K>, b: seq<K>, t: Table<K>)
    requires multiset(a) == multiset(b)
    ensures Total(a, t) == Total(b, t)
    decreases |a|
  {
    if |a| == 0 {
      assert |multiset(b)| == 0;
      assert b == [];
    } else {
      var x := a[|a| - 1];
      var a' := a[..|a| - 1];
      assert a == a' + [x];
      assert multiset(a) == multiset(a') + multiset{x};
      assert x in multiset(b);
      var i :| 0 <= i < |b| && b[i] == x;
      var b' := b[..i] + b[i + 1..];
      RemoveAt(b, i);
      assert multiset(a') == multiset(b') by {
        forall y ensures multiset(a')[y] == multiset(b')[y] {
          assert multiset(a)[y] == multiset(a')[y] + multiset{x}[y];
          assert multiset(b)[y] == multiset(b')[y] + multiset{x}[y];
        }
      }
      TotalPermutation(a', b', t);
      TotalRemove(b, i, t);
      TotalSnoc(a', x, t);
    }
  }

  /** Taking one key out of a list takes its bucket out of the sum. */
  lemma TotalRemove<K>(b: seq<K>, i: nat, t: Table<K>)
    requires i < |b|
    ensures Total(b, t) == Plus(Total(b[..i] + b[i + 1..], t), Lookup(t, b[i]))
  {
    var l, x, r := b[..i], b[i], b[i + 1..];
    assert b == l + [x] + r;
    TotalAppend(l + [x], r, t);
    TotalSnoc(l, x, t);
    TotalAppend(l, r, t);
  }

  /** Listing one more key adds its bucket to the sum. */
  lemma TotalSnoc<K>(keys: seq<K>, k: K, t: Table<K>)
    ensures Total(keys + [k], t) == Plus(Total(keys, t), Lookup(t, k))
  {
    assert (keys + [k])[..|keys|] == keys;
  }

  /** A counted inspection: its month, its state, and whether it was placed out of service. */
  datatype Event = Event(month: YearMonth, state: string, oos: bool)

  /** A key of the state-by-month table (`state_monthly[state][month]`). */
  datatype Cell = Cell(state: string, month: YearMonth)

  function CellOf(e: Event): Cell {
    Cell(e.state, e.month)
  }

  function MonthKey(e: Event): YearMonth {
    e.month
  }

  function StateKey(e: Event): string {
    e.state
  }

  /** Everything the counting loop accumulates. */
  datatype Tables = Tables(
    monthly: Table<YearMonth>,
    states: Table<string>,
    cells: Table<Cell>,
    totalOos: nat,
    totalAll: nat)

  function NoTables(): Tables {
    Tables(EmptyTable(), EmptyTable(), EmptyTable(), 0, 0)
  }

  /** A well-formed table whose buckets add up to `total`. */
  ghost predicate Summed<K(!new)>(t: Table<K>, total: Bucket) {
    WellFormed(t) && Total(t.order, t) == total
  }

  /** Every state-by-month cell belongs to a listed state and a listed month. */
  ghost predicate CellsListed(ts: Tables) {
    forall c :: c in ts.cells.counts ==> c.state in ts.states.counts && c.month in ts.monthly.counts
  }

  /**
   The invariant of the counting loop: each table is well formed, the totals
   are the sums of the month buckets, of the state buckets and of the cells,
   and every cell belongs to a listed state and a listed month.
   */
  ghost predicate Valid(ts: Tables) {
    var total := Bucket(ts.totalOos, ts.totalAll);
    Summed(ts.monthly, total) && Summed(ts.states, total) && Summed(ts.cells, total) && CellsListed(ts)
  }

  /** One pass of the counting loop body. */
  function AddEvent(ts: Tables, e: Event): Tables {
    Tables(
      Bump(ts.monthly, e.month, e.oos),
      Bump(ts.states, e.state, e.oos),
      Bump(ts.cells, CellOf(e), e.oos),
      ts.totalOos + (if e.oos then 1 else 0),
      ts.totalAll + 1)
  }

  /** Bumping a key of a table that adds up to `total` gives one that adds up to one unit more. */
  lemma BumpSummed<K(!new)>(t: Table<K>, k: K, oos: bool, total: Bucket)
    requires Summed(t, total)
    ensures Summed(Bump(t, k, oos), Plus(total, Unit(oos)))
  {
    BumpWellFormed(t, k, oos);
    BumpTotal(t, k, oos);
  }

  lemma AddEventCellsListed(ts: Tables, e: Event)
    requires CellsListed(ts)
    ensures CellsListed(AddEvent(ts, e))
  {
    var r := AddEvent(ts, e);
    forall c | c in r.cells.counts ensures c.state in r.states.counts && c.month in r.monthly.counts {
      if c == CellOf(e) {
        assert e.state in r.states.counts && e.month in r.monthly.counts;
      } else {
        assert c in ts.cells.counts;
        assert c.state in ts.states.counts && c.month in ts.monthly.counts;
      }
    }
  }

  /** The loop body keeps the invariant. */
  lemma AddEventValid(ts: Tables, e: Event)
    requires Valid(ts)
    ensures Valid(AddEvent(ts, e))
  {
    var total := Bucket(ts.totalOos, ts.totalAll);
    var r := AddEvent(ts, e);
    assert Bucket(r.totalOos, r.totalAll) == Plus(total, Unit(e.oos));
    BumpSummed(ts.monthly, e.month, e.oos, total);
    BumpSummed(ts.states, e.state, e.oos, total);
    BumpSummed(ts.cells, CellOf(e), e.oos, total);
    AddEventCellsListed(ts, e);
  }

  /** Bumping a key of a well-formed table raises the sum over its listed keys by one unit. */
  lemma BumpTotal<K(!new)>(t: Table<K>, k: K, oos: bool)
    requires WellFormed(t)
    ensures Total(Bump(t, k, oos).order, Bump(t, k, oos)) == Plus(Total(t.order, t), Unit(oos))
  {
    if k in t.counts {
      assert k in t.order;
      var p :| 0 <= p < |t.order| && t.order[p] == k;
      TotalBumpListed(t.order, p, t, k, oos);
    } else {
      var r := Bump(t, k, oos);
      assert r.order == t.order + [k] && Lookup(r, k) == Unit(oos);
      assert k !in t.order;
      TotalBumpUnlisted(t.order, t, k, oos);
      TotalSnoc(t.order, k, r);
    }
  }

  /** The counting loop over the accepted events, in order. */
  function Aggregate(evs: seq<Event>): Tables {
    if |evs| == 0 then NoTables()
    else AddEvent(Aggregate(evs[..|evs| - 1]), evs[|evs| - 1])
  }

  /** The counting loop keeps its invariant over any sequence of events. */
  lemma {:induction false} AggregateValid(evs: seq<Event>)
    ensures Valid(Aggregate(evs))
  {
    if |evs| > 0 {
      AggregateValid(evs[..|evs| - 1]);
      AddEventValid(Aggregate(evs[..|evs| - 1]), evs[|evs| - 1]);
    }
  }

  // ---------------------------------------------------------------------------
  // Closed form: every bucket counts exactly the events that fall in it.
  // ---------------------------------------------------------------------------

  /** The buckets of the result: one month, one state, one state and month, or the totals. */
  datatype Slot = InMonth(m: YearMonth) | InState(s: string) | InCell(c: Cell) | Overall

  /** Whether an event falls in a slot. */
  function Hits(slot: Slot): Event -> bool {
    (e: Event) => match slot
         case InMonth(m) => e.month == m
         case InState(s) => e.state == s
         case InCell(c) => CellOf(e) == c
         case Overall => true
  }

  /** Whether an out-of-service event falls in a slot. */
  function HitsOos(slot: Slot): Event -> bool {
    (e: Event) => e.oos && Hits(slot)(e)
  }

  /** The bucket the result holds for a slot. */
  function Read(ts: Tables, slot: Slot): Bucket {
    match slot
    case InMonth(m) => Lookup(ts.monthly, m)
    case InState(s) => Lookup(ts.states, s)
    case InCell(c) => Lookup(ts.cells, c)
    case Overall => Bucket(ts.totalOos, ts.totalAll)
  }

  /** The reference count: how many events, and how many out-of-service events, fall in a slot. */
  function Tally(evs: seq<Event>, slot: Slot): Bucket {
    Bucket(Count(evs, HitsOos(slot)), Count(evs, Hits(slot)))
  }

  /** Each bucket of the aggregate is the tally of the events that fall in it. */
  lemma {:induction false} AggregateTally(evs: seq<Event>, slot: Slot)
    ensures Read(Aggregate(evs), slot) == Tally(evs, slot)
  {
    if |evs| > 0 {
      var init, e := evs[..|evs| - 1], evs[|evs| - 1];
      AggregateTally(init, slot);
      AddEventRead(Aggregate(init), e, slot);
      TallySnoc(evs, slot);
    }
  }

  /** One more event adds one unit to the tally of each slot it falls in. */
  lemma TallySnoc(evs: seq<Event>, slot: Slot)
    requires |evs| > 0
    ensures var e := evs[|evs| - 1];
      Tally(evs, slot) == Plus(Tally(evs[..|evs| - 1], slot), if Hits(slot)(e) then Unit(e.oos) else Zero())
  {
    var e := evs[|evs| - 1];
    assert HitsOos(slot)(e) == (e.oos && Hits(slot)(e));
  }

  /** One event adds one unit to each slot it falls in and leaves the others alone. */
  lemma AddEventRead(ts: Tables, e: Event, slot: Slot)
    ensures Read(AddEvent(ts, e), slot) == Plus(Read(ts, slot), if Hits(slot)(e) then Unit(e.oos) else Zero())
  {
    match slot
    case InMonth(m) => BumpLookup(ts.monthly, e.month, e.oos, m);
    case InState(st) => BumpLookup(ts.states, e.state, e.oos, st);
    case InCell(c) => BumpLookup(ts.cells, CellOf(e), e.oos, c);
    case Overall =>
  }

  /** In a well-formed table, the keys with a bucket are exactly the keys that have seen an event. */
  lemma ListedIffCounted<K(!new)>(t: Table<K>, k: K)
    requires WellFormed(t)
    ensures k in t.counts <==> Lookup(t, k).all > 0
  {
  }

  /** A key has a bucket exactly when some event falls in its slot. */
  lemma AggregateKeys(evs: seq<Event>, m: YearMonth, st: string, c: Cell)
    ensures m in Aggregate(evs).monthly.counts <==> Count(evs, Hits(InMonth(m))) > 0
    ensures st in Aggregate(evs).states.counts <==> Count(evs, Hits(InState(st))) > 0
    ensures c in Aggregate(evs).cells.counts <==> Count(evs, Hits(InCell(c))) > 0
  {
    var ts := Aggregate(evs);
    AggregateValid(evs);
    AggregateTally(evs, InMonth(m));
    AggregateTally(evs, InState(st));
    AggregateTally(evs, InCell(c));
    ListedIffCounted(ts.monthly, m);
    ListedIffCounted(ts.states, st);
    ListedIffCounted(ts.cells, c);
  }

  /**
   The counts do not depend on the order of the events: permuting the input
   gives the same bucket in every slot and the same sets of keys.
   */
  lemma AggregateOrderFree(a: seq<Event>, b: seq<Event>)
    requires multiset(a) == multiset(b)
    ensures forall slot :: Read(Aggregate(a), slot) == Read(Aggregate(b), slot)
    ensures var ta, tb := Aggregate(a), Aggregate(b);
      ta.monthly.counts.Keys == tb.monthly.counts.Keys
      && ta.states.counts.Keys == tb.states.counts.Keys
      && ta.cells.counts.Keys == tb.cells.counts.Keys
  {
    forall slot ensures Read(Aggregate(a), slot) == Read(Aggregate(b), slot) {
      AggregateTally(a, slot);
      AggregateTally(b, slot);
      CountPermutation(a, b, Hits(slot));
      CountPermutation(a, b, HitsOos(slot));
    }
    var ta, tb := Aggregate(a), Aggregate(b);
    assert forall m :: m in ta.monthly.counts <==> m in tb.monthly.counts by {
      forall m ensures m in ta.monthly.counts <==> m in tb.monthly.counts {
        SameKeys(a, b, InMonth(m));
      }
    }
    assert forall st :: st in ta.states.counts <==> st in tb.states.counts by {
      forall st ensures st in ta.states.counts <==> st in tb.states.counts {
        SameKeys(a, b, InState(st));
      }
    }
    assert forall c :: c in ta.cells.counts <==> c in tb.cells.counts by {
      forall c ensures c in ta.cells.counts <==> c in tb.cells.counts {
        SameKeys(a, b, InCell(c));
      }
    }
  }

  /** Permuted inputs give a slot a bucket in both aggregates or in neither. */
  lemma SameKeys(a: seq<Event>, b: seq<Event>, slot: Slot)
    requires multiset(a) == multiset(b)
    ensures slot.InMonth? ==> (slot.m in Aggregate(a).monthly.counts <==> slot.m in Aggregate(b).monthly.counts)
    ensures slot.InState? ==> (slot.s in Aggregate(a).states.counts <==> slot.s in Aggregate(b).states.counts)
    ensures slot.InCell? ==> (slot.c in Aggregate(a).cells.counts <==> slot.c in Aggregate(b).cells.counts)
  {
    CountPermutation(a, b, Hits(slot));
    match slot
    case InMonth(m) =>
      AggregateKeys(a, m, "", Cell("", m));
      AggregateKeys(b, m, "", Cell("", m));
    case InState(st) =>
      AggregateKeys(a, YearMonth(0, 0), st, Cell(st, YearMonth(0, 0)));
      AggregateKeys(b, YearMonth(0, 0), st, Cell(st, YearMonth(0, 0)));
    case InCell(c) =>
      AggregateKeys(a, c.month, c.state, c);
      AggregateKeys(b, c.month, c.state, c);
    case Overall =>
  }

  // ---------------------------------------------------------------------------
  // From input rows to events: each row is counted as one event or skipped.
  // ---------------------------------------------------------------------------

  /** The events of the rows `classify` counts, in row order. */
  function EventsOf<T>(rows: seq<T>, classify: T -> Option<Event>): (evs: seq<Event>)
    ensures |evs| <= |rows|
    ensures forall i :: 0 <= i < |evs| ==> exists j :: 0 <= j < |rows| && classify(rows[j]) == Some(evs[i])
  {
    if |rows| == 0 then []
    else
      var init := rows[..|rows| - 1];
      var evs := EventsOf(init, classify);
      assert forall i :: 0 <= i < |evs| ==> exists j :: 0 <= j < |rows| && classify(rows[j]) == Some(evs[i]) by {
        forall i | 0 <= i < |evs| ensures exists j :: 0 <= j < |rows| && classify(rows[j]) == Some(evs[i]) {
          var j :| 0 <= j < |init| && classify(init[j]) == Some(evs[i]);
          assert rows[j] == init[j];
        }
      }
      match classify(rows[|rows| - 1])
      case Some(e) => evs + [e]
      case None => evs
  }

  /** Whether a row is counted and its event falls in `slot`. */
  function Counts<T>(classify: T -> Option<Event>, slot: Slot): T -> bool {
    (x: T) => classify(x).Some? && Hits(slot)(classify(x).value)
  }

  /** Whether a row is counted as out of service and its event falls in `slot`. */
  function CountsOos<T>(classify: T -> Option<Event>, slot: Slot): T -> bool {
    (x: T) => classify(x).Some? && HitsOos(slot)(classify(x).value)
  }

  /** Counting events is counting the rows they come from. */
  lemma {:induction false} EventsOfCount<T>(rows: seq<T>, classify: T -> Option<Event>, slot: Slot)
    ensures Count(EventsOf(rows, classify), Hits(slot)) == Count(rows, Counts(classify, slot))
    ensures Count(EventsOf(rows, classify), HitsOos(slot)) == Count(rows, CountsOos(classify, slot))
  {
    if |rows| > 0 {
      var init := rows[..|rows| - 1];
      EventsOfCount(init, classify, slot);
      var evs := EventsOf(init, classify);
      match classify(rows[|rows| - 1])
      case Some(e) =>
        assert (evs + [e])[..|evs|] == evs;
      case None =>
    }
  }

  /**
   Each counted row adds one to `all` of its month, its state, its
   state-and-month cell and the total, and one to each `oos` when it is out
   of service; skipped rows add nothing.
   */
  lemma EventsOfTally<T>(rows: seq<T>, classify: T -> Option<Event>, slot: Slot)
    ensures Read(Aggregate(EventsOf(rows, classify)), slot) ==
      Bucket(Count(rows, CountsOos(classify, slot)), Count(rows, Counts(classify, slot)))
  {
    AggregateTally(EventsOf(rows, classify), slot);
    EventsOfCount(rows, classify, slot);
  }

  /** The counts do not depend on the order of the input rows. */
  lemma EventsOfOrderFree<T>(a: seq<T>, b: seq<T>, classify: T -> Option<Event>, slot: Slot)
    requires multiset(a) == multiset(b)
    ensures Read(Aggregate(EventsOf(a, classify)), slot) == Read(Aggregate(EventsOf(b, classify)), slot)
  {
    EventsOfTally(a, classify, slot);
    EventsOfTally(b, classify, slot);
    CountPermutation(a, b, Counts(classify, slot));
    CountPermutation(a, b, CountsOos(classify, slot));
  }

  // ---------------------------------------------------------------------------
  // Insertion order: each table lists its keys in order of first occurrence.
  /** The key of a state's cell in a given month. */
  function CellAt(s: string): YearMonth -> Cell {
    m => Cell(s, m)
  }

  lemma {:induction false} TotalOfEmpty<K>(keys: seq<K>)
    ensures Total(keys, EmptyTable()) == Zero()
  {
    if |keys| > 0 {
      TotalOfEmpty(keys[..|keys| - 1]);
    }
  }

  /**
   A state's cells over a list of distinct months that covers every event
   add up to the state's own bucket: `state_monthly[s]` splits `state_data[s]`
   by month without losing or double-counting an inspection.
   */
  lemma {:induction false} CellsAddUp(evs: seq<Event>, ms: seq<YearMonth>, s: string)
    requires Distinct(ms)
    requires forall i :: 0 <= i < |evs| ==> evs[i].month in ms
    ensures Total(Project(ms, CellAt(s)), Aggregate(evs).cells) == Lookup(Aggregate(evs).states, s)
  {
    var keys := Project(ms, CellAt(s));
    if |evs| == 0 {
      TotalOfEmpty(keys);
    } else {
      var init, e := evs[..|evs| - 1], evs[|evs| - 1];
      assert forall i :: 0 <= i < |init| ==> init[i] == evs[i];
      CellsAddUp(init, ms, s);
      var ts := Aggregate(init);
      BumpLookup(ts.states, e.state, e.oos, s);
      if e.state == s {
        assert e.month in ms;
        var p :| 0 <= p < |ms| && ms[p] == e.month;
        assert keys[p] == CellOf(e);
        assert forall i :: 0 <= i < |keys| && i != p ==> keys[i] != CellOf(e) by {
          forall i | 0 <= i < |keys| && i != p ensures keys[i] != CellOf(e) {
            assert ms[i] != ms[p];
          }
        }
        TotalBumpListed(keys, p, ts.cells, CellOf(e), e.oos);
      } else {
        assert CellOf(e) !in keys;
        TotalBumpUnlisted(keys, ts.cells, CellOf(e), e.oos);
      }
    }
  }

  // ---------------------------------------------------------------------------

  /** `f` applied to each element. */
  function Project<T, K>(s: seq<T>, f: T -> K): (r: seq<K>)
    ensures |r| == |s| && forall i :: 0 <= i < |s| ==> r[i] == f(s[i])
  {
    seq(|s|, i requires 0 <= i < |s| => f(s[i]))
  }

  lemma ProjectSnoc<T, K>(s: seq<T>, x: T, f: T -> K)
    ensures Project(s + [x], f) == Project(s, f) + [f(x)]
  {
  }

  /** The distinct elements of `s` in order of first occurrence. */
  function FirstSeen<K(==,!new)>(s: seq<K>): (r: seq<K>)
    ensures forall k :: k in r <==> k in s
  {
    if |s| == 0 then []
    else
      var r := FirstSeen(s[..|s| - 1]);
      assert s == s[..|s| - 1] + [s[|s| - 1]];
      if s[|s| - 1] in r then r else r + [s[|s| - 1]]
  }

  /** Bumping a table listed in first-seen order of `keys` lists it in first-seen order of `keys + [k]`. */
  lemma BumpOrder<K(!new)>(t: Table<K>, k: K, oos: bool, keys: seq<K>)
    requires WellFormed(t) && t.order == FirstSeen(keys)
    ensures Bump(t, k, oos).order == FirstSeen(keys + [k])
  {
    assert (keys + [k])[..|keys|] == keys;
  }

  /** The key order of each table is the order in which the events first mention its keys. */
  lemma AggregateOrder(evs: seq<Event>)
    ensures Aggregate(evs).monthly.order == FirstSeen(Project(evs, MonthKey))
    ensures Aggregate(evs).states.order == FirstSeen(Project(evs, StateKey))
    ensures Aggregate(evs).cells.order == FirstSeen(Project(evs, CellOf))
  {
    MonthOrder(evs);
    StateOrder(evs);
    CellOrder(evs);
  }

  lemma {:induction false} MonthOrder(evs: seq<Event>)
    ensures Aggregate(evs).monthly.order == FirstSeen(Project(evs, MonthKey))
  {
    if |evs| > 0 {
      var init, e := evs[..|evs| - 1], evs[|evs| - 1];
      MonthOrder(init);
      var t := Aggregate(init).monthly;
      assert WellFormed(t) by {
        AggregateValid(init);
      }
      assert Project(evs, MonthKey) == Project(init, MonthKey) + [e.month] by {
        assert evs == init + [e];
        ProjectSnoc(init, e, MonthKey);
      }
      assert Aggregate(evs).monthly == Bump(t, e.month, e.oos);
      BumpOrder(t, e.month, e.oos, Project(init, MonthKey));
    }
  }

  lemma {:induction false} StateOrder(evs: seq<Event>)
    ensures Aggregate(evs).states.order == FirstSeen(Project(evs, StateKey))
  {
    if |evs| > 0 {
      var init, e := evs[..|evs| - 1], evs[|evs| - 1];
      StateOrder(init);
      var t := Aggregate(init).states;
      assert WellFormed(t) by {
        AggregateValid(init);
      }
      assert Project(evs, StateKey) == Project(init, StateKey) + [e.state] by {
        assert evs == init + [e];
        ProjectSnoc(init, e, StateKey);
      }
      assert Aggregate(evs).states == Bump(t, e.state, e.oos);
      BumpOrder(t, e.state, e.oos, Project(init, StateKey));
    }
  }

  lemma {:induction false} CellOrder(evs: seq<Event>)
    ensures Aggregate(evs).cells.order == FirstSeen(Project(evs, CellOf))
  {
    if |evs| > 0 {
      var init, e := evs[..|evs| - 1], evs[|evs| - 1];
      CellOrder(init);
      var t := Aggregate(init).cells;
      assert WellFormed(t) by {
        AggregateValid(init);
      }
      assert Project(evs, CellOf) == Project(init, CellOf) + [CellOf(e)] by {
        assert evs == init + [e];
        ProjectSnoc(init, e, CellOf);
      }
      assert Aggregate(evs).cells == Bump(t, CellOf(e), e.oos);
      BumpOrder(t, CellOf(e), e.oos, Project(init, CellOf));
    }
  }
}
