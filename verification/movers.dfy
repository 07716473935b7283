/**
 "Biggest movers": the states whose OOS count changed most between two
 months. The CSV build compares the last two complete months and keeps
 states with at least five OOS violations in the earlier one; the API build
 compares the last two months and keeps states with any OOS violation in
 the earlier one.
 */
module Movers {
  import opened Seqs
  import opened Sorting
  import opened Ranking
  import opened Dates
  import opened Tables
  import opened Summary

  /** An entry of `increases` or `decreases`. */
  datatype Change = Change(state: string, change: real, current: nat, previous: nat)

  /** The `biggest_movers` object: `up` is its `increases` list and `down` its `decreases` list. */
  datatype MoverLists = MoverLists(up: seq<Change>, down: seq<Change>)

  function NoMovers(): MoverLists {
    MoverLists([], [])
  }

  /** The sort key `lambda x: x["change"]`. */
  function ByChange(c: Change): real {
    c.change
  }

  function IsIncrease(c: Change): bool {
    c.change > 0.0
  }

  function IsDecrease(c: Change): bool {
    c.change < 0.0
  }

  /**
   The change of state `s` from month `prev` to month `cur`; a month in
   which the state has no cell counts as 0 (`.get(month, {}).get("oos", 0)`,
   or a fresh `defaultdict` bucket).
   */
  function ChangeOf(cells: Table<Cell>, cur: YearMonth, prev: YearMonth, s: string): (c: Change)
    ensures c.state == s
    ensures c.current == Lookup(cells, Cell(s, cur)).oos && c.previous == Lookup(cells, Cell(s, prev)).oos
    ensures c.previous > 0 ==> (c.change > 0.0 <==> c.current > c.previous) && (c.change < 0.0 <==> c.current < c.previous)
  {
    var now, before := Lookup(cells, Cell(s, cur)).oos, Lookup(cells, Cell(s, prev)).oos;
    Change(s, PercentChange(now, before), now, before)
  }

  function ChangeFor(cells: Table<Cell>, cur: YearMonth, prev: YearMonth): string -> Change {
    s => ChangeOf(cells, cur, prev, s)
  }

  function PreviousAtLeast(least: nat): Change -> bool {
    (c: Change) => c.previous >= least
  }

  /**
   The `changes` list before sorting: one entry per state, in the order of
   `states`, for the states with at least `least` OOS violations in `prev`.
   */
  function Candidates(states: seq<string>, cells: Table<Cell>, cur: YearMonth, prev: YearMonth, least: nat): (r: seq<Change>)
    ensures forall c :: c in r <==> exists s :: s in states && c == ChangeOf(cells, cur, prev, s) && c.previous >= least
  {
    var all := Project(states, ChangeFor(cells, cur, prev));
    var r := Filter(all, PreviousAtLeast(least));
    assert forall c :: c in r <==> exists s :: s in states && c == ChangeOf(cells, cur, prev, s) && c.previous >= least by {
      forall c ensures c in r <==> exists s :: s in states && c == ChangeOf(cells, cur, prev, s) && c.previous >= least {
        if c in r {
          var i :| 0 <= i < |r| && r[i] == c;
          var j :| 0 <= j < |all| && all[j] == c;
          assert states[j] in states;
        }
        if exists s :: s in states && c == ChangeOf(cells, cur, prev, s) && c.previous >= least {
          var s :| s in states && c == ChangeOf(cells, cur, prev, s) && c.previous >= least;
          var j :| 0 <= j < |states| && states[j] == s;
          assert all[j] == c;
          FilterKeeps(all, PreviousAtLeast(least), c);
        }
      }
    }
    r
  }

  // ---------------------------------------------------------------------------
  // The shape of a ranked list
  // ---------------------------------------------------------------------------

  /** Every entry of `r` comes from `pool`. */
  ghost predicate From(r: seq<Change>, pool: seq<Change>) {
    forall i :: 0 <= i < |r| ==> r[i] in pool
  }

  /** `r` lists the largest changes of `pool`, largest first: nothing left out changed more. */
  ghost predicate Leads(r: seq<Change>, pool: seq<Change>) {
    From(r, pool) && Descending(r, ByChange)
    && forall c, i :: c in pool && c !in r && 0 <= i < |r| ==> c.change <= r[i].change
  }

  /** `r` lists the smallest changes of `pool`, smallest first: nothing left out changed less. */
  ghost predicate Trails(r: seq<Change>, pool: seq<Change>) {
    From(r, pool) && Ascending(r, ByChange)
    && forall c, i :: c in pool && c !in r && 0 <= i < |r| ==> c.change >= r[i].change
  }

  /** The first `n` of a descending arrangement of `pool` lead `pool`. */
  lemma TakeLeads(ranked: seq<Change>, pool: seq<Change>, n: nat)
    requires multiset(ranked) == multiset(pool) && Descending(ranked, ByChange)
    ensures Leads(Take(ranked, n), pool)
  {
    var t := Take(ranked, n);
    TakeBeatsRest(ranked, ByChange, n);
    forall i | 0 <= i < |t| ensures t[i] in pool {
      assert t[i] == ranked[i] && ranked[i] in multiset(pool);
    }
    forall c | c in pool ensures c in ranked {
      assert c in multiset(ranked);
    }
  }

  /** Read backwards, a descending sequence is descending under the negated key. */
  lemma ReverseDescending(s: seq<Change>)
    requires Descending(s, ByChange)
    ensures Descending(Reverse(s), Negated(ByChange))
  {
  }

  /** The first `n` of a sequence ascending by change trail it. */
  lemma TakeAscendingTrails(s: seq<Change>, n: nat)
    requires Descending(s, Negated(ByChange))
    ensures Trails(Take(s, n), s)
  {
    var t := Take(s, n);
    TakeBeatsRest(s, Negated(ByChange), n);
    forall i | 0 <= i < |t| ensures t[i] in s {
      assert t[i] == s[i];
    }
    assert Ascending(t, ByChange) by {
      forall i, j | 0 <= i < j < |t| ensures ByChange(t[i]) <= ByChange(t[j]) {
        assert Negated(ByChange)(t[i]) >= Negated(ByChange)(t[j]);
        assert Negated(ByChange)(t[i]) == -t[i].change && Negated(ByChange)(t[j]) == -t[j].change;
      }
    }
    forall c, i | c in s && c !in t && 0 <= i < |t| ensures c.change >= t[i].change {
      assert Negated(ByChange)(c) <= Negated(ByChange)(t[i]);
      assert Negated(ByChange)(c) == -c.change && Negated(ByChange)(t[i]) == -t[i].change;
    }
  }

  /** The first `n` of a descending arrangement read backwards trail the pool. */
  lemma TakeTrails(ranked: seq<Change>, pool: seq<Change>, n: nat)
    requires multiset(ranked) == multiset(pool) && Descending(ranked, ByChange)
    ensures Trails(Take(Reverse(ranked), n), pool)
  {
    ReverseDescending(ranked);
    TakeAscendingTrails(Reverse(ranked), n);
    ReverseMultiset(ranked);
    forall c ensures c in Reverse(ranked) <==> c in pool {
      assert c in Reverse(ranked) <==> c in multiset(Reverse(ranked));
      assert c in pool <==> c in multiset(pool);
    }
    SameMembers(Take(Reverse(ranked), n), Reverse(ranked), pool);
  }

  // ---------------------------------------------------------------------------
  // CSV build
  // ---------------------------------------------------------------------------

  /**
   `calculate_biggest_movers` of the CSV build over the states in `states`
   and the calendar-ordered months `months`: fewer than three months give
   no movers; otherwise it compares the second-to-last month with the one
   before, keeps states with at least five OOS violations in the earlier
   month, and cuts both lists from the candidates ranked by change.
   */
  function CsvMovers(states: seq<string>, cells: Table<Cell>, months: seq<YearMonth>): (r: MoverLists)
    ensures |months| < 3 ==> r == NoMovers()
  {
    var n := |months|;
    if n < 3 then NoMovers()
    else CsvPick(RankDesc(CsvPool(states, cells, months), ByChange))
  }

  /** The CSV candidates: states with at least five OOS violations in the second-to-last-but-one month. */
  function CsvPool(states: seq<string>, cells: Table<Cell>, months: seq<YearMonth>): seq<Change>
    requires |months| >= 3
  {
    var n := |months|;
    Candidates(states, cells, months[n - 2], months[n - 3], 5)
  }

  /**
   With three or more months, `increases` holds up to three largest changes
   among the candidates, largest first, and `decreases` the three smallest,
   smallest first, once there are at least three candidates (none before).
   */
  lemma CsvMoversRanked(states: seq<string>, cells: Table<Cell>, months: seq<YearMonth>)
    requires |months| >= 3
    ensures var r, pool := CsvMovers(states, cells, months), CsvPool(states, cells, months);
      && |r.up| == (if |pool| < 3 then |pool| else 3)
      && |r.down| == (if |pool| < 3 then 0 else 3)
      && Leads(r.up, pool)
      && Trails(r.down, pool)
  {
    var pool := CsvPool(states, cells, months);
    var ranked := RankDesc(pool, ByChange);
    TakeLeads(ranked, pool, 3);
    TakeTrails(ranked, pool, 3);
  }

  /** `changes[-3:][::-1]`: the last three entries, last first. */
  function CsvBottom(ranked: seq<Change>): (r: seq<Change>)
    requires |ranked| >= 3
    ensures r == Take(Reverse(ranked), 3)
  {
    Reverse(ranked[|ranked| - 3..])
  }

  /** The two CSV lists cut from the ranked candidates. */
  function CsvPick(ranked: seq<Change>): MoverLists {
    MoverLists(Take(ranked, 3), if |ranked| >= 3 then CsvBottom(ranked) else [])
  }

  /** With three to five ranked candidates the third largest change is in both lists. */
  lemma CsvPickOverlap(ranked: seq<Change>)
    requires 3 <= |ranked| < 6
    ensures ranked[2] in CsvPick(ranked).up && ranked[2] in CsvPick(ranked).down
  {
    var tail := ranked[|ranked| - 3..];
    assert CsvPick(ranked).up[2] == ranked[2];
    assert tail[2 - (|ranked| - 3)] == ranked[2];
    assert CsvPick(ranked).down[|ranked| - 3] == ranked[2];
  }

  /** With three to five candidates the two CSV lists share a state. */
  lemma CsvMoversOverlap(states: seq<string>, cells: Table<Cell>, months: seq<YearMonth>)
    requires |months| >= 3 && 3 <= |CsvPool(states, cells, months)| < 6
    ensures var r := CsvMovers(states, cells, months);
      exists c :: c in r.up && c in r.down
  {
    var ranked := RankDesc(CsvPool(states, cells, months), ByChange);
    var r := CsvMovers(states, cells, months);
    CsvPickOverlap(ranked);
    assert ranked[2] in r.up && ranked[2] in r.down;
  }

  // ---------------------------------------------------------------------------
  // API build
  // ---------------------------------------------------------------------------

  /** The API candidates: states with at least one OOS violation in the second-to-last month. */
  function ApiPool(states: seq<string>, cells: Table<Cell>, months: seq<YearMonth>): seq<Change>
    requires |months| >= 2
  {
    var n := |months|;
    Candidates(states, cells, months[n - 1], months[n - 2], 1)
  }

  /**
   The two API lists as written: `[c for c in changes if c["change"] > 0][:3]`
   and `[c for c in changes if c["change"] < 0][:3]` over the changes ranked
   largest first. The second list therefore holds the three drops closest
   to zero, not the three largest drops.
   */
  function ApiPickAsWritten(ranked: seq<Change>): MoverLists {
    MoverLists(Take(Filter(ranked, IsIncrease), 3), Take(Filter(ranked, IsDecrease), 3))
  }

  /** The two API lists as intended: up to three largest rises, largest first, and up to three largest drops, largest first. */
  function ApiPick(ranked: seq<Change>): MoverLists {
    MoverLists(Take(Filter(ranked, IsIncrease), 3), Take(Filter(Reverse(ranked), IsDecrease), 3))
  }

  /** `calculate_biggest_movers` of the API build as written: fewer than two months give no movers. */
  function ApiMoversAsWritten(states: seq<string>, cells: Table<Cell>, months: seq<YearMonth>): (r: MoverLists)
    ensures |months| < 2 ==> r == NoMovers()
  {
    if |months| < 2 then NoMovers() else ApiPickAsWritten(RankDesc(ApiPool(states, cells, months), ByChange))
  }

  /**
   `calculate_biggest_movers` of the API build with the drops taken from the
   bottom of the ranking: compares the last month with the one before and
   keeps states with at least one OOS violation in the earlier month.
   */
  function ApiMovers(states: seq<string>, cells: Table<Cell>, months: seq<YearMonth>): (r: MoverLists)
    ensures |months| < 2 ==> r == NoMovers()
  {
    if |months| < 2 then NoMovers() else ApiPick(RankDesc(ApiPool(states, cells, months), ByChange))
  }

  /** Whether `r` lists exactly the members of `pool` that satisfy `p`. */
  lemma FilterMembers(ranked: seq<Change>, pool: seq<Change>, p: Change -> bool)
    requires multiset(ranked) == multiset(pool)
    ensures forall c :: c in Filter(ranked, p) <==> c in Filter(pool, p)
    ensures |Filter(ranked, p)| == |Filter(pool, p)|
  {
    forall c ensures c in Filter(ranked, p) <==> c in Filter(pool, p) {
      if c in Filter(ranked, p) {
        assert c in multiset(pool);
        FilterKeeps(pool, p, c);
      }
      if c in Filter(pool, p) {
        assert c in multiset(ranked);
        FilterKeeps(ranked, p, c);
      }
    }
    CountPermutation(ranked, pool, p);
  }

  /** `Leads` and `Trails` depend only on which changes the pool holds. */
  lemma SameMembers(r: seq<Change>, x: seq<Change>, y: seq<Change>)
    requires forall c :: c in x <==> c in y
    ensures Leads(r, x) ==> Leads(r, y)
    ensures Trails(r, x) ==> Trails(r, y)
  {
  }

  /**
   From a descending arrangement of `pool`, the first three entries that
   satisfy `p` are the largest such changes, largest first.
   */
  lemma FilterTakeLeads(ranked: seq<Change>, pool: seq<Change>, p: Change -> bool)
    requires multiset(ranked) == multiset(pool) && Descending(ranked, ByChange)
    ensures var r := Take(Filter(ranked, p), 3);
      && (forall c :: c in r ==> p(c))
      && |r| == (if Count(pool, p) < 3 then Count(pool, p) else 3)
      && Leads(r, Filter(pool, p))
  {
    var kept := Filter(ranked, p);
    FilterDescending(ranked, ByChange, p);
    FilterMembers(ranked, pool, p);
    TakeLeads(kept, kept, 3);
    SameMembers(Take(kept, 3), kept, Filter(pool, p));
  }

  /**
   From a descending arrangement of `pool` read backwards, the first three
   entries that satisfy `p` are the smallest such changes, smallest first.
   */
  lemma FilterTakeTrails(ranked: seq<Change>, pool: seq<Change>, p: Change -> bool)
    requires multiset(ranked) == multiset(pool) && Descending(ranked, ByChange)
    ensures var r := Take(Filter(Reverse(ranked), p), 3);
      && (forall c :: c in r ==> p(c))
      && |r| == (if Count(pool, p) < 3 then Count(pool, p) else 3)
      && Trails(r, Filter(pool, p))
  {
    var back := Reverse(ranked);
    var kept := Filter(back, p);
    ReverseDescending(ranked);
    FilterDescending(back, Negated(ByChange), p);
    assert multiset(back) == multiset(pool) by {
      ReverseMultiset(ranked);
    }
    FilterMembers(back, pool, p);
    TakeAscendingTrails(kept, 3);
    SameMembers(Take(kept, 3), kept, Filter(pool, p));
  }

  /** Both API lists as intended: rises largest first, drops largest first, three at most each, nothing larger left out. */
  lemma ApiMoversRanked(states: seq<string>, cells: Table<Cell>, months: seq<YearMonth>)
    requires |months| >= 2
    ensures var r, pool := ApiMovers(states, cells, months), ApiPool(states, cells, months);
      && (forall c :: c in r.up ==> c.change > 0.0)
      && (forall c :: c in r.down ==> c.change < 0.0)
      && |r.up| == (if Count(pool, IsIncrease) < 3 then Count(pool, IsIncrease) else 3)
      && |r.down| == (if Count(pool, IsDecrease) < 3 then Count(pool, IsDecrease) else 3)
      && Leads(r.up, Filter(pool, IsIncrease))
      && Trails(r.down, Filter(pool, IsDecrease))
  {
    var pool := ApiPool(states, cells, months);
    var ranked := RankDesc(pool, ByChange);
    FilterTakeLeads(ranked, pool, IsIncrease);
    FilterTakeTrails(ranked, pool, IsDecrease);
  }

  /**
   As written, the API drops are the negative changes closest to zero:
   every drop left out is at least as large as each one listed.
   */
  lemma ApiMoversAsWrittenDrops(states: seq<string>, cells: Table<Cell>, months: seq<YearMonth>)
    requires |months| >= 2
    ensures var r, pool := ApiMoversAsWritten(states, cells, months), ApiPool(states, cells, months);
      && (forall c :: c in r.down ==> c.change < 0.0)
      && Leads(r.down, Filter(pool, IsDecrease))
  {
    var pool := ApiPool(states, cells, months);
    FilterTakeLeads(RankDesc(pool, ByChange), pool, IsDecrease);
  }

  /** Four states whose OOS counts fell from 10 to 9, 8, 7 and 1. */
  function FourDrops(): seq<Change> {
    [Change("TX", -10.0, 9, 10), Change("CA", -20.0, 8, 10), Change("NY", -30.0, 7, 10), Change("FL", -90.0, 1, 10)]
  }

  /** A list already ranked by change is its own ranking. */
  lemma RankedAlready(s: seq<Change>)
    requires Descending(s, ByChange)
    ensures RankDesc(s, ByChange) == s
  {
    RankDescUnique(s, s, ByChange);
  }

  lemma FourDropsRanked()
    ensures RankDesc(FourDrops(), ByChange) == FourDrops()
  {
    assert Descending(FourDrops(), ByChange);
    RankedAlready(FourDrops());
  }

  lemma FourDropsAsWritten()
    ensures ApiPickAsWritten(FourDrops()).down == FourDrops()[..3]
    ensures FourDrops()[3] !in FourDrops()[..3]
  {
    var pool := FourDrops();
    assert IsDecrease(pool[0]) && IsDecrease(pool[1]) && IsDecrease(pool[2]) && IsDecrease(pool[3]);
    FilterAll(pool, IsDecrease);
  }

  lemma FourDropsCorrected()
    ensures ApiPick(FourDrops()).down == [FourDrops()[3], FourDrops()[2], FourDrops()[1]]
  {
    var pool := FourDrops();
    var back := Reverse(pool);
    assert back == [pool[3], pool[2], pool[1], pool[0]];
    assert IsDecrease(back[0]) && IsDecrease(back[1]) && IsDecrease(back[2]) && IsDecrease(back[3]);
    FilterAll(back, IsDecrease);
    assert back[..3] == [pool[3], pool[2], pool[1]];
  }

  /** As written, the API build leaves the 90% drop out of `decreases` and lists the three smaller drops. */
  lemma ApiDropsMissLargest()
    ensures var pool := FourDrops(); var down := ApiPickAsWritten(RankDesc(pool, ByChange)).down;
      down == pool[..3] && pool[3] !in down
  {
    FourDropsRanked();
    FourDropsAsWritten();
  }

  /** With the drops taken from the bottom of the ranking, `decreases` starts with the 90% drop. */
  lemma ApiDropsCorrected()
    ensures var pool := FourDrops();
      ApiPick(RankDesc(pool, ByChange)).down == [pool[3], pool[2], pool[1]]
  {
    FourDropsRanked();
    FourDropsCorrected();
  }
}
