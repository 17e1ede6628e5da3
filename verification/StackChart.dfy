/** The pivot behind the stacked chart: rows of environment, database type and count become one
    series per database type with one entry per environment. */
module StackChart {
  import opened Text

  /** One result row; only rows of three cells carry a count. */
  datatype Row = Empty | One(env: string) | Two(env: string, dbType: string)
               | Three(env: string, dbType: string, count: int) | Longer(env: string, dbType: string, cells: nat)

  type Table = map<string, map<string, int>>

  type Series = map<string, seq<int>>

  // ---- the pivot as a function -----------------------------------------------------------

  function Envs(rows: seq<Row>): set<string> {
    set r | r in rows && !r.Empty? :: r.env
  }

  function DbTypes(rows: seq<Row>): set<string> {
    set r | r in rows && !r.Empty? && !r.One? :: r.dbType
  }

  /** The count of the last row for the pair, or 0. */
  function CountOf(rows: seq<Row>, env: string, dbType: string): int {
    if rows == [] then 0
    else if Last(rows).Three? && Last(rows).env == env && Last(rows).dbType == dbType then Last(rows).count
    else CountOf(Front(rows), env, dbType)
  }

  /** `listed` names every element of `all`, each once, in some order. */
  ghost predicate Lists(listed: seq<string>, all: set<string>) {
    && (forall x :: x in listed <==> x in all)
    && AreDistinct(listed)
  }

  /** One series per type, one entry per environment, each the count of its pair. */
  ghost predicate IsPivot(series: Series, rows: seq<Row>, envs: seq<string>, dbTypes: seq<string>) {
    && series.Keys == DbTypes(rows)
    && forall t | t in dbTypes :: t in series && IsSeriesOf(series[t], rows, envs, t)
  }

  ghost predicate IsSeriesOf(counts: seq<int>, rows: seq<Row>, envs: seq<string>, t: string) {
    |counts| == |envs| && forall e | 0 <= e < |envs| :: counts[e] == CountOf(rows, envs[e], t)
  }

  // ---- the loops -------------------------------------------------------------------------

  /** `list` of a set: its elements in an order nobody fixes. */
  method ListOf(all: set<string>) returns (listed: seq<string>)
    ensures Lists(listed, all)
  {
    listed := [];
    var rest := all;
    while rest != {}
      invariant forall x :: x in all <==> x in listed || x in rest
      invariant forall x | x in listed :: x !in rest
      invariant AreDistinct(listed)
      decreases |rest|
    {
      var x :| x in rest;
      listed := listed + [x];
      rest := rest - {x};
    }
  }

  /** Every pair has an entry, the count of the rows so far. */
  ghost predicate IsFilled(table: Table, rows: seq<Row>, envs: set<string>, dbTypes: set<string>) {
    && table.Keys == envs
    && forall e | e in envs :: table[e].Keys == dbTypes
         && forall t | t in dbTypes :: table[e][t] == CountOf(rows, e, t)
  }

  /** A row with a count sets the entry of its pair and no other. */
  lemma EntrySet(table: Table, rows: seq<Row>, r: Row, envs: set<string>, dbTypes: set<string>)
    requires IsFilled(table, rows, envs, dbTypes) && r.Three? && r.env in envs && r.dbType in dbTypes
    ensures IsFilled(table[r.env := table[r.env][r.dbType := r.count]], rows + [r], envs, dbTypes)
  {
    assert Front(rows + [r]) == rows;
  }

  lemma EntryKept(table: Table, rows: seq<Row>, r: Row, envs: set<string>, dbTypes: set<string>)
    requires IsFilled(table, rows, envs, dbTypes) && !r.Three?
    ensures IsFilled(table, rows + [r], envs, dbTypes)
  {
    assert Front(rows + [r]) == rows;
  }

  /** The fill of `gen_stack_chart`. */
  method Fill(rows: seq<Row>, envs: seq<string>, dbTypes: seq<string>) returns (table: Table)
    requires Lists(envs, Envs(rows)) && Lists(dbTypes, DbTypes(rows))
    ensures IsFilled(table, rows, Envs(rows), DbTypes(rows))
  {
    ghost var es, ts := Envs(rows), DbTypes(rows);
    var zeros := map t | t in dbTypes :: 0;
    table := map e | e in envs :: zeros;
    for r := 0 to |rows|
      invariant IsFilled(table, rows[..r], es, ts)
    {
      assert rows[..r + 1] == rows[..r] + [rows[r]];
      if rows[r].Three? {
        var env, dbType := rows[r].env, rows[r].dbType;
        assert rows[r] in rows && env in es && dbType in ts;
        EntrySet(table, rows[..r], rows[r], es, ts);
        if env in table && dbType in table[env] {
          table := table[env := table[env][dbType := rows[r].count]];
        }
      } else {
        EntryKept(table, rows[..r], rows[r], es, ts);
      }
    }
    assert rows[..|rows|] == rows;
  }

  /** The inner loop: one environment adds its entry to the series of every type. */
  method AppendEntries(before: Series, counts: map<string, int>, dbTypes: seq<string>) returns (series: Series)
    requires AreDistinct(dbTypes) && forall t | t in dbTypes :: t in before && t in counts
    ensures series.Keys == before.Keys
    ensures forall t | t in dbTypes :: series[t] == before[t] + [counts[t]]
  {
    series := before;
    for d := 0 to |dbTypes|
      invariant series.Keys == before.Keys
      invariant forall j | 0 <= j < d :: series[dbTypes[j]] == before[dbTypes[j]] + [counts[dbTypes[j]]]
      invariant forall j | d <= j < |dbTypes| :: series[dbTypes[j]] == before[dbTypes[j]]
    {
      var t := dbTypes[d];
      series := series[t := series[t] + [counts[t]]];
    }
  }

  /** `gen_stack_chart`, up to the data of the chart. */
  method GenStackChart(rows: seq<Row>) returns (envs: seq<string>, dbTypes: seq<string>, series: Series)
    ensures Lists(envs, Envs(rows)) && Lists(dbTypes, DbTypes(rows))
    ensures IsPivot(series, rows, envs, dbTypes)
  {
    envs := ListOf(Envs(rows));
    dbTypes := ListOf(DbTypes(rows));
    var table := Fill(rows, envs, dbTypes);
    series := map t | t in dbTypes :: [];
    for e := 0 to |envs|
      invariant series.Keys == DbTypes(rows)
      invariant forall t | t in dbTypes :: IsSeriesOf(series[t], rows, envs[..e], t)
    {
      assert envs[e] in envs;
      var counts := table[envs[e]];
      ghost var before := series;
      series := AppendEntries(series, counts, dbTypes);
      forall t | t in dbTypes
        ensures IsSeriesOf(series[t], rows, envs[..e + 1], t)
      {
        OneMoreEntry(before[t], rows, envs, e, t);
      }
    }
    assert envs[..|envs|] == envs;
  }

  lemma OneMoreEntry(counts: seq<int>, rows: seq<Row>, envs: seq<string>, e: nat, t: string)
    requires e < |envs| && IsSeriesOf(counts, rows, envs[..e], t)
    ensures IsSeriesOf(counts + [CountOf(rows, envs[e], t)], rows, envs[..e + 1], t)
  {
  }

  // ---- conservation ----------------------------------------------------------------------

  function Sum(xs: seq<int>): int {
    if xs == [] then 0 else xs[0] + Sum(xs[1..])
  }

  /** The sum of all series. */
  function Total(series: Series, dbTypes: seq<string>): int
    requires forall t | t in dbTypes :: t in series
  {
    if dbTypes == [] then 0 else Sum(series[dbTypes[0]]) + Total(series, dbTypes[1..])
  }

  /** The counts of one type over the environments, and of all types over all of them. */
  function TypeSum(rows: seq<Row>, envs: seq<string>, t: string): int {
    if envs == [] then 0 else CountOf(rows, envs[0], t) + TypeSum(rows, envs[1..], t)
  }

  function GridSum(rows: seq<Row>, envs: seq<string>, dbTypes: seq<string>): int {
    if dbTypes == [] then 0 else TypeSum(rows, envs, dbTypes[0]) + GridSum(rows, envs, dbTypes[1..])
  }

  /** The counts read in, and those of them that a later row of the same pair replaces. */
  function InputSum(rows: seq<Row>): int {
    if rows == [] then 0 else InputSum(Front(rows)) + if Last(rows).Three? then Last(rows).count else 0
  }

  function Replaced(rows: seq<Row>): int {
    if rows == [] then 0
    else
      var r := Last(rows);
      Replaced(Front(rows)) + if r.Three? then CountOf(Front(rows), r.env, r.dbType) else 0
  }

  /** One more row changes the sum of a type by its count less the one it replaces. */
  lemma {:induction false} TypeSumStep(rows: seq<Row>, r: Row, envs: seq<string>, t: string)
    requires AreDistinct(envs)
    ensures TypeSum(rows + [r], envs, t) == TypeSum(rows, envs, t)
      + if r.Three? && r.dbType == t && r.env in envs then r.count - CountOf(rows, r.env, t) else 0
  {
    assert Front(rows + [r]) == rows;
    if envs != [] {
      TypeSumStep(rows, r, envs[1..], t);
      assert envs == [envs[0]] + envs[1..];
      if r.Three? && r.env == envs[0] {
        assert r.env !in envs[1..];
      }
    }
  }

  lemma {:induction false} GridSumStep(rows: seq<Row>, r: Row, envs: seq<string>, dbTypes: seq<string>)
    requires AreDistinct(envs) && AreDistinct(dbTypes)
    ensures GridSum(rows + [r], envs, dbTypes) == GridSum(rows, envs, dbTypes)
      + if r.Three? && r.dbType in dbTypes && r.env in envs then r.count - CountOf(rows, r.env, r.dbType) else 0
  {
    if dbTypes != [] {
      GridSumStep(rows, r, envs, dbTypes[1..]);
      TypeSumStep(rows, r, envs, dbTypes[0]);
      assert dbTypes == [dbTypes[0]] + dbTypes[1..];
      if r.Three? && r.dbType == dbTypes[0] {
        assert r.dbType !in dbTypes[1..];
      }
    }
  }

  lemma {:induction false} EmptyGrid(envs: seq<string>, dbTypes: seq<string>)
    ensures GridSum([], envs, dbTypes) == 0
  {
    if dbTypes != [] {
      EmptyGrid(envs, dbTypes[1..]);
      EmptyType(envs, dbTypes[0]);
    }
  }

  lemma {:induction false} EmptyType(envs: seq<string>, t: string)
    ensures TypeSum([], envs, t) == 0
  {
    if envs != [] {
      EmptyType(envs[1..], t);
    }
  }

  lemma {:induction false} GridConserves(rows: seq<Row>, envs: seq<string>, dbTypes: seq<string>)
    requires AreDistinct(envs) && AreDistinct(dbTypes)
    requires forall r | r in rows && r.Three? :: r.env in envs && r.dbType in dbTypes
    ensures GridSum(rows, envs, dbTypes) == InputSum(rows) - Replaced(rows)
  {
    if rows == [] {
      EmptyGrid(envs, dbTypes);
    } else {
      assert rows == Front(rows) + [Last(rows)];
      GridConserves(Front(rows), envs, dbTypes);
      GridSumStep(Front(rows), Last(rows), envs, dbTypes);
      assert Last(rows) in rows;
    }
  }

  lemma {:induction false} SumIsTypeSum(xs: seq<int>, rows: seq<Row>, envs: seq<string>, t: string)
    requires IsSeriesOf(xs, rows, envs, t)
    ensures Sum(xs) == TypeSum(rows, envs, t)
  {
    if envs != [] {
      SumIsTypeSum(xs[1..], rows, envs[1..], t);
    }
  }

  lemma {:induction false} TotalIsGridSum(series: Series, rows: seq<Row>, envs: seq<string>, dbTypes: seq<string>)
    requires forall t | t in dbTypes :: t in series && IsSeriesOf(series[t], rows, envs, t)
    ensures Total(series, dbTypes) == GridSum(rows, envs, dbTypes)
  {
    if dbTypes != [] {
      assert dbTypes[0] in dbTypes;
      assert forall t | t in dbTypes[1..] :: t in dbTypes;
      SumIsTypeSum(series[dbTypes[0]], rows, envs, dbTypes[0]);
      TotalIsGridSum(series, rows, envs, dbTypes[1..]);
    }
  }

  /** Whatever order the sets are listed in, the sum of all series is the sum of the counts read
      in, less the counts that a later row of the same pair replaced. */
  lemma PivotConserves(series: Series, rows: seq<Row>, envs: seq<string>, dbTypes: seq<string>)
    requires Lists(envs, Envs(rows)) && Lists(dbTypes, DbTypes(rows)) && IsPivot(series, rows, envs, dbTypes)
    ensures Total(series, dbTypes) == InputSum(rows) - Replaced(rows)
  {
    TotalIsGridSum(series, rows, envs, dbTypes);
    GridConserves(rows, envs, dbTypes);
  }

  /** No pair has two rows with a count. */
  ghost predicate PairsDistinct(rows: seq<Row>) {
    forall i, j | 0 <= i < j < |rows| && rows[i].Three? && rows[j].Three? ::
      rows[i].env != rows[j].env || rows[i].dbType != rows[j].dbType
  }

  lemma {:induction false} NoPairNoCount(rows: seq<Row>, env: string, dbType: string)
    requires forall r | r in rows && r.Three? :: r.env != env || r.dbType != dbType
    ensures CountOf(rows, env, dbType) == 0
  {
    if rows != [] {
      assert Last(rows) in rows;
      NoPairNoCount(Front(rows), env, dbType);
    }
  }

  lemma {:induction false} DistinctReplaceNothing(rows: seq<Row>)
    requires PairsDistinct(rows)
    ensures Replaced(rows) == 0
  {
    if rows != [] {
      DistinctReplaceNothing(Front(rows));
      var r, n := Last(rows), |rows| - 1;
      if r.Three? {
        forall q | q in Front(rows) && q.Three?
          ensures q.env != r.env || q.dbType != r.dbType
        {
          var i :| 0 <= i < n && rows[i] == q;
          assert rows[n] == r;
        }
        NoPairNoCount(Front(rows), r.env, r.dbType);
      }
    }
  }

  /** So for distinct pairs nothing is lost. */
  lemma DistinctPairsConserved(series: Series, rows: seq<Row>, envs: seq<string>, dbTypes: seq<string>)
    requires Lists(envs, Envs(rows)) && Lists(dbTypes, DbTypes(rows)) && IsPivot(series, rows, envs, dbTypes)
    requires PairsDistinct(rows)
    ensures Total(series, dbTypes) == InputSum(rows)
  {
    PivotConserves(series, rows, envs, dbTypes);
    DistinctReplaceNothing(rows);
  }

  // ---- entries by rows -------------------------------------------------------------------

  /** The environments are the first cells of all rows that have one, the types the second cells. */
  lemma AxesByRows(rows: seq<Row>, name: string)
    ensures name in Envs(rows) <==>
      exists r | r in rows :: (r.One? || r.Two? || r.Three? || r.Longer?) && r.env == name
    ensures name in DbTypes(rows) <==>
      exists r | r in rows :: (r.Two? || r.Three? || r.Longer?) && r.dbType == name
  {
  }

  /** The entry of a pair is the count of its last row of three cells, 0 without one. */
  lemma {:induction false} EntryByRows(rows: seq<Row>, i: nat)
    requires i < |rows| && rows[i].Three?
    requires forall j | i < j < |rows| && rows[j].Three? ::
      rows[j].env != rows[i].env || rows[j].dbType != rows[i].dbType
    ensures CountOf(rows, rows[i].env, rows[i].dbType) == rows[i].count
  {
    if i < |rows| - 1 {
      assert Last(rows) == rows[|rows| - 1];
      EntryByRows(Front(rows), i);
    }
  }

  /** So the chart shows each row whose pair does not come again. */
  lemma ChartShowsRow(series: Series, rows: seq<Row>, envs: seq<string>, dbTypes: seq<string>, i: nat)
    returns (e: nat)
    requires Lists(envs, Envs(rows)) && Lists(dbTypes, DbTypes(rows)) && IsPivot(series, rows, envs, dbTypes)
    requires i < |rows| && rows[i].Three?
    requires forall j | i < j < |rows| && rows[j].Three? ::
      rows[j].env != rows[i].env || rows[j].dbType != rows[i].dbType
    ensures e < |envs| && envs[e] == rows[i].env
    ensures rows[i].dbType in series && |series[rows[i].dbType]| == |envs|
    ensures series[rows[i].dbType][e] == rows[i].count
  {
    var r := rows[i];
    EntryByRows(rows, i);
    assert r in rows && r.env in envs && r.dbType in dbTypes;
    e :| 0 <= e < |envs| && envs[e] == r.env;
    assert IsSeriesOf(series[r.dbType], rows, envs, r.dbType);
  }

  /** And 0 for a pair without row. */
  lemma ChartShowsZero(series: Series, rows: seq<Row>, envs: seq<string>, dbTypes: seq<string>, e: nat, t: string)
    requires IsPivot(series, rows, envs, dbTypes) && e < |envs| && t in dbTypes
    requires forall r | r in rows && r.Three? :: r.env != envs[e] || r.dbType != t
    ensures t in series && |series[t]| == |envs| && series[t][e] == 0
  {
    NoPairNoCount(rows, envs[e], t);
    assert IsSeriesOf(series[t], rows, envs, t);
  }
}
