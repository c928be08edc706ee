/**
 * Model of `protocol_metrics.py`: cursor pagination over the `protocolMetrics`
 * collection. Each query asks for at most 1000 records with a timestamp
 * greater than the cursor, in ascending timestamp order; the loop stops at
 * the first page whose id column is empty, and otherwise moves the cursor to
 * the last timestamp of the page and extends the eighteen column lists.
 *
 * The endpoint is a mock over a finite dataset `data`, held in the order the
 * endpoint sorts by (ascending timestamp); it interprets the where clause.
 */
module ProtocolMetrics {
  import opened Wrappers

  /** `first=1000`: the most records one query returns. */
  const PageSize: nat := 1000

  /** The eighteen selected fields, in the order of the query and of the CSV header. */
  const ColumnNames: seq<string> := [
    "id", "timestamp", "klimaCirculatingSupply", "sKlimaCirculatingSupply", "totalSupply",
    "totalKlimaUnstaked", "klimaPrice", "marketCap", "klimaIndex", "treasuryBalanceKLIMA",
    "treasuryBalanceUSDC", "treasuryCarbon", "treasuryCarbonCustodied", "treasuryMarketValue",
    "treasuryUSDCInLP", "totalValueLocked", "totalKlimaInLP", "runwayCurrent"
  ]

  /** One `protocolMetrics` entity: id, timestamp, and the sixteen metric values as the endpoint sends them. */
  datatype Metric = Metric(id: string, timestamp: int, figures: seq<string>)

  /** One cell of a column list: text, a timestamp, or a null for a value the record lacks. */
  datatype Cell = Text(text: string) | Stamp(seconds: int) | Null

  function Last<T>(s: seq<T>): T
    requires s != []
  {
    s[|s| - 1]
  }

  /** The `where_clause` dictionary built by `fetch_protocol_metrics_supply`. */
  function SupplyWhere(minTimestamp: Option<int>): (w: map<string, int>)
    ensures "timestamp_gt" in w <==> minTimestamp.Some?
    ensures minTimestamp.Some? ==> w["timestamp_gt"] == minTimestamp.value
    ensures w.Keys <= {"timestamp_gt"}
  {
    if minTimestamp.Some? then map["timestamp_gt" := minTimestamp.value] else map[]
  }

  /** The endpoint's reading of a where clause: `timestamp_gt` keeps only later records. */
  predicate Admits(w: map<string, int>, r: Metric) {
    "timestamp_gt" in w ==> r.timestamp > w["timestamp_gt"]
  }

  /** The records of `data` the where clause admits, in stored order. */
  function Filter(data: seq<Metric>, w: map<string, int>): (r: seq<Metric>)
    ensures |r| <= |data|
  {
    if data == [] then []
    else (if Admits(w, data[0]) then [data[0]] else []) + Filter(data[1..], w)
  }

  /** Exactly the admitted records of `data` pass the filter. */
  lemma {:induction false} FilterMembers(data: seq<Metric>, w: map<string, int>)
    ensures forall x :: x in Filter(data, w) <==> x in data && Admits(w, x)
  {
    if data != [] {
      FilterMembers(data[1..], w);
      assert data == [data[0]] + data[1..];
    }
  }

  function Take(s: seq<Metric>, n: nat): (r: seq<Metric>)
    ensures |r| == if |s| <= n then |s| else n
    ensures r == s[..|r|]
  {
    if |s| <= n then s else s[..n]
  }

  /**
   * The mock endpoint: the first 1000 admitted records in stored order.
   * `orderBy="timestamp", orderDirection="asc"` is reflected by storing the
   * dataset in ascending timestamp order (`Ascending`), which the run requires.
   */
  function Serve(data: seq<Metric>, w: map<string, int>): seq<Metric> {
    Take(Filter(data, w), PageSize)
  }

  /** The records above a cursor (all of them when there is no cursor). */
  function Above(data: seq<Metric>, cursor: Option<int>): seq<Metric> {
    Filter(data, SupplyWhere(cursor))
  }

  /** The last record of a non-empty page is one of the records above the cursor. */
  lemma ServeLastAbove(data: seq<Metric>, cursor: Option<int>)
    requires Serve(data, SupplyWhere(cursor)) != []
    ensures Last(Serve(data, SupplyWhere(cursor))) in Above(data, cursor)
  {
    var page := Serve(data, SupplyWhere(cursor));
    assert Last(page) == Above(data, cursor)[|page| - 1];
  }

  /** Cursor `c2` is at least as far on as `c1`. */
  predicate Beyond(c1: Option<int>, c2: Option<int>) {
    c2.Some? && (c1.None? || c1.value <= c2.value)
  }

  /** Moving the cursor forward never admits more records. */
  lemma {:induction false} AboveMonotone(data: seq<Metric>, c1: Option<int>, c2: Option<int>)
    requires Beyond(c1, c2)
    ensures |Above(data, c2)| <= |Above(data, c1)|
  {
    if data != [] {
      AboveMonotone(data[1..], c1, c2);
    }
  }

  /**
   * Moving the cursor to the timestamp of an admitted record strictly shrinks
   * what is left above it: this is why the loop terminates.
   */
  lemma {:induction false} AboveShrinks(data: seq<Metric>, c: Option<int>, x: Metric)
    requires x in Above(data, c)
    ensures |Above(data, Some(x.timestamp))| < |Above(data, c)|
  {
    var c2 := Some(x.timestamp);
    FilterMembers(data, SupplyWhere(c));
    assert Beyond(c, c2);
    var rest := data[1..];
    FilterMembers(rest, SupplyWhere(c));
    if x in Above(rest, c) {
      AboveShrinks(rest, c, x);
    } else {
      assert x == data[0];
      AboveMonotone(rest, c, c2);
    }
  }

  /**
   * The pages the loop receives from cursor `cursor` on, ending with the first
   * empty page; each later cursor is the last timestamp of the page before.
   */
  function Harvest(data: seq<Metric>, cursor: Option<int>): seq<seq<Metric>>
    decreases |Above(data, cursor)|
  {
    var page := Serve(data, SupplyWhere(cursor));
    if page == [] then [[]]
    else
      ServeLastAbove(data, cursor);
      AboveShrinks(data, cursor, Last(page));
      [page] + Harvest(data, Some(Last(page).timestamp))
  }

  /** The in-order concatenation of pages. */
  function Flatten(pages: seq<seq<Metric>>): seq<Metric> {
    if pages == [] then [] else pages[0] + Flatten(pages[1..])
  }

  lemma FlattenCons(x: seq<Metric>, rest: seq<seq<Metric>>)
    ensures Flatten([x] + rest) == x + Flatten(rest)
  {
    assert ([x] + rest)[1..] == rest;
  }

  lemma {:induction false} FlattenAppend(a: seq<seq<Metric>>, b: seq<seq<Metric>>)
    ensures Flatten(a + b) == Flatten(a) + Flatten(b)
  {
    if a == [] {
      assert a + b == b;
    } else {
      FlattenAppend(a[1..], b);
      assert a + b == [a[0]] + (a[1..] + b);
      FlattenCons(a[0], a[1..] + b);
      assert a[0] + (Flatten(a[1..]) + Flatten(b)) == (a[0] + Flatten(a[1..])) + Flatten(b);
    }
  }

  /** The cell of record `r` in column `i`. */
  function Field(r: Metric, i: nat): Cell {
    if i == 0 then Text(r.id)
    else if i == 1 then Stamp(r.timestamp)
    else if i - 2 < |r.figures| then Text(r.figures[i - 2])
    else Null
  }

  /** The eighteen column lists of a sequence of records, as `sg.query` returns them. */
  function Columns(rows: seq<Metric>): (cols: seq<seq<Cell>>)
    ensures |cols| == |ColumnNames|
    ensures forall i :: 0 <= i < |cols| ==> |cols[i]| == |rows|
    ensures forall k :: 0 <= k < |rows| ==> cols[0][k] == Text(rows[k].id) && cols[1][k] == Stamp(rows[k].timestamp)
  {
    seq(|ColumnNames|, i requires 0 <= i < |ColumnNames| => seq(|rows|, k requires 0 <= k < |rows| => Field(rows[k], i)))
  }

  /** Extending each column list by the page's column is the column list of the extended records. */
  lemma ColumnsAppend(a: seq<Metric>, b: seq<Metric>)
    ensures forall i :: 0 <= i < |ColumnNames| ==> Columns(a + b)[i] == Columns(a)[i] + Columns(b)[i]
  {
    forall i | 0 <= i < |ColumnNames| ensures Columns(a + b)[i] == Columns(a)[i] + Columns(b)[i] {
      assert forall k :: 0 <= k < |a| ==> (a + b)[k] == a[k];
      assert forall k :: |a| <= k < |a + b| ==> (a + b)[k] == b[k - |a|];
    }
  }

  /** Extending the columns of the pages so far by a page's columns gives the columns of all the pages. */
  lemma ColumnsExtend(before: seq<seq<Cell>>, pages: seq<seq<Metric>>, batch: seq<Metric>, after: seq<seq<Cell>>)
    requires before == Columns(Flatten(pages))
    requires |after| == |before|
    requires forall i :: 0 <= i < |before| ==> after[i] == before[i] + Columns(batch)[i]
    ensures after == Columns(Flatten(pages + [batch]))
  {
    FlattenAppend(pages, [batch]);
    assert Flatten([batch]) == batch;
    ColumnsAppend(Flatten(pages), batch);
  }

  /** The CSV `protocol_metrics_all.csv`; pandas raises on columns of different lengths. */
  datatype MetricsCsv = RaggedColumns | Csv(header: seq<string>, rows: seq<seq<Cell>>)

  /** The rows of a table given as column lists, each row the cells at one index. */
  function Transpose(cols: seq<seq<Cell>>, n: nat): (rows: seq<seq<Cell>>)
    requires forall i :: 0 <= i < |cols| ==> |cols[i]| == n
    ensures |rows| == n
    ensures forall k, i :: 0 <= k < n && 0 <= i < |cols| ==> |rows[k]| == |cols| && rows[k][i] == cols[i][k]
  {
    seq(n, k requires 0 <= k < n => seq(|cols|, i requires 0 <= i < |cols| => cols[i][k]))
  }

  /**
   * The save step: unlike the treasury script there is no empty guard, so a
   * table with the eighteen headers is produced even with no rows.
   */
  function SaveMetrics(cols: seq<seq<Cell>>): (out: MetricsCsv)
    requires |cols| == |ColumnNames|
    ensures out.RaggedColumns? <==> exists i :: 0 <= i < |cols| && |cols[i]| != |cols[0]|
    ensures out.Csv? ==> out.header == ColumnNames && |out.rows| == |cols[0]|
    ensures out.Csv? ==> forall k, i :: 0 <= k < |out.rows| && 0 <= i < |cols| ==> k < |cols[i]| && |out.rows[k]| == |cols| && out.rows[k][i] == cols[i][k]
  {
    if exists i :: 0 <= i < |cols| && |cols[i]| != |cols[0]| then RaggedColumns
    else Csv(ColumnNames, Transpose(cols, |cols[0]|))
  }

  /** `final_data[i].extend(metrics[i])` for each of the columns. */
  method ExtendColumns(cols: seq<seq<Cell>>, metrics: seq<seq<Cell>>) returns (ext: seq<seq<Cell>>)
    requires |metrics| == |cols|
    ensures |ext| == |cols|
    ensures forall i :: 0 <= i < |cols| ==> ext[i] == cols[i] + metrics[i]
  {
    ext := cols;
    for i := 0 to |ext|
      invariant |ext| == |cols|
      invariant forall j :: 0 <= j < i ==> ext[j] == cols[j] + metrics[j]
      invariant forall j :: i <= j < |ext| ==> ext[j] == cols[j]
    {
      ext := ext[i := ext[i] + metrics[i]];
    }
  }

  /** One step of the harvest: an empty page ends it, a non-empty one moves the cursor to its last timestamp. */
  lemma HarvestStep(data: seq<Metric>, cursor: Option<int>)
    ensures var page := Serve(data, SupplyWhere(cursor));
            Harvest(data, cursor) == if page == [] then [[]] else [page] + Harvest(data, Some(Last(page).timestamp))
  {
  }

  /**
   * The queries made and pages received so far: the first query has an empty
   * where clause, each later one the last timestamp of the page before, every
   * page so far is the endpoint's answer and non-empty, and `cursor` is the
   * last timestamp seen.
   */
  ghost predicate Trace(data: seq<Metric>, queries: seq<map<string, int>>, pages: seq<seq<Metric>>, cursor: Option<int>) {
    |queries| == |pages|
    && (forall k :: 0 <= k < |pages| ==> pages[k] == Serve(data, queries[k]) && pages[k] != [])
    && (forall k :: 0 <= k < |pages| - 1 ==> queries[k + 1] == SupplyWhere(Some(Last(pages[k]).timestamp)))
    && (pages == [] ==> cursor == None)
    && (pages != [] ==> cursor == Some(Last(Last(pages)).timestamp) && queries[0] == map[])
  }

  lemma TraceStep(data: seq<Metric>, queries: seq<map<string, int>>, pages: seq<seq<Metric>>, cursor: Option<int>)
    requires Trace(data, queries, pages, cursor)
    requires Serve(data, SupplyWhere(cursor)) != []
    ensures var batch := Serve(data, SupplyWhere(cursor));
            Trace(data, queries + [SupplyWhere(cursor)], pages + [batch], Some(Last(batch).timestamp))
  {
    var batch := Serve(data, SupplyWhere(cursor));
    var q, p := queries + [SupplyWhere(cursor)], pages + [batch];
    forall k | 0 <= k < |p| ensures p[k] == Serve(data, q[k]) && p[k] != [] {
      if k < |pages| {
        assert p[k] == pages[k] && q[k] == queries[k];
      }
    }
    forall k | 0 <= k < |p| - 1 ensures q[k + 1] == SupplyWhere(Some(Last(p[k]).timestamp)) {
      assert p[k] == pages[k];
      if k + 1 < |pages| {
        assert q[k + 1] == queries[k + 1];
      } else {
        assert q[k + 1] == SupplyWhere(cursor) && Last(pages) == pages[k];
      }
    }
    assert q[0] == map[] by {
      if pages == [] {
        assert q[0] == SupplyWhere(None);
      } else {
        assert q[0] == queries[0];
      }
    }
    assert Last(p) == batch;
  }

  /** The trace once the empty page has arrived: what `get_protocol_metrics` promises about its queries. */
  ghost predicate FinishedTrace(data: seq<Metric>, queries: seq<map<string, int>>, pages: seq<seq<Metric>>) {
    |queries| == |pages| > 0 && queries[0] == map[]
    && (forall k :: 0 <= k < |pages| ==> pages[k] == Serve(data, queries[k]))
    && (forall k :: 0 <= k < |pages| - 1 ==>
          pages[k] != [] && queries[k + 1] == SupplyWhere(Some(Last(pages[k]).timestamp)))
    && pages[|pages| - 1] == []
  }

  lemma TraceEnd(data: seq<Metric>, queries: seq<map<string, int>>, pages: seq<seq<Metric>>, cursor: Option<int>)
    requires Trace(data, queries, pages, cursor)
    requires Serve(data, SupplyWhere(cursor)) == []
    ensures FinishedTrace(data, queries + [SupplyWhere(cursor)], pages + [[]])
  {
    var q: seq<map<string, int>>, p: seq<seq<Metric>> := queries + [SupplyWhere(cursor)], pages + [[]];
    assert q[0] == map[] by {
      if pages == [] {
        assert q[0] == SupplyWhere(None);
      } else {
        assert q[0] == queries[0];
      }
    }
    forall k | 0 <= k < |p| ensures p[k] == Serve(data, q[k]) {
      if k < |pages| {
        assert p[k] == pages[k] && q[k] == queries[k];
      }
    }
    forall k | 0 <= k < |p| - 1 ensures p[k] != [] && q[k + 1] == SupplyWhere(Some(Last(p[k]).timestamp)) {
      assert p[k] == pages[k];
      if k + 1 < |pages| {
        assert q[k + 1] == queries[k + 1];
      } else {
        assert q[k + 1] == SupplyWhere(cursor) && Last(pages) == pages[k];
      }
    }
    assert p[|p| - 1] == [];
  }

  /**
   * Pages from `j` on, each the answer to the cursor left by the one before
   * and ending with the first empty page, are what `Harvest` collects from
   * that cursor.
   */
  lemma {:induction false} HarvestFrom(data: seq<Metric>, pages: seq<seq<Metric>>, j: nat, cursor: Option<int>)
    requires j < |pages| && pages[j] == Serve(data, SupplyWhere(cursor)) && pages[|pages| - 1] == []
    requires forall k :: j <= k < |pages| - 1 ==>
               pages[k] != [] && pages[k + 1] == Serve(data, SupplyWhere(Some(Last(pages[k]).timestamp)))
    ensures pages[j..] == Harvest(data, cursor)
    decreases |pages| - j
  {
    HarvestStep(data, cursor);
    if j < |pages| - 1 {
      HarvestFrom(data, pages, j + 1, Some(Last(pages[j]).timestamp));
      assert pages[j..] == [pages[j]] + pages[j + 1..];
    }
  }

  /** A finished exchange received exactly the pages `Harvest` collects. */
  lemma TraceIsHarvest(data: seq<Metric>, queries: seq<map<string, int>>, pages: seq<seq<Metric>>)
    requires FinishedTrace(data, queries, pages)
    ensures pages == Harvest(data, None)
  {
    assert forall k :: 0 <= k < |pages| - 1 ==>
             pages[k] != [] && pages[k + 1] == Serve(data, SupplyWhere(Some(Last(pages[k]).timestamp)));
    assert pages[0] == Serve(data, SupplyWhere(None));
    HarvestFrom(data, pages, 0, None);
    assert pages[0..] == pages;
  }

  /** The empty page ends the run: the exchange is finished and holds the pages `Harvest` collects. */
  lemma RunEnds(data: seq<Metric>, queries: seq<map<string, int>>, pages: seq<seq<Metric>>,
                cursor: Option<int>, finalData: seq<seq<Cell>>)
    requires Trace(data, queries, pages, cursor) && finalData == Columns(Flatten(pages))
    requires Serve(data, SupplyWhere(cursor)) == []
    ensures var q, p := queries + [SupplyWhere(cursor)], pages + [[]];
            FinishedTrace(data, q, p) && p == Harvest(data, None) && finalData == Columns(Flatten(p))
  {
    var q, p := queries + [SupplyWhere(cursor)], pages + [[]];
    TraceEnd(data, queries, pages, cursor);
    TraceIsHarvest(data, q, p);
    ColumnsExtend(finalData, pages, [], finalData);
  }

  /** A non-empty page moves the run on: the exchange still follows the protocol, and fewer records lie above the cursor. */
  lemma RunContinues(data: seq<Metric>, queries: seq<map<string, int>>, pages: seq<seq<Metric>>, cursor: Option<int>)
    requires Trace(data, queries, pages, cursor)
    requires Serve(data, SupplyWhere(cursor)) != []
    ensures var batch := Serve(data, SupplyWhere(cursor));
            var next := Some(Last(batch).timestamp);
            Trace(data, queries + [SupplyWhere(cursor)], pages + [batch], next)
            && |Above(data, next)| < |Above(data, cursor)|
  {
    TraceStep(data, queries, pages, cursor);
    ServeLastAbove(data, cursor);
    AboveShrinks(data, cursor, Last(Serve(data, SupplyWhere(cursor))));
  }

  /**
   * `get_protocol_metrics`: query with no cursor, then with the last
   * timestamp of the previous page, until a page has an empty id column;
   * extend the eighteen columns with each non-empty page, then save.
   */
  method GetProtocolMetrics(data: seq<Metric>)
    returns (queries: seq<map<string, int>>, pages: seq<seq<Metric>>, finalData: seq<seq<Cell>>, out: MetricsCsv)
    requires Ascending(data)
    ensures pages == Harvest(data, None)
    ensures FinishedTrace(data, queries, pages)
    ensures Ascending(Flatten(pages))
    ensures finalData == Columns(Flatten(pages))
    ensures out == SaveMetrics(finalData)
  {
    var lastTimestamp: Option<int> := None;
    queries, pages := [], [];
    finalData := Columns([]);
    while true
      invariant Trace(data, queries, pages, lastTimestamp)
      invariant finalData == Columns(Flatten(pages))
      decreases |Above(data, lastTimestamp)|
    {
      var where := SupplyWhere(lastTimestamp);
      var batch := Serve(data, where);
      var metrics := Columns(batch);
      if |metrics[0]| == 0 {
        assert batch == [];
        RunEnds(data, queries, pages, lastTimestamp, finalData);
        queries := queries + [where];
        pages := pages + [batch];
        break;
      }
      RunContinues(data, queries, pages, lastTimestamp);
      var extended := ExtendColumns(finalData, metrics);
      ColumnsExtend(finalData, pages, batch, extended);
      finalData := extended;
      queries := queries + [where];
      pages := pages + [batch];
      // `metrics[1][-1]`: the timestamp column's last entry
      lastTimestamp := Some(Last(batch).timestamp);
    }
    HarvestAscending(data, None);
    out := SaveMetrics(finalData);
  }

  /** Every record collected from `cursor` on is a record of the dataset lying above the cursor. */
  lemma {:induction false} HarvestAbove(data: seq<Metric>, cursor: Option<int>)
    ensures forall x :: x in Flatten(Harvest(data, cursor)) ==> x in Above(data, cursor)
    decreases |Above(data, cursor)|
  {
    var page := Serve(data, SupplyWhere(cursor));
    if page == [] {
      assert Flatten(Harvest(data, cursor)) == [];
    } else {
      var c2 := Some(Last(page).timestamp);
      ServeLastAbove(data, cursor);
      AboveShrinks(data, cursor, Last(page));
      HarvestAbove(data, c2);
      FilterMembers(data, SupplyWhere(cursor));
      assert Flatten(Harvest(data, cursor)) == page + Flatten(Harvest(data, c2));
      forall x | x in Above(data, c2) ensures x in Above(data, cursor) {
        AboveWithin(data, cursor, c2, x);
      }
    }
  }

  lemma AboveWithin(data: seq<Metric>, c1: Option<int>, c2: Option<int>, x: Metric)
    requires c2.Some? && (c1.None? || c1.value <= c2.value)
    requires x in Above(data, c2)
    ensures x in Above(data, c1)
  {
    FilterMembers(data, SupplyWhere(c1));
    FilterMembers(data, SupplyWhere(c2));
  }

  /** Non-decreasing timestamps, the order the endpoint sorts by. */
  ghost predicate Ascending(s: seq<Metric>) {
    forall i, j :: 0 <= i < j < |s| ==> s[i].timestamp <= s[j].timestamp
  }

  /** Strictly increasing timestamps: no two records share one. */
  ghost predicate StrictlyAscending(s: seq<Metric>) {
    forall i, j :: 0 <= i < j < |s| ==> s[i].timestamp < s[j].timestamp
  }

  lemma {:induction false} FilterAscending(data: seq<Metric>, w: map<string, int>)
    requires Ascending(data)
    ensures Ascending(Filter(data, w))
  {
    if data != [] {
      var rest := data[1..];
      FilterAscending(rest, w);
      FilterMembers(rest, w);
      var f := Filter(data, w);
      if Admits(w, data[0]) {
        assert f == [data[0]] + Filter(rest, w);
        forall j | 0 < j < |f| ensures data[0].timestamp <= f[j].timestamp {
          assert f[j] in rest;
        }
      }
    }
  }

  lemma {:induction false} FilterStrictlyAscending(data: seq<Metric>, w: map<string, int>)
    requires StrictlyAscending(data)
    ensures StrictlyAscending(Filter(data, w))
  {
    if data != [] {
      var rest := data[1..];
      FilterStrictlyAscending(rest, w);
      FilterMembers(rest, w);
      var f := Filter(data, w);
      if Admits(w, data[0]) {
        assert f == [data[0]] + Filter(rest, w);
        forall j | 0 < j < |f| ensures data[0].timestamp < f[j].timestamp {
          assert f[j] in rest;
        }
      }
    }
  }

  /**
   * With the dataset in ascending order the collected records come out in
   * ascending order too: each page is sorted, and every later record lies
   * above the cursor, the last timestamp of the page before.
   */
  lemma {:induction false} HarvestAscending(data: seq<Metric>, cursor: Option<int>)
    requires Ascending(data)
    ensures Ascending(Flatten(Harvest(data, cursor)))
    decreases |Above(data, cursor)|
  {
    var page := Serve(data, SupplyWhere(cursor));
    if page == [] {
      assert Flatten(Harvest(data, cursor)) == [];
    } else {
      var c2 := Some(Last(page).timestamp);
      ServeLastAbove(data, cursor);
      AboveShrinks(data, cursor, Last(page));
      HarvestAscending(data, c2);
      HarvestAbove(data, c2);
      FilterAscending(data, SupplyWhere(cursor));
      FilterMembers(data, SupplyWhere(c2));
      var rest := Flatten(Harvest(data, c2));
      var all := page + rest;
      assert Flatten(Harvest(data, cursor)) == all;
      forall i, j | 0 <= i < j < |all| ensures all[i].timestamp <= all[j].timestamp {
        if j >= |page| {
          assert all[j] == rest[j - |page|] && all[j] in rest;
          if i < |page| {
            assert all[i].timestamp <= Last(page).timestamp;
          }
        }
      }
    }
  }

  /** The pages of a record sequence cut into runs of at most 1000, ending with an empty page. */
  function Chunks(s: seq<Metric>): seq<seq<Metric>>
    decreases |s|
  {
    if s == [] then [[]] else [Take(s, PageSize)] + Chunks(s[|Take(s, PageSize)|..])
  }

  /** Cutting into pages loses and reorders nothing. */
  lemma {:induction false} ChunksFlatten(s: seq<Metric>)
    ensures Flatten(Chunks(s)) == s
    decreases |s|
  {
    if s != [] {
      var n := |Take(s, PageSize)|;
      ChunksFlatten(s[n..]);
      assert s == s[..n] + s[n..];
    }
  }

  /**
   * There are `ceil(|s| / 1000)` non-empty pages before the final empty one;
   * page `k` holds `min(1000, |s| - 1000 * k)` records.
   */
  lemma {:induction false} ChunksSizes(s: seq<Metric>)
    ensures var n := |Chunks(s)| - 1;
            (n - 1) * PageSize < |s| <= n * PageSize || (n == 0 && s == [])
    ensures Chunks(s)[|Chunks(s)| - 1] == []
    ensures forall k :: 0 <= k < |Chunks(s)| - 1 ==>
              |Chunks(s)[k]| == if |s| - k * PageSize < PageSize then |s| - k * PageSize else PageSize
    decreases |s|
  {
    if s != [] {
      var m := |Take(s, PageSize)|;
      var rest := s[m..];
      ChunksSizes(rest);
      var cs := Chunks(s);
      assert cs == [Take(s, PageSize)] + Chunks(rest);
      forall k | 1 <= k < |cs| - 1
        ensures |cs[k]| == if |s| - k * PageSize < PageSize then |s| - k * PageSize else PageSize
      {
        assert cs[k] == Chunks(rest)[k - 1];
        assert |rest| == |s| - PageSize;
        assert |s| - k * PageSize == |rest| - (k - 1) * PageSize;
      }
    }
  }

  lemma {:induction false} AboveNone(data: seq<Metric>)
    ensures Above(data, None) == data
  {
    if data != [] {
      AboveNone(data[1..]);
    }
  }

  /** Filtering by a later cursor after an earlier one is filtering by the later one. */
  lemma {:induction false} AboveAbove(data: seq<Metric>, c1: Option<int>, c2: Option<int>)
    requires Beyond(c1, c2)
    ensures Above(Above(data, c1), c2) == Above(data, c2)
  {
    if data != [] {
      AboveAbove(data[1..], c1, c2);
      var d0 := data[0];
      var w1, w2 := SupplyWhere(c1), SupplyWhere(c2);
      assert Above(data, c2) == (if Admits(w2, d0) then [d0] else []) + Above(data[1..], c2);
      if Admits(w1, d0) {
        var f := Above(data, c1);
        assert f == [d0] + Above(data[1..], c1);
        assert f[0] == d0 && f[1..] == Above(data[1..], c1);
        assert Above(f, c2) == (if Admits(w2, d0) then [d0] else []) + Above(f[1..], c2);
      } else {
        assert !Admits(w2, d0);
        assert Above(data, c1) == Above(data[1..], c1);
      }
    }
  }

  /** When every record lies above the cursor, nothing is filtered out. */
  lemma {:induction false} AboveAll(s: seq<Metric>, c: Option<int>)
    requires forall k :: 0 <= k < |s| ==> Admits(SupplyWhere(c), s[k])
    ensures Above(s, c) == s
  {
    if s != [] {
      AboveAll(s[1..], c);
    }
  }

  /** In a strictly ascending sequence, the records above the `m`-th timestamp are exactly those after it. */
  lemma {:induction false} AboveSuffix(s: seq<Metric>, m: nat)
    requires StrictlyAscending(s) && 0 < m <= |s|
    ensures Above(s, Some(s[m - 1].timestamp)) == s[m..]
  {
    var c := Some(s[m - 1].timestamp);
    assert !Admits(SupplyWhere(c), s[0]);
    assert Above(s, c) == Above(s[1..], c);
    if m == 1 {
      AboveAll(s[1..], c);
    } else {
      AboveSuffix(s[1..], m - 1);
      assert s[1..][m - 2] == s[m - 1];
      assert s[1..][m - 1..] == s[m..];
    }
  }

  /**
   * With no two records sharing a timestamp, the pages are exactly the
   * records above the cursor cut into runs of 1000.
   */
  lemma {:induction false} HarvestChunks(data: seq<Metric>, cursor: Option<int>)
    requires StrictlyAscending(data)
    ensures Harvest(data, cursor) == Chunks(Above(data, cursor))
    decreases |Above(data, cursor)|
  {
    var a := Above(data, cursor);
    var page := Serve(data, SupplyWhere(cursor));
    assert page == Take(a, PageSize);
    if page != [] {
      var c2 := Some(Last(page).timestamp);
      ServeLastAbove(data, cursor);
      AboveShrinks(data, cursor, Last(page));
      HarvestChunks(data, c2);
      FilterStrictlyAscending(data, SupplyWhere(cursor));
      assert Beyond(cursor, c2) by {
        FilterMembers(data, SupplyWhere(cursor));
      }
      AboveAbove(data, cursor, c2);
      AboveSuffix(a, |page|);
      assert a[|page| - 1] == Last(page);
    }
  }

  /**
   * With distinct timestamps the loop collects the whole dataset, in order,
   * in `ceil(|data| / 1000) + 1` queries, the last of which returns nothing.
   */
  lemma CollectsAll(data: seq<Metric>)
    requires StrictlyAscending(data)
    ensures Flatten(Harvest(data, None)) == data
    ensures var n := |Harvest(data, None)| - 1;
            (n - 1) * PageSize < |data| <= n * PageSize || (n == 0 && data == [])
  {
    AboveNone(data);
    HarvestChunks(data, None);
    ChunksFlatten(data);
    ChunksSizes(data);
  }

  /**
   * 2003 records with distinct timestamps arrive in pages of 1000, 1000, 3
   * and 0 records: four queries, 2003 records collected, and the second
   * query's cursor is the last timestamp of the first page.
   */
  lemma ScenarioPages(data: seq<Metric>)
    requires StrictlyAscending(data) && |data| == 2003
    ensures var pages := Harvest(data, None);
            |pages| == 4 && |pages[0]| == 1000 && |pages[1]| == 1000 && |pages[2]| == 3 && pages[3] == []
            && |Flatten(pages)| == 2003 && Last(pages[0]).timestamp == data[999].timestamp
  {
    CollectsAll(data);
    ChunksSizes(data);
    AboveNone(data);
    HarvestChunks(data, None);
    var pages := Harvest(data, None);
    assert pages == Chunks(data);
    assert |pages| == 4;
    assert pages[0] == data[..1000];
  }

  /**
   * The known gap of the strict `timestamp_gt` cursor: when the 1000th and
   * 1001st stored records share a timestamp, the 1001st is never collected.
   */
  lemma BoundaryTieDropsRecord(data: seq<Metric>)
    requires |data| > PageSize
    requires data[PageSize - 1].timestamp == data[PageSize].timestamp
    requires data[PageSize] !in data[..PageSize]
    ensures data[PageSize] !in Flatten(Harvest(data, None))
    ensures Flatten(Harvest(data, None)) != data
  {
    AboveNone(data);
    var page := Serve(data, SupplyWhere(None));
    assert page == data[..PageSize];
    var c2 := Some(Last(page).timestamp);
    HarvestAbove(data, c2);
    var rest := Flatten(Harvest(data, c2));
    assert Flatten(Harvest(data, None)) == page + rest;
    FilterMembers(data, SupplyWhere(c2));
    assert data[PageSize] !in rest;
    assert data[PageSize] in data;
  }
}
