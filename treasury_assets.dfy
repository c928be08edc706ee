/**
 * Model of `treasury_assets.py`: the sweep over 90-day windows from a start
 * time to an end time, one `treasuryAssets` query per window, the four column
 * lists accumulated in lockstep, and the address-to-label table applied
 * before the CSV is written.
 *
 * The query endpoint is a parameter `fetch` from the where clause to the four
 * returned columns; the clock is the parameter `endTime`.
 */
module TreasuryAssets {
  import opened Wrappers

  /** `90 * 24 * 60 * 60`: the width of one query window, in seconds. */
  const Interval: int := 90 * 24 * 60 * 60

  /** 2021-10-01T00:00:00Z, the launch date the sweep starts from, as a Unix timestamp. */
  const LaunchTime: int := 1633046400

  function Min(a: int, b: int): int {
    if a < b then a else b
  }

  /** The `where_clause` dictionary built by `fetch_protocol_metrics_treasury`. */
  function TreasuryWhere(start: Option<int>, end: Option<int>): (w: map<string, int>)
    ensures "timestamp_gte" in w <==> start.Some?
    ensures "timestamp_lt" in w <==> end.Some?
    ensures start.Some? ==> w["timestamp_gte"] == start.value
    ensures end.Some? ==> w["timestamp_lt"] == end.value
    ensures w.Keys <= {"timestamp_gte", "timestamp_lt"}
  {
    var w0: map<string, int> := map[];
    var w1 := if start.Some? then w0["timestamp_gte" := start.value] else w0;
    if end.Some? then w1["timestamp_lt" := end.value] else w1
  }

  /** One query window `[start, end)`. */
  datatype Window = Window(start: int, end: int)

  /** The where clause `timestamp_gte: start, timestamp_lt: end` admits time `t`. */
  predicate InWindow(w: Window, t: int) {
    w.start <= t < w.end
  }

  /** The windows the sweep visits from `from` on: each ends at `min(start + interval, end)`. */
  function Windows(from: int, end: int, interval: int): seq<Window>
    requires interval > 0
    decreases end - from
  {
    if from < end then
      var e := Min(from + interval, end);
      [Window(from, e)] + Windows(e, end, interval)
    else []
  }

  /** Every window is non-empty, lies inside `[from, end)` and is at most `interval` wide. */
  lemma {:induction false} WindowsBounded(from: int, end: int, interval: int)
    requires interval > 0
    ensures forall k :: 0 <= k < |Windows(from, end, interval)| ==>
              var w := Windows(from, end, interval)[k];
              from <= w.start < w.end <= end && w.end - w.start <= interval
    decreases end - from
  {
    if from < end {
      WindowsBounded(Min(from + interval, end), end, interval);
    }
  }

  /**
   * The windows are contiguous: the first starts at `from`, each starts where
   * the previous one ended, the last ends at `end`, and every window but the
   * last is exactly `interval` wide.
   */
  lemma {:induction false} WindowsContiguous(from: int, end: int, interval: int)
    requires interval > 0
    ensures var ws := Windows(from, end, interval);
            (ws == [] <==> end <= from)
            && (ws != [] ==> ws[0].start == from && ws[|ws| - 1].end == end)
            && (forall k :: 0 <= k < |ws| - 1 ==> ws[k].end == ws[k + 1].start)
            && (forall k :: 0 <= k < |ws| - 1 ==> ws[k].end - ws[k].start == interval)
    decreases end - from
  {
    if from < end {
      var e := Min(from + interval, end);
      WindowsContiguous(e, end, interval);
      var ws := Windows(from, end, interval);
      var rest := Windows(e, end, interval);
      assert ws == [Window(from, e)] + rest;
      forall k | 0 <= k < |ws| - 1
        ensures ws[k].end == ws[k + 1].start && ws[k].end - ws[k].start == interval
      {
        if k == 0 {
          assert rest != [];
        } else {
          assert ws[k] == rest[k - 1] && ws[k + 1] == rest[k];
        }
      }
    }
  }

  /** Every time in `[from, end)` lies in some window. */
  lemma {:induction false} WindowsCover(from: int, end: int, interval: int, t: int)
    requires interval > 0 && from <= t < end
    ensures exists k :: 0 <= k < |Windows(from, end, interval)| && InWindow(Windows(from, end, interval)[k], t)
    decreases end - from
  {
    var e := Min(from + interval, end);
    var ws := Windows(from, end, interval);
    var rest := Windows(e, end, interval);
    assert ws == [Window(from, e)] + rest;
    if t < e {
      assert ws[0] == Window(from, e);
      assert 0 < |ws| && InWindow(ws[0], t);
    } else {
      WindowsCover(e, end, interval, t);
      var k :| 0 <= k < |rest| && InWindow(rest[k], t);
      assert ws[k + 1] == rest[k];
    }
  }

  /** A later window starts no earlier than an earlier one ends. */
  ghost predicate Ordered(ws: seq<Window>) {
    forall j, k :: 0 <= j < k < |ws| ==> ws[j].end <= ws[k].start
  }

  lemma {:induction false} WindowsOrdered(from: int, end: int, interval: int)
    requires interval > 0
    ensures Ordered(Windows(from, end, interval))
    decreases end - from
  {
    if from < end {
      var e := Min(from + interval, end);
      WindowsOrdered(e, end, interval);
      WindowsBounded(e, end, interval);
      var ws := Windows(from, end, interval);
      var rest := Windows(e, end, interval);
      assert ws == [Window(from, e)] + rest;
      forall j, k | 0 <= j < k < |ws| ensures ws[j].end <= ws[k].start {
        assert ws[k] == rest[k - 1];
        if j > 0 {
          assert ws[j] == rest[j - 1];
          assert 0 <= j - 1 < k - 1 < |rest|;
          assert rest[j - 1].end <= rest[k - 1].start;
        } else {
          assert ws[0].end == e;
          var w := rest[k - 1];
          assert e <= w.start;
        }
      }
    }
  }

  /**
   * The windows partition `[from, end)` into half-open intervals: a time lies
   * in some window exactly when it lies in the range, and never in two.
   */
  lemma WindowsPartition(from: int, end: int, interval: int, t: int)
    requires interval > 0
    ensures var ws := Windows(from, end, interval);
            from <= t < end <==> exists k :: 0 <= k < |ws| && InWindow(ws[k], t)
    ensures var ws := Windows(from, end, interval);
            forall j, k :: 0 <= j < |ws| && 0 <= k < |ws| && InWindow(ws[j], t) && InWindow(ws[k], t) ==> j == k
  {
    WindowsBounded(from, end, interval);
    WindowsOrdered(from, end, interval);
    if from <= t < end {
      WindowsCover(from, end, interval, t);
    }
  }

  /**
   * The number of windows is `ceil((end - from) / interval)` when `from < end`
   * (stated without division: the smallest count whose windows reach `end`),
   * and zero otherwise.
   */
  lemma {:induction false} WindowsCount(from: int, end: int, interval: int)
    requires interval > 0
    ensures var n := |Windows(from, end, interval)|;
            if from < end then n * interval - interval < end - from <= n * interval else n == 0
    decreases end - from
  {
    if from < end {
      var e := Min(from + interval, end);
      WindowsCount(e, end, interval);
      var n := |Windows(e, end, interval)|;
      assert (n + 1) * interval == n * interval + interval;
    }
  }

  /** From the launch date, an end time exactly 90 days later is covered by a single window. */
  lemma OneWindowScenario()
    ensures Windows(LaunchTime, 1640822400, Interval) == [Window(LaunchTime, 1640822400)]
  {
    assert Windows(1640822400, 1640822400, Interval) == [];
  }

  /** An end time 96 days after launch gives two windows, the second clamped to the end time. */
  lemma TwoWindowScenario()
    ensures Windows(LaunchTime, 1641340800, Interval)
            == [Window(LaunchTime, 1640822400), Window(1640822400, 1641340800)]
  {
    assert Windows(1641340800, 1641340800, Interval) == [];
    assert Windows(1640822400, 1641340800, Interval) == [Window(1640822400, 1641340800)];
  }

  /** The four parallel column lists a `treasuryAssets` query returns: id, timestamp, token, tokenBalance. */
  datatype AssetColumns = AssetColumns(ids: seq<string>, timestamps: seq<int>, tokens: seq<string>, balances: seq<string>)

  const NoColumns: AssetColumns := AssetColumns([], [], [], [])

  /** The four columns have one entry per record. */
  predicate Lockstep(c: AssetColumns) {
    |c.ids| == |c.timestamps| == |c.tokens| == |c.balances|
  }

  /** `final_data` after sweeping `ws`: the columns of every window whose id column is non-empty, in order. */
  function Accumulate(ws: seq<Window>, fetch: map<string, int> -> AssetColumns): AssetColumns {
    if ws == [] then NoColumns
    else
      var acc := Accumulate(ws[..|ws| - 1], fetch);
      var w := ws[|ws| - 1];
      var m := fetch(TreasuryWhere(Some(w.start), Some(w.end)));
      if |m.ids| > 0 then Concat(acc, m) else acc
  }

  /** The number of ids the windows `ws` return in total. */
  function IdCount(ws: seq<Window>, fetch: map<string, int> -> AssetColumns): nat {
    if ws == [] then 0
    else
      var w := ws[|ws| - 1];
      IdCount(ws[..|ws| - 1], fetch) + |fetch(TreasuryWhere(Some(w.start), Some(w.end))).ids|
  }

  /**
   * The accumulated id column holds as many ids as all windows returned
   * together (an empty window adds nothing), and if every window's answer
   * is in lockstep, so are the accumulated columns.
   */
  lemma {:induction false} AccumulateShape(ws: seq<Window>, fetch: map<string, int> -> AssetColumns)
    ensures |Accumulate(ws, fetch).ids| == IdCount(ws, fetch)
    ensures (forall k :: 0 <= k < |ws| ==>
               Lockstep(fetch(TreasuryWhere(Some(ws[k].start), Some(ws[k].end)))))
            ==> Lockstep(Accumulate(ws, fetch))
  {
    if ws != [] {
      var front := ws[..|ws| - 1];
      AccumulateShape(front, fetch);
      if forall k :: 0 <= k < |ws| ==> Lockstep(fetch(TreasuryWhere(Some(ws[k].start), Some(ws[k].end)))) {
        assert forall k :: 0 <= k < |front| ==> front[k] == ws[k];
      }
    }
  }

  /** Each column of `b` appended to the same column of `a`. */
  function Concat(a: AssetColumns, b: AssetColumns): AssetColumns {
    AssetColumns(a.ids + b.ids, a.timestamps + b.timestamps, a.tokens + b.tokens, a.balances + b.balances)
  }

  lemma ConcatAssociative(a: AssetColumns, b: AssetColumns, c: AssetColumns)
    ensures Concat(a, Concat(b, c)) == Concat(Concat(a, b), c)
  {
    assert a.ids + (b.ids + c.ids) == (a.ids + b.ids) + c.ids;
    assert a.timestamps + (b.timestamps + c.timestamps) == (a.timestamps + b.timestamps) + c.timestamps;
    assert a.tokens + (b.tokens + c.tokens) == (a.tokens + b.tokens) + c.tokens;
    assert a.balances + (b.balances + c.balances) == (a.balances + b.balances) + c.balances;
  }

  /** One step of the sweep: the last window's answer is appended when it holds ids. */
  lemma AccumulateLast(ws: seq<Window>, fetch: map<string, int> -> AssetColumns)
    requires ws != []
    ensures var w := ws[|ws| - 1];
            var m := fetch(TreasuryWhere(Some(w.start), Some(w.end)));
            Accumulate(ws, fetch) == if |m.ids| > 0 then Concat(Accumulate(ws[..|ws| - 1], fetch), m)
                                     else Accumulate(ws[..|ws| - 1], fetch)
  {
  }

  /**
   * The accumulated columns over `ws1 + ws2` are those over `ws1` followed by
   * those over `ws2`: every window contributes its records in sweep order.
   */
  lemma {:induction false} AccumulateAppend(ws1: seq<Window>, ws2: seq<Window>, fetch: map<string, int> -> AssetColumns)
    ensures Concat(Accumulate(ws1, fetch), Accumulate(ws2, fetch)) == Accumulate(ws1 + ws2, fetch)
    decreases |ws2|
  {
    if ws2 == [] {
      assert ws1 + ws2 == ws1;
      var a := Accumulate(ws1, fetch);
      assert a.ids + [] == a.ids && a.timestamps + [] == a.timestamps;
      assert a.tokens + [] == a.tokens && a.balances + [] == a.balances;
    } else {
      var front := ws2[..|ws2| - 1];
      var w := ws2[|ws2| - 1];
      AccumulateAppend(ws1, front, fetch);
      var all := ws1 + ws2;
      assert all[..|all| - 1] == ws1 + front;
      assert all[|all| - 1] == w;
      AccumulateLast(all, fetch);
      AccumulateLast(ws2, fetch);
      var m := fetch(TreasuryWhere(Some(w.start), Some(w.end)));
      if |m.ids| > 0 {
        ConcatAssociative(Accumulate(ws1, fetch), Accumulate(front, fetch), m);
      }
    }
  }

  /** The address-to-label table of `get_treasury_assets`, in the order it is written. */
  const TokenTable: seq<(string, string)> := [
    ("0x251ca6a70cbd93ccd7039b6b708d4cb9683c266c", "NBO/KLIMA"),
    ("0x9803c7ae526049210a1725f7487af26fe2c24614", "BCT/KLIMA"),
    ("0x1e67124681b402064cd0abe8ed1b5c79d2e02f64", "BCT/USDC"),
    ("0x2b3ecb0991af0498ece9135bcd04013d7993110c", "UBO"),
    ("0xaa7dbd1598251f856c12f63557a4c4397c253cea", "MCO2"),
    ("0x5400a05b8b45eaf9105315b4f2e31f806ab706de", "UBO/KLIMA"),
    ("0xb2d0d5c86d933b0acefe9b95bec160d514d152e1", "NCT/KLIMA"),
    ("0xd838290e877e0188a4a44700463419ed96c16107", "NCT"),
    ("0x5786b267d35f9d011c4750e0b0ba584e1fdbead1", "KLIMA/USDC.e"),
    ("0x64a3b8ca5a7e406a78e660ae10c7563d9153a739", "MCO2/KLIMA"),
    ("0x82b37070e43c1ba0ea9e2283285b674ef7f1d4e2", "CCO2"),
    ("0x6bca3b77c1909ce1a4ba1a20d1103bde8d222e48", "NBO"),
    ("0x2791bca1f2de4661ed88a30c99a7a9449aa84174", "USDC.e"),
    ("0x4e78011ce80ee02d2c3e649fb657e45898257815", "Klima"),
    ("0x2f800db0fdb5223b3c3f354886d907a671414a7f", "BCT")
  ]

  /** The label of the first entry of `table` for `address`; `None` when the address is not listed. */
  function Lookup(table: seq<(string, string)>, address: string): (name: Option<string>)
    ensures name.None? <==> forall k :: 0 <= k < |table| ==> table[k].0 != address
    ensures name.Some? ==> exists k :: 0 <= k < |table| && table[k] == (address, name.value)
  {
    if table == [] then None
    else if table[0].0 == address then Some(table[0].1)
    else
      var r := Lookup(table[1..], address);
      assert forall k :: 1 <= k < |table| ==> table[k] == table[1..][k - 1];
      r
  }

  /** `df['token'].map(mapping)` for one token: the table's label, or an absent label (NaN). */
  function TokenName(address: string): Option<string> {
    Lookup(TokenTable, address)
  }

  /** The fifteen addresses of the table are pairwise distinct, so no entry of the dictionary literal is overwritten. */
  lemma TokenAddressesDistinct()
    ensures |TokenTable| == 15
    ensures forall i, j :: 0 <= i < j < |TokenTable| ==> TokenTable[i].0 != TokenTable[j].0
  {
  }

  /** With distinct addresses, looking up a listed address gives exactly its own label. */
  lemma {:induction false} LookupListed(table: seq<(string, string)>, k: nat)
    requires k < |table|
    requires forall i, j :: 0 <= i < j < |table| ==> table[i].0 != table[j].0
    ensures Lookup(table, table[k].0) == Some(table[k].1)
  {
    if k > 0 {
      var tail := table[1..];
      assert tail[k - 1] == table[k];
      assert table[0].0 != table[k].0;
      forall i, j | 0 <= i < j < |tail| ensures tail[i].0 != tail[j].0 {
        assert tail[i] == table[i + 1] && tail[j] == table[j + 1];
      }
      LookupListed(tail, k - 1);
    }
  }

  /** Each of the fifteen listed addresses is labelled with its own entry; any other address gets no label (it never raises). */
  lemma TokenNameTable(address: string)
    ensures forall k :: 0 <= k < |TokenTable| ==> TokenName(TokenTable[k].0) == Some(TokenTable[k].1)
    ensures (forall k :: 0 <= k < |TokenTable| ==> TokenTable[k].0 != address) ==> TokenName(address) == None
  {
    TokenAddressesDistinct();
    forall k | 0 <= k < |TokenTable| ensures TokenName(TokenTable[k].0) == Some(TokenTable[k].1) {
      LookupListed(TokenTable, k);
    }
  }

  /** One row of `protocol_metrics_treasury_all.csv`. */
  datatype AssetRow = AssetRow(id: string, timestamp: int, token: string, tokenBalance: string, tokenName: Option<string>)

  /**
   * What the save step produces: nothing when no record was fetched, the
   * ValueError pandas raises when the columns differ in length, or the rows.
   */
  datatype TreasuryCsv = NoData | RaggedColumns | Csv(rows: seq<AssetRow>)

  /** The four data columns of a table of rows. */
  function ColumnsOf(rows: seq<AssetRow>): (c: AssetColumns)
    ensures Lockstep(c) && |c.ids| == |rows|
  {
    AssetColumns(seq(|rows|, i requires 0 <= i < |rows| => rows[i].id),
                 seq(|rows|, i requires 0 <= i < |rows| => rows[i].timestamp),
                 seq(|rows|, i requires 0 <= i < |rows| => rows[i].token),
                 seq(|rows|, i requires 0 <= i < |rows| => rows[i].tokenBalance))
  }

  /** Build the rows from lockstep columns, labelling each token. */
  function Rows(c: AssetColumns): (rows: seq<AssetRow>)
    requires Lockstep(c)
    ensures |rows| == |c.ids|
    ensures forall i :: 0 <= i < |rows| ==> rows[i].tokenName == TokenName(rows[i].token)
    ensures ColumnsOf(rows) == c
  {
    seq(|c.ids|, i requires 0 <= i < |c.ids| =>
      AssetRow(c.ids[i], c.timestamps[i], c.tokens[i], c.balances[i], TokenName(c.tokens[i])))
  }

  /**
   * The save guard `if len(final_data[0]) > 0`: a file is produced exactly
   * when some id was accumulated and the columns line up; its rows read back
   * as the accumulated columns, and each carries its token's label.
   */
  function SaveTreasury(c: AssetColumns): (out: TreasuryCsv)
    ensures out.NoData? <==> |c.ids| == 0
    ensures out.RaggedColumns? <==> |c.ids| > 0 && !Lockstep(c)
    ensures out.Csv? ==> ColumnsOf(out.rows) == c
    ensures out.Csv? ==> forall i :: 0 <= i < |out.rows| ==> out.rows[i].tokenName == TokenName(out.rows[i].token)
  {
    if |c.ids| == 0 then NoData
    else if !Lockstep(c) then RaggedColumns
    else Csv(Rows(c))
  }

  /**
   * `get_treasury_assets`: sweep the windows from `startTime` to `endTime`,
   * query each one, keep the columns of every window whose id column is
   * non-empty, then save.
   */
  method GetTreasuryAssets(startTime: int, endTime: int, fetch: map<string, int> -> AssetColumns)
    returns (windows: seq<Window>, data: AssetColumns, out: TreasuryCsv)
    ensures windows == Windows(startTime, endTime, Interval)
    ensures data == Accumulate(windows, fetch)
    ensures out == SaveTreasury(data)
  {
    windows := [];
    data := NoColumns;
    var currentStart := startTime;
    while currentStart < endTime
      invariant windows + Windows(currentStart, endTime, Interval) == Windows(startTime, endTime, Interval)
      invariant data == Accumulate(windows, fetch)
      decreases endTime - currentStart
    {
      var currentEnd := Min(currentStart + Interval, endTime);
      var metrics := fetch(TreasuryWhere(Some(currentStart), Some(currentEnd)));
      if |metrics.ids| > 0 {
        data := AssetColumns(data.ids + metrics.ids, data.timestamps + metrics.timestamps,
                             data.tokens + metrics.tokens, data.balances + metrics.balances);
      }
      assert (windows + [Window(currentStart, currentEnd)])[..|windows|] == windows;
      windows := windows + [Window(currentStart, currentEnd)];
      currentStart := currentEnd;
    }
    out := SaveTreasury(data);
  }
}
