/** The control-flow view of a function: src/analysis/cfg.rs.

    The input lists, per block, the transfers its terminator names (none for a block
    without one).  Both directions are stored as flattened row tables.
  */
module SsaCfg {
  import opened Csr
  import opened Graph

  // ----- what the tables should hold

  /** The transfers that stay inside the function. */
  function Kept(targets: seq<nat>, n: nat): seq<nat> {
    if targets == [] then []
    else
      var last := targets[|targets| - 1];
      Kept(targets[..|targets| - 1], n) + if last < n then [last] else []
  }

  /** The edges leaving the first `k` blocks, keyed by where they go. */
  function Edges(rows: Cfg, k: nat): seq<(nat, nat)>
    requires k <= |rows|
  {
    if k == 0 then [] else Edges(rows, k - 1) + Tagged<nat>(rows[k - 1], k - 1)
  }

  function Concat(rows: Cfg, k: nat): seq<nat>
    requires k <= |rows|
  {
    if k == 0 then [] else Concat(rows, k - 1) + rows[k - 1]
  }

  datatype SsaCfg = SsaCfg(
    successorOffsets: seq<nat>, successorValues: seq<nat>,
    predecessorOffsets: seq<nat>, predecessorValues: seq<nat>)
  {
    function BlockSuccessors(b: nat): seq<nat> {
      CsrRow(successorOffsets, successorValues, b)
    }

    function BlockPredecessors(b: nat): seq<nat> {
      CsrRow(predecessorOffsets, predecessorValues, b)
    }

    function PredecessorBlocks(b: nat): seq<nat> {
      Distincts(BlockPredecessors(b))
    }
  }

  /** Drops each entry equal to the one before it. */
  function Distincts(row: seq<nat>): seq<nat> {
    if row == [] then []
    else
      var last := |row| - 1;
      Distincts(row[..last]) + if last > 0 && row[last - 1] == row[last] then [] else [row[last]]
  }

  function Count(s: seq<nat>, x: nat): nat {
    multiset(s)[x]
  }

  predicate Ascends(s: seq<nat>) {
    forall i, j :: 0 <= i < j < |s| ==> s[i] <= s[j]
  }

  predicate StrictlyAscends(s: seq<nat>) {
    forall i, j :: 0 <= i < j < |s| ==> s[i] < s[j]
  }

  /** The tables hold the given successor rows and their inverse. */
  ghost predicate Holds(rows: Cfg, cfg: SsaCfg) {
    && |cfg.successorOffsets| == |rows| + 1 && cfg.successorValues == Concat(rows, |rows|)
    && (forall b: nat :: b <= |rows| ==> cfg.successorOffsets[b] == |Concat(rows, b)|)
    && IsTable(Edges(rows, |rows|), |rows|, cfg.predecessorOffsets, cfg.predecessorValues)
  }

  // ----- edge lists

  lemma {:induction false} ConcatOrdered(rows: Cfg, a: nat, b: nat)
    requires a <= b <= |rows|
    ensures |Concat(rows, a)| <= |Concat(rows, b)| && Concat(rows, b)[..|Concat(rows, a)|] == Concat(rows, a)
  {
    if a < b {
      ConcatOrdered(rows, a, b - 1);
      assert Concat(rows, b)[..|Concat(rows, a)|] == Concat(rows, b - 1)[..|Concat(rows, a)|];
    }
  }

  lemma RowOfConcat(rows: Cfg, b: nat)
    requires b < |rows|
    ensures |Concat(rows, b)| <= |Concat(rows, b + 1)| <= |Concat(rows, |rows|)|
    ensures Concat(rows, |rows|)[|Concat(rows, b)|..|Concat(rows, b + 1)|] == rows[b]
  {
    var all, hi := Concat(rows, |rows|), |Concat(rows, b + 1)|;
    ConcatOrdered(rows, b + 1, |rows|);
    assert all[|Concat(rows, b)|..hi] == all[..hi][|Concat(rows, b)|..];
  }

  lemma SuccessorRow(rows: Cfg, offsets: seq<nat>, b: nat)
    requires |offsets| == |rows| + 1 && forall k: nat :: k <= |rows| ==> offsets[k] == |Concat(rows, k)|
    ensures CsrRow(offsets, Concat(rows, |rows|), b) == if b < |rows| then rows[b] else []
  {
    if b < |rows| {
      RowOfConcat(rows, b);
      assert offsets[b + 1] == |Concat(rows, b + 1)|;
    }
  }

  /** The flattened rows list the edges' targets. */
  lemma {:induction false} EdgeKeys(rows: Cfg, k: nat)
    requires k <= |rows|
    ensures |Edges(rows, k)| == |Concat(rows, k)|
    ensures forall j :: 0 <= j < |Edges(rows, k)| ==> Edges(rows, k)[j].0 == Concat(rows, k)[j]
  {
    if k > 0 {
      EdgeKeys(rows, k - 1);
    }
  }

  lemma {:induction false} EdgesOrdered(rows: Cfg, a: nat, b: nat)
    requires a <= b <= |rows|
    ensures |Edges(rows, a)| <= |Edges(rows, b)| && Edges(rows, b)[..|Edges(rows, a)|] == Edges(rows, a)
  {
    if a < b {
      EdgesOrdered(rows, a, b - 1);
      assert Edges(rows, b)[..|Edges(rows, a)|] == Edges(rows, b - 1)[..|Edges(rows, a)|];
    }
  }

  /** The item scattered for successor `i` of block `b`. */
  lemma EdgeItem(rows: Cfg, b: nat, i: nat)
    requires b < |rows| && i < |rows[b]|
    ensures |Edges(rows, b)| + i < |Edges(rows, |rows|)|
    ensures Edges(rows, |rows|)[|Edges(rows, b)| + i] == (rows[b][i], b)
  {
    EdgesOrdered(rows, b + 1, |rows|);
    assert Edges(rows, |rows|)[|Edges(rows, b)| + i] == Edges(rows, b + 1)[|Edges(rows, b)| + i];
  }

  // ----- construction

  method KeepSuccessors(targets: seq<nat>, n: nat) returns (kept: seq<nat>)
    ensures kept == Kept(targets, n)
  {
    kept := [];
    for i := 0 to |targets|
      invariant kept == Kept(targets[..i], n)
    {
      assert targets[..i + 1][..i] == targets[..i];
      if targets[i] < n {
        kept := kept + [targets[i]];
      }
    }
    assert targets[..|targets|] == targets;
  }

  /** The kept transfers of every block: the graph the view presents. */
  function Rows(terminators: seq<seq<nat>>): (rows: Cfg)
    ensures |rows| == |terminators|
  {
    seq(|terminators|, b requires 0 <= b < |terminators| => Kept(terminators[b], |terminators|))
  }

  lemma ConcatStep(rows: Cfg, b: nat)
    ensures Concat(rows, 0) == []
    ensures b < |rows| ==> Concat(rows, b + 1) == Concat(rows, b) + rows[b]
  {
  }

  method BuildSuccessors(terminators: seq<seq<nat>>) returns (offsets: seq<nat>, values: seq<nat>)
    ensures |offsets| == |terminators| + 1 && values == Concat(Rows(terminators), |terminators|)
    ensures forall b: nat :: b <= |terminators| ==> offsets[b] == |Concat(Rows(terminators), b)|
  {
    hide Kept, Concat;
    ghost var rows := Rows(terminators);
    ConcatStep(rows, 0);
    offsets, values := [0], [];
    for b := 0 to |terminators|
      invariant |offsets| == b + 1 && values == Concat(rows, b)
      invariant forall k: nat :: k <= b ==> offsets[k] == |Concat(rows, k)|
    {
      var kept := KeepSuccessors(terminators[b], |terminators|);
      ConcatStep(rows, b);
      values := values + kept;
      offsets := offsets + [|values|];
    }
  }

  method CountPredecessors(ghost rows: Cfg, values: seq<nat>, counts: array<nat>)
    requires values == Concat(rows, |rows|) && |values| <= MAX_U32
    requires counts.Length == |rows| + 1 && forall i :: 0 <= i < counts.Length ==> counts[i] == 0
    modifies counts
    ensures Counted(Edges(rows, |rows|), counts[..])
  {
    ghost var items := Edges(rows, |rows|);
    EdgeKeys(rows, |rows|);
    hide Row, Edges, Concat, Counted;
    NothingCounted(items, counts[..]);
    for j := 0 to |values|
      invariant Counted(items[..j], counts[..]) && counts.Length == |rows| + 1
    {
      ghost var was := counts[..];
      Tally(counts, values[j], 1);
      TallyCounts(items, j, was, counts[..]);
    }
    assert items[..|items|] == items;
  }

  method ScatterPredecessors(ghost rows: Cfg, offsets: seq<nat>, values: seq<nat>, cursors: array<nat>,
                             preds: array<nat>)
    requires |offsets| == |rows| + 1 && values == Concat(rows, |rows|) && |values| < MAX_U32
    requires forall b: nat :: b <= |rows| ==> offsets[b] == |Concat(rows, b)|
    requires |Edges(rows, |rows|)| < MAX_U32
    requires cursors != preds && Scattered(Edges(rows, |rows|), 0, |rows|, cursors[..], preds[..])
    modifies cursors, preds
    ensures Scattered(Edges(rows, |rows|), |Edges(rows, |rows|)|, |rows|, cursors[..], preds[..])
  {
    hide Scattered, CsrRow, Concat, Edges;
    EdgesStep(rows, 0);
    for b := 0 to |offsets| - 1
      invariant |Edges(rows, b)| <= |Edges(rows, |rows|)|
      invariant Scattered(Edges(rows, |rows|), |Edges(rows, b)|, |rows|, cursors[..], preds[..])
    {
      SuccessorRow(rows, offsets, b);
      EdgesOrdered(rows, b + 1, |rows|);
      EdgesStep(rows, b);
      ScatterRow(rows, b, CsrRow(offsets, values, b), cursors, preds);
    }
  }

  lemma EdgesStep(rows: Cfg, b: nat)
    ensures Edges(rows, 0) == []
    ensures b < |rows| ==> |Edges(rows, b + 1)| == |Edges(rows, b)| + |rows[b]|
  {
  }

  method ScatterRow(ghost rows: Cfg, b: nat, row: seq<nat>, cursors: array<nat>, preds: array<nat>)
    requires b < |rows| && row == rows[b] && |Edges(rows, |rows|)| < MAX_U32
    requires |Edges(rows, b)| <= |Edges(rows, |rows|)|
    requires cursors != preds && Scattered(Edges(rows, |rows|), |Edges(rows, b)|, |rows|, cursors[..], preds[..])
    modifies cursors, preds
    ensures |Edges(rows, b)| + |row| <= |Edges(rows, |rows|)|
    ensures Scattered(Edges(rows, |rows|), |Edges(rows, b)| + |row|, |rows|, cursors[..], preds[..])
  {
    hide Scattered, Edges;
    ghost var items, base := Edges(rows, |rows|), |Edges(rows, b)|;
    for i := 0 to |row|
      invariant base + i <= |items| && Scattered(items, base + i, |rows|, cursors[..], preds[..])
    {
      ghost var was, before := cursors[..], preds[..];
      EdgeItem(rows, b, i);
      ScatteredShape(items, base + i, |rows|, was, before);
      CsrPush(cursors, preds, row[i], b);
      PushScatters(items, base + i, |rows|, was, before, cursors[..], preds[..]);
    }
  }

  lemma ScatteredShape<T>(items: seq<(nat, T)>, k: nat, n: nat, cursors: seq<nat>, values: seq<T>)
    requires k <= |items| && Scattered(items, k, n, cursors, values)
    ensures |cursors| == n + 1
  {
  }

  method FromSsa(terminators: seq<seq<nat>>) returns (cfg: SsaCfg)
    requires |Concat(Rows(terminators), |terminators|)| < MAX_U32
    ensures Holds(Rows(terminators), cfg)
  {
    hide Counted, Scattered, IsTable, Edges, Concat, Rows;
    ghost var rows := Rows(terminators);
    var offsets, values := BuildSuccessors(terminators);
    var preds, table := BuildPredecessors(rows, offsets, values);
    cfg := SsaCfg(offsets, values, preds, table);
  }

  method BuildPredecessors(ghost rows: Cfg, offsets: seq<nat>, values: seq<nat>)
    returns (predOffsets: seq<nat>, preds: seq<nat>)
    requires |offsets| == |rows| + 1 && values == Concat(rows, |rows|) && |values| < MAX_U32
    requires forall b: nat :: b <= |rows| ==> offsets[b] == |Concat(rows, b)|
    ensures IsTable(Edges(rows, |rows|), |rows|, predOffsets, preds)
  {
    hide Counted, Scattered, IsTable, Edges, Concat;
    var n := |offsets| - 1;
    var counts := new nat[n + 1](_ => 0);
    EdgeKeys(rows, n);
    CountPredecessors(rows, values, counts);
    var total := PrefixSum(counts, Edges(rows, n));
    predOffsets := counts[..];
    var table := new nat[total](_ => 0);
    var cursors := new nat[n + 1](i requires 0 <= i < |predOffsets| => predOffsets[i]);
    assert cursors[..] == predOffsets;
    ScatterStarts(Edges(rows, n), n, cursors[..], table[..]);
    ScatterPredecessors(rows, offsets, values, cursors, table);
    ScatterEnds(Edges(rows, n), n, predOffsets, cursors[..], table[..]);
    preds := table[..];
  }

  // ----- what the view guarantees

  lemma {:induction false} KeptExactly(targets: seq<nat>, n: nat, x: nat)
    ensures Count(Kept(targets, n), x) == if x < n then Count(targets, x) else 0
  {
    if targets != [] {
      var front, last := targets[..|targets| - 1], targets[|targets| - 1];
      KeptExactly(front, n, x);
      assert targets == front + [last];
    }
  }

  /** `kept` is `targets` without the transfers out of a function of `n` blocks, in
      order: `at` lists where the others stand. */
  ghost predicate KeepsOrder(targets: seq<nat>, n: nat, kept: seq<nat>, at: seq<nat>) {
    && |at| == |kept| && StrictlyAscends(at)
    && (forall i :: 0 <= i < |at| ==> at[i] < |targets| && targets[at[i]] == kept[i] && kept[i] < n)
    && forall k: nat :: k < |targets| && targets[k] < n ==> k in at
  }

  lemma {:induction false} KeptInOrder(targets: seq<nat>, n: nat) returns (at: seq<nat>)
    ensures KeepsOrder(targets, n, Kept(targets, n), at)
  {
    at := [];
    if targets != [] {
      var front, last := targets[..|targets| - 1], targets[|targets| - 1];
      var before := KeptInOrder(front, n);
      at := before + if last < n then [|front|] else [];
      assert targets == front + [last];
      forall k: nat | k < |targets| && targets[k] < n
        ensures k in at
      {
        if k < |front| {
          assert front[k] < n && k in before;
        }
      }
    }
  }

  predicate AllBelow(s: seq<nat>, n: nat) {
    forall i :: 0 <= i < |s| ==> s[i] < n
  }

  lemma NoEdges(rows: Cfg, r: nat)
    ensures Row(Edges(rows, 0), r) == [] && forall a: nat :: Count([], a) == 0
  {
  }

  lemma RowOfEdges(rows: Cfg, k: nat, r: nat)
    requires 0 < k <= |rows|
    ensures Row(Edges(rows, k), r) == Row(Edges(rows, k - 1), r) + Row(Tagged<nat>(rows[k - 1], k - 1), r)
  {
    hide Row;
    RowAppend(Edges(rows, k - 1), Tagged<nat>(rows[k - 1], k - 1), r);
  }

  lemma {:induction false} EdgeRowsAscend(rows: Cfg, k: nat, r: nat)
    requires k <= |rows|
    ensures Ascends(Row(Edges(rows, k), r)) && AllBelow(Row(Edges(rows, k), r), k)
  {
    hide Row, Edges, Tagged;
    NoEdges(rows, r);
    if k > 0 {
      EdgeRowsAscend(rows, k - 1, r);
      RowOfEdges(rows, k, r);
      RowOfBlock(rows[k - 1], k - 1, r, 0);
    }
  }

  /** Block `a` occurs in the row of `r` as often as `r` in the row of `a`. */
  lemma {:induction false} EdgeRowsCount(rows: Cfg, k: nat, r: nat, a: nat)
    requires k <= |rows|
    ensures Count(Row(Edges(rows, k), r), a) == if a < k then Count(rows[a], r) else 0
  {
    hide Row, Edges, Tagged, Count;
    NoEdges(rows, r);
    if k > 0 {
      EdgeRowsCount(rows, k - 1, r, a);
      RowOfEdges(rows, k, r);
      RowOfBlock(rows[k - 1], k - 1, r, a);
      CountConcat(Row(Edges(rows, k - 1), r), Row(Tagged<nat>(rows[k - 1], k - 1), r), a);
    }
  }

  lemma CountConcat(s: seq<nat>, t: seq<nat>, x: nat)
    ensures Count(s + t, x) == Count(s, x) + Count(t, x)
  {
  }

  /** The edges of one block that go to `r`: the block, as often as it names `r`. */
  lemma {:induction false} RowOfBlock(row: seq<nat>, b: nat, r: nat, a: nat)
    ensures forall i :: 0 <= i < |Row(Tagged<nat>(row, b), r)| ==> Row(Tagged<nat>(row, b), r)[i] == b
    ensures Count(Row(Tagged<nat>(row, b), r), a) == if a == b then Count(row, r) else 0
  {
    hide Row;
    NoEdges([], r);
    if row == [] {
      assert Tagged<nat>(row, b) == Edges([], 0);
    } else {
      var front, last := row[..|row| - 1], row[|row| - 1];
      RowOfBlock(front, b, r, a);
      assert Tagged<nat>(row, b) == Tagged<nat>(front, b) + [(last, b)];
      RowAppend(Tagged<nat>(front, b), [(last, b)], r);
      RowOfOne(last, b, r);
      assert row == front + [last];
    }
  }

  lemma {:induction false} DistinctsOfAscending(row: seq<nat>)
    requires Ascends(row)
    ensures StrictlyAscends(Distincts(row))
    ensures forall x :: x in Distincts(row) <==> x in row
    ensures row != [] ==> Distincts(row) != [] && Distincts(row)[|Distincts(row)| - 1] == row[|row| - 1]
  {
    if row != [] {
      var front := row[..|row| - 1];
      DistinctsOfAscending(front);
      assert row == front + [row[|row| - 1]];
      assert front != [] ==> front[|front| - 1] == row[|row| - 2];
    }
  }

  lemma SuccessorsAreKept(terminators: seq<seq<nat>>, cfg: SsaCfg, a: nat)
    requires Holds(Rows(terminators), cfg) && a < |terminators|
    ensures cfg.BlockSuccessors(a) == Kept(terminators[a], |terminators|)
  {
    hide CsrRow, Kept, IsTable;
    SuccessorRow(Rows(terminators), cfg.successorOffsets, a);
  }

  lemma PredecessorsAreEdges(terminators: seq<seq<nat>>, cfg: SsaCfg, b: nat)
    requires Holds(Rows(terminators), cfg)
    ensures cfg.BlockPredecessors(b) == if b < |terminators| then Row(Edges(Rows(terminators), |terminators|), b) else []
  {
    hide CsrRow, Edges, Row, Kept, IsTable;
    var rows := Rows(terminators);
    CsrRowIsRow(Edges(rows, |rows|), |rows|, cfg.predecessorOffsets, cfg.predecessorValues, b);
  }

  /** The two directions are exact inverses, repeated edges included; predecessor rows
      ascend, and their distinct form lists each predecessor once, ascending. */
  lemma DirectionsAreInverse(terminators: seq<seq<nat>>, cfg: SsaCfg, a: nat, b: nat)
    requires Holds(Rows(terminators), cfg) && a < |terminators|
    ensures exists at :: KeepsOrder(terminators[a], |terminators|, cfg.BlockSuccessors(a), at)
    ensures Count(cfg.BlockSuccessors(a), b) == if b < |terminators| then Count(terminators[a], b) else 0
    ensures Count(cfg.BlockPredecessors(b), a) == Count(cfg.BlockSuccessors(a), b)
    ensures Ascends(cfg.BlockPredecessors(b)) && StrictlyAscends(cfg.PredecessorBlocks(b))
    ensures a in cfg.PredecessorBlocks(b) <==> b < |terminators| && b in terminators[a]
  {
    hide CsrRow, Edges, Row, Distincts, Kept, Holds, KeepsOrder;
    var rows := Rows(terminators);
    var at := KeptInOrder(terminators[a], |rows|);
    SuccessorsAreKept(terminators, cfg, a);
    PredecessorsAreEdges(terminators, cfg, b);
    KeptExactly(terminators[a], |rows|, b);
    EdgeRowsAscend(rows, |rows|, b);
    EdgeRowsCount(rows, |rows|, b, a);
    NoEdges(rows, b);
    DistinctsOfAscending(cfg.BlockPredecessors(b));
    assert a in cfg.BlockPredecessors(b) <==> Count(cfg.BlockPredecessors(b), a) > 0;
    assert b in terminators[a] <==> Count(terminators[a], b) > 0;
  }

  /** No predecessor is out of range. */
  lemma PredecessorsInRange(terminators: seq<seq<nat>>, cfg: SsaCfg, b: nat)
    requires Holds(Rows(terminators), cfg)
    ensures forall a :: a in cfg.BlockPredecessors(b) ==> a < |terminators|
    ensures InRange(Rows(terminators))
  {
    hide Edges, Row, CsrRow, Kept, Holds;
    var rows := Rows(terminators);
    PredecessorsAreEdges(terminators, cfg, b);
    EdgeRowsAscend(rows, |rows|, b);
    forall s: nat, k | s < |rows| && 0 <= k < |rows[s]|
      ensures rows[s][k] < |rows|
    {
      KeptExactly(terminators[s], |rows|, rows[s][k]);
      assert Count(rows[s], rows[s][k]) > 0;
    }
  }
}
