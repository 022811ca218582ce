/** Flattened row tables: the count, prefix-sum and scatter passes that
    src/analysis/cfg.rs and src/analysis/defuse.rs both run.

    A table of `n` rows is built from a list of keyed items.  Row `r` is meant to hold
    the items with key `r` in list order, and items with other keys are dropped.
  */
module Csr {

  const MAX_U32: nat := 0xffff_ffff

  /** Addition on the 32-bit counters. */
  function Plus(a: nat, b: nat): nat {
    if a + b > MAX_U32 then MAX_U32 else a + b
  }

  /** The naive row: the items with one key, in order. */
  function Row<T>(items: seq<(nat, T)>, r: nat): seq<T> {
    if items == [] then []
    else
      var (key, x) := items[|items| - 1];
      Row(items[..|items| - 1], r) + if key == r then [x] else []
  }

  /** Items keyed by each of `xs`, with one tag. */
  function Tagged<T>(xs: seq<nat>, tag: T): (items: seq<(nat, T)>)
    ensures |items| == |xs|
  {
    seq(|xs|, i requires 0 <= i < |xs| => (xs[i], tag))
  }

  /** How many items have a key below `r`. */
  function Start<T>(items: seq<(nat, T)>, r: nat): nat {
    if r == 0 then 0 else Start(items, r - 1) + |Row(items, r - 1)|
  }

  /** Offsets and values that hold the naive rows one after the other. */
  ghost predicate IsTable<T>(items: seq<(nat, T)>, n: nat, offsets: seq<nat>, values: seq<T>) {
    && |offsets| == n + 1 && |values| == Start(items, n)
    && (forall r: nat :: r <= n ==> offsets[r] == Start(items, r))
    && (forall r: nat :: r < n ==> Start(items, r) + |Row(items, r)| <= |values|)
    && (forall r: nat :: r < n ==> values[Start(items, r)..Start(items, r) + |Row(items, r)|] == Row(items, r))
  }

  /** One row of a table, empty when the row does not exist. */
  function CsrRow<T>(offsets: seq<nat>, values: seq<T>, r: nat): seq<T> {
    if r >= |offsets| || r + 1 >= |offsets| then []
    else if offsets[r] <= offsets[r + 1] <= |values| then values[offsets[r]..offsets[r + 1]]
    else []
  }

  lemma CsrRowIsRow<T>(items: seq<(nat, T)>, n: nat, offsets: seq<nat>, values: seq<T>, r: nat)
    requires IsTable(items, n, offsets, values)
    ensures CsrRow(offsets, values, r) == if r < n then Row(items, r) else []
  {
    hide Row, Start;
    if r < n {
      StartNext(items, r);
      assert offsets[r + 1] == Start(items, r + 1);
    }
  }

  lemma StartNext<T>(items: seq<(nat, T)>, r: nat)
    ensures Start(items, r + 1) == Start(items, r) + |Row(items, r)|
  {
  }

  // ----- rows of longer lists

  lemma {:induction false} RowAppend<T>(a: seq<(nat, T)>, b: seq<(nat, T)>, r: nat)
    ensures Row(a + b, r) == Row(a, r) + Row(b, r)
    decreases |b|
  {
    if b == [] {
      assert a + b == a;
    } else {
      assert (a + b)[..|a + b| - 1] == a + b[..|b| - 1];
      RowAppend(a, b[..|b| - 1], r);
    }
  }

  lemma RowOfOne<T>(key: nat, x: T, r: nat)
    ensures Row([(key, x)], r) == if key == r then [x] else []
  {
    assert [(key, x)][..0] == [];
  }

  /** A row of a shorter list is no longer. */
  lemma RowGrows<T>(items: seq<(nat, T)>, k: nat, r: nat)
    requires k <= |items|
    ensures |Row(items[..k], r)| <= |Row(items, r)|
    ensures k < |items| && items[k].0 == r ==> |Row(items[..k], r)| < |Row(items, r)|
  {
    assert items == items[..k] + items[k..];
    RowAppend(items[..k], items[k..], r);
    if k < |items| {
      assert items[k..] == [items[k]] + items[k + 1..];
      RowAppend([items[k]], items[k + 1..], r);
      RowOfOne(items[k].0, items[k].1, r);
    }
  }

  lemma {:induction false} StartGrows<T>(items: seq<(nat, T)>, r: nat, s: nat)
    requires r < s
    ensures Start(items, r) + |Row(items, r)| <= Start(items, s)
    decreases s
  {
    if r < s - 1 {
      StartGrows(items, r, s - 1);
    }
  }

  lemma StartOrdered<T>(items: seq<(nat, T)>, r: nat, s: nat)
    requires r <= s
    ensures Start(items, r) <= Start(items, s)
  {
    if r < s {
      StartGrows(items, r, s);
    }
  }

  /** All rows together hold no more than the list. */
  lemma {:induction false} StartFits<T>(items: seq<(nat, T)>, r: nat)
    ensures Start(items, r) <= |items|
  {
    if items == [] {
      StartOfNone<T>(r);
    } else {
      var front := items[..|items| - 1];
      StartFits(front, r);
      StartStep(front, items[|items| - 1], r);
      assert items == front + [items[|items| - 1]];
    }
  }

  lemma {:induction false} StartOfNone<T>(r: nat)
    ensures Start<T>([], r) == 0
  {
    if r > 0 {
      StartOfNone<T>(r - 1);
    }
  }

  lemma {:induction false} StartStep<T>(items: seq<(nat, T)>, item: (nat, T), r: nat)
    ensures Start(items + [item], r) == Start(items, r) + if item.0 < r then 1 else 0
  {
    if r > 0 {
      StartStep(items, item, r - 1);
      RowAppend(items, [item], r - 1);
      RowOfOne(item.0, item.1, r - 1);
    }
  }

  // ----- the passes

  /** Row counts, staged one slot high. */
  ghost predicate Counted<T>(items: seq<(nat, T)>, counts: seq<nat>) {
    counts != [] && counts[0] == 0 && forall r: nat :: r < |counts| - 1 ==> counts[r + 1] == |Row(items, r)|
  }

  lemma NothingCounted<T>(items: seq<(nat, T)>, counts: seq<nat>)
    requires counts != [] && forall i :: 0 <= i < |counts| ==> counts[i] == 0
    ensures Counted(items[..0], counts)
  {
  }

  /** Adds `more` items to one row's count. */
  method Tally(counts: array<nat>, row: nat, more: nat)
    modifies counts
    ensures forall i :: 0 <= i < counts.Length && i != row + 1 ==> counts[i] == old(counts[i])
    ensures row + 1 < counts.Length ==> counts[row + 1] == Plus(old(counts[row + 1]), more)
  {
    if row + 1 < counts.Length {
      counts[row + 1] := Plus(counts[row + 1], more);
    }
  }

  /** Tallying the key of the next item counts that item. */
  lemma TallyCounts<T>(items: seq<(nat, T)>, k: nat, counts: seq<nat>, counts': seq<nat>)
    requires k < |items| <= MAX_U32 && Counted(items[..k], counts) && |counts'| == |counts|
    requires forall i :: 0 <= i < |counts| && i != items[k].0 + 1 ==> counts'[i] == counts[i]
    requires items[k].0 + 1 < |counts| ==> counts'[items[k].0 + 1] == Plus(counts[items[k].0 + 1], 1)
    ensures Counted(items[..k + 1], counts')
  {
    hide Row;
    var longer := items[..k + 1];
    forall r: nat | r < |counts'| - 1
      ensures counts'[r + 1] == |Row(longer, r)|
    {
      assert counts[r + 1] == |Row(items[..k], r)|;
      RowStep(items, k, r);
      StartFits(items[..k], r + 1);
      StartNext(items[..k], r);
    }
  }

  /** Turns staged counts into offsets. */
  method PrefixSum<T>(a: array<nat>, ghost items: seq<(nat, T)>) returns (total: nat)
    requires Counted(items, a[..]) && |items| <= MAX_U32
    modifies a
    ensures forall r: nat :: r < a.Length ==> a[r] == Start(items, r)
    ensures total == Start(items, a.Length - 1)
  {
    hide Row;
    ghost var counts := a[..];
    total := 0;
    for i := 0 to a.Length
      invariant forall r: nat :: r < i ==> a[r] == Start(items, r)
      invariant forall r: nat :: i <= r < a.Length ==> a[r] == counts[r]
      invariant total == if i == 0 then 0 else Start(items, i - 1)
    {
      CountAt(items, counts, i);
      StartFits(items, i);
      total := Plus(total, a[i]);
      a[i] := total;
    }
  }

  lemma CountAt<T>(items: seq<(nat, T)>, counts: seq<nat>, i: nat)
    requires Counted(items, counts) && i < |counts|
    ensures counts[i] == if i == 0 then 0 else |Row(items, i - 1)|
  {
    if i > 0 {
      var r: nat := i - 1;
      assert counts[r + 1] == |Row(items, r)|;
    }
  }

  /** What the cursors and values hold after the first items were scattered. */
  ghost predicate Scattered<T>(items: seq<(nat, T)>, k: nat, n: nat, cursors: seq<nat>, values: seq<T>)
    requires k <= |items|
  {
    && |cursors| == n + 1 && |values| == Start(items, n)
    && (forall r: nat :: r < n ==> cursors[r] == Start(items, r) + |Row(items[..k], r)|)
    && cursors[n] >= Start(items, n)
    && (forall r: nat :: r < n ==> Start(items, r) + |Row(items[..k], r)| <= |values|)
    && (forall r: nat :: r < n ==>
         values[Start(items, r)..Start(items, r) + |Row(items[..k], r)|] == Row(items[..k], r))
  }

  /** Appends to one row's region, if there is such a row. */
  method CsrPush<T>(cursors: array<nat>, values: array<T>, row: nat, x: T)
    requires cursors as object != values as object
    modifies cursors, values
    ensures row >= cursors.Length ==> cursors[..] == old(cursors[..]) && values[..] == old(values[..])
    ensures row < cursors.Length ==> cursors[..] == old(cursors[..])[row := Plus(old(cursors[row]), 1)]
    ensures row < cursors.Length ==>
              values[..] ==
              if old(cursors[row]) < values.Length then old(values[..])[old(cursors[row]) := x] else old(values[..])
  {
    if row < cursors.Length {
      if cursors[row] < values.Length {
        values[cursors[row]] := x;
      }
      cursors[row] := Plus(cursors[row], 1);
    }
  }

  /** Where the next item of a row goes, clear of every other row. */
  lemma SlotOfNext<T>(items: seq<(nat, T)>, k: nat, n: nat, r: nat)
    requires k < |items| && items[k].0 < n
    ensures var at := Start(items, items[k].0) + |Row(items[..k], items[k].0)|;
      && at < Start(items, n)
      && (r < n && r != items[k].0 ==> at < Start(items, r) || Start(items, r) + |Row(items[..k], r)| <= at)
  {
    var key := items[k].0;
    RowGrows(items, k, key);
    StartGrows(items, key, n);
    if r < key {
      StartGrows(items, r, key);
      RowGrows(items, k, r);
    } else if key < r {
      StartGrows(items, key, r);
    }
  }

  lemma RowStep<T>(items: seq<(nat, T)>, k: nat, r: nat)
    requires k < |items|
    ensures Row(items[..k + 1], r) == Row(items[..k], r) + if items[k].0 == r then [items[k].1] else []
  {
    assert items[..k + 1][..k] == items[..k];
  }

  /** One push scatters one more item. */
  lemma PushScatters<T>(items: seq<(nat, T)>, k: nat, n: nat, cursors: seq<nat>, values: seq<T>, cursors': seq<nat>,
                        values': seq<T>)
    requires k < |items| && |items| < MAX_U32 && Scattered(items, k, n, cursors, values)
    requires items[k].0 > n ==> cursors' == cursors && values' == values
    requires items[k].0 <= n ==> cursors' == cursors[items[k].0 := Plus(cursors[items[k].0], 1)]
    requires items[k].0 <= n ==>
               values' == if cursors[items[k].0] < |values| then values[cursors[items[k].0] := items[k].1] else values
    ensures Scattered(items, k + 1, n, cursors', values')
  {
    hide Row, Start;
    var key := items[k].0;
    StartFits(items, n);
    if key < n {
      SlotOfNext(items, k, n, 0);
    }
    forall r: nat | r < n
      ensures cursors'[r] == Start(items, r) + |Row(items[..k + 1], r)|
      ensures Start(items, r) + |Row(items[..k + 1], r)| <= |values'|
      ensures values'[Start(items, r)..Start(items, r) + |Row(items[..k + 1], r)|] == Row(items[..k + 1], r)
    {
      RowStep(items, k, r);
      if key < n {
        SlotOfNext(items, k, n, r);
      }
      if key == r {
        var lo, at := Start(items, r), cursors[r];
        assert values'[lo..at + 1] == values[lo..at] + [items[k].1];
      } else {
        var lo, hi := Start(items, r), Start(items, r) + |Row(items[..k], r)|;
        assert values'[lo..hi] == values[lo..hi];
      }
    }
  }

  /** Offsets are the cursors before anything is scattered. */
  lemma ScatterStarts<T>(items: seq<(nat, T)>, n: nat, cursors: seq<nat>, values: seq<T>)
    requires |cursors| == n + 1 && |values| == Start(items, n)
    requires forall r: nat :: r <= n ==> cursors[r] == Start(items, r)
    ensures Scattered(items, 0, n, cursors, values)
  {
    forall r: nat | r < n
      ensures Start(items, r) <= |values|
    {
      StartOrdered(items, r, n);
    }
  }

  /** Once all is scattered, every row is full and the values are the table's. */
  lemma ScatterEnds<T>(items: seq<(nat, T)>, n: nat, offsets: seq<nat>, cursors: seq<nat>, values: seq<T>)
    requires Scattered(items, |items|, n, cursors, values)
    requires |offsets| == n + 1 && forall r: nat :: r <= n ==> offsets[r] == Start(items, r)
    ensures IsTable(items, n, offsets, values)
    ensures forall r: nat :: r < n ==> cursors[r] == offsets[r + 1]
  {
    hide Row, Start;
    assert items[..|items|] == items;
    forall r: nat | r < n
      ensures cursors[r] == offsets[r + 1]
    {
      StartNext(items, r);
    }
  }
}
