/** Live-in blocks for pruned phi placement: src/analysis/liveness.rs. */
module Liveness {
  import opened Graph
  import opened Sequences

  type Groups = map<nat, set<nat>>

  /** A path from `b` to a use of the group with no definition before its last block. */
  ghost predicate LivePath(g: Cfg, defs: set<nat>, uses: set<nat>, b: nat, u: nat, p: seq<nat>) {
    Joins(g, b, u, p) && u in uses && forall i :: 0 <= i < |p| - 1 ==> p[i] !in defs
  }

  ghost predicate LiveIn(g: Cfg, defs: set<nat>, uses: set<nat>, b: nat) {
    exists u, p :: LivePath(g, defs, uses, b, u, p)
  }

  lemma UseIsLive(g: Cfg, defs: set<nat>, uses: set<nat>, u: nat)
    requires u in uses
    ensures LiveIn(g, defs, uses, u)
  {
    assert LivePath(g, defs, uses, u, u, [u]);
  }

  lemma PredecessorIsLive(g: Cfg, defs: set<nat>, uses: set<nat>, a: nat, b: nat)
    requires Edge(g, a, b) && a !in defs && LiveIn(g, defs, uses, b)
    ensures LiveIn(g, defs, uses, a)
  {
    var u, p :| LivePath(g, defs, uses, b, u, p);
    var q := [a] + p;
    forall i | 0 <= i < |q| - 1
      ensures Edge(g, q[i], q[i + 1]) && q[i] !in defs
    {
      assert i > 0 ==> q[i] == p[i - 1] && q[i + 1] == p[i];
    }
    assert LivePath(g, defs, uses, a, u, q);
  }

  /** A set that holds the uses and is closed under predecessors without a definition
      holds every live block. */
  lemma {:induction false} ClosedHoldsLive(g: Cfg, defs: set<nat>, uses: set<nat>, b: nat, u: nat, p: seq<nat>,
                                           live: set<nat>)
    requires LivePath(g, defs, uses, b, u, p) && uses <= live
    requires forall x, y :: y in live && Edge(g, x, y) && x !in defs ==> x in live
    ensures b in live
    decreases |p|
  {
    if |p| > 1 {
      Suffix(g, b, u, p, 1);
      assert LivePath(g, defs, uses, p[1], u, p[1..]);
      ClosedHoldsLive(g, defs, uses, p[1], u, p[1..], live);
      assert Edge(g, p[0], p[1]);
    }
  }

  /** The sources of the edges to `b`, one entry per edge, of the blocks before `a` and
      of the first `k` edges of block `a`. */
  ghost function Incoming(g: Cfg, a: nat, k: nat, b: nat): (r: seq<nat>)
    requires a <= |g| && (k > 0 ==> a < |g| && k <= |g[a]|)
    ensures forall x: nat :: x in r <==> (x < a && Edge(g, x, b)) || (x == a && k > 0 && b in g[a][..k])
    decreases a, k
  {
    if k > 0 then
      assert g[a][..k] == g[a][..k - 1] + [g[a][k - 1]];
      Incoming(g, a, k - 1, b) + if g[a][k - 1] == b then [a] else []
    else if a > 0 then
      assert g[a - 1][..|g[a - 1]|] == g[a - 1];
      Incoming(g, a - 1, |g[a - 1]|, b)
    else []
  }

  /** The predecessor lists of the first `n` blocks, in order. */
  ghost predicate ArePredecessors(g: Cfg, n: nat, preds: seq<seq<nat>>) {
    |preds| == n && forall b: nat :: b < n ==> preds[b] == Incoming(g, |g|, 0, b)
  }

  method Predecessors(g: Cfg, n: nat) returns (preds: seq<seq<nat>>)
    ensures ArePredecessors(g, n, preds)
  {
    preds := seq(n, _ => []);
    for a := 0 to |g|
      invariant |preds| == n && forall b: nat :: b < n ==> preds[b] == Incoming(g, a, 0, b)
    {
      for k := 0 to |g[a]|
        invariant |preds| == n && forall b: nat :: b < n ==> preds[b] == Incoming(g, a, k, b)
      {
        if g[a][k] < n {
          preds := preds[g[a][k] := preds[g[a][k]] + [a]];
        }
      }
    }
  }

  /** The backward worklist for one group: what is live is sound, and the live blocks that
      are done have all their undefining predecessors live. */
  ghost predicate Flowing(g: Cfg, defs: set<nat>, uses: set<nat>, n: nat, live: set<nat>, worklist: seq<nat>) {
    && uses <= live <= Below(n)
    && (forall b :: b in live ==> LiveIn(g, defs, uses, b))
    && (forall b :: b in worklist ==> b in live)
    && forall x, y :: y in live && y !in worklist && Edge(g, x, y) && x !in defs ==> x in live
  }

  method LiveBlocks(g: Cfg, preds: seq<seq<nat>>, n: nat, defs: set<nat>, uses: set<nat>) returns (live: set<nat>)
    requires |g| <= n && ArePredecessors(g, n, preds)
    requires uses <= Below(n)
    ensures forall b :: b in live <==> LiveIn(g, defs, uses, b)
  {
    hide LiveIn;
    live := uses;
    var worklist := Ascending(uses);
    forall b | b in uses
      ensures LiveIn(g, defs, uses, b)
    {
      UseIsLive(g, defs, uses, b);
    }
    while worklist != []
      invariant Flowing(g, defs, uses, n, live, worklist)
      decreases Below(n) - live, |worklist|
    {
      var block := worklist[|worklist| - 1];
      worklist := worklist[..|worklist| - 1];
      live, worklist := Propagate(g, preds, n, defs, uses, block, live, worklist);
    }
    forall b | LiveIn(g, defs, uses, b)
      ensures b in live
    {
      LiveIsHeld(g, defs, uses, b, live);
    }
  }

  lemma LiveIsHeld(g: Cfg, defs: set<nat>, uses: set<nat>, b: nat, live: set<nat>)
    requires LiveIn(g, defs, uses, b) && uses <= live
    requires forall x, y :: y in live && Edge(g, x, y) && x !in defs ==> x in live
    ensures b in live
  {
    var u, p :| LivePath(g, defs, uses, b, u, p);
    ClosedHoldsLive(g, defs, uses, b, u, p, live);
  }

  /** Handles one popped block. */
  method Propagate(g: Cfg, preds: seq<seq<nat>>, n: nat, defs: set<nat>, uses: set<nat>, block: nat, live: set<nat>,
                   worklist: seq<nat>)
    returns (live': set<nat>, worklist': seq<nat>)
    requires |g| <= n && ArePredecessors(g, n, preds)
    requires Flowing(g, defs, uses, n, live, worklist + [block])
    ensures Flowing(g, defs, uses, n, live', worklist')
    ensures live <= live' && (live' == live ==> worklist' == worklist)
  {
    hide LiveIn, ArePredecessors, Flowing, Edge;
    FlowingFacts(g, defs, uses, n, live, worklist + [block]);
    live', worklist' := live, worklist;
    assert block in worklist + [block];
    PredecessorList(g, n, preds, block);
    var row := preds[block];
    for k := 0 to |row|
      invariant live' <= Below(n) && (live' == live ==> worklist' == worklist)
      invariant Grown(live, worklist, live', worklist')
      invariant forall b :: b in live' ==> LiveIn(g, defs, uses, b)
      invariant forall i :: 0 <= i < k && row[i] !in defs ==> row[i] in live'
    {
      var pred := row[k];
      if pred !in defs && pred !in live' {
        PredecessorIsLive(g, defs, uses, pred, block);
        live' := live' + {pred};
        worklist' := worklist' + [pred];
      }
    }
    Advanced(g, defs, uses, n, block, live, worklist, live', worklist');
  }

  lemma FlowingFacts(g: Cfg, defs: set<nat>, uses: set<nat>, n: nat, live: set<nat>, worklist: seq<nat>)
    requires Flowing(g, defs, uses, n, live, worklist)
    ensures live <= Below(n) && forall b :: b in live ==> LiveIn(g, defs, uses, b)
    ensures forall b :: b in worklist ==> b in live
  {
  }

  /** What joined the live set also joined the worklist, and nothing left either. */
  predicate Grown(live: set<nat>, worklist: seq<nat>, live': set<nat>, worklist': seq<nat>) {
    && live <= live' && (forall b :: b in worklist ==> b in worklist')
    && (forall b :: b in live' && b !in live ==> b in worklist')
    && forall b :: b in worklist' ==> b in live' && (b in worklist || b !in live)
  }

  lemma Advanced(g: Cfg, defs: set<nat>, uses: set<nat>, n: nat, block: nat, live: set<nat>, worklist: seq<nat>,
                 live': set<nat>, worklist': seq<nat>)
    requires Flowing(g, defs, uses, n, live, worklist + [block]) && Grown(live, worklist, live', worklist')
    requires live' <= Below(n) && forall b :: b in live' ==> LiveIn(g, defs, uses, b)
    requires forall x: nat :: Edge(g, x, block) && x !in defs ==> x in live'
    ensures Flowing(g, defs, uses, n, live', worklist')
  {
  }

  lemma PredecessorList(g: Cfg, n: nat, preds: seq<seq<nat>>, b: nat)
    requires |g| <= n && ArePredecessors(g, n, preds)
    ensures |preds| == n
    ensures b < n ==> forall a: nat :: a in preds[b] <==> Edge(g, a, b)
    ensures b < n ==> forall a: nat :: a in preds[b] ==> a < n
  {
  }

  /** For every group with definitions and uses, the blocks it is live into; no entry for
      any other group. */
  method ComputeLiveInBlocks(defs: Groups, uses: Groups, successors: Cfg, blockCount: nat) returns (liveIn: Groups)
    requires |successors| <= blockCount && forall x :: x in uses ==> uses[x] <= Below(blockCount)
    ensures liveIn.Keys == defs.Keys * uses.Keys
    ensures forall x :: x in liveIn ==> forall b :: b in liveIn[x] <==> LiveIn(successors, defs[x], uses[x], b)
  {
    hide LiveIn;
    liveIn := map[];
    var preds := Predecessors(successors, blockCount);
    var rest := defs.Keys;
    while rest != {}
      invariant rest <= defs.Keys && liveIn.Keys == (defs.Keys - rest) * uses.Keys
      invariant forall x :: x in liveIn ==> forall b :: b in liveIn[x] <==> LiveIn(successors, defs[x], uses[x], b)
      decreases rest
    {
      var group :| group in rest;
      rest := rest - {group};
      if group in uses {
        var live := LiveBlocks(successors, preds, blockCount, defs[group], uses[group]);
        liveIn := liveIn[group := live];
      }
    }
  }
}
