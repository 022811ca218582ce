/** Exception-aware dominance: the `EhDominance` queries of src/analysis/exceptions.rs.

    The queries are compared with each other, with dominance over the terminator
    relation, and with what they are asked for: whether a value has been computed
    whenever control arrives at a block.
  */
module EhDominance {
  import opened Exceptions
  import opened Graph
  import opened Options

  /** Where a value is defined: at the top of a block, or at an instruction. */
  datatype DefSite = DefSite(block: nat, instruction: Option<nat>)

  // ----- the queries

  ghost predicate DominatesBlock(eh: EhCfg, a: nat, b: nat) {
    Dominates(eh.Graph(), a, b)
  }

  /** Reachable, but not without the synthesized edges. */
  ghost predicate ExceptionReachable(eh: EhCfg, b: nat) {
    Reachable(eh.Graph(), b) && !Reachable(eh.terminator, b)
  }

  ghost predicate DefinitionReaches(eh: EhCfg, d: DefSite, u: nat) {
    && DominatesBlock(eh, d.block, u)
    && !(d.instruction.Some? && d.block in eh.edgeSources && ExceptionReachable(eh, u))
  }

  ghost predicate DefinitionIsWellFormed(eh: EhCfg, d: nat, u: nat) {
    Dominates(eh.Graph(), d, u) || Dominates(eh.terminator, d, u)
  }

  // ----- the view keeps every terminator path

  ghost predicate IsView(eh: EhCfg) {
    exists t, roots :: IsEhCfg(t, roots, eh)
  }

  lemma ViewEdges(eh: EhCfg, b: nat, c: nat)
    requires IsView(eh)
    ensures Edge(eh.terminator, b, c) ==> Edge(eh.Graph(), b, c)
    ensures Edge(eh.Graph(), b, c) && !Edge(eh.terminator, b, c) ==> b in eh.edgeSources
  {
    var t, roots :| IsEhCfg(t, roots, eh);
    hide Fallen, RootEdges;
    GraphEdges(t, roots, eh, b, c);
  }

  lemma ViewPath(eh: EhCfg, a: nat, b: nat, p: seq<nat>)
    requires IsView(eh) && Joins(eh.terminator, a, b, p)
    ensures Joins(eh.Graph(), a, b, p)
  {
    forall i | 0 <= i < |p| - 1
      ensures Edge(eh.Graph(), p[i], p[i + 1])
    {
      ViewEdges(eh, p[i], p[i + 1]);
    }
  }

  // ----- how the three answers are ordered

  /** Where the terminator relation arrives by itself, exception-aware dominance is
      never weaker than dominance over that relation. */
  lemma EhDominanceIsStronger(eh: EhCfg, a: nat, b: nat)
    requires IsView(eh) && Reachable(eh.terminator, b)
    ensures Reachable(eh.Graph(), b)
    ensures DominatesBlock(eh, a, b) ==> Dominates(eh.terminator, a, b)
  {
    forall p | Joins(eh.terminator, 0, b, p)
      ensures Joins(eh.Graph(), 0, b, p)
    {
      ViewPath(eh, 0, b, p);
    }
    var p :| Joins(eh.terminator, 0, b, p);
    assert Joins(eh.Graph(), 0, b, p);
  }

  /** The looseness order of the queries, and what the loosest one amounts to on the
      two kinds of use. */
  lemma QueriesAreOrdered(eh: EhCfg, d: DefSite, u: nat)
    requires IsView(eh)
    ensures DefinitionReaches(eh, d, u) ==> DominatesBlock(eh, d.block, u)
    ensures DominatesBlock(eh, d.block, u) ==> DefinitionIsWellFormed(eh, d.block, u)
    ensures Reachable(eh.terminator, u) ==>
              (DefinitionIsWellFormed(eh, d.block, u) <==> Dominates(eh.terminator, d.block, u))
    ensures !Reachable(eh.terminator, u) ==>
              (DefinitionIsWellFormed(eh, d.block, u) <==> DominatesBlock(eh, d.block, u))
  {
    if Reachable(eh.terminator, u) {
      EhDominanceIsStronger(eh, d.block, u);
    }
  }

  // ----- where the two dominance relations agree

  /** A path of the view from one terminator-reachable block to another whose inner
      blocks only exceptional flow reaches: out through a handler and back. */
  ghost predicate Excursion(eh: EhCfg, s: nat, j: nat, p: seq<nat>) {
    && Joins(eh.Graph(), s, j, p) && |p| > 1
    && Reachable(eh.terminator, s) && Reachable(eh.terminator, j)
    && forall i :: 0 < i < |p| - 1 ==> !Reachable(eh.terminator, p[i])
  }

  /** Wherever an excursion rejoins, the immediate terminator dominator of the join
      still dominates the block the excursion left from. */
  ghost predicate ExcursionsStayInside(eh: EhCfg) {
    forall s, j, p, d :: Excursion(eh, s, j, p) && IsIdom(eh.terminator, d, j) ==> Dominates(eh.terminator, d, s)
  }

  ghost predicate DominanceAgrees(eh: EhCfg) {
    forall a, b :: Reachable(eh.terminator, b) ==> (DominatesBlock(eh, a, b) <==> Dominates(eh.terminator, a, b))
  }

  /** The last stretch of a view path to a terminator-reachable block. */
  lemma LastStretch(eh: EhCfg, b: nat, p: seq<nat>, n: nat) returns (k: nat)
    requires Joins(eh.Graph(), 0, b, p) && n < |p| - 1
    requires forall i :: n < i < |p| - 1 ==> !Reachable(eh.terminator, p[i])
    requires Reachable(eh.terminator, b)
    ensures k < |p| - 1 && Excursion(eh, p[k], b, p[k..])
  {
    if Reachable(eh.terminator, p[n]) {
      k := n;
      Suffix(eh.Graph(), 0, b, p, k);
    } else {
      EntryReachable(eh.terminator);
      k := LastStretch(eh, b, p, n - 1);
    }
  }

  lemma {:induction false} DominatorOnEveryViewPath(eh: EhCfg, a: nat, b: nat, p: seq<nat>)
    requires IsView(eh) && ExcursionsStayInside(eh)
    requires Reachable(eh.terminator, b) && Dominates(eh.terminator, a, b)
    requires Joins(eh.Graph(), 0, b, p)
    ensures a in p
    decreases |p|
  {
    if a != b {
      if |p| == 1 {
        EntryHasNoStrictDominator(eh.terminator, a);
      } else {
        var k := LastStretch(eh, b, p, |p| - 2);
        if b == 0 {
          EntryHasNoStrictDominator(eh.terminator, a);
        } else {
          IdomExists(eh.terminator, b);
          var d :| IsIdom(eh.terminator, d, b);
          DominatesTransitive(eh.terminator, a, d, p[k]);
          Prefix(eh.Graph(), 0, b, p, k);
          DominatorOnEveryViewPath(eh, a, p[k], p[..k + 1]);
        }
      }
    }
  }

  lemma ExcursionKeepsDominator(eh: EhCfg, s: nat, j: nat, p: seq<nat>, a: nat)
    requires IsView(eh) && DominanceAgrees(eh) && Excursion(eh, s, j, p) && StrictlyDominates(eh.terminator, a, j)
    ensures Dominates(eh.terminator, a, s)
  {
    DominatorReachable(eh.terminator, a, j);
    assert DominatesBlock(eh, a, j);
    assert a !in p[1..];
    forall q | Joins(eh.terminator, 0, s, q)
      ensures a in q
    {
      ViewPath(eh, 0, s, q);
      Glue(eh.Graph(), 0, s, j, q, p);
      assert a in q + p[1..];
    }
  }

  /** On the blocks the terminator relation reaches, the two dominance relations
      agree exactly when no handler rejoins behind a dominator of its guard's. */
  lemma AgreementIsExact(eh: EhCfg)
    requires IsView(eh)
    ensures DominanceAgrees(eh) <==> ExcursionsStayInside(eh)
  {
    if DominanceAgrees(eh) {
      forall s, j, p, d | Excursion(eh, s, j, p) && IsIdom(eh.terminator, d, j)
        ensures Dominates(eh.terminator, d, s)
      {
        ExcursionKeepsDominator(eh, s, j, p, d);
      }
    }
    if ExcursionsStayInside(eh) {
      forall a, b | Reachable(eh.terminator, b)
        ensures DominatesBlock(eh, a, b) <==> Dominates(eh.terminator, a, b)
      {
        EhDominanceIsStronger(eh, a, b);
        if Dominates(eh.terminator, a, b) {
          forall p | Joins(eh.Graph(), 0, b, p)
            ensures a in p
          {
            DominatorOnEveryViewPath(eh, a, b, p);
          }
        }
      }
    }
  }

  // ----- what a rewrite may rely on

  /** Along `p`, the definition has taken effect: its block was entered, and, for a
      definition at an instruction, left over a terminator edge, since control may
      leave over a synthesized edge before the instruction. */
  ghost predicate Completes(eh: EhCfg, d: DefSite, p: seq<nat>) {
    exists k ::
      && 0 <= k < |p| && p[k] == d.block
      && (d.instruction.Some? ==> k < |p| - 1 && Edge(eh.terminator, p[k], p[k + 1]))
  }

  /** However control arrives at the top of `u`, the value of `d` is there. */
  ghost predicate Guaranteed(eh: EhCfg, d: DefSite, u: nat) {
    Reachable(eh.Graph(), u) && forall p :: Joins(eh.Graph(), 0, u, p) ==> Completes(eh, d, p)
  }

  /** Control can leave `d` over a purely synthesized edge and get to `u` without
      coming back. */
  ghost predicate InterruptedOnTheWay(eh: EhCfg, d: nat, u: nat) {
    exists h, q :: Edge(eh.Graph(), d, h) && !Edge(eh.terminator, d, h) && Joins(eh.Graph(), h, u, q) && d !in q
  }

  /** Arrival at the top of a block: the value is guaranteed exactly when its block
      dominates the use and, for a definition at an instruction, is another block from
      which no interrupted run gets there. */
  lemma GuaranteedIsExact(eh: EhCfg, d: DefSite, u: nat)
    requires IsView(eh) && Reachable(eh.Graph(), u)
    ensures Guaranteed(eh, d, u) <==>
            && DominatesBlock(eh, d.block, u)
            && (d.instruction.Some? ==> d.block != u && !InterruptedOnTheWay(eh, d.block, u))
  {
    var g := eh.Graph();
    if d.block == u {
      OwnBlock(eh, d);
      return;
    }
    if Guaranteed(eh, d, u) {
      forall p | Joins(g, 0, u, p)
        ensures d.block in p
      {
        assert Completes(eh, d, p);
      }
      if d.instruction.Some? && InterruptedOnTheWay(eh, d.block, u) {
        InterruptedRun(eh, d, u);
      }
    }
    if DominatesBlock(eh, d.block, u) && (d.instruction.Some? ==> !InterruptedOnTheWay(eh, d.block, u)) {
      forall p | Joins(g, 0, u, p)
        ensures Completes(eh, d, p)
      {
        var k := LastOccurrence(p, d.block);
        if d.instruction.Some? && !Edge(eh.terminator, p[k], p[k + 1]) {
          Suffix(g, 0, u, p, k + 1);
          assert Joins(g, p[k + 1], u, p[k + 1..]);
        }
      }
    }
  }

  /** At the top of its own block only a phi holds: control first arrives there with
      no instruction of the block behind it. */
  lemma OwnBlock(eh: EhCfg, d: DefSite)
    requires Reachable(eh.Graph(), d.block)
    ensures DominatesBlock(eh, d.block, d.block)
    ensures Guaranteed(eh, d, d.block) <==> d.instruction.None?
  {
    var before := FirstArrival(eh.Graph(), d.block);
    var p := before + [d.block];
    assert forall k :: 0 <= k < |p| - 1 ==> p[k] == before[k];
    if d.instruction.None? {
      forall q | Joins(eh.Graph(), 0, d.block, q)
        ensures Completes(eh, d, q)
      {
        assert q[|q| - 1] == d.block;
      }
    }
  }

  /** A run that enters `d` once, is interrupted there and goes on to `u`. */
  lemma InterruptedRun(eh: EhCfg, d: DefSite, u: nat)
    requires d.instruction.Some? && InterruptedOnTheWay(eh, d.block, u)
    requires Reachable(eh.Graph(), u) && DominatesBlock(eh, d.block, u)
    ensures !Guaranteed(eh, d, u)
  {
    var g := eh.Graph();
    var h, q :| Edge(g, d.block, h) && !Edge(eh.terminator, d.block, h) && Joins(g, h, u, q) && d.block !in q;
    DominatorReachable(g, d.block, u);
    var before := FirstArrival(g, d.block);
    SinglePass(g, before, d.block, h, u, q);
    NotCompleted(eh, d, before, h, q);
    hide Completes, Joins;
    assert Joins(g, 0, u, before + [d.block] + q);
  }

  /** A way to a block that does not meet it before. */
  lemma FirstArrival(g: Cfg, b: nat) returns (before: seq<nat>)
    requires Reachable(g, b)
    ensures b !in before && Joins(g, 0, b, before + [b])
  {
    var r :| Joins(g, 0, b, r);
    var k := FirstOccurrence(r, b);
    Prefix(g, 0, b, r, k);
    before := r[..k];
    assert before + [b] == r[..k + 1];
  }

  lemma SinglePass(g: Cfg, before: seq<nat>, b: nat, h: nat, u: nat, q: seq<nat>)
    requires Joins(g, 0, b, before + [b]) && Edge(g, b, h) && Joins(g, h, u, q)
    ensures Joins(g, 0, u, before + [b] + q)
  {
    hide Edge;
    Extend(g, 0, b, h, before + [b]);
    Glue(g, 0, h, u, before + [b] + [h], q);
    assert before + [b] + [h] + q[1..] == before + [b] + q;
  }

  lemma NotCompleted(eh: EhCfg, d: DefSite, before: seq<nat>, h: nat, after: seq<nat>)
    requires d.instruction.Some? && !Edge(eh.terminator, d.block, h)
    requires d.block !in before && d.block !in after && after != [] && after[0] == h
    ensures !Completes(eh, d, before + [d.block] + after)
  {
    hide Edge;
    var p, k := before + [d.block] + after, |before|;
    forall i | 0 <= i < |p| && i != k
      ensures p[i] != d.block
    {
      assert p[i] == if i < k then before[i] else after[i - k - 1];
    }
    assert p[k + 1] == h;
  }

  /** A definition that `DefinitionReaches` accepts holds at the use exactly when it is
      at the top of its block, or an instruction of another block from which no
      interrupted run gets there; outside edge-source blocks the latter is so for every
      other block. */
  lemma DefinitionReachesIsSound(eh: EhCfg, d: DefSite, u: nat)
    requires IsView(eh) && Reachable(eh.Graph(), u) && DefinitionReaches(eh, d, u)
    ensures Guaranteed(eh, d, u) <==>
            d.instruction.None? || (d.block != u && !InterruptedOnTheWay(eh, d.block, u))
    ensures d.block !in eh.edgeSources ==> (Guaranteed(eh, d, u) <==> d.instruction.None? || d.block != u)
  {
    GuaranteedIsExact(eh, d, u);
    if InterruptedOnTheWay(eh, d.block, u) && d.block !in eh.edgeSources {
      var h, q :| Edge(eh.Graph(), d.block, h) && !Edge(eh.terminator, d.block, h) && Joins(eh.Graph(), h, u, q);
      ViewEdges(eh, d.block, h);
    }
  }

  /** The query accepts every instruction for its own block's top, unless the block is
      an edge source only exceptional flow reaches, and its value is never guaranteed
      there. */
  lemma OwnBlockIsAccepted(eh: EhCfg, b: nat, i: nat)
    requires IsView(eh) && Reachable(eh.Graph(), b)
    ensures DefinitionReaches(eh, DefSite(b, Some(i)), b) <==> b !in eh.edgeSources || Reachable(eh.terminator, b)
    ensures !Guaranteed(eh, DefSite(b, Some(i)), b)
  {
    OwnBlock(eh, DefSite(b, Some(i)));
  }

  /** Nothing guaranteed is refused, but for an instruction of a block that dispatches
      to handlers and a use that only exceptional flow reaches. */
  lemma DefinitionReachesIsComplete(eh: EhCfg, d: DefSite, u: nat)
    requires IsView(eh) && Guaranteed(eh, d, u)
    ensures DefinitionReaches(eh, d, u) <==>
              d.instruction.None? || d.block !in eh.edgeSources || Reachable(eh.terminator, u)
  {
    GuaranteedIsExact(eh, d, u);
  }

  // ----- two functions for which the documentation says more

  /** A try region of two blocks, 1 and 2, whose handler 4 rejoins at 3. */
  function TwoBlockRegion(): EhCfg {
    EhCfg([[1], [2], [3], [], [3]], [ExceptionRoot(4, Handler, Some(1), Some(BlockRange(1, 3)), 0)],
          [[], [4], [], [], []], [[], [], [], [], [1]], {1})
  }

  /** A guard whose handler 3 rejoins the normal path at 2. */
  function RejoiningHandler(): EhCfg {
    EhCfg([[1], [2], [], [2]], [ExceptionRoot(3, Handler, Some(0), Some(BlockRange(0, 1)), 0)],
          [[3], [], [], []], [[], [], [], [0]], {0})
  }

  /** A root whose guard terminator edges reach gets its edge from the guard. */
  lemma SoleRootEdge(t: Cfg, root: ExceptionRoot, guard: nat)
    requires root.guard == Some(guard) && guard < |t| && InRange(t) && Reachable(t, guard)
    ensures RootEdges([root], Fallen(t, [root], 1)) == {(guard, root.block)}
  {
    var p :| Joins(t, 0, guard, p);
    var k: nat := 0;
    while k < |p|
      invariant k <= |p| && forall s: set<nat> :: ClosedFlow(t, [root], {}, s) ==> forall i :: 0 <= i < k ==> p[i] in s
    {
      assert k > 0 ==> Edge(t, p[k - 1], p[k]);
      k := k + 1;
    }
    assert guard == p[|p| - 1];
    assert guard in Flow(t, [root], {});
    assert Guarded([root], 0, |t|, guard);
    assert Fallen(t, [root], 0) == {};
    assert Fallen(t, [root], 1) == {};
    assert SourceOf([root], {}, 0) == guard;
  }

  /** A view of a function with one root, checked list by list. */
  lemma SoleRootView(eh: EhCfg, guard: nat)
    requires |eh.roots| == 1 && eh.roots[0].guard == Some(guard) && guard < |eh.terminator| && InRange(eh.terminator)
    requires Reachable(eh.terminator, guard) && !Edge(eh.terminator, guard, eh.roots[0].block)
    requires |eh.extraSuccessors| == |eh.extraPredecessors| == |eh.terminator| && eh.roots[0].block < |eh.terminator|
    requires forall b: nat :: b < |eh.terminator| ==>
               eh.extraSuccessors[b] == if b == guard then [eh.roots[0].block] else []
    requires forall b: nat :: b < |eh.terminator| ==>
               eh.extraPredecessors[b] == if b == eh.roots[0].block then [guard] else []
    requires eh.edgeSources == {guard}
    ensures IsView(eh)
  {
    hide Reachable, Fallen, RootEdges;
    assert eh.roots == [eh.roots[0]];
    SoleRootEdge(eh.terminator, eh.roots[0], guard);
    assert IsEhCfg(eh.terminator, eh.roots, eh);
  }

  lemma TwoBlockRegionIsView()
    ensures IsView(TwoBlockRegion())
  {
    hide IsView;
    assert Joins(TwoBlockRegion().terminator, 0, 1, [0, 1]);
    SoleRootView(TwoBlockRegion(), 1);
  }

  lemma RejoiningHandlerIsView()
    ensures IsView(RejoiningHandler())
  {
    hide IsView;
    EntryReachable(RejoiningHandler().terminator);
    SoleRootView(RejoiningHandler(), 0);
  }

  /** The relations do disagree on a block the terminator relation reaches: in the
      two-block region, 2 dominates 3 on the normal path and not in the view. */
  lemma TwoBlockRegionDisagrees()
    ensures var eh := TwoBlockRegion();
      IsView(eh) && Reachable(eh.terminator, 3) && Dominates(eh.terminator, 2, 3) && !DominatesBlock(eh, 2, 3)
  {
    TwoBlockRegionIsView();
    var eh := TwoBlockRegion();
    assert Joins(eh.terminator, 0, 3, [0, 1, 2, 3]);
    forall p | Joins(eh.terminator, 0, 3, p)
      ensures 2 in p
    {
      TwoOnNormalPath(p);
    }
    HandlerGoesAround();
    hide IsView, Joins, Edge;
  }

  lemma HandlerGoesAround()
    ensures Joins(TwoBlockRegion().Graph(), 0, 3, [0, 1, 4, 3])
  {
    var g := TwoBlockRegion().Graph();
    assert g[0] == [1] && g[1] == [2, 4] && g[4] == [3];
  }

  lemma TwoOnNormalPath(p: seq<nat>)
    requires Joins(TwoBlockRegion().terminator, 0, 3, p)
    ensures 2 in p
  {
    FourIsNotReached(p, |p| - 1);
    assert Edge(TwoBlockRegion().terminator, p[|p| - 2], 3);
  }

  lemma {:induction false} FourIsNotReached(p: seq<nat>, k: nat)
    requires IsPath(TwoBlockRegion().terminator, p) && p[0] == 0 && k < |p|
    ensures forall i :: 0 <= i <= k ==> p[i] < 4
  {
    if k > 0 {
      FourIsNotReached(p, k - 1);
      assert Edge(TwoBlockRegion().terminator, p[k - 1], p[k]);
    }
  }

  /** An accepted definition that need not hold: an instruction of guard 0 reaches 2
      by the query, and control gets to 2 through the handler without it. */
  lemma RejoiningHandlerLosesValue()
    ensures var eh := RejoiningHandler();
      var d := DefSite(0, Some(0));
      IsView(eh) && Reachable(eh.Graph(), 2) && DefinitionReaches(eh, d, 2) && !Guaranteed(eh, d, 2)
  {
    RejoiningHandlerIsView();
    RejoiningPaths();
    var eh := RejoiningHandler();
    hide IsView, Joins, Edge;
    EntryDominates(eh.Graph(), 2);
    GuaranteedIsExact(eh, DefSite(0, Some(0)), 2);
  }

  lemma RejoiningPaths()
    ensures var eh := RejoiningHandler();
      && Joins(eh.terminator, 0, 2, [0, 1, 2]) && Joins(eh.Graph(), 0, 2, [0, 3, 2]) && Joins(eh.Graph(), 3, 2, [3, 2])
      && Edge(eh.Graph(), 0, 3) && !Edge(eh.terminator, 0, 3)
  {
    var g := RejoiningHandler().Graph();
    assert g[0] == [1, 3] && g[1] == [2] && g[3] == [2];
  }
}
