/** What the versions of Memory SSA mean: which version crosses which edge, and
    what a version stands for on an execution path.
  */
module MemoryVersions {
  import opened Graph
  import opened MemorySsa
  import Closure

  // ----- per-block facts

  function LiveIn(t: DomTree, v: View, b: nat, l: Loc): nat
    requires l < |v.seeds| && b < |t.idom|
  {
    Live(t, v.seeds, v.exit, b, l)
  }

  /** The handler entry `b` replaces the version of `l` that reaches it. */
  ghost predicate Killed(f: Function, t: DomTree, v: View, b: nat, l: Loc)
    requires l < |v.seeds| && b < |t.idom|
  {
    && b in f.roots
    && (l, LiveIn(t, v, b, l)) in v.definitions
    && Interrupted(f.roots[b], v.definitions[(l, LiveIn(t, v, b, l))])
  }

  /** Renaming `b` pushes a version of `l`. */
  ghost predicate Pushes(f: Function, t: DomTree, v: View, b: nat, l: Loc)
    requires l < |v.seeds| && b < |t.idom|
  {
    Killed(f, t, v, b, l) || HasPhi(v.phis, b, l) || f.DefinesIn(b, l)
  }

  lemma Sizes(f: Function, t: DomTree, rows: Closure.Rows, v: View)
    requires IsMemorySsa(f, t, rows, v)
    ensures |v.seeds| == f.locations && |t.idom| == |f.graph| == |f.blocks| == |rows|
  {
  }

  lemma At(f: Function, t: DomTree, rows: Closure.Rows, v: View, b: nat, l: Loc)
    requires IsMemorySsa(f, t, rows, v) && Reachable(f.graph, b) && l < f.locations
    ensures b < |f.graph| == |t.idom| == |f.blocks| && |v.seeds| == f.locations
    ensures LocationRenamed(f, v.phis, v.definitions, v.entry, v.exit, b, l, LiveIn(t, v, b, l))
    ensures (l, v.seeds[l]) in v.definitions && v.definitions[(l, v.seeds[l])] == Entry
  {
    ReachesInRange(f.graph, 0, b);
    Sizes(f, t, rows, v);
    hide Reachable, IsIdom, LocationRenamed, OperandsFilled, PhisPlaced;
  }

  lemma IdomOf(f: Function, t: DomTree, rows: Closure.Rows, v: View, b: nat)
    requires IsMemorySsa(f, t, rows, v) && Reachable(f.graph, b) && b != 0
    ensures b < |t.idom| == |f.graph| && t.idom[b] < |f.graph| && IsIdom(f.graph, t.idom[b], b)
    ensures Reachable(f.graph, t.idom[b])
  {
    ReachesInRange(f.graph, 0, b);
    hide Renamed, PhisPlaced;
    IdomReachable(f.graph, t.idom[b], b);
  }

  /** The block a version was made in. */
  predicate MadeAt(site: DefSite, b: nat) {
    match site
    case Store(c, _) => b == c
    case Phi(c) => b == c
    case ExceptionEntry(c) => b == c
    case Entry => false
  }

  /** A block that pushes leaves a version made there; one that does not leaves
      what reached it. */
  lemma ExitOfBlock(f: Function, t: DomTree, rows: Closure.Rows, v: View, b: nat, l: Loc)
    requires IsMemorySsa(f, t, rows, v) && Reachable(f.graph, b) && l < f.locations
    ensures b < |t.idom| && |v.seeds| == f.locations
    ensures (l, b) in v.exit && (l, v.exit[(l, b)]) in v.definitions
    ensures if Pushes(f, t, v, b, l) then MadeAt(v.definitions[(l, v.exit[(l, b)])], b)
            else v.exit[(l, b)] == LiveIn(t, v, b, l)
  {
    At(f, t, rows, v, b, l);
    if HasPhi(v.phis, b, l) && !f.DefinesIn(b, l) {
      PhiSite(f, rows, v, b, l, v.exit[(l, b)]);
    }
  }

  lemma PhiSite(f: Function, rows: Closure.Rows, v: View, b: nat, l: Loc, w: nat)
    requires PhisPlaced(f, rows, v.phis, v.definitions) && PhiVersion(v.phis, b, l, w)
    ensures (l, w) in v.definitions && v.definitions[(l, w)] == Phi(b)
  {
  }

  /** The version a block leaves was made by the closest dominator that pushes; it
      is the function-entry version exactly when none does. */
  lemma {:induction false} ExitSite(f: Function, t: DomTree, rows: Closure.Rows, v: View, b: nat, l: Loc, p: seq<nat>)
    returns (n: nat)
    requires IsMemorySsa(f, t, rows, v) && Joins(f.graph, 0, b, p) && l < f.locations
    ensures |t.idom| == |f.graph| && |v.seeds| == f.locations
    ensures (l, b) in v.exit && (l, v.exit[(l, b)]) in v.definitions
    ensures var site := v.definitions[(l, v.exit[(l, b)])];
      if site == Entry then forall x: nat :: x < |f.graph| && Dominates(f.graph, x, b) ==> !Pushes(f, t, v, x, l)
      else n < |f.graph| && Dominates(f.graph, n, b) && Pushes(f, t, v, n, l) && MadeAt(site, n)
           && (l, n) in v.exit && v.exit[(l, n)] == v.exit[(l, b)]
           && forall x: nat :: x < |f.graph| && Dominates(f.graph, x, b) && Pushes(f, t, v, x, l) ==>
                Dominates(f.graph, x, n)
    decreases |p|
  {
    assert Reachable(f.graph, b);
    At(f, t, rows, v, b, l);
    ExitOfBlock(f, t, rows, v, b, l);
    n := b;
    if !Pushes(f, t, v, b, l) {
      if b == 0 {
        forall x: nat | Dominates(f.graph, x, 0)
          ensures x == 0
        {
          EntryHasNoStrictDominator(f.graph, x);
        }
      } else {
        IdomOf(f, t, rows, v, b);
        var d := t.idom[b];
        var q := ShorterPath(f.graph, d, b, p);
        n := ExitSite(f, t, rows, v, d, l, q);
        hide IsMemorySsa, Pushes;
        DominatorsStepUp(f.graph, d, b);
      }
    }
  }

  lemma ShorterPath(g: Cfg, d: nat, b: nat, p: seq<nat>) returns (q: seq<nat>)
    requires Joins(g, 0, b, p) && StrictlyDominates(g, d, b)
    ensures Joins(g, 0, d, q) && |q| < |p|
  {
    assert d in p;
    var k :| 0 <= k < |p| && p[k] == d;
    Prefix(g, 0, b, p, k);
    q := p[..k + 1];
  }

  /** The strict dominators of a block are the dominators of its immediate one. */
  lemma DominatorsStepUp(g: Cfg, d: nat, b: nat)
    requires IsIdom(g, d, b)
    ensures forall x :: Dominates(g, x, b) <==> x == b || Dominates(g, x, d)
  {
    forall x
      ensures Dominates(g, x, b) <==> x == b || Dominates(g, x, d)
    {
      if Dominates(g, x, d) {
        DominatesTransitive(g, x, d, b);
      }
    }
  }

  /** Between a block and a dominator with no push strictly below the dominator,
      the version does not change. */
  lemma {:induction false} QuietChain(f: Function, t: DomTree, rows: Closure.Rows, v: View, d: nat, b: nat, l: Loc,
                                      p: seq<nat>)
    requires IsMemorySsa(f, t, rows, v) && Joins(f.graph, 0, b, p) && l < f.locations && Dominates(f.graph, d, b)
    requires |t.idom| == |f.graph| && |v.seeds| == f.locations
    requires forall x: nat :: x < |f.graph| && Dominates(f.graph, x, b) && StrictlyDominates(f.graph, d, x) ==>
               !Pushes(f, t, v, x, l)
    ensures (l, b) in v.exit && (l, d) in v.exit && v.exit[(l, b)] == v.exit[(l, d)]
    decreases |p|
  {
    assert Reachable(f.graph, b);
    At(f, t, rows, v, b, l);
    ExitOfBlock(f, t, rows, v, b, l);
    if b != d {
      if b == 0 {
        EntryHasNoStrictDominator(f.graph, d);
      } else {
        IdomOf(f, t, rows, v, b);
        var i := t.idom[b];
        assert !Pushes(f, t, v, b, l);
        var q := ShorterPath(f.graph, i, b, p);
        hide Pushes;
        forall x: nat | x < |f.graph| && Dominates(f.graph, x, i) && StrictlyDominates(f.graph, d, x)
          ensures !Pushes(f, t, v, x, l)
        {
          DominatesTransitive(f.graph, x, i, b);
        }
        QuietChain(f, t, rows, v, d, i, l, q);
      }
    }
  }

  // ----- what renaming does to a block, read off the function

  /** `s` is closed under the frontiers of its members and of the definition blocks. */
  ghost predicate FrontierClosed(f: Function, l: Loc, s: set<nat>) {
    forall x: nat, c: nat :: x < |f.graph| && (f.DefinesIn(x, l) || x in s) && InFrontier(f.graph, x, c) ==> c in s
  }

  /** `b` is in the iterated frontier of the blocks that define `l`. */
  ghost predicate Merges(f: Function, b: nat, l: Loc) {
    forall s: set<nat> :: FrontierClosed(f, l, s) ==> b in s
  }

  predicate InRegion(region: Region, b: nat) {
    region.Unbounded? || region.lo <= b < region.hi
  }

  ghost function Doms(g: Cfg, b: nat): set<nat> {
    set x | 0 <= x < |g| && Dominates(g, x, b)
  }

  /** `b` is a handler entry, and of its strict dominators that disturb `l` the
      nearest one defines or merges it, not merely replaces it, inside the protected
      region. */
  ghost predicate Kills(f: Function, b: nat, l: Loc)
    decreases |Doms(f.graph, b)|
  {
    && b < |f.graph| && b in f.roots
    && exists n: nat ::
         && n < |f.graph| && StrictlyDominates(f.graph, n, b) && InRegion(f.roots[b], n)
         && (f.DefinesIn(n, l) || Merges(f, n, l))
         && forall x: nat :: StrictlyBetween(f.graph, n, x, b) ==>
              !f.DefinesIn(x, l) && !Merges(f, x, l) && (DomsShrink(f.graph, x, b); !Kills(f, x, l))
  }

  ghost predicate StrictlyBetween(g: Cfg, n: nat, x: nat, b: nat) {
    x < |g| && b < |g| && StrictlyDominates(g, n, x) && StrictlyDominates(g, x, b)
  }

  /** Renaming `b` gives `l` a new version, by a definition, a phi or a handler. */
  ghost predicate Disturbs(f: Function, b: nat, l: Loc) {
    f.DefinesIn(b, l) || Merges(f, b, l) || Kills(f, b, l)
  }

  lemma DomsShrink(g: Cfg, x: nat, b: nat)
    requires x < |g| && b < |g| && StrictlyDominates(g, x, b)
    ensures |Doms(g, x)| < |Doms(g, b)|
  {
    var s, t := Doms(g, x), Doms(g, b);
    forall y | y in s
      ensures y in t
    {
      DominatesTransitive(g, y, x, b);
    }
    if b in s {
      DominatesAntisymmetric(g, b, x);
    }
    assert t == s + (t - s) && b in t - s;
  }

  lemma MergesIsPhi(f: Function, t: DomTree, rows: Closure.Rows, v: View, b: nat, l: Loc)
    requires IsMemorySsa(f, t, rows, v) && l < f.locations
    ensures Merges(f, b, l) <==> HasPhi(v.phis, b, l)
  {
    var x := PhiBlocks(v.phis, l);
    assert PhisAtFrontier(f, rows, v.phis, l);
    hide Renamed, IsDomTree, InFrontier;
    forall s: set<nat>
      ensures FrontierClosed(f, l, s) <==> Closure.ClosedFrom(rows, f.DefBlocks(l), s)
    {
      ClosedBothWays(f, rows, l, s);
    }
    assert b in x <==> HasPhi(v.phis, b, l);
  }

  lemma ClosedBothWays(f: Function, rows: Closure.Rows, l: Loc, s: set<nat>)
    requires AreFrontiers(f.graph, rows) && |f.blocks| == |f.graph|
    ensures FrontierClosed(f, l, s) <==> Closure.ClosedFrom(rows, f.DefBlocks(l), s)
  {
    hide InFrontier;
    if FrontierClosed(f, l, s) {
      forall x | x in f.DefBlocks(l) || x in s
        ensures Closure.Row(rows, x) <= s
      {
      }
    }
    if Closure.ClosedFrom(rows, f.DefBlocks(l), s) {
      forall x: nat, c: nat | x < |f.graph| && (f.DefinesIn(x, l) || x in s) && InFrontier(f.graph, x, c)
        ensures c in s
      {
        assert x in f.DefBlocks(l) || x in s;
        assert c in Closure.Row(rows, x);
      }
    }
  }

  /** What the version a pushing block leaves was made by. */
  lemma ExitKind(f: Function, t: DomTree, rows: Closure.Rows, v: View, n: nat, l: Loc)
    requires IsMemorySsa(f, t, rows, v) && Reachable(f.graph, n) && l < f.locations
    ensures n < |t.idom| && |v.seeds| == f.locations && (l, n) in v.exit && (l, v.exit[(l, n)]) in v.definitions
    ensures Pushes(f, t, v, n, l) ==>
              var site := v.definitions[(l, v.exit[(l, n)])];
              && MadeAt(site, n)
              && (site.Store? || site.Phi? <==> f.DefinesIn(n, l) || HasPhi(v.phis, n, l))
  {
    At(f, t, rows, v, n, l);
    if HasPhi(v.phis, n, l) && !f.DefinesIn(n, l) {
      PhiSite(f, rows, v, n, l, v.exit[(l, n)]);
    }
  }

  /** Handler kills are determined by the function: the renaming replaces a version
      at `b` exactly when `Kills` says so. */
  lemma {:induction false} KilledIsKills(f: Function, t: DomTree, rows: Closure.Rows, v: View, b: nat, l: Loc)
    requires IsMemorySsa(f, t, rows, v) && Reachable(f.graph, b) && l < f.locations
    ensures b < |t.idom| == |f.graph| && |v.seeds| == f.locations
    ensures Killed(f, t, v, b, l) <==> Kills(f, b, l)
    decreases |Doms(f.graph, b)|
  {
    At(f, t, rows, v, b, l);
    if b == 0 {
      forall n | StrictlyDominates(f.graph, n, 0)
        ensures false
      {
        EntryHasNoStrictDominator(f.graph, n);
      }
    } else {
      IdomOf(f, t, rows, v, b);
      var d := t.idom[b];
      var q :| Joins(f.graph, 0, d, q);
      var n := ExitSite(f, t, rows, v, d, l, q);
      ExitOfBlock(f, t, rows, v, d, l);
      DominatorsStepUp(f.graph, d, b);
      forall x: nat | x < |f.graph| && StrictlyDominates(f.graph, x, b)
        ensures Pushes(f, t, v, x, l) <==> Disturbs(f, x, l)
      {
        DomsShrink(f.graph, x, b);
        DominatorReachable(f.graph, x, b);
        KilledIsKills(f, t, rows, v, x, l);
        MergesIsPhi(f, t, rows, v, x, l);
      }
      KilledAtNearest(f, t, rows, v, b, d, n, l);
    }
  }

  lemma KilledAtNearest(f: Function, t: DomTree, rows: Closure.Rows, v: View, b: nat, d: nat, n: nat, l: Loc)
    requires IsMemorySsa(f, t, rows, v) && Reachable(f.graph, b) && l < f.locations && b != 0
    requires b < |t.idom| == |f.graph| && |v.seeds| == f.locations && d == t.idom[b] && IsIdom(f.graph, d, b)
    requires forall x: nat :: x < |f.graph| && StrictlyDominates(f.graph, x, b) ==>
               (Pushes(f, t, v, x, l) <==> Disturbs(f, x, l))
    requires (l, d) in v.exit && (l, v.exit[(l, d)]) in v.definitions
    requires var site := v.definitions[(l, v.exit[(l, d)])];
      if site == Entry then forall x: nat :: x < |f.graph| && Dominates(f.graph, x, d) ==> !Pushes(f, t, v, x, l)
      else n < |f.graph| && Dominates(f.graph, n, d) && Pushes(f, t, v, n, l) && MadeAt(site, n)
           && (l, n) in v.exit && v.exit[(l, n)] == v.exit[(l, d)]
           && forall x: nat :: x < |f.graph| && Dominates(f.graph, x, d) && Pushes(f, t, v, x, l) ==>
                Dominates(f.graph, x, n)
    ensures Killed(f, t, v, b, l) <==> Kills(f, b, l)
  {
    var g, site := f.graph, v.definitions[(l, v.exit[(l, d)])];
    DominatorsStepUp(g, d, b);
    assert LiveIn(t, v, b, l) == v.exit[(l, d)];
    if Killed(f, t, v, b, l) {
      DominatorBelow(g, n, d, b);
      DominatorReachable(g, n, b);
      ExitKind(f, t, rows, v, n, l);
      MergesIsPhi(f, t, rows, v, n, l);
      forall x: nat | StrictlyBetween(g, n, x, b)
        ensures !Disturbs(f, x, l)
      {
        if Disturbs(f, x, l) {
          DominatesAntisymmetric(g, n, x);
        }
      }
    }
    if Kills(f, b, l) {
      var m: nat :| && m < |g| && StrictlyDominates(g, m, b) && InRegion(f.roots[b], m)
                    && (f.DefinesIn(m, l) || Merges(f, m, l))
                    && forall x: nat :: StrictlyBetween(g, m, x, b) ==> !Disturbs(f, x, l);
      assert Pushes(f, t, v, m, l) && Dominates(g, m, d);
      DominatorBelow(g, n, d, b);
      if m != n {
        assert StrictlyBetween(g, m, n, b);
      }
      DominatorReachable(g, n, b);
      ExitKind(f, t, rows, v, n, l);
      MergesIsPhi(f, t, rows, v, n, l);
    }
  }

  /** Renaming `b` pushes a version of `l` exactly when the function says so. */
  lemma PushesIsDisturbs(f: Function, t: DomTree, rows: Closure.Rows, v: View, b: nat, l: Loc)
    requires IsMemorySsa(f, t, rows, v) && Reachable(f.graph, b) && l < f.locations
    ensures b < |t.idom| && |v.seeds| == f.locations
    ensures Pushes(f, t, v, b, l) <==> Disturbs(f, b, l)
  {
    KilledIsKills(f, t, rows, v, b, l);
    MergesIsPhi(f, t, rows, v, b, l);
  }

  // ----- edges

  /** The blocks whose pushes an edge `p -> b` carries: the dominators of `p` that
      do not strictly dominate `b`. */
  ghost predicate OnEdge(g: Cfg, p: nat, b: nat, x: nat) {
    x < |g| && Dominates(g, x, p) && !StrictlyDominates(g, x, b)
  }

  /** Nothing the edge `p -> b` carries disturbs `l`. */
  ghost predicate Undisturbed(f: Function, p: nat, b: nat, l: Loc) {
    forall x: nat :: OnEdge(f.graph, p, b, x) ==> !Disturbs(f, x, l)
  }

  ghost predicate QuietEdge(f: Function, t: DomTree, v: View, p: nat, b: nat, l: Loc)
    requires l < |v.seeds| && |t.idom| == |f.graph|
  {
    forall x: nat :: OnEdge(f.graph, p, b, x) ==> !Pushes(f, t, v, x, l)
  }

  lemma QuietIsUndisturbed(f: Function, t: DomTree, rows: Closure.Rows, v: View, p: nat, b: nat, l: Loc)
    requires IsMemorySsa(f, t, rows, v) && Reachable(f.graph, p) && l < f.locations
    requires |t.idom| == |f.graph| && |v.seeds| == f.locations
    ensures QuietEdge(f, t, v, p, b, l) <==> Undisturbed(f, p, b, l)
  {
    forall x: nat | OnEdge(f.graph, p, b, x)
      ensures Pushes(f, t, v, x, l) <==> Disturbs(f, x, l)
    {
      if x != p {
        DominatorReachable(f.graph, x, p);
      }
      PushesIsDisturbs(f, t, rows, v, x, l);
    }
  }

  /** The block's phi for `l` has an operand for the predecessor. */
  ghost predicate PhiReceives(v: View, p: nat, b: nat, l: Loc) {
    exists i :: 0 <= i < |PhisAt(v.phis, b)| && PhisAt(v.phis, b)[i].location == l
      && (l, p) in v.exit && PhiOperand(p, v.exit[(l, p)]) in PhisAt(v.phis, b)[i].operands
  }

  lemma PhiHasOperand(f: Function, t: DomTree, rows: Closure.Rows, v: View, p: nat, b: nat, l: Loc)
    requires IsMemorySsa(f, t, rows, v) && Reachable(f.graph, p) && Edge(f.graph, p, b) && HasPhi(v.phis, b, l)
    ensures PhiReceives(v, p, b, l)
  {
  }

  lemma {:induction false} CountIsMultiset(operands: seq<PhiOperand>, p: nat, version: nat)
    requires forall k :: 0 <= k < |operands| && operands[k].predecessor == p ==> operands[k].version == version
    ensures multiset(operands)[PhiOperand(p, version)] == CountFrom(operands, p)
  {
    if operands != [] {
      var front, last := operands[..|operands| - 1], operands[|operands| - 1];
      CountIsMultiset(front, p, version);
      assert operands == front + [last];
    }
  }

  /** A phi's operands are, with multiplicity, one for each edge from a reachable block,
      carrying the version that block leaves. */
  lemma PhiOperandsAreEdges(f: Function, t: DomTree, rows: Closure.Rows, v: View, b: nat, i: nat, p: nat, version: nat)
    requires IsMemorySsa(f, t, rows, v) && i < |PhisAt(v.phis, b)|
    ensures var phi := PhisAt(v.phis, b)[i];
      multiset(phi.operands)[PhiOperand(p, version)] ==
      if Reachable(f.graph, p) && p < |f.graph| && (phi.location, p) in v.exit && v.exit[(phi.location, p)] == version
      then multiset(f.graph[p])[b] else 0
  {
    var phi := PhisAt(v.phis, b)[i];
    OperandFacts(f, t, rows, v, b, i, p);
    hide IsMemorySsa, CountFrom, Reachable, LocationRenamed;
    if Reachable(f.graph, p) {
      At(f, t, rows, v, p, phi.location);
      ExitOfBlock(f, t, rows, v, p, phi.location);
      CountIsMultiset(phi.operands, p, v.exit[(phi.location, p)]);
    }
  }

  lemma OperandFacts(f: Function, t: DomTree, rows: Closure.Rows, v: View, b: nat, i: nat, p: nat)
    requires IsMemorySsa(f, t, rows, v) && i < |PhisAt(v.phis, b)|
    ensures var phi := PhisAt(v.phis, b)[i];
      && phi.location < f.locations
      && CountFrom(phi.operands, p) == (if Reachable(f.graph, p) then EdgeCount(f.graph, p, b) else 0)
      && forall k :: 0 <= k < |phi.operands| ==> OperandOf(f, v, b, phi.location, phi.operands[k])
  {
    hide Renamed, IsDomTree, Reachable;
    PhiLocation(f, rows, v, b, i);
  }

  lemma PhiLocation(f: Function, rows: Closure.Rows, v: View, b: nat, i: nat)
    requires PhisPlaced(f, rows, v.phis, v.definitions) && i < |PhisAt(v.phis, b)|
    ensures PhisAt(v.phis, b)[i].location < f.locations
  {
  }

  /** A block where `l` is defined or merged and whose frontier holds `b` puts a phi
      for `l` at `b`. */
  lemma FrontierGetsPhi(f: Function, t: DomTree, rows: Closure.Rows, v: View, x: nat, b: nat, l: Loc)
    requires IsMemorySsa(f, t, rows, v) && l < f.locations && x < |f.graph| && InFrontier(f.graph, x, b)
    requires f.DefinesIn(x, l) || HasPhi(v.phis, x, l)
    ensures HasPhi(v.phis, b, l)
  {
    hide Renamed, IsDomTree, InFrontier;
    assert PhisAtFrontier(f, rows, v.phis, l);
    assert x in f.DefBlocks(l) || x in PhiBlocks(v.phis, l);
    assert b in Closure.Row(rows, x);
  }

  /** The version crossing an edge, read off the function alone.  A block has a phi
      for `l` exactly in the iterated frontier, and then takes the version the
      predecessor leaves as an operand.  The version the predecessor leaves is the one
      the block is entered with exactly when nothing the edge carries disturbs `l`; at
      a handler that replaces the version, exactly when the edge comes from below the
      handler and nothing in between, the handler's own phi and operations included,
      disturbs it. */
  lemma EdgeVersions(f: Function, t: DomTree, rows: Closure.Rows, v: View, p: nat, b: nat, l: Loc)
    requires IsMemorySsa(f, t, rows, v) && Reachable(f.graph, p) && Edge(f.graph, p, b) && l < f.locations
    ensures (l, p) in v.exit && (l, b) in v.entry
    ensures HasPhi(v.phis, b, l) <==> Merges(f, b, l)
    ensures Merges(f, b, l) ==> PhiReceives(v, p, b, l)
    ensures v.exit[(l, p)] == v.entry[(l, b)] <==>
            if Kills(f, b, l) then KillReturns(f, p, b, l) else Undisturbed(f, p, b, l)
  {
    ReachesStep(f.graph, 0, p, b);
    At(f, t, rows, v, p, l);
    At(f, t, rows, v, b, l);
    MergesIsPhi(f, t, rows, v, b, l);
    KilledIsKills(f, t, rows, v, b, l);
    if HasPhi(v.phis, b, l) {
      PhiHasOperand(f, t, rows, v, p, b, l);
    }
    if Kills(f, b, l) {
      KilledEntry(f, t, rows, v, p, b, l);
    } else {
      assert v.entry[(l, b)] == LiveIn(t, v, b, l);
      QuietIsUndisturbed(f, t, rows, v, p, b, l);
      if QuietEdge(f, t, v, p, b, l) {
        QuietEdgeKeeps(f, t, rows, v, p, b, l);
      } else {
        LoudEdgeChanges(f, t, rows, v, p, b, l);
      }
    }
  }

  /** What the handler entry `b` made comes back to it over the edge from `p`. */
  ghost predicate KillReturns(f: Function, p: nat, b: nat, l: Loc) {
    && Dominates(f.graph, b, p) && !f.DefinesIn(b, l) && !Merges(f, b, l)
    && forall x: nat :: x < |f.graph| && StrictlyDominates(f.graph, b, x) && Dominates(f.graph, x, p) ==>
         !Disturbs(f, x, l)
  }

  lemma QuietEdgeKeeps(f: Function, t: DomTree, rows: Closure.Rows, v: View, p: nat, b: nat, l: Loc)
    requires IsMemorySsa(f, t, rows, v) && Reachable(f.graph, p) && Edge(f.graph, p, b) && l < f.locations
    requires b < |t.idom| == |f.graph| && |v.seeds| == f.locations && QuietEdge(f, t, v, p, b, l)
    ensures (l, p) in v.exit && v.exit[(l, p)] == LiveIn(t, v, b, l)
  {
    var q :| Joins(f.graph, 0, p, q);
    ReachesStep(f.graph, 0, p, b);
    if b == 0 {
      var n := ExitSite(f, t, rows, v, p, l, q);
      hide Pushes;
      EntryDominates(f.graph, p);
      forall x: nat | x < |f.graph| && Dominates(f.graph, x, p)
        ensures !Pushes(f, t, v, x, l)
      {
        EntryHasNoStrictDominator(f.graph, x);
        assert OnEdge(f.graph, p, b, x);
      }
      QuietChain(f, t, rows, v, 0, p, l, q);
      EntryReachable(f.graph);
      ExitOfBlock(f, t, rows, v, 0, l);
    } else {
      IdomOf(f, t, rows, v, b);
      var d := t.idom[b];
      DominatesPredecessor(f.graph, d, p, b);
      hide Pushes;
      forall x: nat | x < |f.graph| && Dominates(f.graph, x, p) && StrictlyDominates(f.graph, d, x)
        ensures !Pushes(f, t, v, x, l)
      {
        if StrictlyDominates(f.graph, x, b) {
          DominatesAntisymmetric(f.graph, x, d);
        }
        assert OnEdge(f.graph, p, b, x);
      }
      QuietChain(f, t, rows, v, d, p, l, q);
    }
  }

  lemma LoudEdgeChanges(f: Function, t: DomTree, rows: Closure.Rows, v: View, p: nat, b: nat, l: Loc)
    requires IsMemorySsa(f, t, rows, v) && Reachable(f.graph, p) && Edge(f.graph, p, b) && l < f.locations
    requires b < |t.idom| == |f.graph| && |v.seeds| == f.locations && !QuietEdge(f, t, v, p, b, l)
    ensures (l, p) in v.exit && v.exit[(l, p)] != LiveIn(t, v, b, l)
  {
    var q :| Joins(f.graph, 0, p, q);
    ReachesStep(f.graph, 0, p, b);
    var x: nat :| OnEdge(f.graph, p, b, x) && Pushes(f, t, v, x, l);
    var n := ExitSite(f, t, rows, v, p, l, q);
    NearestPushOnEdge(f.graph, p, b, x, n);
    if b == 0 {
      At(f, t, rows, v, 0, l);
    } else {
      IdomOf(f, t, rows, v, b);
      var d := t.idom[b];
      var r :| Joins(f.graph, 0, d, r);
      var m := ExitSite(f, t, rows, v, d, l, r);
      hide Pushes;
      if Dominates(f.graph, n, d) {
        DominatorBelow(f.graph, n, d, b);
      }
    }
  }

  /** A dominator of the immediate dominator strictly dominates the block. */
  lemma DominatorBelow(g: Cfg, n: nat, d: nat, b: nat)
    requires Dominates(g, n, d) && StrictlyDominates(g, d, b)
    ensures StrictlyDominates(g, n, b)
  {
    DominatesTransitive(g, n, d, b);
    StrictDominatorComesFirst(g, d, b);
  }

  lemma NearestPushOnEdge(g: Cfg, p: nat, b: nat, x: nat, n: nat)
    requires OnEdge(g, p, b, x) && Dominates(g, x, n) && Dominates(g, n, p) && n < |g|
    ensures OnEdge(g, p, b, n)
  {
    if StrictlyDominates(g, n, b) {
      DominatorBelow(g, x, n, b);
    }
  }

  // ----- functions without exceptional entries

  lemma NoRootsNoKills(f: Function, t: DomTree, v: View, b: nat, l: Loc)
    requires f.roots == map[] && l < |v.seeds| && b < |t.idom|
    ensures !Killed(f, t, v, b, l) && !Kills(f, b, l)
  {
  }

  /** Without handlers, every edge hands the version it carries to its target: as a
      phi operand, or as the version the target is entered with.  The one edge this
      leaves out is a back edge to the entry block that is its only incoming edge. */
  lemma EveryEdgeAgrees(f: Function, t: DomTree, rows: Closure.Rows, v: View, p: nat, b: nat, l: Loc)
    requires IsMemorySsa(f, t, rows, v) && Reachable(f.graph, p) && Edge(f.graph, p, b) && l < f.locations
    requires f.roots == map[]
    requires b != 0 || IsJoin(f.graph, 0)
    ensures (l, p) in v.exit && (l, b) in v.entry
    ensures if HasPhi(v.phis, b, l) then PhiReceives(v, p, b, l) else v.exit[(l, p)] == v.entry[(l, b)]
  {
    EdgeVersions(f, t, rows, v, p, b, l);
    Sizes(f, t, rows, v);
    ReachesStep(f.graph, 0, p, b);
    At(f, t, rows, v, b, l);
    NoRootsNoKills(f, t, v, b, l);
    if !HasPhi(v.phis, b, l) {
      forall x: nat | OnEdge(f.graph, p, b, x)
        ensures !Disturbs(f, x, l)
      {
        NoRootsNoKills(f, t, v, x, l);
        MergesIsPhi(f, t, rows, v, x, l);
        if IsJoin(f.graph, b) {
          assert InFrontier(f.graph, x, b);
          if f.DefinesIn(x, l) || HasPhi(v.phis, x, l) {
            FrontierGetsPhi(f, t, rows, v, x, b, l);
          }
        } else {
          SoleEdgeDominance(f.graph, x, p, b);
        }
      }
    }
  }

  /** Along a path with no phi and no clobbering operation for `l` after its first
      block, the version is the one the first block left; when that block clobbers
      `l`, the version names its last clobbering operation. */
  lemma {:induction false} PhiFreePath(f: Function, t: DomTree, rows: Closure.Rows, v: View, p: seq<nat>, l: Loc)
    requires IsMemorySsa(f, t, rows, v) && f.roots == map[] && l < f.locations
    requires IsPath(f.graph, p) && Reachable(f.graph, p[0])
    requires forall k :: 1 <= k < |p| ==>
               (p[k] != 0 || IsJoin(f.graph, 0)) && !HasPhi(v.phis, p[k], l) && !f.DefinesIn(p[k], l)
    ensures (l, p[0]) in v.exit && (l, p[|p| - 1]) in v.exit && v.exit[(l, p[|p| - 1])] == v.exit[(l, p[0])]
    ensures f.DefinesIn(p[0], l) ==>
              && (l, v.exit[(l, p[0])]) in v.definitions
              && v.definitions[(l, v.exit[(l, p[0])])] == Store(p[0], f.LastClobber(f.blocks[p[0]], l))
    decreases |p|
  {
    At(f, t, rows, v, p[0], l);
    if |p| > 1 {
      var n := |p| - 1;
      PhiFreePath(f, t, rows, v, p[..n], l);
      PathReachable(f.graph, p, n - 1);
      PathReachable(f.graph, p, n);
      EveryEdgeAgrees(f, t, rows, v, p[n - 1], p[n], l);
      At(f, t, rows, v, p[n], l);
    }
  }

  lemma {:induction false} PathReachable(g: Cfg, p: seq<nat>, k: nat)
    requires IsPath(g, p) && Reachable(g, p[0]) && k < |p|
    ensures Reachable(g, p[k])
    decreases k
  {
    if k > 0 {
      PathReachable(g, p, k - 1);
      ReachesStep(g, 0, p[k - 1], p[k]);
    }
  }

  // ----- execution

  /** The state of a memory location on a path: as on function entry, or as the
      operation at `instr` of the path's block number `step` left it. */
  datatype Event = Initial | Made(step: nat, instr: int)

  type Memory = map<(Loc, nat), Event>

  /** The last operation of the path's first `k + 1` blocks that clobbers `l`. */
  function LastEvent(f: Function, p: seq<nat>, k: nat, l: Loc): Event
    requires k < |p|
  {
    if f.DefinesIn(p[k], l) then Made(k, f.LastClobber(f.blocks[p[k]], l))
    else if k == 0 then Initial
    else LastEvent(f, p, k - 1, l)
  }

  /** The first operand a phi has for a predecessor. */
  function OperandFrom(operands: seq<PhiOperand>, pred: nat): (r: int)
    ensures -1 <= r < |operands|
    ensures r >= 0 ==> operands[r].predecessor == pred
    ensures r < 0 ==> forall k :: 0 <= k < |operands| ==> operands[k].predecessor != pred
  {
    if operands == [] then -1
    else if operands[0].predecessor == pred then 0
    else var r := OperandFrom(operands[1..], pred); if r < 0 then -1 else r + 1
  }

  function PhiIndex(phis: seq<MemoryPhi>, l: Loc, w: nat): (r: int)
    ensures -1 <= r < |phis|
    ensures r >= 0 ==> phis[r].location == l && phis[r].version == w
    ensures r < 0 ==> forall k :: 0 <= k < |phis| ==> phis[k].location != l || phis[k].version != w
  {
    if phis == [] then -1
    else if phis[0].location == l && phis[0].version == w then 0
    else var r := PhiIndex(phis[1..], l, w); if r < 0 then -1 else r + 1
  }

  /** A phi of `b` reads the operand for the predecessor control came from. */
  function PhiValue(v: View, m: Memory, pred: nat, b: nat, key: (Loc, nat)): Event
    requires key in m
  {
    var i := PhiIndex(PhisAt(v.phis, b), key.0, key.1);
    if i < 0 then m[key]
    else
      var operands := PhisAt(v.phis, b)[i].operands;
      var o := OperandFrom(operands, pred);
      if o < 0 || (key.0, operands[o].version) !in m then m[key] else m[(key.0, operands[o].version)]
  }

  /** Executing the path's block number `step`, `b`, entered from `pred`: its phis
      read their operands, its defining operations store their own event. */
  function After(v: View, m: Memory, step: nat, pred: nat, b: nat): Memory {
    map key | key in m ::
      if key !in v.definitions then m[key]
      else match v.definitions[key]
        case Store(c, i) => if c == b then Made(step, i) else m[key]
        case Phi(c) => if c == b then PhiValue(v, m, pred, b, key) else m[key]
        case _ => m[key]
  }

  /** The memory after a path's first `k + 1` blocks, by version. */
  function Run(v: View, p: seq<nat>, k: nat): Memory
    requires k < |p|
  {
    if k == 0 then
      map key | key in v.definitions ::
        if v.definitions[key].Store? && v.definitions[key].block == p[0] then Made(0, v.definitions[key].instr)
        else Initial
    else After(v, Run(v, p, k - 1), k, p[k - 1], p[k])
  }

  lemma {:induction false} RunKeys(v: View, p: seq<nat>, k: nat)
    requires k < |p|
    ensures Run(v, p, k).Keys == v.definitions.Keys
    decreases k
  {
    if k > 0 {
      RunKeys(v, p, k - 1);
    }
  }

  /** Renaming keeps the meaning of memory: on every execution path of a function
      without handlers, the version of a location at a block's exit holds what the
      last clobbering operation of the path left there. */
  lemma {:induction false} VersionsFollowExecution(f: Function, t: DomTree, rows: Closure.Rows, v: View, p: seq<nat>,
                                                   k: nat, l: Loc)
    requires IsMemorySsa(f, t, rows, v) && f.roots == map[] && l < f.locations
    requires IsPath(f.graph, p) && p[0] == 0 && k < |p|
    requires IsJoin(f.graph, 0) || forall c :: !Edge(f.graph, c, 0)
    ensures (l, p[k]) in v.exit && (l, v.exit[(l, p[k])]) in Run(v, p, k)
    ensures Run(v, p, k)[(l, v.exit[(l, p[k])])] == LastEvent(f, p, k, l)
    decreases k
  {
    hide IsMemorySsa, Reachable, PhiValue, PhiIndex, OperandFrom, HasPhi, PhiVersion, Killed;
    EntryReachable(f.graph);
    PathReachable(f.graph, p, k);
    At(f, t, rows, v, p[k], l);
    ExitOfBlock(f, t, rows, v, p[k], l);
    NoRootsNoKills(f, t, v, p[k], l);
    RunKeys(v, p, k);
    if k == 0 {
      EntryExit(f, t, rows, v, l);
    } else {
      VersionsFollowExecution(f, t, rows, v, p, k - 1, l);
      PathReachable(f.graph, p, k - 1);
      RunKeys(v, p, k - 1);
      if f.DefinesIn(p[k], l) {
      } else if HasPhi(v.phis, p[k], l) {
        PhiStep(f, t, rows, v, Run(v, p, k - 1), p[k - 1], p[k], l);
      } else {
        QuietStep(f, t, rows, v, p[k - 1], p[k], l);
      }
    }
  }

  lemma EntryExit(f: Function, t: DomTree, rows: Closure.Rows, v: View, l: Loc)
    requires IsMemorySsa(f, t, rows, v) && f.roots == map[] && l < f.locations
    ensures (l, 0) in v.exit && (l, v.exit[(l, 0)]) in v.definitions
    ensures var site := v.definitions[(l, v.exit[(l, 0)])];
      if f.DefinesIn(0, l) then site == Store(0, f.LastClobber(f.blocks[0], l)) else !site.Store?
  {
    EntryReachable(f.graph);
    At(f, t, rows, v, 0, l);
    NoRootsNoKills(f, t, v, 0, l);
    if HasPhi(v.phis, 0, l) && !f.DefinesIn(0, l) {
      PhiSite(f, rows, v, 0, l, v.exit[(l, 0)]);
    }
  }

  /** A block with a phi for `l` and no definition of it leaves the phi's version,
      and executing it stores there what the predecessor left. */
  lemma PhiStep(f: Function, t: DomTree, rows: Closure.Rows, v: View, m: Memory, pred: nat, b: nat, l: Loc)
    requires IsMemorySsa(f, t, rows, v) && Reachable(f.graph, pred) && Edge(f.graph, pred, b) && l < f.locations
    requires HasPhi(v.phis, b, l) && !f.DefinesIn(b, l) && m.Keys == v.definitions.Keys
    requires (l, pred) in v.exit && (l, v.exit[(l, pred)]) in m
    ensures (l, b) in v.exit && (l, v.exit[(l, b)]) in m && v.definitions[(l, v.exit[(l, b)])] == Phi(b)
    ensures PhiValue(v, m, pred, b, (l, v.exit[(l, b)])) == m[(l, v.exit[(l, pred)])]
  {
    ReachesStep(f.graph, 0, pred, b);
    At(f, t, rows, v, b, l);
    PhiHasOperand(f, t, rows, v, pred, b, l);
    var w := v.exit[(l, b)];
    PhiSite(f, rows, v, b, l, w);
    var i := PhiIndex(PhisAt(v.phis, b), l, w);
    assert i >= 0 by {
      assert PhiVersion(v.phis, b, l, w);
    }
    SinglePhi(f, rows, v, pred, b, l, i);
    var phi := PhisAt(v.phis, b)[i];
    var o := OperandFrom(phi.operands, pred);
    hide IsMemorySsa, Reachable, LocationRenamed;
    assert o >= 0;
    OperandIs(f, t, rows, v, b, i, o);
  }

  lemma SinglePhi(f: Function, rows: Closure.Rows, v: View, pred: nat, b: nat, l: Loc, i: nat)
    requires PhisPlaced(f, rows, v.phis, v.definitions) && PhiReceives(v, pred, b, l)
    requires i < |PhisAt(v.phis, b)| && PhisAt(v.phis, b)[i].location == l
    ensures (l, pred) in v.exit && PhiOperand(pred, v.exit[(l, pred)]) in PhisAt(v.phis, b)[i].operands
  {
  }

  lemma OperandIs(f: Function, t: DomTree, rows: Closure.Rows, v: View, b: nat, i: nat, o: nat)
    requires IsMemorySsa(f, t, rows, v) && i < |PhisAt(v.phis, b)| && o < |PhisAt(v.phis, b)[i].operands|
    ensures OperandOf(f, v, b, PhisAt(v.phis, b)[i].location, PhisAt(v.phis, b)[i].operands[o])
  {
  }

  /** A block with neither phi nor definition of `l` leaves the predecessor's
      version, which was made elsewhere. */
  lemma QuietStep(f: Function, t: DomTree, rows: Closure.Rows, v: View, pred: nat, b: nat, l: Loc)
    requires IsMemorySsa(f, t, rows, v) && f.roots == map[] && l < f.locations
    requires Reachable(f.graph, pred) && Edge(f.graph, pred, b) && (b != 0 || IsJoin(f.graph, 0))
    requires !HasPhi(v.phis, b, l) && !f.DefinesIn(b, l)
    ensures (l, b) in v.exit && (l, pred) in v.exit && v.exit[(l, b)] == v.exit[(l, pred)]
    ensures (l, v.exit[(l, b)]) in v.definitions && !MadeAt(v.definitions[(l, v.exit[(l, b)])], b)
  {
    ReachesStep(f.graph, 0, pred, b);
    EveryEdgeAgrees(f, t, rows, v, pred, b, l);
    At(f, t, rows, v, b, l);
    NoRootsNoKills(f, t, v, b, l);
    var q :| Joins(f.graph, 0, b, q);
    var n := ExitSite(f, t, rows, v, b, l, q);
  }

  // ----- handlers

  /** The version a handler entry puts in place of an interrupted one is new, and an
      edge brings it back only as `KillReturns` says. */
  lemma KilledEntry(f: Function, t: DomTree, rows: Closure.Rows, v: View, p: nat, b: nat, l: Loc)
    requires IsMemorySsa(f, t, rows, v) && Reachable(f.graph, p) && Edge(f.graph, p, b) && l < f.locations
    requires b < |t.idom| && |v.seeds| == f.locations && Kills(f, b, l)
    ensures (l, b) in v.entry && (l, p) in v.exit && v.entry[(l, b)] != LiveIn(t, v, b, l)
    ensures v.exit[(l, p)] == v.entry[(l, b)] <==> KillReturns(f, p, b, l)
  {
    ReachesStep(f.graph, 0, p, b);
    At(f, t, rows, v, b, l);
    KilledIsKills(f, t, rows, v, b, l);
    MergesIsPhi(f, t, rows, v, b, l);
    var q :| Joins(f.graph, 0, p, q);
    var n := ExitSite(f, t, rows, v, p, l, q);
    forall x: nat | x < |f.graph| && Dominates(f.graph, x, p)
      ensures Pushes(f, t, v, x, l) <==> Disturbs(f, x, l)
    {
      if x != p {
        DominatorReachable(f.graph, x, p);
      }
      PushesIsDisturbs(f, t, rows, v, x, l);
    }
    KillComesBack(f, t, rows, v, p, b, l, n, q);
  }

  lemma KillComesBack(f: Function, t: DomTree, rows: Closure.Rows, v: View, p: nat, b: nat, l: Loc, n: nat, q: seq<nat>)
    requires IsMemorySsa(f, t, rows, v) && l < f.locations && Joins(f.graph, 0, p, q) && Reachable(f.graph, b)
    requires b < |t.idom| == |f.graph| && |v.seeds| == f.locations && (l, b) in v.entry && (l, p) in v.exit
    requires (l, v.entry[(l, b)]) in v.definitions && v.definitions[(l, v.entry[(l, b)])] == ExceptionEntry(b)
    requires Killed(f, t, v, b, l) && (Merges(f, b, l) <==> HasPhi(v.phis, b, l))
    requires (l, v.exit[(l, p)]) in v.definitions
    requires var site := v.definitions[(l, v.exit[(l, p)])];
      site == Entry || (&& n < |f.graph| && Dominates(f.graph, n, p) && MadeAt(site, n)
                        && (l, n) in v.exit && v.exit[(l, n)] == v.exit[(l, p)]
                        && forall x: nat :: x < |f.graph| && Dominates(f.graph, x, p) && Pushes(f, t, v, x, l) ==>
                             Dominates(f.graph, x, n))
    requires forall x: nat :: x < |f.graph| && Dominates(f.graph, x, p) ==>
               (Pushes(f, t, v, x, l) <==> Disturbs(f, x, l))
    ensures v.exit[(l, p)] == v.entry[(l, b)] <==> KillReturns(f, p, b, l)
  {
    var g := f.graph;
    At(f, t, rows, v, b, l);
    ExitKind(f, t, rows, v, b, l);
    hide Disturbs, Killed, Pushes;
    if KillReturns(f, p, b, l) {
      QuietChain(f, t, rows, v, b, p, l, q);
    } else if v.exit[(l, p)] == v.entry[(l, b)] {
      assert n == b;
      var x: nat :| x < |g| && StrictlyDominates(g, b, x) && Dominates(g, x, p) && Disturbs(f, x, l);
      DominatesAntisymmetric(g, b, x);
    }
  }

  /** Block 0 stores to location 0 inside a protected region and reaches block 3
      over block 1; the handler, block 2, reaches block 3 too. */
  function HandlerExample(): Function {
    Function([[1, 2], [3], [3], []], [[Write(0)], [], [], []], 1, {(0, 0)}, map[2 := Blocks(0, 1)])
  }

  lemma NoPhiWithoutFrontier(f: Function, t: DomTree, rows: Closure.Rows, v: View, l: Loc)
    requires IsMemorySsa(f, t, rows, v) && l < f.locations
    requires forall x, b :: x in f.DefBlocks(l) ==> !InFrontier(f.graph, x, b)
    ensures forall b :: !HasPhi(v.phis, b, l)
  {
    hide Renamed, IsDomTree, InFrontier;
    assert PhisAtFrontier(f, rows, v.phis, l);
    assert Closure.ClosedFrom(rows, f.DefBlocks(l), {});
    forall b
      ensures !HasPhi(v.phis, b, l)
    {
      assert b !in PhiBlocks(v.phis, l);
    }
  }

  lemma HandlerGraph(b: nat)
    ensures var g := HandlerExample().graph;
      && Reachable(g, 1) && Reachable(g, 2) && Reachable(g, 3)
      && !InFrontier(g, 0, b)
      && !StrictlyDominates(g, 2, 3) && !StrictlyDominates(g, 1, 2)
      && (StrictlyDominates(g, b, 2) ==> b == 0)
  {
    var g := HandlerExample().graph;
    assert Joins(g, 0, 1, [0, 1]) && Joins(g, 0, 2, [0, 2]);
    assert Joins(g, 0, 3, [0, 1, 3]) && Joins(g, 0, 3, [0, 2, 3]);
    EntryDominates(g, 3);
    if b != 3 {
      assert !IsJoin(g, b);
    }
  }

  /** The version a handler entry makes is merged with the normal path only where the
      location has a phi for another reason.  Here it has none: block 3 is entered
      with the version of the store, as if the handler had never replaced it. */
  lemma HandlerKillIsNotMerged(t: DomTree, rows: Closure.Rows, v: View)
    requires IsMemorySsa(HandlerExample(), t, rows, v)
    ensures !HasPhi(v.phis, 3, 0)
    ensures (0, 2) in v.exit && (0, 1) in v.exit && (0, 3) in v.entry
    ensures (0, v.exit[(0, 2)]) in v.definitions && v.definitions[(0, v.exit[(0, 2)])] == ExceptionEntry(2)
    ensures v.entry[(0, 3)] != v.exit[(0, 2)]
    ensures (0, v.entry[(0, 3)]) in v.definitions && v.definitions[(0, v.entry[(0, 3)])] == Store(0, 0)
  {
    var f := HandlerExample();
    forall b: nat
      ensures !InFrontier(f.graph, 0, b)
    {
      HandlerGraph(b);
    }
    HandlerGraph(0);
    assert f.LastClobber(f.blocks[0], 0) == 0;
    assert forall x :: x in f.DefBlocks(0) ==> x == 0;
    NoPhiWithoutFrontier(f, t, rows, v, 0);
    EntryReachable(f.graph);
    At(f, t, rows, v, 0, 0);
    At(f, t, rows, v, 1, 0);
    At(f, t, rows, v, 2, 0);
    At(f, t, rows, v, 3, 0);
    IdomOf(f, t, rows, v, 2);
    HandlerGraph(t.idom[2]);
    EdgeVersions(f, t, rows, v, 2, 3, 0);
    assert !Killed(f, t, v, 3, 0);
    assert OnEdge(f.graph, 2, 3, 2) && Killed(f, t, v, 2, 0);
    IdomOf(f, t, rows, v, 3);
    HandlerJoin(t.idom[3]);
  }

  lemma HandlerJoin(d: nat)
    requires StrictlyDominates(HandlerExample().graph, d, 3)
    ensures d == 0
  {
    var g := HandlerExample().graph;
    assert Joins(g, 0, 3, [0, 1, 3]) && Joins(g, 0, 3, [0, 2, 3]);
  }

  // ----- the entry block as a loop header

  /** One block that stores to location 0 and jumps to itself. */
  function EntryLoop(): Function {
    Function([[0]], [[Write(0)]], 1, {(0, 0)}, map[])
  }

  /** A back edge that is the entry block's only incoming edge gets no phi, because
      such a block is in no frontier row: its entry version names the state before
      the function, not what the edge brings. */
  lemma EntryLoopHasNoPhi(t: DomTree, rows: Closure.Rows, v: View)
    requires IsMemorySsa(EntryLoop(), t, rows, v)
    ensures !HasPhi(v.phis, 0, 0)
    ensures (0, 0) in v.exit && (0, 0) in v.entry && v.exit[(0, 0)] != v.entry[(0, 0)]
  {
    var f := EntryLoop();
    EntryReachable(f.graph);
    assert forall b :: !IsJoin(f.graph, b);
    NoPhiWithoutFrontier(f, t, rows, v, 0);
    assert f.LastClobber(f.blocks[0], 0) == 0;
    EdgeVersions(f, t, rows, v, 0, 0, 0);
    assert OnEdge(f.graph, 0, 0, 0) && Pushes(f, t, v, 0, 0);
  }
}
