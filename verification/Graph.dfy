/** Directed graphs over block indices, their paths, and dominance.

    A graph is a list of successor lists, one per block, in terminator order and
    with repeated edges kept.  Block 0 is the entry.  Dominance is defined over
    paths; the analyses that the program runs on a dominator tree are proved
    against this definition.
  */
module Graph {

  type Cfg = seq<seq<nat>>

  /** Every successor names a block of the graph. */
  ghost predicate InRange(g: Cfg) {
    forall b, k :: 0 <= b < |g| && 0 <= k < |g[b]| ==> g[b][k] < |g|
  }

  predicate Edge(g: Cfg, a: nat, b: nat) {
    a < |g| && b in g[a]
  }

  ghost predicate IsPath(g: Cfg, p: seq<nat>) {
    && p != []
    && forall i, j :: 0 <= i < j < |p| && j == i + 1 ==> Edge(g, p[i], p[j])
  }

  ghost predicate Joins(g: Cfg, a: nat, b: nat, p: seq<nat>) {
    IsPath(g, p) && p[0] == a && p[|p| - 1] == b
  }

  ghost predicate Reaches(g: Cfg, a: nat, b: nat) {
    exists p :: Joins(g, a, b, p)
  }

  ghost predicate Reachable(g: Cfg, b: nat) {
    Reaches(g, 0, b)
  }

  /** The dominance query: reflexive for every block, even one no path reaches,
      and otherwise true only between blocks the entry reaches. */
  ghost predicate Dominates(g: Cfg, a: nat, b: nat) {
    a == b || (Reachable(g, b) && forall p :: Joins(g, 0, b, p) ==> a in p)
  }

  ghost predicate StrictlyDominates(g: Cfg, a: nat, b: nat) {
    a != b && Dominates(g, a, b)
  }

  /** `d` is the closest strict dominator of the reachable block `b`. */
  ghost predicate IsIdom(g: Cfg, d: nat, b: nat) {
    && Reachable(g, b)
    && StrictlyDominates(g, d, b)
    && forall a :: StrictlyDominates(g, a, b) ==> Dominates(g, a, d)
  }

  /** Two different edges arrive at `b`, possibly from one block. */
  ghost predicate IsJoin(g: Cfg, b: nat) {
    exists a, i, c, j ::
      && 0 <= a < |g| && 0 <= i < |g[a]| && g[a][i] == b
      && 0 <= c < |g| && 0 <= j < |g[c]| && g[c][j] == b
      && (a != c || i != j)
  }

  // ----- paths

  lemma EdgeInRange(g: Cfg, a: nat, b: nat)
    requires InRange(g) && Edge(g, a, b)
    ensures b < |g|
  {
    var k :| 0 <= k < |g[a]| && g[a][k] == b;
  }

  lemma ReachesInRange(g: Cfg, a: nat, b: nat)
    requires InRange(g) && a < |g| && Reaches(g, a, b)
    ensures b < |g|
  {
    var p :| Joins(g, a, b, p);
    if |p| > 1 {
      EdgeInRange(g, p[|p| - 2], p[|p| - 1]);
    }
  }

  lemma EntryReachable(g: Cfg)
    ensures Reachable(g, 0)
  {
    assert Joins(g, 0, 0, [0]);
  }

  lemma Glue(g: Cfg, a: nat, b: nat, c: nat, p: seq<nat>, q: seq<nat>)
    requires Joins(g, a, b, p) && Joins(g, b, c, q)
    ensures Joins(g, a, c, p + q[1..])
  {
    var r := p + q[1..];
    forall i | 0 <= i < |r| - 1
      ensures Edge(g, r[i], r[i + 1])
    {
      if i >= |p| - 1 {
        assert r[i] == q[i - |p| + 1] && r[i + 1] == q[i - |p| + 2];
      }
    }
  }

  lemma Extend(g: Cfg, a: nat, b: nat, c: nat, p: seq<nat>)
    requires Joins(g, a, b, p) && Edge(g, b, c)
    ensures Joins(g, a, c, p + [c])
  {
  }

  lemma Prefix(g: Cfg, a: nat, b: nat, p: seq<nat>, k: nat)
    requires Joins(g, a, b, p) && k < |p|
    ensures Joins(g, a, p[k], p[..k + 1])
  {
  }

  lemma Suffix(g: Cfg, a: nat, b: nat, p: seq<nat>, k: nat)
    requires Joins(g, a, b, p) && k < |p|
    ensures Joins(g, p[k], b, p[k..])
  {
  }

  lemma ReachesStep(g: Cfg, a: nat, b: nat, c: nat)
    requires Reaches(g, a, b) && Edge(g, b, c)
    ensures Reaches(g, a, c)
  {
    var p :| Joins(g, a, b, p);
    Extend(g, a, b, c, p);
  }

  /** A set that holds `a` and is closed under edges holds all that `a` reaches. */
  lemma ClosedSetHoldsReached(g: Cfg, a: nat, b: nat, p: seq<nat>, s: set<nat>)
    requires Joins(g, a, b, p) && a in s
    requires forall x, y :: x in s && Edge(g, x, y) ==> y in s
    ensures b in s
    decreases |p|
  {
    if |p| > 1 {
      Prefix(g, a, b, p, |p| - 2);
      ClosedSetHoldsReached(g, a, p[|p| - 2], p[..|p| - 1], s);
    }
  }

  lemma FirstOccurrence(p: seq<nat>, x: nat) returns (k: nat)
    requires x in p
    ensures k < |p| && p[k] == x && x !in p[..k]
  {
    if p[0] == x {
      k := 0;
    } else {
      var j := FirstOccurrence(p[1..], x);
      k := j + 1;
      assert p[..k] == [p[0]] + p[1..][..j];
    }
  }

  lemma LastOccurrence(p: seq<nat>, x: nat) returns (k: nat)
    requires x in p
    ensures k < |p| && p[k] == x && x !in p[k + 1..]
  {
    var n := |p| - 1;
    if p[n] == x {
      k := n;
    } else {
      assert p == p[..n] + [p[n]];
      k := LastOccurrence(p[..n], x);
      assert p[k + 1..] == p[..n][k + 1..] + [p[n]];
    }
  }

  // ----- dominance

  lemma DominatorReachable(g: Cfg, a: nat, b: nat)
    requires Dominates(g, a, b) && Reachable(g, b)
    ensures Reachable(g, a)
  {
    if a != b {
      var p :| Joins(g, 0, b, p);
      var k :| 0 <= k < |p| && p[k] == a;
      Prefix(g, 0, b, p, k);
    }
  }

  lemma {:induction false} DominatesTransitive(g: Cfg, a: nat, b: nat, c: nat)
    requires Dominates(g, a, b) && Dominates(g, b, c)
    ensures Dominates(g, a, c)
  {
    if a != b && b != c {
      forall p | Joins(g, 0, c, p)
        ensures a in p
      {
        var k :| 0 <= k < |p| && p[k] == b;
        Prefix(g, 0, c, p, k);
        assert a in p[..k + 1];
      }
    }
  }

  /** Up to its first arrival, a path to `b` meets `a` before any path to `a`
      could have met `b`. */
  lemma StrictDominatorComesFirst(g: Cfg, a: nat, b: nat)
    requires StrictlyDominates(g, a, b)
    ensures !Dominates(g, b, a)
  {
    var p :| Joins(g, 0, b, p);
    var k := FirstOccurrence(p, b);
    Prefix(g, 0, b, p, k);
    var q := p[..k + 1];
    assert a in q;
    var j :| 0 <= j < |q| && q[j] == a;
    Prefix(g, 0, b, q, j);
    assert q[..j + 1] == p[..k][..j + 1];
    assert b !in q[..j + 1];
  }

  lemma DominatesAntisymmetric(g: Cfg, a: nat, b: nat)
    requires Dominates(g, a, b) && Dominates(g, b, a)
    ensures a == b
  {
    if a != b {
      StrictDominatorComesFirst(g, a, b);
    }
  }

  /** A path whose last visit to `b` follows its last visit to `a` can be
      re-routed around `a`, when `b` itself can be reached around `a`. */
  lemma Detour(g: Cfg, a: nat, b: nat, c: nat, p: seq<nat>, q: seq<nat>, j: nat)
    requires Joins(g, 0, c, p) && Joins(g, 0, b, q) && a !in q
    requires j < |p| && p[j] == b && a !in p[j + 1..] && a != b
    ensures a == c || !Dominates(g, a, c)
  {
    Suffix(g, 0, c, p, j);
    Glue(g, 0, b, c, q, p[j..]);
    assert p[j..][1..] == p[j + 1..];
    assert a !in q + p[j..][1..];
  }

  /** The dominators of one reachable block form a chain. */
  lemma DominatorsFormChain(g: Cfg, a: nat, b: nat, c: nat)
    requires Reachable(g, c) && Dominates(g, a, c) && Dominates(g, b, c)
    ensures Dominates(g, a, b) || Dominates(g, b, a)
  {
    if a != b && a != c && b != c && !Dominates(g, a, b) && !Dominates(g, b, a) {
      DominatorReachable(g, a, c);
      DominatorReachable(g, b, c);
      var q :| Joins(g, 0, b, q) && a !in q;
      var r :| Joins(g, 0, a, r) && b !in r;
      var p :| Joins(g, 0, c, p);
      var i := LastOccurrence(p, a);
      var j := LastOccurrence(p, b);
      assert p[i + 1..][..] == p[i + 1..] && p[j + 1..][..] == p[j + 1..];
      if i < j {
        assert p[j + 1..] == p[i + 1..][j - i..];
        Detour(g, a, b, c, p, q, j);
      } else {
        assert p[i + 1..] == p[j + 1..][i - j..];
        Detour(g, b, a, c, p, r, i);
      }
    }
  }

  /** A strict dominator of the target of an edge dominates its source. */
  lemma DominatesPredecessor(g: Cfg, a: nat, p: nat, b: nat)
    requires Edge(g, p, b) && Reachable(g, p) && StrictlyDominates(g, a, b)
    ensures Dominates(g, a, p)
  {
    forall q | Joins(g, 0, p, q)
      ensures a in q
    {
      Extend(g, 0, p, b, q);
      assert a in q + [b];
    }
  }

  lemma EntryDominates(g: Cfg, b: nat)
    requires Reachable(g, b)
    ensures Dominates(g, 0, b)
  {
    forall p | Joins(g, 0, b, p)
      ensures 0 in p
    {
      assert p[0] == 0;
    }
  }

  lemma EntryHasNoStrictDominator(g: Cfg, a: nat)
    ensures !StrictlyDominates(g, a, 0)
  {
    assert Joins(g, 0, 0, [0]);
  }

  lemma IdomUnique(g: Cfg, d: nat, e: nat, b: nat)
    requires IsIdom(g, d, b) && IsIdom(g, e, b)
    ensures d == e
  {
    DominatesAntisymmetric(g, d, e);
  }

  lemma IdomReachable(g: Cfg, d: nat, b: nat)
    requires IsIdom(g, d, b)
    ensures Reachable(g, d)
  {
    DominatorReachable(g, d, b);
  }

  /** Every reachable block but the entry has an immediate dominator. */
  lemma IdomExists(g: Cfg, b: nat)
    requires Reachable(g, b) && b != 0
    ensures exists d :: IsIdom(g, d, b)
  {
    var p :| Joins(g, 0, b, p);
    EntryDominates(g, b);
    var d: nat := 0;
    var k := 0;
    // Walk the path, keeping the lowest strict dominator met so far.
    while k < |p|
      invariant 0 <= k <= |p|
      invariant StrictlyDominates(g, d, b)
      invariant forall i :: 0 <= i < k && StrictlyDominates(g, p[i], b) ==> Dominates(g, p[i], d)
    {
      if StrictlyDominates(g, p[k], b) && !Dominates(g, p[k], d) {
        DominatorsFormChain(g, p[k], d, b);
        forall i | 0 <= i < k && StrictlyDominates(g, p[i], b)
          ensures Dominates(g, p[i], p[k])
        {
          DominatesTransitive(g, p[i], d, p[k]);
        }
        d := p[k];
      }
      k := k + 1;
    }
    forall a | StrictlyDominates(g, a, b)
      ensures Dominates(g, a, d)
    {
      assert a in p;
      var i :| 0 <= i < |p| && p[i] == a;
    }
    assert IsIdom(g, d, b);
  }

  /** With a single incoming edge, every path to a block other than the entry
      arrives over that edge. */
  lemma SoleEdgeIsLast(g: Cfg, p: nat, b: nat, q: seq<nat>)
    requires !IsJoin(g, b) && Edge(g, p, b) && b != 0 && Joins(g, 0, b, q)
    ensures |q| > 1 && q[|q| - 2] == p
  {
    var c := q[|q| - 2];
    assert Edge(g, c, b);
    var i :| 0 <= i < |g[p]| && g[p][i] == b;
    var j :| 0 <= j < |g[c]| && g[c][j] == b;
  }

  /** The source of the only edge into a block is met before the block. */
  lemma SoleEdgeSourceFirst(g: Cfg, p: nat, b: nat)
    requires !IsJoin(g, b) && Edge(g, p, b) && b != 0 && Reachable(g, b)
    ensures !Dominates(g, b, p)
  {
    var q :| Joins(g, 0, b, q);
    var k := FirstOccurrence(q, b);
    Prefix(g, 0, b, q, k);
    SoleEdgeIsLast(g, p, b, q[..k + 1]);
    Prefix(g, 0, b, q, k - 1);
    assert q[k - 1] == p && b !in q[..k];
    assert Joins(g, 0, p, q[..k]);
  }

  /** A block with one incoming edge is strictly dominated by all that dominate
      the edge's source. */
  lemma SoleEdgeDominance(g: Cfg, x: nat, p: nat, b: nat)
    requires !IsJoin(g, b) && Edge(g, p, b) && b != 0 && Reachable(g, p)
    requires Dominates(g, x, p)
    ensures StrictlyDominates(g, x, b)
  {
    ReachesStep(g, 0, p, b);
    forall q | Joins(g, 0, b, q)
      ensures x in q
    {
      SoleEdgeIsLast(g, p, b, q);
      Prefix(g, 0, b, q, |q| - 2);
      assert x in q[..|q| - 1];
    }
    SoleEdgeSourceFirst(g, p, b);
  }
}
