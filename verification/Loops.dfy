/** Natural loops: src/analysis/loops.rs.

    A loop is its header, the blocks that reach one of its back edges without
    passing the header, and its place in the nesting.  Bodies are sets of block
    indices; the dominance query is an input that must answer `Graph.Dominates`.
  */
module Loops {
  import opened Graph
  import opened Options
  import opened Sequences

  datatype LoopInfo = LoopInfo(
    header: nat,
    body: set<nat>,
    latches: seq<nat>,
    parent: Option<nat>,
    children: seq<nat>,
    depth: nat)

  // ----- what a natural loop is

  /** The edge `l -> h` is a back edge: its target dominates its source. */
  ghost predicate IsLatch(g: Cfg, h: nat, l: nat) {
    Edge(g, l, h) && Dominates(g, h, l)
  }

  ghost predicate IsHeader(g: Cfg, h: nat) {
    exists l :: IsLatch(g, h, l)
  }

  /** `x` reaches `l` without meeting `h`. */
  ghost predicate ReachesAvoiding(g: Cfg, x: nat, l: nat, h: nat) {
    exists p :: Joins(g, x, l, p) && h !in p
  }

  ghost predicate InBody(g: Cfg, h: nat, x: nat) {
    x == h || exists l :: IsLatch(g, h, l) && ReachesAvoiding(g, x, l, h)
  }

  // ----- headers, bodies and dominance

  lemma AvoidingTransitive(g: Cfg, x: nat, y: nat, z: nat, h: nat)
    requires ReachesAvoiding(g, x, y, h) && ReachesAvoiding(g, y, z, h)
    ensures ReachesAvoiding(g, x, z, h)
  {
    var p :| Joins(g, x, y, p) && h !in p;
    var q :| Joins(g, y, z, q) && h !in q;
    Glue(g, x, y, z, p, q);
    assert h !in p + q[1..];
  }

  lemma AvoidingStep(g: Cfg, x: nat, y: nat, z: nat, h: nat)
    requires Edge(g, x, y) && x != h && ReachesAvoiding(g, y, z, h)
    ensures ReachesAvoiding(g, x, z, h)
  {
    var q :| Joins(g, y, z, q) && h !in q;
    assert q[0] != h;
    assert Joins(g, x, y, [x, y]) && h !in [x, y];
    AvoidingTransitive(g, x, y, z, h);
  }

  /** A path meets `b`, or avoids it, or reaches it and leaves it for the last time. */
  lemma AvoidsOrMeets(g: Cfg, x: nat, y: nat, h: nat, b: nat)
    requires ReachesAvoiding(g, x, y, h)
    ensures (exists p :: Joins(g, x, y, p) && h !in p && b !in p) || ReachesAvoiding(g, b, y, h)
  {
    var p :| Joins(g, x, y, p) && h !in p;
    if b in p {
      var k :| 0 <= k < |p| && p[k] == b;
      Suffix(g, x, y, p, k);
      assert h !in p[k..];
    }
  }

  /** A reachable block that reaches a back edge's source around the header can only
      be reached through the header. */
  lemma HeaderDominatesBody(g: Cfg, h: nat, x: nat)
    requires InBody(g, h, x) && Reachable(g, x)
    ensures Dominates(g, h, x)
  {
    if x != h {
      var l :| IsLatch(g, h, l) && ReachesAvoiding(g, x, l, h);
      var q :| Joins(g, x, l, q) && h !in q;
      assert l in q && l != h;
      forall p | Joins(g, 0, x, p)
        ensures h in p
      {
        Glue(g, 0, x, l, p, q);
        assert h in p + q[1..];
      }
    }
  }

  /** A loop with a block besides its header has a reachable header. */
  lemma ProperLoopReachable(g: Cfg, h: nat, x: nat)
    requires InBody(g, h, x) && x != h
    ensures Reachable(g, h)
  {
    var l :| IsLatch(g, h, l) && ReachesAvoiding(g, x, l, h);
    var q :| Joins(g, x, l, q) && h !in q;
    assert l in q && l != h;
    DominatorReachable(g, h, l);
  }

  /** Two loops never hold each other's header. */
  lemma HeadersAsymmetric(g: Cfg, h: nat, k: nat)
    requires h != k && InBody(g, k, h)
    ensures !InBody(g, h, k)
  {
    if InBody(g, h, k) {
      ProperLoopReachable(g, k, h);
      ProperLoopReachable(g, h, k);
      HeaderDominatesBody(g, k, h);
      HeaderDominatesBody(g, h, k);
      DominatesAntisymmetric(g, h, k);
    }
  }

  /** A loop whose header lies in another loop lies in it entirely. */
  lemma NestedBodies(g: Cfg, h: nat, k: nat, x: nat)
    requires h != k && InBody(g, k, h) && InBody(g, h, x)
    ensures InBody(g, k, x) && x != k
  {
    HeadersAsymmetric(g, h, k);
    if x != h {
      var l :| IsLatch(g, h, l) && ReachesAvoiding(g, x, l, h);
      AvoidsOrMeets(g, x, l, h, k);
      assert !ReachesAvoiding(g, k, l, h);
      assert ReachesAvoiding(g, x, l, k);
      var m :| IsLatch(g, k, m) && ReachesAvoiding(g, h, m, k);
      var p :| Joins(g, x, l, p) && k !in p;
      assert l in p;
      AvoidingStep(g, l, h, m, k);
      AvoidingTransitive(g, x, l, m, k);
    }
  }

  /** Of two headers that dominate a common reachable block of both loops, the
      dominated one lies in the other's loop. */
  lemma CommonBlockNests(g: Cfg, a: nat, b: nat, x: nat)
    requires a != b && Reachable(g, x) && InBody(g, a, x) && InBody(g, b, x) && Dominates(g, a, b)
    ensures InBody(g, a, b)
  {
    HeaderDominatesBody(g, b, x);
    if x == a {
      DominatesAntisymmetric(g, a, b);
    } else if x != b {
      BetweenAvoids(g, a, b, x);
      var l :| IsLatch(g, a, l) && ReachesAvoiding(g, x, l, a);
      AvoidingTransitive(g, b, x, l, a);
    }
  }

  /** If `a` dominates `b` and `b` dominates `x`, some path leads from `b` to `x`
      around `a`. */
  lemma BetweenAvoids(g: Cfg, a: nat, b: nat, x: nat)
    requires a != b && Reachable(g, x) && Dominates(g, a, b) && Dominates(g, b, x) && b != x
    ensures ReachesAvoiding(g, b, x, a)
  {
    DominatesTransitive(g, a, b, x);
    DominatorReachable(g, a, x);
    StrictDominatorComesFirst(g, a, b);
    var r :| Joins(g, 0, a, r) && b !in r;
    var p :| Joins(g, 0, x, p);
    var i := LastOccurrence(p, b);
    Suffix(g, 0, x, p, i);
    if a in p[i..] {
      assert p[i..] == [b] + p[i + 1..];
      var j :| 0 <= j < |p[i + 1..]| && p[i + 1..][j] == a;
      assert p[i + 1 + j] == a;
      assert p[i + 1 + j + 1..] == p[i + 1..][j + 1..];
      Detour(g, b, a, x, p, r, i + 1 + j);
    }
  }

  /** The loops that hold one reachable block form a strict chain: of any two, one
      holds the other's header, and then all of the other's blocks but not
      conversely. */
  lemma LoopsFormChain(g: Cfg, a: nat, b: nat, x: nat)
    requires a != b && Reachable(g, x) && InBody(g, a, x) && InBody(g, b, x)
    ensures InBody(g, a, b) != InBody(g, b, a)
    ensures InBody(g, a, b) ==> forall y :: InBody(g, b, y) ==> InBody(g, a, y) && y != a
    ensures InBody(g, b, a) ==> forall y :: InBody(g, a, y) ==> InBody(g, b, y) && y != b
  {
    HeaderDominatesBody(g, a, x);
    HeaderDominatesBody(g, b, x);
    DominatorsFormChain(g, a, b, x);
    if Dominates(g, a, b) {
      CommonBlockNests(g, a, b, x);
      HeadersAsymmetric(g, b, a);
    } else {
      CommonBlockNests(g, b, a, x);
      HeadersAsymmetric(g, a, b);
    }
    forall y
      ensures InBody(g, a, b) && InBody(g, b, y) ==> InBody(g, a, y) && y != a
      ensures InBody(g, b, a) && InBody(g, a, y) ==> InBody(g, b, y) && y != b
    {
      if InBody(g, a, b) && InBody(g, b, y) {
        NestedBodies(g, b, a, y);
      }
      if InBody(g, b, a) && InBody(g, a, y) {
        NestedBodies(g, a, b, y);
      }
    }
  }

  // ----- body expansion

  /** `body` is the header plus all blocks that reach one of `ls` around it. */
  ghost predicate BodyOf(g: Cfg, h: nat, ls: seq<nat>, body: set<nat>) {
    forall x :: x in body <==> x == h || exists l :: l in ls && ReachesAvoiding(g, x, l, h)
  }

  ghost predicate Closed(g: Cfg, h: nat, body: set<nat>, pending: seq<nat>) {
    forall x, y :: x in body && x != h && Edge(g, y, x) && y != h ==> y in body || y in pending
  }

  lemma BodyClosed(g: Cfg, h: nat, ls: seq<nat>, body: set<nat>)
    requires BodyOf(g, h, ls, body)
    ensures Closed(g, h, body, [])
  {
    forall x, y | x in body && x != h && Edge(g, y, x) && y != h
      ensures y in body
    {
      var l :| l in ls && ReachesAvoiding(g, x, l, h);
      AvoidingStep(g, y, x, l, h);
    }
  }

  lemma {:induction false} ClosedHoldsReaching(g: Cfg, h: nat, body: set<nat>, x: nat, l: nat, p: seq<nat>)
    requires Closed(g, h, body, []) && l in body && Joins(g, x, l, p) && h !in p
    ensures x in body
    decreases |p|
  {
    if |p| > 1 {
      Suffix(g, x, l, p, 1);
      assert p[0] != h && p[1] != h;
      ClosedHoldsReaching(g, h, body, p[1], l, p[1..]);
    }
  }

  function Predecessors(g: Cfg, b: nat): (ps: set<nat>)
    ensures forall a: nat :: a in ps <==> Edge(g, a, b)
  {
    set a | 0 <= a < |g| && b in g[a]
  }

  /** Adds a back edge's source and all that reaches it around the header. */
  method ExpandLoopBody(g: Cfg, info: LoopInfo, latch: nat, ghost ls: seq<nat>) returns (info': LoopInfo)
    requires InRange(g) && latch < |g| && BodyOf(g, info.header, ls, info.body)
    requires forall x :: x in info.body ==> x < |g|
    ensures info' == info.(body := info'.body)
    ensures BodyOf(g, info.header, ls + [latch], info'.body)
    ensures forall x :: x in info'.body ==> x < |g|
  {
    ghost var h := info.header;
    BodyClosed(g, h, ls, info.body);
    info' := info;
    if latch in info.body {
      LatchAlreadyIn(g, h, ls, info.body, latch);
      return;
    }
    assert Joins(g, latch, latch, [latch]) && h !in [latch];
    var worklist: seq<nat> := [latch];
    while worklist != []
      invariant info' == info.(body := info'.body) && info.body <= info'.body
      invariant forall x :: x in info'.body ==> x < |g|
      invariant forall y :: y in worklist ==> y < |g| && y != h && ReachesAvoiding(g, y, latch, h)
      invariant forall x :: x in info'.body ==> x in info.body || ReachesAvoiding(g, x, latch, h)
      invariant Closed(g, h, info'.body, worklist)
      invariant latch in info'.body || latch in worklist
      decreases Below(|g|) - info'.body, |worklist|
    {
      var node := worklist[|worklist| - 1];
      ghost var before := worklist;
      worklist := worklist[..|worklist| - 1];
      assert before == worklist + [node];
      assert node in before && forall y :: y in worklist ==> y in before;
      if node !in info'.body {
        ghost var outside := Below(|g|) - info'.body;
        assert node in outside;
        info' := info'.(body := info'.body + {node});
        var preds := Predecessors(g, node);
        var rest := preds;
        ghost var base := worklist;
        while rest != {}
          invariant rest <= preds
          invariant forall y :: y in worklist ==> y < |g| && y != h && ReachesAvoiding(g, y, latch, h)
          invariant forall y :: y in base ==> y in worklist
          invariant forall y :: y in preds && y !in rest && y != h ==> y in info'.body || y in worklist
          decreases rest
        {
          var pred :| pred in rest;
          rest := rest - {pred};
          if pred != info'.header && pred !in info'.body {
            AvoidingStep(g, pred, node, latch, h);
            worklist := worklist + [pred];
          }
        }
      }
    }
    LatchAdded(g, h, ls, info.body, info'.body, latch);
  }

  lemma LatchAdded(g: Cfg, h: nat, ls: seq<nat>, body: set<nat>, body': set<nat>, latch: nat)
    requires BodyOf(g, h, ls, body) && Closed(g, h, body', []) && body <= body' && latch in body'
    requires forall x :: x in body' ==> x in body || ReachesAvoiding(g, x, latch, h)
    ensures BodyOf(g, h, ls + [latch], body')
  {
    forall x
      ensures x in body' <==> x == h || exists l :: l in ls + [latch] && ReachesAvoiding(g, x, l, h)
    {
      if ReachesAvoiding(g, x, latch, h) {
        var p :| Joins(g, x, latch, p) && h !in p;
        ClosedHoldsReaching(g, h, body', x, latch, p);
      }
      if x in body && x != h {
        var l :| l in ls && ReachesAvoiding(g, x, l, h);
        assert l in ls + [latch];
      }
      if x in body' && x !in body {
        assert latch in ls + [latch];
      }
    }
  }

  lemma LatchAlreadyIn(g: Cfg, h: nat, ls: seq<nat>, body: set<nat>, latch: nat)
    requires BodyOf(g, h, ls, body) && Closed(g, h, body, []) && latch in body
    ensures BodyOf(g, h, ls + [latch], body)
  {
    forall x
      ensures x in body <==> x == h || exists l :: l in ls + [latch] && ReachesAvoiding(g, x, l, h)
    {
      if x in body && x != h {
        var l :| l in ls && ReachesAvoiding(g, x, l, h);
        assert l in ls + [latch];
      }
      if x != h && exists l :: l in ls + [latch] && ReachesAvoiding(g, x, l, h) {
        var l :| l in ls + [latch] && ReachesAvoiding(g, x, l, h);
        if l !in ls {
          var p :| Joins(g, x, latch, p) && h !in p;
          ClosedHoldsReaching(g, h, body, x, latch, p);
        }
      }
    }
  }

  // ----- back edges

  /** The dominance query the detection is given. */
  ghost predicate AnswersDominance(g: Cfg, dom: set<(nat, nat)>) {
    forall a: nat, b: nat :: a < |g| && b < |g| ==> ((a, b) in dom <==> Dominates(g, a, b))
  }

  /** The scan has met the `k`-th successor of `l`, having come as far as the
      `j`-th of `i`. */
  predicate Scanned(i: nat, j: nat, l: nat, k: nat) {
    l < i || (l == i && k < j)
  }

  ghost predicate ScannedLatch(g: Cfg, i: nat, j: nat, h: nat, l: nat) {
    l < |g| && Dominates(g, h, l) && exists k :: 0 <= k < |g[l]| && g[l][k] == h && Scanned(i, j, l, k)
  }

  /** How many edges from `l` to `h` the scan has met. */
  function ScanCount(g: Cfg, i: nat, j: nat, h: nat, l: nat): nat {
    if l >= |g| || l > i then 0
    else if l < i then multiset(g[l])[h]
    else if j <= |g[l]| then multiset(g[l][..j])[h]
    else 0
  }

  /** The latches are the sources of the back edges met, one for each, in scan order. */
  ghost predicate LatchesMet(g: Cfg, i: nat, j: nat, h: nat, ls: seq<nat>) {
    && (forall a, b :: 0 <= a < b < |ls| ==> ls[a] <= ls[b])
    && (forall l :: l in ls ==> l <= i)
    && forall l: nat :: multiset(ls)[l] == if Dominates(g, h, l) then ScanCount(g, i, j, h, l) else 0
  }

  /** The latches of a loop: the sources of the back edges to its header, one for each
      edge, ascending. */
  ghost predicate LatchList(g: Cfg, h: nat, ls: seq<nat>) {
    && (forall a, b :: 0 <= a < b < |ls| ==> ls[a] <= ls[b])
    && forall l: nat :: multiset(ls)[l] == if l < |g| && Dominates(g, h, l) then multiset(g[l])[h] else 0
  }

  lemma CountStep(g: Cfg, i: nat, j: nat, h: nat, l: nat)
    requires i < |g| && j < |g[i]|
    ensures ScanCount(g, i, j + 1, h, l) == ScanCount(g, i, j, h, l) + if l == i && h == g[i][j] then 1 else 0
  {
    var row: seq<nat>, x: nat := g[i][..j], g[i][j];
    assert g[i][..j + 1] == row + [x];
    assert multiset(row + [x]) == multiset(row) + multiset([x]);
    assert multiset(row + [x])[h] == multiset(row)[h] + if h == x then 1 else 0;
  }

  lemma LatchMet(g: Cfg, i: nat, j: nat, h: nat, ls: seq<nat>)
    requires i < |g| && j < |g[i]| && g[i][j] == h && Dominates(g, h, i) && LatchesMet(g, i, j, h, ls)
    ensures LatchesMet(g, i, j + 1, h, ls + [i])
  {
    hide Dominates, ScanCount;
    var ls': seq<nat> := ls + [i];
    forall l: nat
      ensures multiset(ls')[l] == if Dominates(g, h, l) then ScanCount(g, i, j + 1, h, l) else 0
    {
      CountStep(g, i, j, h, l);
      assert multiset(ls')[l] == multiset(ls)[l] + if l == i then 1 else 0;
    }
    forall a | 0 <= a < |ls|
      ensures ls[a] <= i
    {
      assert ls[a] in ls;
    }
    assert LatchesMet(g, i, j + 1, h, ls');
  }

  lemma OtherEdgeMet(g: Cfg, i: nat, j: nat, h: nat, ls: seq<nat>)
    requires i < |g| && j < |g[i]| && LatchesMet(g, i, j, h, ls) && (g[i][j] != h || !Dominates(g, h, i))
    ensures LatchesMet(g, i, j + 1, h, ls)
  {
    hide Dominates, ScanCount;
    forall l: nat
      ensures Dominates(g, h, l) ==> ScanCount(g, i, j + 1, h, l) == ScanCount(g, i, j, h, l)
    {
      CountStep(g, i, j, h, l);
    }
  }

  lemma RowMet(g: Cfg, i: nat, h: nat, ls: seq<nat>)
    requires i < |g| && LatchesMet(g, i, |g[i]|, h, ls)
    ensures LatchesMet(g, i + 1, 0, h, ls)
  {
    hide Dominates;
    assert g[i][..|g[i]|] == g[i];
    forall l: nat
      ensures ScanCount(g, i + 1, 0, h, l) == ScanCount(g, i, |g[i]|, h, l)
    {
      if l == i + 1 && l < |g| {
        assert g[l][..0] == [];
      }
    }
  }

  lemma NoLatchMet(g: Cfg, i: nat, j: nat, h: nat)
    requires forall l: nat :: !ScannedLatch(g, i, j, h, l)
    ensures LatchesMet(g, i, j, h, [])
  {
    hide Dominates;
    forall l: nat | Dominates(g, h, l)
      ensures ScanCount(g, i, j, h, l) == 0
    {
      if ScanCount(g, i, j, h, l) > 0 {
        CountedIsScanned(g, i, j, h, l);
      }
    }
  }

  lemma CountedIsScanned(g: Cfg, i: nat, j: nat, h: nat, l: nat)
    requires Dominates(g, h, l) && ScanCount(g, i, j, h, l) > 0
    ensures ScannedLatch(g, i, j, h, l)
  {
    hide Dominates;
    var row := if l < i then g[l] else g[l][..j];
    assert h in row;
    var k :| 0 <= k < |row| && row[k] == h;
    assert g[l][k] == h && Scanned(i, j, l, k);
  }

  /** The record of header `h` once the scan has come to `(i, j)`. */
  ghost predicate LoopSoFar(g: Cfg, i: nat, j: nat, h: nat, info: LoopInfo) {
    && h < |g| && info == LoopInfo(h, info.body, info.latches, None, [], 0)
    && info.latches != []
    && (forall x :: x in info.body ==> x < |g|)
    && (forall l: nat :: l in info.latches <==> ScannedLatch(g, i, j, h, l))
    && LatchesMet(g, i, j, h, info.latches)
    && BodyOf(g, h, info.latches, info.body)
  }

  ghost predicate LoopsSoFar(g: Cfg, i: nat, j: nat, loops: map<nat, LoopInfo>) {
    && (forall h: nat, l: nat :: ScannedLatch(g, i, j, h, l) ==> h in loops)
    && (forall h :: h in loops ==> LoopSoFar(g, i, j, h, loops[h]))
  }

  lemma ScanStep(g: Cfg, i: nat, j: nat, h: nat, l: nat)
    requires i < |g| && j < |g[i]|
    ensures ScannedLatch(g, i, j + 1, h, l) <==>
              ScannedLatch(g, i, j, h, l) || (l == i && g[i][j] == h && Dominates(g, h, i))
  {
  }

  lemma ScanRow(g: Cfg, i: nat, h: nat, l: nat)
    requires i < |g|
    ensures ScannedLatch(g, i, |g[i]|, h, l) <==> ScannedLatch(g, i + 1, 0, h, l)
  {
  }

  /** The loop record for one back edge: an existing record gains the latch, a new
      header starts from its own block. */
  method RecordBackEdge(g: Cfg, node: nat, header: nat, loops: map<nat, LoopInfo>, ghost i: nat, ghost j: nat)
    returns (loops': map<nat, LoopInfo>)
    requires InRange(g) && i < |g| && j < |g[i]| && node == i && header == g[i][j] && header < |g|
    requires Dominates(g, header, node) && LoopsSoFar(g, i, j, loops)
    ensures LoopsSoFar(g, i, j + 1, loops')
  {
    var info := if header in loops then loops[header] else LoopInfo(header, {header}, [], None, [], 0);
    ghost var ls := info.latches;
    forall l: nat
      ensures l in ls <==> ScannedLatch(g, i, j, header, l)
    {
      if header !in loops {
        assert ls == [];
      }
    }
    if header !in loops {
      NoLatchMet(g, i, j, header);
    }
    LatchMet(g, i, j, header, ls);
    info := info.(latches := info.latches + [node]);
    info := ExpandLoopBody(g, info, node, ls);
    loops' := loops[header := info];
    ghost var next := j + 1;
    forall h: nat, l: nat
      ensures ScannedLatch(g, i, next, h, l) <==>
                ScannedLatch(g, i, j, h, l) || (l == i && h == header)
    {
      ScanStep(g, i, j, h, l);
    }
    hide ScannedLatch, BodyOf, LatchesMet;
    forall h: nat, l: nat | ScannedLatch(g, i, next, h, l)
      ensures h in loops'
    {
      assert ScannedLatch(g, i, j, h, l) || h == header;
    }
    forall h | h in loops'
      ensures LoopSoFar(g, i, j + 1, h, loops'[h])
    {
      if h != header {
        assert LoopSoFar(g, i, j, h, loops[h]);
        OtherEdgeMet(g, i, j, h, loops[h].latches);
      }
    }
  }

  /** Every back edge, in ascending order of its source, grouped by header. */
  method FindLoops(g: Cfg, dom: set<(nat, nat)>) returns (loops: map<nat, LoopInfo>)
    requires InRange(g) && AnswersDominance(g, dom)
    ensures forall h :: h in loops <==> IsHeader(g, h)
    ensures forall h :: h in loops ==> FoundLoop(g, loops[h]) && loops[h].header == h
  {
    loops := map[];
    for i := 0 to |g|
      invariant LoopsSoFar(g, i, 0, loops)
    {
      for j := 0 to |g[i]|
        invariant LoopsSoFar(g, i, j, loops)
      {
        var succ := g[i][j];
        if (succ, i) in dom {
          loops := RecordBackEdge(g, i, succ, loops, i, j);
        } else {
          SkipEdge(g, i, j, loops);
        }
      }
      NextRow(g, i, loops);
    }
    AllScanned(g, loops);
  }

  lemma SkipEdge(g: Cfg, i: nat, j: nat, loops: map<nat, LoopInfo>)
    requires i < |g| && j < |g[i]| && LoopsSoFar(g, i, j, loops) && !Dominates(g, g[i][j], i)
    ensures LoopsSoFar(g, i, j + 1, loops)
  {
    hide Dominates, BodyOf, LatchesMet;
    var next := j + 1;
    forall h: nat, l: nat
      ensures ScannedLatch(g, i, next, h, l) <==> ScannedLatch(g, i, j, h, l)
    {
      ScanStep(g, i, j, h, l);
    }
    hide ScannedLatch;
    forall h: nat, l: nat | ScannedLatch(g, i, next, h, l)
      ensures h in loops
    {
      assert ScannedLatch(g, i, j, h, l);
    }
    forall h | h in loops
      ensures LoopSoFar(g, i, j + 1, h, loops[h])
    {
      assert LoopSoFar(g, i, j, h, loops[h]);
      OtherEdgeMet(g, i, j, h, loops[h].latches);
    }
  }

  lemma NextRow(g: Cfg, i: nat, loops: map<nat, LoopInfo>)
    requires i < |g| && LoopsSoFar(g, i, |g[i]|, loops)
    ensures LoopsSoFar(g, i + 1, 0, loops)
  {
    hide Dominates, BodyOf, LatchesMet;
    var next := i + 1;
    forall h: nat, l: nat
      ensures ScannedLatch(g, i, |g[i]|, h, l) <==> ScannedLatch(g, next, 0, h, l)
    {
      ScanRow(g, i, h, l);
    }
    hide ScannedLatch;
    forall h: nat, l: nat | ScannedLatch(g, next, 0, h, l)
      ensures h in loops
    {
      assert ScannedLatch(g, i, |g[i]|, h, l);
    }
    forall h | h in loops
      ensures LoopSoFar(g, i + 1, 0, h, loops[h])
    {
      assert LoopSoFar(g, i, |g[i]|, h, loops[h]);
      RowMet(g, i, h, loops[h].latches);
    }
  }

  /** A loop before nesting is computed: header, all its back edges, its body. */
  ghost predicate FoundLoop(g: Cfg, info: LoopInfo) {
    && info == LoopInfo(info.header, info.body, info.latches, None, [], 0)
    && IsHeader(g, info.header)
    && (forall l: nat :: l in info.latches <==> IsLatch(g, info.header, l))
    && LatchList(g, info.header, info.latches)
    && (forall x :: x in info.body <==> InBody(g, info.header, x))
    && (forall x :: x in info.body ==> x < |g|)
  }

  lemma AllLatchesMet(g: Cfg, h: nat, ls: seq<nat>)
    requires LatchesMet(g, |g|, 0, h, ls)
    ensures LatchList(g, h, ls)
  {
    hide Dominates;
  }

  lemma AllScanned(g: Cfg, loops: map<nat, LoopInfo>)
    requires LoopsSoFar(g, |g|, 0, loops)
    ensures forall h :: h in loops <==> IsHeader(g, h)
    ensures forall h :: h in loops ==> FoundLoop(g, loops[h]) && loops[h].header == h
  {
    forall h: nat, l: nat
      ensures ScannedLatch(g, |g|, 0, h, l) <==> IsLatch(g, h, l)
    {
      if IsLatch(g, h, l) {
        var k :| 0 <= k < |g[l]| && g[l][k] == h;
        assert Scanned(|g|, 0, l, k);
      }
    }
    hide ScannedLatch, IsLatch, LatchesMet, LatchList;
    forall h | h in loops
      ensures FoundLoop(g, loops[h]) && loops[h].header == h && IsHeader(g, h)
    {
      var info := loops[h];
      AllLatchesMet(g, h, info.latches);
      assert info.latches[0] in info.latches;
      assert IsLatch(g, h, info.latches[0]);
    }
    forall h | IsHeader(g, h)
      ensures h in loops
    {
      var l :| IsLatch(g, h, l);
      assert ScannedLatch(g, |g|, 0, h, l);
    }
  }

  // ----- nesting

  /** Found loops with distinct headers, in any order. */
  ghost predicate FoundLoops(g: Cfg, loops: seq<LoopInfo>) {
    && (forall i :: 0 <= i < |loops| ==> FoundLoop(g, loops[i]))
    && (forall i, j :: 0 <= i < j < |loops| ==> loops[i].header != loops[j].header)
  }

  predicate Encloses(loops: seq<LoopInfo>, j: nat, i: nat) {
    i < |loops| && j < |loops| && j != i && loops[i].header in loops[j].body
  }

  /** `j` encloses `i` and comes first by size, then by position. */
  ghost predicate IsParent(loops: seq<LoopInfo>, i: nat, j: nat) {
    && Encloses(loops, j, i)
    && forall k: nat :: Encloses(loops, k, i) ==>
         |loops[j].body| < |loops[k].body| || (|loops[j].body| == |loops[k].body| && j <= k)
  }

  /** A loop holds strictly fewer blocks than one that encloses it. */
  lemma EnclosedIsSmaller(g: Cfg, loops: seq<LoopInfo>, i: nat, j: nat)
    requires FoundLoops(g, loops) && Encloses(loops, j, i)
    ensures loops[i].body < loops[j].body && |loops[i].body| < |loops[j].body|
  {
    var h, k := loops[i].header, loops[j].header;
    assert FoundLoop(g, loops[i]) && FoundLoop(g, loops[j]);
    assert InBody(g, k, h);
    forall x | x in loops[i].body
      ensures x in loops[j].body && x != k
    {
      NestedBodies(g, h, k, x);
    }
    assert k in loops[j].body && k !in loops[i].body;
    assert loops[j].body == loops[i].body + (loops[j].body - loops[i].body);
    assert |loops[j].body| == |loops[i].body| + |loops[j].body - loops[i].body|;
    assert loops[j].body - loops[i].body != {};
  }

  /** The smallest enclosing loop, by a linear scan. */
  method FindParent(loops: seq<LoopInfo>, i: nat) returns (best: Option<nat>)
    requires i < |loops|
    ensures best.None? ==> forall j: nat :: !Encloses(loops, j, i)
    ensures best.Some? ==> IsParent(loops, i, best.value)
  {
    best := None;
    for j := 0 to |loops|
      invariant best.None? ==> forall k: nat :: k < j ==> !Encloses(loops, k, i)
      invariant best.Some? ==> best.value < j && Encloses(loops, best.value, i)
      invariant best.Some? ==> forall k: nat :: k < j && Encloses(loops, k, i) ==>
                  || |loops[best.value].body| < |loops[k].body|
                  || (|loops[best.value].body| == |loops[k].body| && best.value <= k)
    {
      if Encloses(loops, j, i) && (best.None? || |loops[j].body| < |loops[best.value].body|) {
        best := Some(j);
      }
    }
  }

  /** The nested loops: positions of parents, in the order of `loops`. */
  ghost predicate AreParents(loops: seq<LoopInfo>, parents: seq<Option<nat>>) {
    && |parents| == |loops|
    && forall i :: 0 <= i < |loops| ==>
         if parents[i].Some? then IsParent(loops, i, parents[i].value) else forall j: nat :: !Encloses(loops, j, i)
  }

  /** Length of the chain of parents above loop `i`; it ends because each parent is
      larger than the loop it encloses. */
  ghost function Depth(g: Cfg, loops: seq<LoopInfo>, parents: seq<Option<nat>>, i: nat): nat
    requires FoundLoops(g, loops) && AreParents(loops, parents) && i < |loops|
    decreases Below(|g|) - loops[i].body
  {
    if parents[i].None? then 0
    else
      ParentShrinks(g, loops, parents, i);
      1 + Depth(g, loops, parents, parents[i].value)
  }

  lemma ParentShrinks(g: Cfg, loops: seq<LoopInfo>, parents: seq<Option<nat>>, i: nat)
    requires FoundLoops(g, loops) && AreParents(loops, parents) && i < |loops| && parents[i].Some?
    ensures parents[i].value < |loops|
    ensures Below(|g|) - loops[parents[i].value].body < Below(|g|) - loops[i].body
  {
    var j := parents[i].value;
    EnclosedIsSmaller(g, loops, i, j);
    assert FoundLoop(g, loops[j]);
    var x := loops[j].header;
    assert x in loops[j].body;
    var u := Below(|g|);
    assert u - loops[j].body <= u - loops[i].body;
    var y :| y in loops[j].body && y !in loops[i].body;
    assert y in u - loops[i].body && y !in u - loops[j].body;
  }

  /** The depth walk follows parent headers up to an outermost loop. */
  method WalkDepth(g: Cfg, loops: seq<LoopInfo>, parents: seq<Option<nat>>, i: nat) returns (depth: nat)
    requires FoundLoops(g, loops) && AreParents(loops, parents) && i < |loops|
    ensures depth == Depth(g, loops, parents, i)
  {
    assert |parents| == |loops|;
    hide FoundLoops, AreParents;
    depth := 0;
    var at: nat := i;
    while parents[at].Some?
      invariant at < |loops| && |loops| == |parents|
      invariant depth + Depth(g, loops, parents, at) == Depth(g, loops, parents, i)
      decreases Below(|g|) - loops[at].body
    {
      ParentShrinks(g, loops, parents, at);
      depth := depth + 1;
      at := parents[at].value;
    }
  }

  /** Headers of the loops whose parent is `j`, in the order of `loops`. */
  function ChildrenOf(loops: seq<LoopInfo>, parents: seq<Option<nat>>, j: nat, n: nat): seq<nat>
    requires n <= |loops| == |parents|
  {
    if n == 0 then []
    else
      var cs := ChildrenOf(loops, parents, j, n - 1);
      if parents[n - 1] == Some(j) then cs + [loops[n - 1].header] else cs
  }

  /** The children of `j` are loops whose parent is `j`; child `i` comes after exactly
      the children before `i`. */
  lemma {:induction false} ChildHasPlace(loops: seq<LoopInfo>, parents: seq<Option<nat>>, j: nat, n: nat, i: nat)
    requires i < n <= |loops| == |parents| && parents[i] == Some(j)
    ensures var cs, k := ChildrenOf(loops, parents, j, n), |ChildrenOf(loops, parents, j, i)|;
      k < |cs| && cs[k] == loops[i].header
  {
    if i < n - 1 {
      ChildHasPlace(loops, parents, j, n - 1, i);
    }
  }

  lemma {:induction false} PlaceHasChild(loops: seq<LoopInfo>, parents: seq<Option<nat>>, j: nat, n: nat, k: nat)
    returns (i: nat)
    requires n <= |loops| == |parents| && k < |ChildrenOf(loops, parents, j, n)|
    ensures i < n && parents[i] == Some(j) && k == |ChildrenOf(loops, parents, j, i)|
    ensures ChildrenOf(loops, parents, j, n)[k] == loops[i].header
  {
    if k < |ChildrenOf(loops, parents, j, n - 1)| {
      i := PlaceHasChild(loops, parents, j, n - 1, k);
    } else {
      i := n - 1;
    }
  }

  /** A loop with its place in the nesting filled in. */
  ghost predicate IsNested(g: Cfg, loops: seq<LoopInfo>, parents: seq<Option<nat>>, i: nat, info: LoopInfo)
    requires FoundLoops(g, loops) && AreParents(loops, parents) && i < |loops|
  {
    && info == loops[i].(parent := info.parent, children := info.children, depth := info.depth)
    && info.depth == Depth(g, loops, parents, i)
    && info.children == ChildrenOf(loops, parents, i, |loops|)
    && info.parent == if parents[i].Some? && parents[i].value < |loops|
                      then Some(loops[parents[i].value].header)
                      else None
  }

  method FindParents(loops: seq<LoopInfo>) returns (parents: seq<Option<nat>>)
    ensures AreParents(loops, parents)
  {
    hide IsParent;
    parents := [];
    for i := 0 to |loops|
      invariant |parents| == i
      invariant forall k: nat :: k < i ==>
                  if parents[k].Some? then IsParent(loops, k, parents[k].value)
                  else forall j: nat :: !Encloses(loops, j, k)
    {
      var p := FindParent(loops, i);
      parents := parents + [p];
    }
  }

  method CollectChildren(loops: seq<LoopInfo>, parents: seq<Option<nat>>) returns (children: seq<seq<nat>>)
    requires AreParents(loops, parents)
    ensures |children| == |loops| == |parents|
    ensures forall j :: 0 <= j < |loops| ==> children[j] == ChildrenOf(loops, parents, j, |loops|)
  {
    assert |parents| == |loops|;
    hide AreParents, Encloses;
    children := seq(|loops|, _ => []);
    for i := 0 to |loops|
      invariant |children| == |loops|
      invariant forall j :: 0 <= j < |loops| ==> children[j] == ChildrenOf(loops, parents, j, i)
    {
      if parents[i].Some? {
        var j := parents[i].value;
        ParentInRange(loops, parents, i);
        children := children[j := children[j] + [loops[i].header]];
      }
    }
  }

  /** Parents first, then children, then depths, as the three passes do. */
  method ComputeNesting(g: Cfg, loops: seq<LoopInfo>) returns (nested: seq<LoopInfo>, ghost parents: seq<Option<nat>>)
    requires FoundLoops(g, loops)
    ensures AreParents(loops, parents) && |nested| == |loops|
    ensures forall i :: 0 <= i < |loops| ==> IsNested(g, loops, parents, i, nested[i])
  {
    hide FoundLoops, AreParents, Depth;
    var ps := FindParents(loops);
    parents := ps;
    var children := CollectChildren(loops, ps);
    nested := [];
    for i := 0 to |loops|
      invariant |nested| == i
      invariant forall k :: 0 <= k < i ==> IsNested(g, loops, parents, k, nested[k])
    {
      var depth := WalkDepth(g, loops, ps, i);
      var parent: Option<nat> := None;
      if ps[i].Some? {
        ParentInRange(loops, ps, i);
        parent := Some(loops[ps[i].value].header);
      }
      nested := nested + [loops[i].(parent := parent, children := children[i], depth := depth)];
    }
  }

  lemma ParentInRange(loops: seq<LoopInfo>, parents: seq<Option<nat>>, i: nat)
    requires AreParents(loops, parents) && i < |loops| && parents[i].Some?
    ensures parents[i].value < |loops| && Encloses(loops, parents[i].value, i)
  {
    assert IsParent(loops, i, parents[i].value);
  }

  // ----- what the nesting means

  /** `k` is the header of the smallest loop that holds `h` besides `h`'s own: every
      other such loop holds `k` as well. */
  ghost predicate IsInnermostEnclosing(g: Cfg, h: nat, k: nat) {
    && k != h && IsHeader(g, k) && InBody(g, k, h)
    && forall m :: m != h && m != k && IsHeader(g, m) && InBody(g, m, h) ==> InBody(g, m, k)
  }

  /** Whatever order the loops come in, a reachable header's parent is the innermost
      enclosing loop, which is unique. */
  lemma ParentIsInnermost(g: Cfg, loops: seq<LoopInfo>, i: nat, j: nat)
    requires FoundLoops(g, loops) && IsParent(loops, i, j) && Reachable(g, loops[i].header)
    requires forall h :: IsHeader(g, h) ==> exists k :: 0 <= k < |loops| && loops[k].header == h
    ensures IsInnermostEnclosing(g, loops[i].header, loops[j].header)
    ensures forall k :: IsInnermostEnclosing(g, loops[i].header, k) ==> k == loops[j].header
  {
    var h, p := loops[i].header, loops[j].header;
    assert FoundLoop(g, loops[i]) && FoundLoop(g, loops[j]);
    forall m | m != h && m != p && IsHeader(g, m) && InBody(g, m, h)
      ensures InBody(g, m, p)
    {
      var k :| 0 <= k < |loops| && loops[k].header == m;
      assert FoundLoop(g, loops[k]);
      assert Encloses(loops, k, i);
      LoopsFormChain(g, m, p, h);
      if !InBody(g, m, p) {
        assert Encloses(loops, j, i) && Encloses(loops, j, k);
        EnclosedIsSmaller(g, loops, k, j);
      }
    }
    forall k | IsInnermostEnclosing(g, h, k)
      ensures k == p
    {
      if k != p {
        HeadersAsymmetric(g, k, p);
      }
    }
  }

  /** `a` is one of the smallest loops around `c`. */
  ghost predicate IsSmallestAround(loops: seq<LoopInfo>, c: LoopInfo, a: LoopInfo) {
    && a in loops && Holds(a, c)
    && forall b :: b in loops && Holds(b, c) ==> |a.body| <= |b.body|
  }

  predicate Holds(a: LoopInfo, c: LoopInfo) {
    a.header != c.header && c.header in a.body
  }

  /** In this order `c` gets the parent `p`. */
  ghost predicate GetsParent(loops: seq<LoopInfo>, c: LoopInfo, p: LoopInfo) {
    exists i: nat, j: nat :: i < |loops| && loops[i] == c && IsParent(loops, i, j) && loops[j] == p
  }

  ghost predicate DistinctHeaders(loops: seq<LoopInfo>) {
    forall i, j :: 0 <= i < j < |loops| ==> loops[i].header != loops[j].header
  }

  /** The same loops in some order. */
  ghost predicate IsOrder(loops: seq<LoopInfo>, order: seq<LoopInfo>) {
    DistinctHeaders(order) && forall x :: x in order <==> x in loops
  }

  lemma ParentIsSmallest(loops: seq<LoopInfo>, order: seq<LoopInfo>, c: LoopInfo, p: LoopInfo)
    requires IsOrder(loops, order) && GetsParent(order, c, p)
    ensures IsSmallestAround(loops, c, p)
  {
    var i: nat, j: nat :| i < |order| && order[i] == c && IsParent(order, i, j) && order[j] == p;
    forall b | b in loops && Holds(b, c)
      ensures |p.body| <= |b.body|
    {
      assert b in order;
      var k: nat :| k < |order| && order[k] == b;
      assert Encloses(order, k, i);
    }
  }

  /** An order that has loop `k` first. */
  function MovedToFront(loops: seq<LoopInfo>, k: nat): seq<LoopInfo>
    requires k < |loops|
  {
    [loops[k]] + (loops[..k] + loops[k + 1..])
  }

  lemma MovedIsOrder(loops: seq<LoopInfo>, k: nat)
    requires k < |loops| && DistinctHeaders(loops)
    ensures IsOrder(loops, MovedToFront(loops, k))
  {
    var order := MovedToFront(loops, k);
    assert |order| == |loops| && order[0] == loops[k];
    assert forall i :: 0 < i <= k ==> order[i] == loops[i - 1];
    assert forall i :: k < i < |order| ==> order[i] == loops[i];
    forall i | 0 <= i < |loops|
      ensures loops[i] in order
    {
      assert loops[i] == order[if i == k then 0 else if i < k then i + 1 else i];
    }
  }

  lemma SomeOrderPicks(loops: seq<LoopInfo>, c: LoopInfo, a: LoopInfo) returns (order: seq<LoopInfo>)
    requires c in loops && DistinctHeaders(loops) && IsSmallestAround(loops, c, a)
    ensures IsOrder(loops, order) && GetsParent(order, c, a)
  {
    var k: nat :| k < |loops| && loops[k] == a;
    order := MovedToFront(loops, k);
    MovedIsOrder(loops, k);
    assert order[0] == a && c in order;
    var i: nat :| i < |order| && order[i] == c;
    forall j: nat | Encloses(order, j, i)
      ensures |a.body| <= |order[j].body|
    {
      assert order[j] in order && Holds(order[j], c);
    }
    assert IsParent(order, i, 0);
  }

  /** The parent of a loop is the same in every order of the loops exactly when no two
      of the smallest loops around it tie. */
  lemma ParentIgnoresOrderIff(loops: seq<LoopInfo>, c: LoopInfo)
    requires c in loops && DistinctHeaders(loops)
    ensures (forall r, s, p, q ::
               IsOrder(loops, r) && IsOrder(loops, s) && GetsParent(r, c, p) && GetsParent(s, c, q) ==> p == q) <==>
            forall a, b :: IsSmallestAround(loops, c, a) && IsSmallestAround(loops, c, b) ==> a == b
  {
    hide IsSmallestAround, GetsParent, IsOrder;
    forall r, s, p, q | IsOrder(loops, r) && IsOrder(loops, s) && GetsParent(r, c, p) && GetsParent(s, c, q)
      ensures IsSmallestAround(loops, c, p) && IsSmallestAround(loops, c, q)
    {
      ParentIsSmallest(loops, r, c, p);
      ParentIsSmallest(loops, s, c, q);
    }
    forall a, b | IsSmallestAround(loops, c, a) && IsSmallestAround(loops, c, b)
      ensures exists r, s :: IsOrder(loops, r) && IsOrder(loops, s) && GetsParent(r, c, a) && GetsParent(s, c, b)
    {
      var r := SomeOrderPicks(loops, c, a);
      var s := SomeOrderPicks(loops, c, b);
    }
  }

  /** Of two loops of which one holds the other's reachable header, the inner one is
      deeper. */
  lemma {:induction false} InnerIsDeeper(g: Cfg, loops: seq<LoopInfo>, parents: seq<Option<nat>>, i: nat, k: nat)
    requires FoundLoops(g, loops) && AreParents(loops, parents) && Encloses(loops, k, i)
    requires Reachable(g, loops[i].header)
    requires forall h :: IsHeader(g, h) ==> exists m :: 0 <= m < |loops| && loops[m].header == h
    ensures Depth(g, loops, parents, i) > Depth(g, loops, parents, k)
    decreases Below(|g|) - loops[i].body
  {
    assert parents[i].Some?;
    var j := parents[i].value;
    ParentInRange(loops, parents, i);
    ParentShrinks(g, loops, parents, i);
    assert FoundLoop(g, loops[i]) && FoundLoop(g, loops[j]) && FoundLoop(g, loops[k]);
    ParentIsInnermost(g, loops, i, j);
    ProperLoopReachable(g, loops[j].header, loops[i].header);
    if k != j {
      assert loops[k].header != loops[j].header && loops[k].header != loops[i].header;
      assert Encloses(loops, k, j);
      InnerIsDeeper(g, loops, parents, j, k);
    }
  }

  // ----- the forest

  ghost predicate SortedByHeader(loops: seq<LoopInfo>) {
    forall i, j :: 0 <= i < j < |loops| ==> loops[i].header < loops[j].header
  }

  function InsertByHeader(loops: seq<LoopInfo>, info: LoopInfo): (r: seq<LoopInfo>)
    ensures forall x :: x in r <==> x in loops || x == info
    ensures |r| == |loops| + 1
  {
    if loops == [] || info.header < loops[0].header then [info] + loops
    else [loops[0]] + InsertByHeader(loops[1..], info)
  }

  lemma {:induction false} InsertKeepsSorted(loops: seq<LoopInfo>, info: LoopInfo)
    requires SortedByHeader(loops) && forall x :: x in loops ==> x.header != info.header
    ensures SortedByHeader(InsertByHeader(loops, info))
  {
    if loops != [] && loops[0].header < info.header {
      InsertKeepsSorted(loops[1..], info);
      var r := InsertByHeader(loops[1..], info);
      forall j | 0 <= j < |r|
        ensures loops[0].header < r[j].header
      {
        assert r[j] in r;
      }
    }
  }

  /** Sorting by header; the headers of the detected loops are distinct. */
  function SortByHeader(loops: seq<LoopInfo>): (r: seq<LoopInfo>)
    ensures forall x :: x in r <==> x in loops
    ensures |r| == |loops|
  {
    if loops == [] then [] else InsertByHeader(SortByHeader(loops[1..]), loops[0])
  }

  lemma {:induction false} InsertAdds(loops: seq<LoopInfo>, info: LoopInfo)
    ensures multiset(InsertByHeader(loops, info)) == multiset(loops) + multiset{info}
  {
    if loops != [] && info.header >= loops[0].header {
      InsertAdds(loops[1..], info);
      assert loops == [loops[0]] + loops[1..];
    }
  }

  lemma {:induction false} SortPermutes(loops: seq<LoopInfo>)
    ensures multiset(SortByHeader(loops)) == multiset(loops)
  {
    if loops != [] {
      SortPermutes(loops[1..]);
      InsertAdds(SortByHeader(loops[1..]), loops[0]);
      assert loops == [loops[0]] + loops[1..];
    }
  }

  lemma {:induction false} SortSorts(loops: seq<LoopInfo>)
    requires forall i, j :: 0 <= i < j < |loops| ==> loops[i].header != loops[j].header
    ensures SortedByHeader(SortByHeader(loops))
  {
    if loops != [] {
      SortSorts(loops[1..]);
      InsertKeepsSorted(SortByHeader(loops[1..]), loops[0]);
    }
  }

  /** A block's slot names the deepest loop that holds it, the first added of
      several. */
  ghost predicate SlotOk(loops: seq<LoopInfo>, slot: Option<nat>, b: nat) {
    match slot
    case None => forall j :: 0 <= j < |loops| ==> b !in loops[j].body
    case Some(i) =>
      && i < |loops| && b in loops[i].body
      && forall j :: 0 <= j < |loops| && b in loops[j].body ==>
           loops[j].depth < loops[i].depth || (loops[j].depth == loops[i].depth && i <= j)
  }

  class LoopForest {
    var loops: seq<LoopInfo>
    var blockToLoop: seq<Option<nat>>

    ghost predicate Valid()
      reads this
    {
      forall b: nat :: b < |blockToLoop| ==> SlotOk(loops, blockToLoop[b], b)
    }

    constructor (blockCount: nat)
      ensures Valid() && loops == [] && |blockToLoop| == blockCount
    {
      loops := [];
      blockToLoop := seq(blockCount, _ => None);
    }

    /** Appends a loop, which takes over the blocks it holds more deeply. */
    method AddLoop(info: LoopInfo)
      requires Valid()
      modifies this
      ensures Valid() && loops == old(loops) + [info] && |blockToLoop| == |old(blockToLoop)|
    {
      var index := |loops|;
      var rest := info.body;
      ghost var before := blockToLoop;
      while rest != {}
        invariant rest <= info.body && |blockToLoop| == |before| && loops == old(loops)
        invariant forall b: nat :: b < |before| ==>
                    if b in info.body && b !in rest then SlotOk(loops + [info], blockToLoop[b], b)
                    else blockToLoop[b] == before[b]
        decreases rest
      {
        var b :| b in rest;
        rest := rest - {b};
        if b < |blockToLoop| {
          match blockToLoop[b] {
            case Some(existing) =>
              if loops[existing].depth < info.depth {
                blockToLoop := blockToLoop[b := Some(index)];
              }
            case None =>
              blockToLoop := blockToLoop[b := Some(index)];
          }
        }
      }
      loops := loops + [info];
    }

    function InnermostLoop(b: nat): (r: Option<LoopInfo>)
      reads this
    {
      if b < |blockToLoop| && blockToLoop[b].Some? && blockToLoop[b].value < |loops|
      then Some(loops[blockToLoop[b].value]) else None
    }
  }

  /** The deepest loop holding a reachable block is the smallest. */
  lemma DeepestIsSmallest(g: Cfg, base: seq<LoopInfo>, parents: seq<Option<nat>>, i: nat, k: nat, b: nat)
    requires FoundLoops(g, base) && AreParents(base, parents) && i < |base| && k < |base| && i != k
    requires forall h :: IsHeader(g, h) ==> exists m :: 0 <= m < |base| && base[m].header == h
    requires Reachable(g, b) && b in base[i].body && b in base[k].body
    requires Depth(g, base, parents, k) <= Depth(g, base, parents, i)
    ensures base[i].body < base[k].body
  {
    assert FoundLoop(g, base[i]) && FoundLoop(g, base[k]);
    var h, m := base[i].header, base[k].header;
    assert h != m;
    LoopsFormChain(g, h, m, b);
    if InBody(g, h, m) {
      if b != m {
        ProperLoopReachable(g, m, b);
      }
      assert Encloses(base, i, k);
      InnerIsDeeper(g, base, parents, k, i);
    } else {
      assert Encloses(base, k, i);
      EnclosedIsSmaller(g, base, i, k);
    }
  }

  /** The records of a map, in an arbitrary order, as a hash map yields them. */
  method CollectLoops(g: Cfg, found: map<nat, LoopInfo>) returns (loops: seq<LoopInfo>)
    requires forall h :: h in found ==> FoundLoop(g, found[h]) && found[h].header == h
    ensures FoundLoops(g, loops)
    ensures forall h :: h in found <==> exists i :: 0 <= i < |loops| && loops[i].header == h
  {
    hide FoundLoop;
    loops := [];
    var rest := found.Keys;
    while rest != {}
      invariant rest <= found.Keys
      invariant forall i :: 0 <= i < |loops| ==>
                  FoundLoop(g, loops[i]) && loops[i].header in found && loops[i].header !in rest
      invariant forall i, j :: 0 <= i < j < |loops| ==> loops[i].header != loops[j].header
      invariant forall h :: h in found && h !in rest ==> exists i :: 0 <= i < |loops| && loops[i].header == h
      decreases rest
    {
      var h :| h in rest;
      rest := rest - {h};
      ghost var before := loops;
      loops := loops + [found[h]];
      assert loops[|before|].header == h;
      forall k | k in found && k !in rest
        ensures exists i :: 0 <= i < |loops| && loops[i].header == k
      {
        if k != h {
          var i :| 0 <= i < |before| && before[i].header == k;
          assert loops[i].header == k;
        }
      }
    }
  }

  /** The forest's loop is the nested form of the loop at a position of `base`. */
  ghost predicate FromBase(g: Cfg, base: seq<LoopInfo>, parents: seq<Option<nat>>, info: LoopInfo)
    requires FoundLoops(g, base) && AreParents(base, parents)
  {
    exists i :: 0 <= i < |base| && IsNested(g, base, parents, i, info)
  }

  /** One detected loop: its header, exactly its back edges, exactly its body. */
  ghost predicate IsNaturalLoop(g: Cfg, info: LoopInfo) {
    && IsHeader(g, info.header)
    && (forall l: nat :: l in info.latches <==> IsLatch(g, info.header, l))
    && LatchList(g, info.header, info.latches)
    && (forall x :: x in info.body <==> InBody(g, info.header, x))
  }

  /** The loop the forest reports for a block is the smallest loop holding it. */
  ghost predicate IsInnermost(g: Cfg, info: LoopInfo, b: nat) {
    && IsNaturalLoop(g, info) && b in info.body
    && forall h, x :: IsHeader(g, h) && InBody(g, h, b) && x in info.body ==> InBody(g, h, x)
  }

  method FillForest(loops: seq<LoopInfo>, blockCount: nat) returns (forest: LoopForest)
    ensures forest.Valid() && forest.loops == loops && |forest.blockToLoop| == blockCount && fresh(forest)
  {
    forest := new LoopForest(blockCount);
    for i := 0 to |loops|
      invariant forest.Valid() && forest.loops == loops[..i] && |forest.blockToLoop| == blockCount
      invariant fresh(forest)
    {
      forest.AddLoop(loops[i]);
    }
    assert loops[..|loops|] == loops;
  }

  /** The right answer to which loop holds `b` most closely. */
  ghost predicate AnswersInnermost(g: Cfg, answer: Option<LoopInfo>, b: nat) {
    match answer
    case None => forall h :: IsHeader(g, h) ==> !InBody(g, h, b)
    case Some(info) => IsInnermost(g, info, b)
  }

  lemma SlotAnswers(g: Cfg, base: seq<LoopInfo>, parents: seq<Option<nat>>, sorted: seq<LoopInfo>, slot: Option<nat>,
                    b: nat)
    requires FoundLoops(g, base) && AreParents(base, parents) && Reachable(g, b) && SlotOk(sorted, slot, b)
    requires forall i :: 0 <= i < |sorted| ==> IsNaturalLoop(g, sorted[i]) && FromBase(g, base, parents, sorted[i])
    requires forall h :: IsHeader(g, h) <==> exists i :: 0 <= i < |sorted| && sorted[i].header == h
    requires forall h :: IsHeader(g, h) ==> exists m :: 0 <= m < |base| && base[m].header == h
    ensures slot.Some? ==> slot.value < |sorted|
    ensures AnswersInnermost(g, if slot.Some? then Some(sorted[slot.value]) else None, b)
  {
    hide IsInnermost, FoundLoops, AreParents, IsHeader, InBody, FromBase, IsNaturalLoop;
    SlotIsInnermost(g, base, parents, sorted, slot, b);
  }

  method DetectLoops(g: Cfg, dom: set<(nat, nat)>)
    returns (forest: LoopForest, ghost base: seq<LoopInfo>, ghost parents: seq<Option<nat>>)
    requires InRange(g) && AnswersDominance(g, dom)
    ensures forest.Valid() && SortedByHeader(forest.loops) && |forest.blockToLoop| == |g|
    ensures FoundLoops(g, base) && AreParents(base, parents)
    ensures forall i :: 0 <= i < |forest.loops| ==>
              IsNaturalLoop(g, forest.loops[i]) && FromBase(g, base, parents, forest.loops[i])
    ensures forall h :: IsHeader(g, h) <==> exists i :: 0 <= i < |forest.loops| && forest.loops[i].header == h
    ensures forall b: nat :: b < |g| && Reachable(g, b) ==> AnswersInnermost(g, forest.InnermostLoop(b), b)
  {
    var found := FindLoops(g, dom);
    hide FoundLoop, AreParents, IsHeader, IsNested, IsNaturalLoop, InBody, SlotOk, SortByHeader;
    hide Reachable, AnswersDominance, InRange, SortedByHeader;
    var loops := CollectLoops(g, found);
    base := loops;
    var nested;
    nested, parents := ComputeNesting(g, loops);
    NestedKeeps(g, base, parents, nested);
    SortSorts(nested);
    var sorted := SortByHeader(nested);
    forest := FillForest(sorted, |g|);
    SortedKeeps(g, base, parents, nested, sorted);
    hide FromBase, AnswersInnermost;
    forall b: nat | b < |g| && Reachable(g, b)
      ensures AnswersInnermost(g, forest.InnermostLoop(b), b)
    {
      SlotAnswers(g, base, parents, sorted, forest.blockToLoop[b], b);
    }
  }

  lemma NestedKeeps(g: Cfg, base: seq<LoopInfo>, parents: seq<Option<nat>>, nested: seq<LoopInfo>)
    requires FoundLoops(g, base) && AreParents(base, parents) && |nested| == |base|
    requires forall i :: 0 <= i < |base| ==> IsNested(g, base, parents, i, nested[i])
    ensures forall i, j :: 0 <= i < j < |nested| ==> nested[i].header != nested[j].header
  {
    hide Depth, AreParents, FoundLoop;
    assert forall i :: 0 <= i < |base| ==> nested[i].header == base[i].header;
  }

  lemma SortedKeeps(g: Cfg, base: seq<LoopInfo>, parents: seq<Option<nat>>, nested: seq<LoopInfo>,
                    sorted: seq<LoopInfo>)
    requires FoundLoops(g, base) && AreParents(base, parents) && |nested| == |base|
    requires forall i :: 0 <= i < |base| ==> IsNested(g, base, parents, i, nested[i])
    requires forall x :: x in sorted <==> x in nested
    requires forall h :: IsHeader(g, h) ==> exists i :: 0 <= i < |base| && base[i].header == h
    ensures forall i :: 0 <= i < |sorted| ==> IsNaturalLoop(g, sorted[i]) && FromBase(g, base, parents, sorted[i])
    ensures forall h :: IsHeader(g, h) <==> exists i :: 0 <= i < |sorted| && sorted[i].header == h
  {
    hide Depth, AreParents, InBody, IsLatch, IsHeader;
    forall i | 0 <= i < |sorted|
      ensures IsNaturalLoop(g, sorted[i]) && FromBase(g, base, parents, sorted[i])
    {
      assert sorted[i] in nested;
      var k :| 0 <= k < |nested| && nested[k] == sorted[i];
      assert FoundLoop(g, base[k]);
      assert IsNested(g, base, parents, k, sorted[i]);
    }
    forall h | IsHeader(g, h)
      ensures exists i :: 0 <= i < |sorted| && sorted[i].header == h
    {
      var k :| 0 <= k < |base| && base[k].header == h;
      assert nested[k] in sorted && nested[k].header == h;
    }
  }

  lemma SlotIsInnermost(g: Cfg, base: seq<LoopInfo>, parents: seq<Option<nat>>, sorted: seq<LoopInfo>,
                        slot: Option<nat>, b: nat)
    requires FoundLoops(g, base) && AreParents(base, parents) && Reachable(g, b) && SlotOk(sorted, slot, b)
    requires forall i :: 0 <= i < |sorted| ==> IsNaturalLoop(g, sorted[i]) && FromBase(g, base, parents, sorted[i])
    requires forall h :: IsHeader(g, h) <==> exists i :: 0 <= i < |sorted| && sorted[i].header == h
    requires forall h :: IsHeader(g, h) ==> exists m :: 0 <= m < |base| && base[m].header == h
    ensures slot.None? ==> forall h :: IsHeader(g, h) ==> !InBody(g, h, b)
    ensures slot.Some? ==> IsInnermost(g, sorted[slot.value], b)
  {
    hide AreParents, Reachable, IsHeader, IsLatch, InBody, FoundLoop, Depth;
    forall h | IsHeader(g, h) && InBody(g, h, b)
      ensures slot.Some? && forall x :: x in sorted[slot.value].body ==> InBody(g, h, x)
    {
      var j :| 0 <= j < |sorted| && sorted[j].header == h;
      assert IsNaturalLoop(g, sorted[j]);
      assert b in sorted[j].body;
      var s := slot.value;
      assert FromBase(g, base, parents, sorted[s]) && FromBase(g, base, parents, sorted[j]);
      var i :| 0 <= i < |base| && IsNested(g, base, parents, i, sorted[s]);
      var k :| 0 <= k < |base| && IsNested(g, base, parents, k, sorted[j]);
      if i != k {
        DeepestIsSmallest(g, base, parents, i, k, b);
      }
    }
  }

  /** A nested loop is one deeper than its parent, which holds it strictly; a loop
      with no parent is at depth 0. */
  lemma ChildIsOneDeeper(g: Cfg, base: seq<LoopInfo>, parents: seq<Option<nat>>, child: LoopInfo, parent: LoopInfo)
    requires FoundLoops(g, base) && AreParents(base, parents)
    requires FromBase(g, base, parents, child) && FromBase(g, base, parents, parent)
    ensures child.parent == Some(parent.header) ==> child.depth == parent.depth + 1 && child.body < parent.body
    ensures child.parent == None ==> child.depth == 0
  {
    var i :| 0 <= i < |base| && IsNested(g, base, parents, i, child);
    var j :| 0 <= j < |base| && IsNested(g, base, parents, j, parent);
    if parents[i].Some? {
      ParentInRange(base, parents, i);
      if child.parent == Some(parent.header) {
        assert parents[i].value == j;
        EnclosedIsSmaller(g, base, i, j);
      }
    }
  }

  // ----- a header no path reaches

  /** Blocks 1 and 2 head disjoint loops with latches 4 and 5.  Block 3, which
      nothing reaches, jumps to itself and to both latches: it heads a loop of its
      own, because a block always dominates itself, and lies in both others. */
  function TiedLoops(): Cfg {
    [[1, 2], [4], [5], [3, 4, 5], [1], [2]]
  }

  lemma TiedUnreachable(b: nat)
    requires Reachable(TiedLoops(), b)
    ensures b in {0, 1, 2, 4, 5}
  {
    var g := TiedLoops();
    var p :| Joins(g, 0, b, p);
    ClosedSetHoldsReached(g, 0, b, p, {0, 1, 2, 4, 5});
  }

  lemma TiedDominates()
    ensures Dominates(TiedLoops(), 1, 4) && Dominates(TiedLoops(), 2, 5)
  {
    var g := TiedLoops();
    assert Joins(g, 0, 4, [0, 1, 4]) && Joins(g, 0, 5, [0, 2, 5]);
    forall p, b | Joins(g, 0, b, p) && (b == 4 || b == 5)
      ensures b == 4 ==> 1 in p
      ensures b == 5 ==> 2 in p
    {
      assert Edge(g, p[|p| - 2], b);
      Prefix(g, 0, b, p, |p| - 2);
      assert Reachable(g, p[|p| - 2]);
      TiedUnreachable(p[|p| - 2]);
    }
  }

  lemma TiedMembers(h: nat)
    requires h == 1 || h == 2
    ensures InBody(TiedLoops(), h, h) && InBody(TiedLoops(), h, 3) && InBody(TiedLoops(), h, h + 3)
  {
    var g := TiedLoops();
    TiedDominates();
    assert IsLatch(g, h, h + 3);
    assert Joins(g, 3, h + 3, [3, h + 3]) && Joins(g, h + 3, h + 3, [h + 3]);
    assert ReachesAvoiding(g, 3, h + 3, h) && ReachesAvoiding(g, h + 3, h + 3, h);
  }

  lemma TiedOnly(h: nat, x: nat)
    requires (h == 1 || h == 2) && InBody(TiedLoops(), h, x) && x != h && x != 3
    ensures x == h + 3
  {
    var g := TiedLoops();
    assert Joins(g, 0, 0, [0]) && Joins(g, 0, 1, [0, 1]) && Joins(g, 0, 2, [0, 2]);
    assert Joins(g, 0, 4, [0, 1, 4]) && Joins(g, 0, 5, [0, 2, 5]);
    var l :| IsLatch(g, h, l) && ReachesAvoiding(g, x, l, h);
    var p :| Joins(g, x, l, p) && h !in p;
    assert |p| > 1 ==> Edge(g, p[0], p[1]);
    assert Edge(g, l, h) && x < |g|;
    HeaderDominatesBody(g, h, x);
  }

  lemma TiedBody(h: nat, x: nat)
    requires h == 1 || h == 2
    ensures InBody(TiedLoops(), h, x) <==> x == h || x == 3 || x == h + 3
  {
    hide InBody;
    TiedMembers(h);
    if InBody(TiedLoops(), h, x) && x != h && x != 3 {
      TiedOnly(h, x);
    }
  }

  lemma FirstOfTwo(a: LoopInfo, b: LoopInfo, c: LoopInfo)
    requires c.header in a.body && |a.body| <= |b.body|
    ensures IsParent([a, b, c], 2, 0)
  {
    assert Encloses([a, b, c], 0, 2);
  }

  /** For a header no path reaches the choice of parent can depend on the order in
      which the loops come: the two loops that hold block 3 are of one size and
      neither holds the other. */
  lemma ParentDependsOnOrder(a: LoopInfo, b: LoopInfo, c: LoopInfo)
    requires FoundLoop(TiedLoops(), a) && FoundLoop(TiedLoops(), b) && FoundLoop(TiedLoops(), c)
    requires a.header == 1 && b.header == 2 && c.header == 3
    ensures !Reachable(TiedLoops(), 3)
    ensures IsParent([a, b, c], 2, 0) && IsParent([b, a, c], 2, 0)
  {
    hide InBody, Reachable, LatchList;
    if Reachable(TiedLoops(), 3) {
      TiedUnreachable(3);
    }
    forall x: nat
      ensures x in a.body <==> x == 1 || x == 3 || x == 4
      ensures x in b.body <==> x == 2 || x == 3 || x == 5
    {
      TiedBody(1, x);
      TiedBody(2, x);
    }
    hide FoundLoop, IsParent;
    assert a.body == {1, 3, 4} && b.body == {2, 3, 5};
    FirstOfTwo(a, b, c);
    FirstOfTwo(b, a, c);
  }
}
