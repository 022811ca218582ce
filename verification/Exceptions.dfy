/** The exception-aware flow view: src/analysis/exceptions.rs.

    `Of` reads the exception table, `NewEhCfg` gives every handler and filter entry
    one edge, and the dominance questions are asked over the graph with those edges.
  */
module Exceptions {
  import opened Graph
  import opened Options
  import opened Sequences

  // ----- roots

  /** A non-empty half-open range of block indices. */
  datatype BlockRange = BlockRange(start: nat, end: nat)

  /** One clause of the exception table, part by part. */
  datatype Clause = Clause(protected: Option<BlockRange>, handler: Option<BlockRange>, filter: Option<BlockRange>)

  datatype RootKind = Handler | Filter

  datatype ExceptionRoot = ExceptionRoot(
    block: nat,
    kind: RootKind,
    guard: Option<nat>,
    region: Option<BlockRange>,
    clause: nat)

  function Min(a: nat, b: nat): nat {
    if a < b then a else b
  }

  /** The protected region clipped to the blocks of the function. */
  function ClippedRegion(c: Clause, n: nat): Option<BlockRange> {
    if c.protected.Some? && c.protected.value.start < n
    then Some(BlockRange(c.protected.value.start, Min(c.protected.value.end, n)))
    else None
  }

  function GuardOf(c: Clause, n: nat): Option<nat> {
    if c.protected.Some? && c.protected.value.start < n then Some(c.protected.value.start) else None
  }

  function RootAt(block: nat, kind: RootKind, c: Clause, index: nat, n: nat): ExceptionRoot {
    ExceptionRoot(block, kind, GuardOf(c, n), ClippedRegion(c, n), index)
  }

  /** The roots a clause names, handler before filter, whatever else names them. */
  function Candidates(c: Clause, index: nat, n: nat): seq<ExceptionRoot> {
    (if c.handler.Some? then [RootAt(c.handler.value.start, Handler, c, index, n)] else [])
    + (if c.filter.Some? then [RootAt(c.filter.value.start, Filter, c, index, n)] else [])
  }

  function AllCandidates(cs: seq<Clause>, n: nat, k: nat): seq<ExceptionRoot>
    requires k <= |cs|
  {
    if k == 0 then [] else AllCandidates(cs, n, k - 1) + Candidates(cs[k - 1], k - 1, n)
  }

  predicate Names(roots: seq<ExceptionRoot>, b: nat) {
    exists k :: 0 <= k < |roots| && roots[k].block == b
  }

  /** The first candidate for every block of the function, in order. */
  function Firsts(cands: seq<ExceptionRoot>, n: nat): (roots: seq<ExceptionRoot>)
    ensures forall r :: r in roots ==> r in cands && r.block < n
  {
    if cands == [] then []
    else
      var rest := Firsts(cands[..|cands| - 1], n);
      var c := cands[|cands| - 1];
      if c.block < n && !Names(rest, c.block) then rest + [c] else rest
  }

  ghost predicate DistinctBlocks(roots: seq<ExceptionRoot>) {
    forall i, j :: 0 <= i < j < |roots| ==> roots[i].block != roots[j].block
  }

  /** Roots have distinct blocks, and a block has a root exactly when some clause
      part of the function starts there; the root is the first such part. */
  lemma {:induction false} FirstsAreEntries(cands: seq<ExceptionRoot>, n: nat, b: nat)
    ensures DistinctBlocks(Firsts(cands, n))
    ensures Names(Firsts(cands, n), b) <==> b < n && Names(cands, b)
    ensures forall i :: 0 <= i < |cands| && cands[i].block == b && b < n && !Names(cands[..i], b) ==>
              cands[i] in Firsts(cands, n)
  {
    if cands != [] {
      var last := |cands| - 1;
      var front := cands[..last];
      FirstsAreEntries(front, n, b);
      FirstsAreEntries(front, n, cands[last].block);
      assert cands == front + [cands[last]];
      NamesAppend(front, cands[last], b);
      NamesAppend(Firsts(front, n), cands[last], b);
      forall i | 0 <= i < |cands| && cands[i].block == b && b < n && !Names(cands[..i], b)
        ensures cands[i] in Firsts(cands, n)
      {
        if i < last {
          assert front[..i] == cands[..i];
          assert front[i] in Firsts(front, n);
        }
      }
    }
  }

  lemma NamesAppend(roots: seq<ExceptionRoot>, c: ExceptionRoot, b: nat)
    ensures Names(roots + [c], b) <==> Names(roots, b) || c.block == b
  {
    if Names(roots, b) {
      var k :| 0 <= k < |roots| && roots[k].block == b;
      assert (roots + [c])[k].block == b;
    }
    if c.block == b {
      assert (roots + [c])[|roots|].block == b;
    }
  }

  // ----- the roots, read off the clauses

  /** Part `kind` of clause `i` starts at block `b`. */
  predicate StartsAt(cs: seq<Clause>, i: nat, kind: RootKind, b: nat) {
    && i < |cs|
    && match kind
       case Handler => cs[i].handler.Some? && cs[i].handler.value.start == b
       case Filter => cs[i].filter.Some? && cs[i].filter.value.start == b
  }

  /** Table order: by clause, and the handler before the filter. */
  predicate Before(i: nat, kind: RootKind, j: nat, other: RootKind) {
    i < j || (i == j && kind.Handler? && other.Filter?)
  }

  /** The clause's protected range begins inside a function of `n` blocks. */
  predicate Protects(c: Clause, n: nat) {
    c.protected.Some? && c.protected.value.start < n
  }

  /** `r` is the root of a function of `n` blocks for the part of the table it names:
      its block starts that part and no earlier one, its guard is the first protected
      block, and its region the protected blocks the function has. */
  ghost predicate IsRoot(cs: seq<Clause>, n: nat, r: ExceptionRoot) {
    && r.block < n && StartsAt(cs, r.clause, r.kind, r.block)
    && (forall i: nat, kind :: Before(i, kind, r.clause, r.kind) ==> !StartsAt(cs, i, kind, r.block))
    && HasFields(cs[r.clause], n, r)
  }

  ghost predicate HasFields(c: Clause, n: nat, r: ExceptionRoot) {
    if Protects(c, n) then
      var range := c.protected.value;
      && r.guard == Some(range.start)
      && r.region == Some(BlockRange(range.start, if range.end < n then range.end else n))
    else r.guard == None && r.region == None
  }

  /** Roots in table order. */
  ghost predicate InTableOrder(roots: seq<ExceptionRoot>) {
    forall i, j :: 0 <= i < j < |roots| ==> Before(roots[i].clause, roots[i].kind, roots[j].clause, roots[j].kind)
  }

  /** A candidate of the first `k` clauses, but for whether an earlier one has its block. */
  ghost predicate IsCandidate(cs: seq<Clause>, n: nat, k: nat, r: ExceptionRoot) {
    r.clause < k && StartsAt(cs, r.clause, r.kind, r.block) && r == RootAt(r.block, r.kind, cs[r.clause], r.clause, n)
  }

  lemma {:induction false} CandidatesAre(cs: seq<Clause>, n: nat, k: nat)
    requires k <= |cs|
    ensures forall r :: r in AllCandidates(cs, n, k) <==> IsCandidate(cs, n, k, r)
    ensures InTableOrder(AllCandidates(cs, n, k))
  {
    hide RootAt, StartsAt, Candidates, InTableOrder;
    if k > 0 {
      CandidatesAre(cs, n, k - 1);
      var all, more := AllCandidates(cs, n, k - 1), Candidates(cs[k - 1], k - 1, n);
      forall r
        ensures r in more <==> IsCandidate(cs, n, k, r) && r.clause == k - 1
      {
        CandidatesOfClause(cs, n, k - 1, r);
      }
      ClauseInOrder(cs[k - 1], k - 1, n);
      OrderAppend(all, more);
    } else {
      NothingInOrder();
    }
  }

  lemma NothingInOrder()
    ensures InTableOrder([])
  {
  }

  lemma ClauseInOrder(c: Clause, k: nat, n: nat)
    ensures InTableOrder(Candidates(c, k, n))
  {
  }

  lemma OrderAppend(a: seq<ExceptionRoot>, b: seq<ExceptionRoot>)
    requires InTableOrder(a) && InTableOrder(b)
    requires forall x, y :: x in a && y in b ==> x.clause < y.clause
    ensures InTableOrder(a + b)
  {
  }

  lemma CandidatesOfClause(cs: seq<Clause>, n: nat, k: nat, r: ExceptionRoot)
    requires k < |cs|
    ensures r in Candidates(cs[k], k, n) <==> IsCandidate(cs, n, k + 1, r) && r.clause == k
  {
    hide ClippedRegion, GuardOf;
    var c := cs[k];
    var hs: seq<ExceptionRoot> := if c.handler.Some? then [RootAt(c.handler.value.start, Handler, c, k, n)] else [];
    var fs: seq<ExceptionRoot> := if c.filter.Some? then [RootAt(c.filter.value.start, Filter, c, k, n)] else [];
    assert r in Candidates(c, k, n) <==> r in hs || r in fs;
  }

  /** The chosen roots keep the order of the candidates, and one candidate comes
      before another of its block. */
  lemma {:induction false} FirstsKeepOrder(cands: seq<ExceptionRoot>, n: nat)
    requires InTableOrder(cands)
    ensures InTableOrder(Firsts(cands, n)) && DistinctBlocks(Firsts(cands, n))
    ensures forall r :: r in Firsts(cands, n) <==> IsFirst(cands, n, r)
  {
    hide Names, Before, InTableOrder, DistinctBlocks, IsFirst;
    FirstsAreEntries(cands, n, 0);
    if cands == [] {
      NoneFirst(n);
    } else {
      var front, last := cands[..|cands| - 1], cands[|cands| - 1];
      assert cands == front + [last];
      OrderSplit(front, last);
      FirstsKeepOrder(front, n);
      FirstsAreEntries(front, n, last.block);
      OrderSnoc(Firsts(front, n), last);
      forall r
        ensures IsFirst(cands, n, r) <==> IsFirst(front, n, r) || (r == last && last.block < n && !Names(front, last.block))
      {
        FirstOfMore(front, last, n, r);
      }
    }
  }

  lemma NoneFirst(n: nat)
    ensures InTableOrder([]) && forall r :: !IsFirst([], n, r)
  {
  }

  lemma OrderSplit(front: seq<ExceptionRoot>, last: ExceptionRoot)
    requires InTableOrder(front + [last])
    ensures InTableOrder(front) && forall c :: c in front ==> Before(c.clause, c.kind, last.clause, last.kind)
  {
    var all := front + [last];
    assert forall k :: 0 <= k < |front| ==> all[k] == front[k];
    assert all[|front|] == last;
  }

  lemma OrderSnoc(rest: seq<ExceptionRoot>, last: ExceptionRoot)
    requires InTableOrder(rest) && forall c :: c in rest ==> Before(c.clause, c.kind, last.clause, last.kind)
    ensures InTableOrder(rest + [last])
  {
  }

  /** `r` is a candidate in range that no earlier one shares its block with. */
  ghost predicate IsFirst(cands: seq<ExceptionRoot>, n: nat, r: ExceptionRoot) {
    && r in cands && r.block < n
    && forall c :: c in cands && Before(c.clause, c.kind, r.clause, r.kind) ==> c.block != r.block
  }

  lemma FirstOfMore(front: seq<ExceptionRoot>, last: ExceptionRoot, n: nat, r: ExceptionRoot)
    requires forall c :: c in front ==> Before(c.clause, c.kind, last.clause, last.kind)
    ensures IsFirst(front + [last], n, r) <==>
            IsFirst(front, n, r) || (r == last && last.block < n && !Names(front, last.block))
  {
    NamesMember(front, last.block);
    assert forall c :: c in front + [last] <==> c in front || c == last;
  }

  lemma NamesMember(roots: seq<ExceptionRoot>, b: nat)
    ensures Names(roots, b) <==> exists r :: r in roots && r.block == b
  {
    if Names(roots, b) {
      var k :| 0 <= k < |roots| && roots[k].block == b;
      assert roots[k] in roots;
    }
  }

  /** The roots are those the clauses' fields give, each once, in table order. */
  lemma FirstsAreRoots(cs: seq<Clause>, n: nat)
    ensures var roots := Firsts(AllCandidates(cs, n, |cs|), n);
      && (forall r :: r in roots <==> IsRoot(cs, n, r))
      && InTableOrder(roots) && DistinctBlocks(roots)
  {
    var cands := AllCandidates(cs, n, |cs|);
    CandidatesAre(cs, n, |cs|);
    FirstsKeepOrder(cands, n);
    hide Firsts, AllCandidates;
    forall r
      ensures r in Firsts(cands, n) <==> IsRoot(cs, n, r)
    {
      RootIsFirst(cs, n, cands, r);
    }
  }

  lemma RootIsFirst(cs: seq<Clause>, n: nat, cands: seq<ExceptionRoot>, r: ExceptionRoot)
    requires forall c :: c in cands <==> IsCandidate(cs, n, |cs|, c)
    ensures IsRoot(cs, n, r) <==> IsFirst(cands, n, r)
  {
    hide StartsAt, Before, RootAt, HasFields;
    if StartsAt(cs, r.clause, r.kind, r.block) {
      StartsInTable(cs, r.clause, r.kind, r.block);
      FieldsOfRoot(cs[r.clause], n, r);
    }
    if IsFirst(cands, n, r) {
      forall i: nat, kind | Before(i, kind, r.clause, r.kind)
        ensures !StartsAt(cs, i, kind, r.block)
      {
        if StartsAt(cs, i, kind, r.block) {
          var c := CandidateFor(cs, n, i, kind, r.block);
        }
      }
    }
  }

  lemma CandidateFor(cs: seq<Clause>, n: nat, i: nat, kind: RootKind, b: nat) returns (c: ExceptionRoot)
    requires StartsAt(cs, i, kind, b)
    ensures IsCandidate(cs, n, |cs|, c) && c.clause == i && c.kind == kind && c.block == b
  {
    c := RootAt(b, kind, cs[i], i, n);
  }

  lemma StartsInTable(cs: seq<Clause>, i: nat, kind: RootKind, b: nat)
    requires StartsAt(cs, i, kind, b)
    ensures i < |cs|
  {
  }

  lemma FieldsOfRoot(c: Clause, n: nat, r: ExceptionRoot)
    ensures r == RootAt(r.block, r.kind, c, r.clause, n) <==> HasFields(c, n, r)
  {
  }

  datatype FunctionRoots = FunctionRoots(flowRoots: seq<ExceptionRoot>, guards: set<nat>, protected: set<nat>)

  predicate Covers(region: Option<BlockRange>, b: nat) {
    region.Some? && region.value.start <= b < region.value.end
  }

  function RangeSet(lo: nat, hi: nat): (s: set<nat>)
    ensures forall b: nat :: b in s <==> lo <= b < hi
    decreases hi
  {
    if hi <= lo then {} else RangeSet(lo, hi - 1) + {hi - 1}
  }

  /** One of the first `k` clauses protects block `b`. */
  ghost predicate InRegion(cs: seq<Clause>, n: nat, k: nat, b: nat) {
    exists i ::
      && 0 <= i < k && i < |cs| && cs[i].protected.Some?
      && cs[i].protected.value.start <= b < cs[i].protected.value.end && b < n
  }

  /** One of the first `k` clauses has `b` for its first protected block. */
  ghost predicate IsGuard(cs: seq<Clause>, n: nat, k: nat, b: nat) {
    exists i :: 0 <= i < k && i < |cs| && cs[i].protected.Some? && cs[i].protected.value.start == b && b < n
  }

  lemma FirstsStep(cands: seq<ExceptionRoot>, c: ExceptionRoot, n: nat)
    ensures Firsts(cands + [c], n) ==
            if c.block < n && !Names(Firsts(cands, n), c.block) then Firsts(cands, n) + [c] else Firsts(cands, n)
  {
  }

  /** Each candidate in turn becomes a root unless its block is out of range or
      already has one. */
  method AddCandidates(cands: seq<ExceptionRoot>, n: nat, flow: seq<ExceptionRoot>, ghost all: seq<ExceptionRoot>)
    returns (flow': seq<ExceptionRoot>)
    requires flow == Firsts(all, n)
    ensures flow' == Firsts(all + cands, n)
  {
    hide Firsts;
    assert all + cands[..0] == all;
    flow' := flow;
    for k := 0 to |cands|
      invariant flow' == Firsts(all + cands[..k], n)
    {
      FirstsStep(all + cands[..k], cands[k], n);
      assert all + cands[..k + 1] == all + cands[..k] + [cands[k]];
      if cands[k].block < n && !Names(flow', cands[k].block) {
        flow' := flow' + [cands[k]];
      }
    }
    assert cands[..|cands|] == cands;
  }

  /** Reads the exception table of a function of `n` blocks. */
  method Of(cs: seq<Clause>, n: nat) returns (roots: FunctionRoots)
    ensures forall r :: r in roots.flowRoots <==> IsRoot(cs, n, r)
    ensures InTableOrder(roots.flowRoots) && DistinctBlocks(roots.flowRoots)
    ensures forall b: nat :: b in roots.protected <==> InRegion(cs, n, |cs|, b)
    ensures forall b: nat :: b in roots.guards <==> IsGuard(cs, n, |cs|, b)
  {
    hide Firsts, Candidates, ClippedRegion, GuardOf;
    var flow: seq<ExceptionRoot>, guards: set<nat>, protected: set<nat> := [], {}, {};
    NoCandidates(cs, n);
    for i := 0 to |cs|
      invariant flow == Firsts(AllCandidates(cs, n, i), n)
      invariant forall b: nat :: b in protected <==> InRegion(cs, n, i, b)
      invariant forall b: nat :: b in guards <==> IsGuard(cs, n, i, b)
    {
      ghost var p0, g0 := protected, guards;
      var region := ClippedRegion(cs[i], n);
      if region.Some? {
        protected := protected + RangeSet(region.value.start, region.value.end);
      }
      var guard := GuardOf(cs[i], n);
      if guard.Some? {
        guards := guards + {guard.value};
      }
      RegionsStep(cs, n, i, p0, protected, g0, guards);
      flow := AddCandidates(Candidates(cs[i], i, n), n, flow, AllCandidates(cs, n, i));
    }
    roots := FunctionRoots(flow, guards, protected);
    FirstsAreRoots(cs, n);
  }

  lemma NoCandidates(cs: seq<Clause>, n: nat)
    ensures Firsts(AllCandidates(cs, n, 0), n) == []
  {
  }

  lemma RegionsStep(cs: seq<Clause>, n: nat, i: nat, p: set<nat>, p': set<nat>, g: set<nat>, g': set<nat>)
    requires i < |cs|
    requires forall b: nat :: b in p <==> InRegion(cs, n, i, b)
    requires forall b: nat :: b in g <==> IsGuard(cs, n, i, b)
    requires forall b: nat :: b in p' <==> b in p || Covers(ClippedRegion(cs[i], n), b)
    requires forall b: nat :: b in g' <==> b in g || GuardOf(cs[i], n) == Some(b)
    ensures forall b: nat :: b in p' <==> InRegion(cs, n, i + 1, b)
    ensures forall b: nat :: b in g' <==> IsGuard(cs, n, i + 1, b)
  {
  }

  // ----- the flow that decides where a root's edge comes from

  /** The root's guard, when it names a block of the function. */
  predicate Guarded(roots: seq<ExceptionRoot>, i: nat, n: nat, g: nat) {
    i < |roots| && roots[i].guard == Some(g) && g < n
  }

  /** `s` holds the entry and is closed under terminator edges, under dispatch from
      a guard it holds, and under the roots in `fallen`, which hang off the entry. */
  ghost predicate ClosedFlow(t: Cfg, roots: seq<ExceptionRoot>, fallen: set<nat>, s: set<nat>) {
    && (t != [] ==> 0 in s)
    && (forall b, c :: b in s && Edge(t, b, c) ==> c in s)
    && (forall i: nat, g: nat :: Guarded(roots, i, |t|, g) && g in s ==> roots[i].block in s)
    && (forall i :: i in fallen && i < |roots| ==> roots[i].block in s)
  }

  /** The blocks control can reach when the roots in `fallen` hang off the entry and
      every other root waits for its guard. */
  ghost function Flow(t: Cfg, roots: seq<ExceptionRoot>, fallen: set<nat>): set<nat> {
    set b | b in Below(|t|) && forall s: set<nat> :: ClosedFlow(t, roots, fallen, s) ==> b in s
  }

  /** Root `i` cannot wait for its guard: it has none that `fallen` makes reachable. */
  ghost predicate FallsBack(t: Cfg, roots: seq<ExceptionRoot>, fallen: set<nat>, i: nat) {
    forall g: nat :: Guarded(roots, i, |t|, g) ==> g !in Flow(t, roots, fallen)
  }

  /** The roots among the first `k` whose edge comes from the entry, decided one
      after the other. */
  ghost function Fallen(t: Cfg, roots: seq<ExceptionRoot>, k: nat): (f: set<nat>)
    ensures forall i :: i in f ==> i < k
  {
    if k == 0 then {}
    else
      var f := Fallen(t, roots, k - 1);
      if FallsBack(t, roots, f, k - 1) then f + {k - 1} else f
  }

  /** Where the edge of root `i` comes from. */
  function SourceOf(roots: seq<ExceptionRoot>, fallen: set<nat>, i: nat): nat
    requires i < |roots|
  {
    if i in fallen || roots[i].guard.None? then 0 else roots[i].guard.value
  }

  lemma FlowHoldsSuccessor(t: Cfg, roots: seq<ExceptionRoot>, fallen: set<nat>, b: nat, c: nat)
    requires InRange(t) && b in Flow(t, roots, fallen) && Edge(t, b, c)
    ensures c in Flow(t, roots, fallen)
  {
  }

  lemma FlowHoldsRoot(t: Cfg, roots: seq<ExceptionRoot>, fallen: set<nat>, i: nat)
    requires i < |roots| && roots[i].block < |t|
    requires i in fallen || exists g: nat :: Guarded(roots, i, |t|, g) && g in Flow(t, roots, fallen)
    ensures roots[i].block in Flow(t, roots, fallen)
  {
  }

  /** More roots hanging off the entry reach no less. */
  lemma FlowGrows(t: Cfg, roots: seq<ExceptionRoot>, fallen: set<nat>, more: set<nat>)
    requires fallen <= more
    ensures Flow(t, roots, fallen) <= Flow(t, roots, more)
  {
  }

  // ----- the graph with exceptional edges

  datatype EhCfg = EhCfg(
    terminator: Cfg,
    roots: seq<ExceptionRoot>,
    extraSuccessors: seq<seq<nat>>,
    extraPredecessors: seq<seq<nat>>,
    edgeSources: set<nat>)
  {
    /** Successor lists including the synthesized edges. */
    function Graph(): Cfg {
      seq(|terminator|, (b: nat) =>
        if b < |terminator| && b < |extraSuccessors| then terminator[b] + extraSuccessors[b] else [])
    }
  }

  /** The synthesized edges are the wanted ones that no terminator edge doubles,
      once each, with their inverse and their tails. */
  ghost predicate ExtraOk(t: Cfg, want: set<(nat, nat)>, succ: seq<seq<nat>>, pred: seq<seq<nat>>, sources: set<nat>) {
    && |succ| == |pred| == |t|
    && (forall b: nat :: b < |t| ==> Distinct(succ[b]) && Distinct(pred[b]))
    && (forall b: nat, c: nat :: b < |t| ==> (c in succ[b] <==> (b, c) in want && c !in t[b]))
    && (forall b: nat, c: nat :: c < |t| ==> (b in pred[c] <==> b < |t| && c in succ[b]))
    && (forall b: nat :: b in sources <==> b < |t| && succ[b] != [])
  }

  lemma AttachShape(t: Cfg, want: set<(nat, nat)>, succ: seq<seq<nat>>, pred: seq<seq<nat>>, sources: set<nat>)
    requires ExtraOk(t, want, succ, pred, sources)
    ensures |succ| == |pred| == |t|
  {
  }

  lemma AttachedAlready(t: Cfg, want: set<(nat, nat)>, succ: seq<seq<nat>>, pred: seq<seq<nat>>, sources: set<nat>,
                        from: nat, to: nat)
    requires ExtraOk(t, want, succ, pred, sources) && from < |t|
    requires to in t[from] || to in succ[from]
    ensures ExtraOk(t, want + {(from, to)}, succ, pred, sources)
  {
  }

  lemma AttachKeeps(t: Cfg, want: set<(nat, nat)>, succ: seq<seq<nat>>, pred: seq<seq<nat>>, sources: set<nat>,
                    from: nat, to: nat)
    requires ExtraOk(t, want, succ, pred, sources) && from < |t| && to < |t| && to !in t[from] && to !in succ[from]
    ensures ExtraOk(t, want + {(from, to)}, succ[from := succ[from] + [to]], pred[to := pred[to] + [from]], sources + {from})
  {
    var succ', pred' := succ[from := succ[from] + [to]], pred[to := pred[to] + [from]];
    assert from !in pred[to];
    DistinctAppend(succ[from], to);
    DistinctAppend(pred[to], from);
    forall b: nat, c: nat
      ensures b < |t| ==> (c in succ'[b] <==> (b, c) in want + {(from, to)} && c !in t[b])
      ensures c < |t| ==> (b in pred'[c] <==> b < |t| && c in succ'[b])
    {
      assert b < |t| ==> (c in succ'[b] <==> c in succ[b] || (b == from && c == to));
      assert c < |t| ==> (b in pred'[c] <==> b in pred[c] || (b == from && c == to));
    }
  }

  lemma DistinctAppend(s: seq<nat>, x: nat)
    requires Distinct(s) && x !in s
    ensures Distinct(s + [x])
  {
  }

  /** Adds `from -> to` to both directions and marks its tail; an edge the terminators
      or an earlier call gave is left alone. */
  method Attach(from: nat, to: nat, t: Cfg, succ: seq<seq<nat>>, pred: seq<seq<nat>>, sources: set<nat>,
                ghost want: set<(nat, nat)>)
    returns (succ': seq<seq<nat>>, pred': seq<seq<nat>>, sources': set<nat>)
    requires from < |t| && to < |t| && ExtraOk(t, want, succ, pred, sources)
    ensures ExtraOk(t, want + {(from, to)}, succ', pred', sources')
  {
    hide ExtraOk;
    succ', pred', sources' := succ, pred, sources;
    AttachShape(t, want, succ, pred, sources);
    if to in t[from] || to in succ[from] {
      AttachedAlready(t, want, succ, pred, sources, from, to);
      return;
    }
    AttachKeeps(t, want, succ, pred, sources, from, to);
    succ' := succ[from := succ[from] + [to]];
    pred' := pred[to := pred[to] + [from]];
    sources' := sources + {from};
  }

  // ----- building it

  /** The roots attached so far and the pairs their edges join. */
  ghost predicate Wanted(roots: seq<ExceptionRoot>, fallen: set<nat>, attached: seq<bool>, want: set<(nat, nat)>) {
    && |attached| == |roots|
    && (forall i: nat :: i < |roots| && attached[i] ==> (SourceOf(roots, fallen, i), roots[i].block) in want)
    && (forall p :: p in want ==>
          exists i: nat :: i < |roots| && attached[i] && p == (SourceOf(roots, fallen, i), roots[i].block))
  }

  /** The traversal: `worklist` lists the reachable blocks, those before `cursor`
      have been expanded, except that the roots waiting on the blocks in `busy` may
      not all have been attached yet. */
  ghost predicate Draining(t: Cfg, roots: seq<ExceptionRoot>, fallen: set<nat>, reachable: set<nat>, worklist: seq<nat>,
                           cursor: nat, attached: seq<bool>, busy: set<nat>)
  {
    && |attached| == |roots| && cursor <= |worklist|
    && (t != [] ==> 0 in reachable)
    && (forall b :: b in reachable <==> b in worklist) && Distinct(worklist)
    && reachable <= Flow(t, roots, fallen)
    && (forall k, c: nat :: 0 <= k < cursor && Edge(t, worklist[k], c) ==> c in reachable)
    && (forall i: nat :: i < |roots| && attached[i] ==>
          roots[i].block in reachable && Justified(t, roots, fallen, reachable, i))
    && (forall i: nat :: i in fallen ==> i < |roots| && attached[i])
    && (forall k, i: nat :: 0 <= k < cursor && Guarded(roots, i, |t|, worklist[k]) && worklist[k] !in busy ==>
         attached[i])
  }

  /** An attached root hangs off the entry or off a reachable guard. */
  ghost predicate Justified(t: Cfg, roots: seq<ExceptionRoot>, fallen: set<nat>, reachable: set<nat>, i: nat) {
    i in fallen || exists g: nat :: Guarded(roots, i, |t|, g) && g in reachable
  }

  predicate RootsInRange(t: Cfg, roots: seq<ExceptionRoot>) {
    forall i :: 0 <= i < |roots| ==> roots[i].block < |t|
  }

  /** Adds a block to the traversal unless it is there. */
  method Reach(c: nat, reachable: set<nat>, worklist: seq<nat>, ghost t: Cfg, ghost roots: seq<ExceptionRoot>,
               ghost fallen: set<nat>, ghost cursor: nat, ghost attached: seq<bool>, ghost busy: set<nat>)
    returns (reachable': set<nat>, worklist': seq<nat>)
    requires Draining(t, roots, fallen, reachable, worklist, cursor, attached, busy) && c in Flow(t, roots, fallen)
    ensures Draining(t, roots, fallen, reachable', worklist', cursor, attached, busy)
    ensures reachable' == reachable + {c} && worklist <= worklist'
  {
    hide Flow;
    reachable', worklist' := reachable, worklist;
    if c !in reachable {
      reachable', worklist' := reachable + {c}, worklist + [c];
      forall i: nat | i < |roots| && attached[i]
        ensures Justified(t, roots, fallen, reachable', i)
      {
        assert Justified(t, roots, fallen, reachable, i);
      }
    }
  }

  /** Marks a root attached once its block is in the traversal. */
  lemma MarkAttached(t: Cfg, roots: seq<ExceptionRoot>, fallen: set<nat>, reachable: set<nat>, worklist: seq<nat>,
                     cursor: nat, attached: seq<bool>, busy: set<nat>, i: nat)
    requires Draining(t, roots, fallen, reachable, worklist, cursor, attached, busy)
    requires i < |roots| && roots[i].block in reachable && Justified(t, roots, fallen, reachable, i)
    ensures Draining(t, roots, fallen, reachable, worklist, cursor, attached[i := true], busy)
  {
  }

  lemma MarkWanted(roots: seq<ExceptionRoot>, fallen: set<nat>, attached: seq<bool>, want: set<(nat, nat)>, i: nat)
    requires Wanted(roots, fallen, attached, want) && i < |roots|
    ensures Wanted(roots, fallen, attached[i := true], want + {(SourceOf(roots, fallen, i), roots[i].block)})
  {
  }

  lemma Advance(t: Cfg, roots: seq<ExceptionRoot>, fallen: set<nat>, reachable: set<nat>, worklist: seq<nat>,
                cursor: nat, attached: seq<bool>)
    requires cursor < |worklist| && Draining(t, roots, fallen, reachable, worklist, cursor, attached, {})
    requires forall c: nat :: Edge(t, worklist[cursor], c) ==> c in reachable
    ensures Draining(t, roots, fallen, reachable, worklist, cursor + 1, attached, {worklist[cursor]})
  {
  }

  lemma Settle(t: Cfg, roots: seq<ExceptionRoot>, fallen: set<nat>, reachable: set<nat>, worklist: seq<nat>,
               cursor: nat, attached: seq<bool>, block: nat)
    requires Draining(t, roots, fallen, reachable, worklist, cursor, attached, {block})
    requires forall i: nat :: Guarded(roots, i, |t|, block) ==> attached[i]
    ensures Draining(t, roots, fallen, reachable, worklist, cursor, attached, {})
  {
  }

  /** The roots that wait for each guard. */
  ghost predicate Waits(t: Cfg, roots: seq<ExceptionRoot>, waiting: seq<seq<nat>>) {
    && |waiting| == |t|
    && forall g: nat, i: nat :: g < |t| ==> (i in waiting[g] <==> Guarded(roots, i, |t|, g))
  }

  method FillWaiting(t: Cfg, roots: seq<ExceptionRoot>) returns (waiting: seq<seq<nat>>)
    ensures Waits(t, roots, waiting)
  {
    waiting := seq(|t|, _ => []);
    for k := 0 to |roots|
      invariant |waiting| == |t|
      invariant forall g: nat, i: nat :: g < |t| ==> (i in waiting[g] <==> i < k && Guarded(roots, i, |t|, g))
    {
      match roots[k].guard {
        case Some(g) =>
          if g < |t| {
            waiting := waiting[g := waiting[g] + [k]];
          }
        case None =>
      }
    }
  }

  /** Terminator successors of a block that has just become reachable. */
  method ExpandSuccessors(t: Cfg, block: nat, reachable: set<nat>, worklist: seq<nat>, ghost roots: seq<ExceptionRoot>,
                          ghost fallen: set<nat>, ghost cursor: nat, ghost attached: seq<bool>)
    returns (reachable': set<nat>, worklist': seq<nat>)
    requires InRange(t) && cursor < |worklist| && block == worklist[cursor] && block < |t|
    requires Draining(t, roots, fallen, reachable, worklist, cursor, attached, {})
    ensures Draining(t, roots, fallen, reachable', worklist', cursor, attached, {}) && worklist <= worklist'
    ensures forall c: nat :: Edge(t, block, c) ==> c in reachable'
  {
    hide Flow, Draining;
    reachable', worklist' := reachable, worklist;
    BlockInFlow(t, roots, fallen, reachable, worklist, cursor, attached);
    for k := 0 to |t[block]|
      invariant Draining(t, roots, fallen, reachable', worklist', cursor, attached, {}) && worklist <= worklist'
      invariant forall j :: 0 <= j < k ==> t[block][j] in reachable'
    {
      FlowHoldsSuccessor(t, roots, fallen, block, t[block][k]);
      reachable', worklist' := Reach(t[block][k], reachable', worklist', t, roots, fallen, cursor, attached, {});
    }
  }

  lemma BlockInFlow(t: Cfg, roots: seq<ExceptionRoot>, fallen: set<nat>, reachable: set<nat>, worklist: seq<nat>,
                    cursor: nat, attached: seq<bool>)
    requires cursor < |worklist| && Draining(t, roots, fallen, reachable, worklist, cursor, attached, {})
    ensures worklist[cursor] in Flow(t, roots, fallen) && worklist[cursor] in reachable && worklist[cursor] < |t|
  {
  }

  /** Attaches the roots that were waiting for `block`. */
  method FireGuard(t: Cfg, roots: seq<ExceptionRoot>, block: nat, pending: seq<nat>, reachable: set<nat>,
                   worklist: seq<nat>, attached: seq<bool>, succ: seq<seq<nat>>, pred: seq<seq<nat>>, sources: set<nat>,
                   ghost fallen: set<nat>, ghost cursor: nat, ghost want: set<(nat, nat)>)
    returns (reachable': set<nat>, worklist': seq<nat>, attached': seq<bool>, succ': seq<seq<nat>>, pred': seq<seq<nat>>,
             sources': set<nat>, ghost want': set<(nat, nat)>)
    requires RootsInRange(t, roots) && block < |t| && block in Flow(t, roots, fallen) && block in reachable
    requires forall i: nat :: i in pending <==> Guarded(roots, i, |t|, block)
    requires Draining(t, roots, fallen, reachable, worklist, cursor, attached, {block})
    requires Wanted(roots, fallen, attached, want) && ExtraOk(t, want, succ, pred, sources)
    ensures Draining(t, roots, fallen, reachable', worklist', cursor, attached', {}) && worklist <= worklist'
    ensures Wanted(roots, fallen, attached', want') && ExtraOk(t, want', succ', pred', sources')
    ensures |attached'| == |attached| && forall i :: 0 <= i < |attached| && attached[i] ==> attached'[i]
  {
    hide Flow, Draining, Wanted, ExtraOk, Justified;
    reachable', worklist', attached', succ', pred', sources', want' :=
      reachable, worklist, attached, succ, pred, sources, want;
    DrainingSizes(t, roots, fallen, reachable, worklist, cursor, attached, {block});
    for k := 0 to |pending|
      invariant Draining(t, roots, fallen, reachable', worklist', cursor, attached', {block}) && worklist <= worklist'
      invariant Wanted(roots, fallen, attached', want') && ExtraOk(t, want', succ', pred', sources')
      invariant block in reachable' && |attached'| == |attached| == |roots|
      invariant forall i :: 0 <= i < |attached| && attached[i] ==> attached'[i]
      invariant forall j :: 0 <= j < k ==> pending[j] < |roots| && attached'[pending[j]]
    {
      var i := pending[k];
      assert i in pending && Guarded(roots, i, |t|, block);
      if !attached'[i] {
        NotFallen(t, roots, fallen, reachable', worklist', cursor, attached', {block}, i);
        succ', pred', sources' := Attach(block, roots[i].block, t, succ', pred', sources', want');
        MarkWanted(roots, fallen, attached', want', i);
        want' := want' + {(block, roots[i].block)};
        FlowHoldsRoot(t, roots, fallen, i);
        reachable', worklist' := Reach(roots[i].block, reachable', worklist', t, roots, fallen, cursor, attached', {block});
        JustifiedByGuard(t, roots, fallen, reachable', i, block);
        MarkAttached(t, roots, fallen, reachable', worklist', cursor, attached', {block}, i);
        attached' := attached'[i := true];
      }
    }
    Settle(t, roots, fallen, reachable', worklist', cursor, attached', block);
  }

  lemma JustifiedByGuard(t: Cfg, roots: seq<ExceptionRoot>, fallen: set<nat>, reachable: set<nat>, i: nat, g: nat)
    requires Guarded(roots, i, |t|, g) && g in reachable
    ensures Justified(t, roots, fallen, reachable, i)
  {
  }

  lemma DrainingSizes(t: Cfg, roots: seq<ExceptionRoot>, fallen: set<nat>, reachable: set<nat>, worklist: seq<nat>,
                      cursor: nat, attached: seq<bool>, busy: set<nat>)
    requires Draining(t, roots, fallen, reachable, worklist, cursor, attached, busy)
    ensures |attached| == |roots| && cursor <= |worklist| && (forall b :: b in reachable <==> b in worklist)
    ensures reachable <= Below(|t|) && Distinct(worklist)
  {
  }

  lemma NotFallen(t: Cfg, roots: seq<ExceptionRoot>, fallen: set<nat>, reachable: set<nat>, worklist: seq<nat>,
                  cursor: nat, attached: seq<bool>, busy: set<nat>, i: nat)
    requires Draining(t, roots, fallen, reachable, worklist, cursor, attached, busy)
    requires i < |roots| == |attached| && !attached[i]
    ensures i !in fallen
  {
  }

  /** Drains the traversal, attaching every root whose guard becomes reachable. */
  method Drain(t: Cfg, roots: seq<ExceptionRoot>, waiting: seq<seq<nat>>, reachable: set<nat>, worklist: seq<nat>,
               cursor: nat, attached: seq<bool>, succ: seq<seq<nat>>, pred: seq<seq<nat>>, sources: set<nat>,
               ghost fallen: set<nat>, ghost want: set<(nat, nat)>)
    returns (reachable': set<nat>, worklist': seq<nat>, cursor': nat, attached': seq<bool>, succ': seq<seq<nat>>,
             pred': seq<seq<nat>>, sources': set<nat>, ghost want': set<(nat, nat)>)
    requires InRange(t) && RootsInRange(t, roots) && Waits(t, roots, waiting)
    requires Draining(t, roots, fallen, reachable, worklist, cursor, attached, {})
    requires Wanted(roots, fallen, attached, want) && ExtraOk(t, want, succ, pred, sources)
    ensures Draining(t, roots, fallen, reachable', worklist', cursor', attached', {}) && cursor' == |worklist'|
    ensures Wanted(roots, fallen, attached', want') && ExtraOk(t, want', succ', pred', sources')
    ensures |attached'| == |attached| && forall i :: 0 <= i < |attached| && attached[i] ==> attached'[i]
  {
    hide Flow, Draining, Wanted, ExtraOk, Justified, InRange, RootsInRange;
    reachable', worklist', attached', succ', pred', sources', want' :=
      reachable, worklist, attached, succ, pred, sources, want;
    cursor' := cursor;
    DrainingSizes(t, roots, fallen, reachable', worklist', cursor', attached', {});
    while cursor' < |worklist'|
      invariant Draining(t, roots, fallen, reachable', worklist', cursor', attached', {}) && cursor' <= |worklist'|
      invariant Wanted(roots, fallen, attached', want') && ExtraOk(t, want', succ', pred', sources')
      invariant |attached'| == |attached| && forall i :: 0 <= i < |attached| && attached[i] ==> attached'[i]
      decreases |t| - cursor'
    {
      var block := worklist'[cursor'];
      BlockInFlow(t, roots, fallen, reachable', worklist', cursor', attached');
      WorklistFits(t, roots, fallen, reachable', worklist', cursor', attached', {});
      ghost var w0 := worklist';
      reachable', worklist' := ExpandSuccessors(t, block, reachable', worklist', roots, fallen, cursor', attached');
      assert worklist'[cursor'] == block;
      Advance(t, roots, fallen, reachable', worklist', cursor', attached');
      DrainingSizes(t, roots, fallen, reachable', worklist', cursor', attached', {});
      cursor' := cursor' + 1;
      reachable', worklist', attached', succ', pred', sources', want' :=
        FireGuard(t, roots, block, waiting[block], reachable', worklist', attached', succ', pred', sources', fallen,
                  cursor', want');
    }
  }

  lemma WorklistFits(t: Cfg, roots: seq<ExceptionRoot>, fallen: set<nat>, reachable: set<nat>, worklist: seq<nat>,
                     cursor: nat, attached: seq<bool>, busy: set<nat>)
    requires Draining(t, roots, fallen, reachable, worklist, cursor, attached, busy)
    ensures |worklist| <= |t|
  {
    DrainingSizes(t, roots, fallen, reachable, worklist, cursor, attached, busy);
    DistinctFit(worklist, Below(|t|));
  }

  /** Once drained, the reachable blocks are the flow, and a root is attached unless
      it must fall back. */
  lemma DrainedIsFlow(t: Cfg, roots: seq<ExceptionRoot>, fallen: set<nat>, reachable: set<nat>, worklist: seq<nat>,
                      attached: seq<bool>)
    requires Draining(t, roots, fallen, reachable, worklist, |worklist|, attached, {})
    ensures reachable == Flow(t, roots, fallen) && |attached| == |roots|
    ensures forall i: nat :: i < |roots| && i !in fallen ==> (attached[i] <==> !FallsBack(t, roots, fallen, i))
  {
  }

  /** Roots that need not fall back leave the decision as it stands. */
  lemma {:induction false} FallenSteady(t: Cfg, roots: seq<ExceptionRoot>, lo: nat, hi: nat)
    requires lo <= hi
    requires forall i: nat :: lo <= i < hi ==> !FallsBack(t, roots, Fallen(t, roots, lo), i)
    ensures Fallen(t, roots, hi) == Fallen(t, roots, lo)
    decreases hi
  {
    if lo < hi {
      FallenSteady(t, roots, lo, hi - 1);
    }
  }

  /** Hanging an unattached root off the entry. */
  lemma FallBackKeeps(t: Cfg, roots: seq<ExceptionRoot>, fallen: set<nat>, reachable: set<nat>, worklist: seq<nat>,
                      cursor: nat, attached: seq<bool>, i: nat)
    requires RootsInRange(t, roots) && i < |roots| && |attached| == |roots| && !attached[i]
    requires Draining(t, roots, fallen, reachable, worklist, cursor, attached, {})
    ensures Draining(t, roots, fallen + {i}, reachable + {roots[i].block},
                     if roots[i].block in reachable then worklist else worklist + [roots[i].block], cursor,
                     attached[i := true], {})
  {
    var more := fallen + {i};
    FlowGrows(t, roots, fallen, more);
    FlowHoldsRoot(t, roots, more, i);
    hide Flow, Draining, Falling;
    ReachFalling(t, roots, fallen, more, reachable, worklist, cursor, attached, i);
    MarkFalling(t, roots, more, reachable + {roots[i].block},
                if roots[i].block in reachable then worklist else worklist + [roots[i].block], cursor, attached, i);
  }

  /** A traversal state but for the mark of root `i`, which is about to be set. */
  ghost predicate Falling(t: Cfg, roots: seq<ExceptionRoot>, more: set<nat>, reachable: set<nat>, worklist: seq<nat>,
                          cursor: nat, attached: seq<bool>, i: nat)
  {
    && |attached| == |roots| && i < |roots| && i in more && cursor <= |worklist|
    && (t != [] ==> 0 in reachable)
    && (forall b :: b in reachable <==> b in worklist) && Distinct(worklist)
    && reachable <= Flow(t, roots, more) && roots[i].block in reachable
    && (forall k, c: nat :: 0 <= k < cursor && Edge(t, worklist[k], c) ==> c in reachable)
    && (forall j: nat :: j < |roots| && attached[j] ==>
          roots[j].block in reachable && Justified(t, roots, more, reachable, j))
    && (forall j: nat :: j in more ==> j == i || (j < |roots| && attached[j]))
    && (forall k, j: nat :: 0 <= k < cursor && Guarded(roots, j, |t|, worklist[k]) ==> attached[j])
  }

  lemma JustifiedGrows(t: Cfg, roots: seq<ExceptionRoot>, fallen: set<nat>, more: set<nat>, reachable: set<nat>,
                       reachable': set<nat>, attached: seq<bool>)
    requires |attached| == |roots| && fallen <= more && reachable <= reachable'
    requires forall j: nat :: j < |roots| && attached[j] ==>
               roots[j].block in reachable && Justified(t, roots, fallen, reachable, j)
    ensures forall j: nat :: j < |roots| && attached[j] ==>
              roots[j].block in reachable' && Justified(t, roots, more, reachable', j)
  {
  }

  lemma VisitAppend(s: seq<nat>, reachable: set<nat>, b: nat)
    requires Distinct(s) && (forall c :: c in reachable <==> c in s) && b !in reachable
    ensures Distinct(s + [b]) && (forall c :: c in reachable + {b} <==> c in s + [b])
  {
  }

  lemma ReachFalling(t: Cfg, roots: seq<ExceptionRoot>, fallen: set<nat>, more: set<nat>, reachable: set<nat>,
                     worklist: seq<nat>, cursor: nat, attached: seq<bool>, i: nat)
    requires i < |roots| && more == fallen + {i}
    requires Draining(t, roots, fallen, reachable, worklist, cursor, attached, {})
    requires Flow(t, roots, fallen) <= Flow(t, roots, more) && roots[i].block in Flow(t, roots, more)
    ensures Falling(t, roots, more, reachable + {roots[i].block},
                    if roots[i].block in reachable then worklist else worklist + [roots[i].block], cursor, attached, i)
  {
    hide Flow, Justified, Guarded, Edge, Distinct;
    var b := roots[i].block;
    JustifiedGrows(t, roots, fallen, more, reachable, reachable + {b}, attached);
    if b in reachable {
      assert reachable + {b} == reachable;
    } else {
      VisitAppend(worklist, reachable, b);
    }
  }

  lemma MarkFalling(t: Cfg, roots: seq<ExceptionRoot>, more: set<nat>, reachable: set<nat>, worklist: seq<nat>,
                    cursor: nat, attached: seq<bool>, i: nat)
    requires Falling(t, roots, more, reachable, worklist, cursor, attached, i)
    ensures Draining(t, roots, more, reachable, worklist, cursor, attached[i := true], {})
  {
  }

  lemma FallBackWanted(roots: seq<ExceptionRoot>, fallen: set<nat>, attached: seq<bool>, want: set<(nat, nat)>, i: nat)
    requires Wanted(roots, fallen, attached, want) && i < |roots| && !attached[i]
    ensures Wanted(roots, fallen + {i}, attached[i := true], want + {(0, roots[i].block)})
  {
  }

  /** The pairs all roots' edges join. */
  ghost function RootEdges(roots: seq<ExceptionRoot>, fallen: set<nat>): set<(nat, nat)> {
    set i | 0 <= i < |roots| :: (SourceOf(roots, fallen, i), roots[i].block)
  }

  /** The exception-aware view of a function: every root has one edge, from its
      guard or from the entry, unless the terminators already have it. */
  ghost predicate IsEhCfg(t: Cfg, roots: seq<ExceptionRoot>, eh: EhCfg) {
    && eh.terminator == t && eh.roots == roots
    && ExtraOk(t, RootEdges(roots, Fallen(t, roots, |roots|)), eh.extraSuccessors, eh.extraPredecessors, eh.edgeSources)
  }

  method NewEhCfg(t: Cfg, roots: seq<ExceptionRoot>) returns (eh: EhCfg)
    requires InRange(t) && RootsInRange(t, roots)
    ensures IsEhCfg(t, roots, eh)
  {
    hide Flow, Draining, Wanted, ExtraOk, Justified, InRange, FallsBack, Fallen;
    var succ: seq<seq<nat>> := seq(|t|, _ => []);
    var pred: seq<seq<nat>> := seq(|t|, _ => []);
    var sources: set<nat> := {};
    var reachable: set<nat>, worklist: seq<nat> := {}, [];
    if |t| > 0 {
      reachable, worklist := {0}, [0];
    }
    var waiting := FillWaiting(t, roots);
    var attached: seq<bool> := seq(|roots|, _ => false);
    ghost var want: set<(nat, nat)> := {};
    ghost var fallen: set<nat>, decided := {}, 0;
    StartState(t, roots, reachable, worklist, attached, succ, pred);
    var cursor := 0;
    while true
      invariant Draining(t, roots, fallen, reachable, worklist, cursor, attached, {})
      invariant Wanted(roots, fallen, attached, want) && ExtraOk(t, want, succ, pred, sources)
      invariant decided <= |roots| == |attached| && fallen == Fallen(t, roots, decided)
      invariant forall i :: 0 <= i < decided ==> attached[i]
      decreases |roots| - decided
    {
      reachable, worklist, cursor, attached, succ, pred, sources, want :=
        Drain(t, roots, waiting, reachable, worklist, cursor, attached, succ, pred, sources, fallen, want);
      DrainedIsFlow(t, roots, fallen, reachable, worklist, attached);
      var index := 0;
      while index < |roots| && attached[index]
        invariant decided <= |roots| && index <= |roots| && forall i :: 0 <= i < index ==> attached[i]
      {
        index := index + 1;
      }
      if index == |roots| {
        DecidedSteady(t, roots, decided, |roots|, attached);
        break;
      }
      assert decided <= index;
      DecidedSteady(t, roots, decided, index, attached);
      DecidedFalls(t, roots, index, attached);
      NotFallen(t, roots, fallen, reachable, worklist, cursor, attached, {}, index);
      succ, pred, sources := Attach(0, roots[index].block, t, succ, pred, sources, want);
      FallBackWanted(roots, fallen, attached, want, index);
      FallBackKeeps(t, roots, fallen, reachable, worklist, cursor, attached, index);
      want := want + {(0, roots[index].block)};
      attached := attached[index := true];
      if roots[index].block !in reachable {
        worklist := worklist + [roots[index].block];
      }
      reachable := reachable + {roots[index].block};
      fallen, decided := fallen + {index}, index + 1;
    }
    eh := EhCfg(t, roots, succ, pred, sources);
    AllAttached(roots, fallen, attached, want);
  }

  lemma StartState(t: Cfg, roots: seq<ExceptionRoot>, reachable: set<nat>, worklist: seq<nat>, attached: seq<bool>,
                   succ: seq<seq<nat>>, pred: seq<seq<nat>>)
    requires if |t| > 0 then reachable == {0} && worklist == [0] else reachable == {} && worklist == []
    requires |attached| == |roots| && forall i :: 0 <= i < |attached| ==> !attached[i]
    requires |succ| == |pred| == |t| && forall b :: 0 <= b < |t| ==> succ[b] == [] && pred[b] == []
    ensures Draining(t, roots, {}, reachable, worklist, 0, attached, {})
    ensures Wanted(roots, {}, attached, {}) && ExtraOk(t, {}, succ, pred, {})
    ensures Fallen(t, roots, 0) == {}
  {
  }

  lemma DecidedSteady(t: Cfg, roots: seq<ExceptionRoot>, lo: nat, hi: nat, attached: seq<bool>)
    requires lo <= hi <= |roots| == |attached| && forall i :: 0 <= i < hi ==> attached[i]
    requires forall i: nat :: i < |roots| && i !in Fallen(t, roots, lo) ==>
               (attached[i] <==> !FallsBack(t, roots, Fallen(t, roots, lo), i))
    ensures Fallen(t, roots, hi) == Fallen(t, roots, lo)
  {
  }

  lemma DecidedFalls(t: Cfg, roots: seq<ExceptionRoot>, i: nat, attached: seq<bool>)
    requires i < |roots| == |attached| && !attached[i]
    requires forall j: nat :: j < |roots| && j !in Fallen(t, roots, i) ==>
               (attached[j] <==> !FallsBack(t, roots, Fallen(t, roots, i), j))
    ensures Fallen(t, roots, i + 1) == Fallen(t, roots, i) + {i}
  {
  }

  lemma AllAttached(roots: seq<ExceptionRoot>, fallen: set<nat>, attached: seq<bool>, want: set<(nat, nat)>)
    requires Wanted(roots, fallen, attached, want) && forall i :: 0 <= i < |attached| ==> attached[i]
    ensures want == RootEdges(roots, fallen)
  {
  }

  // ----- what the view guarantees

  lemma GraphEdges(t: Cfg, roots: seq<ExceptionRoot>, eh: EhCfg, b: nat, c: nat)
    requires IsEhCfg(t, roots, eh)
    ensures |eh.Graph()| == |t|
    ensures Edge(eh.Graph(), b, c) <==>
              Edge(t, b, c) || (b < |t| && (b, c) in RootEdges(roots, Fallen(t, roots, |roots|)))
  {
  }

  /** Every root is reachable from the entry, over an edge from its guard when the
      guard can be reached before the root has to fall back, and from the entry
      otherwise. */
  lemma RootsAreReachable(t: Cfg, roots: seq<ExceptionRoot>, eh: EhCfg, i: nat)
    requires InRange(t) && RootsInRange(t, roots) && IsEhCfg(t, roots, eh) && i < |roots|
    ensures var src := SourceOf(roots, Fallen(t, roots, |roots|), i);
      Reachable(eh.Graph(), src) && Edge(eh.Graph(), src, roots[i].block)
    ensures Reachable(eh.Graph(), roots[i].block)
    ensures i in Fallen(t, roots, |roots|) <==> FallsBack(t, roots, Fallen(t, roots, i), i)
  {
    var fallen := Fallen(t, roots, |roots|);
    var g := eh.Graph();
    FallenAt(t, roots, i, |roots|);
    FlowReachable(t, roots, eh);
    var src := SourceOf(roots, fallen, i);
    if i !in fallen {
      FallenPrefix(t, roots, i, |roots|);
      FlowGrows(t, roots, Fallen(t, roots, i), fallen);
      var c: nat :| Guarded(roots, i, |t|, c) && c in Flow(t, roots, Fallen(t, roots, i));
      assert src == c;
    } else {
      EntryReachable(g);
    }
    hide Flow, Fallen, FallsBack;
    assert src < |t|;
    assert (src, roots[i].block) in RootEdges(roots, fallen);
    GraphEdges(t, roots, eh, src, roots[i].block);
    ReachesStep(g, 0, src, roots[i].block);
  }

  lemma {:induction false} FallenPrefix(t: Cfg, roots: seq<ExceptionRoot>, lo: nat, hi: nat)
    requires lo <= hi
    ensures Fallen(t, roots, lo) <= Fallen(t, roots, hi)
    decreases hi
  {
    if lo < hi {
      FallenPrefix(t, roots, lo, hi - 1);
    }
  }

  lemma {:induction false} FallenAt(t: Cfg, roots: seq<ExceptionRoot>, i: nat, k: nat)
    requires i < k
    ensures i in Fallen(t, roots, k) <==> FallsBack(t, roots, Fallen(t, roots, i), i)
    decreases k
  {
    hide FallsBack;
    if i < k - 1 {
      FallenAt(t, roots, i, k - 1);
    }
  }

  /** All that the traversal reaches is reachable in the finished graph. */
  lemma FlowReachable(t: Cfg, roots: seq<ExceptionRoot>, eh: EhCfg)
    requires InRange(t) && RootsInRange(t, roots) && IsEhCfg(t, roots, eh)
    ensures forall b :: b in Flow(t, roots, Fallen(t, roots, |roots|)) ==> Reachable(eh.Graph(), b)
  {
    var fallen := Fallen(t, roots, |roots|);
    var g := eh.Graph();
    hide Fallen, FallsBack;
    var s := set b | b in Below(|t|) && Reachable(g, b);
    EntryReachable(g);
    forall b, c | b in s && Edge(t, b, c)
      ensures c in s
    {
      GraphEdges(t, roots, eh, b, c);
      EdgeInRange(t, b, c);
      ReachesStep(g, 0, b, c);
    }
    forall i: nat | i < |roots| && t != [] && (i in fallen || exists c: nat :: Guarded(roots, i, |t|, c) && c in s)
      ensures roots[i].block in s
    {
      var src := SourceOf(roots, fallen, i);
      assert src in s;
      assert (src, roots[i].block) in RootEdges(roots, fallen);
      GraphEdges(t, roots, eh, src, roots[i].block);
      ReachesStep(g, 0, src, roots[i].block);
    }
    assert ClosedFlow(t, roots, fallen, s);
  }

  // ----- where the edges come from, read off the roots

  /** Control can step from `b` to `c`: over a terminator edge, from a guard to its
      root, or from the entry to a root in `fallen`. */
  ghost predicate FlowStep(t: Cfg, roots: seq<ExceptionRoot>, fallen: set<nat>, b: nat, c: nat) {
    || (b < |t| && c in t[b])
    || (exists i :: 0 <= i < |roots| && roots[i].block == c && roots[i].guard == Some(b) && b < |t|)
    || (b == 0 && exists i :: 0 <= i < |roots| && roots[i].block == c && i in fallen)
  }

  ghost predicate IsFlowPath(t: Cfg, roots: seq<ExceptionRoot>, fallen: set<nat>, b: nat, p: seq<nat>) {
    && p != [] && p[0] == 0 && 0 < |t| && p[|p| - 1] == b
    && forall k :: 0 <= k < |p| - 1 ==> FlowStep(t, roots, fallen, p[k], p[k + 1])
  }

  ghost predicate FlowsTo(t: Cfg, roots: seq<ExceptionRoot>, fallen: set<nat>, b: nat) {
    exists p: seq<nat> :: IsFlowPath(t, roots, fallen, b, p)
  }

  lemma FlowPathGrows(t: Cfg, roots: seq<ExceptionRoot>, fallen: set<nat>, b: nat, c: nat, p: seq<nat>)
    requires IsFlowPath(t, roots, fallen, b, p) && FlowStep(t, roots, fallen, b, c)
    ensures FlowsTo(t, roots, fallen, c)
  {
    hide FlowStep;
    var q := p + [c];
    forall k | 0 <= k < |q| - 1
      ensures FlowStep(t, roots, fallen, q[k], q[k + 1])
    {
      if k < |p| - 1 {
        assert q[k] == p[k] && q[k + 1] == p[k + 1];
      }
    }
    assert IsFlowPath(t, roots, fallen, c, q);
  }

  lemma FlowsOn(t: Cfg, roots: seq<ExceptionRoot>, fallen: set<nat>, b: nat, c: nat)
    requires FlowsTo(t, roots, fallen, b) && FlowStep(t, roots, fallen, b, c)
    ensures FlowsTo(t, roots, fallen, c)
  {
    hide FlowStep, IsFlowPath;
    var p: seq<nat> :| IsFlowPath(t, roots, fallen, b, p);
    FlowPathGrows(t, roots, fallen, b, c, p);
  }

  lemma ClosedTakesStep(t: Cfg, roots: seq<ExceptionRoot>, fallen: set<nat>, s: set<nat>, b: nat, c: nat)
    requires ClosedFlow(t, roots, fallen, s) && b in s && FlowStep(t, roots, fallen, b, c)
    ensures c in s
  {
    if !(b < |t| && c in t[b]) && exists i :: 0 <= i < |roots| && roots[i].block == c && roots[i].guard == Some(b) && b < |t| {
      var i :| 0 <= i < |roots| && roots[i].block == c && roots[i].guard == Some(b) && b < |t|;
      assert Guarded(roots, i, |t|, b);
    } else if b < |t| && c in t[b] {
      assert Edge(t, b, c);
    }
  }

  lemma {:induction false} ClosedHoldsPath(t: Cfg, roots: seq<ExceptionRoot>, fallen: set<nat>, s: set<nat>, b: nat,
                                           p: seq<nat>)
    requires ClosedFlow(t, roots, fallen, s) && IsFlowPath(t, roots, fallen, b, p)
    ensures b in s
    decreases |p|
  {
    hide FlowStep;
    if |p| > 1 {
      var q := p[..|p| - 1];
      forall k | 0 <= k < |q| - 1
        ensures FlowStep(t, roots, fallen, q[k], q[k + 1])
      {
        assert FlowStep(t, roots, fallen, p[k], p[k + 1]);
      }
      ClosedHoldsPath(t, roots, fallen, s, q[|q| - 1], q);
      assert FlowStep(t, roots, fallen, p[|p| - 2], p[|p| - 1]);
      ClosedTakesStep(t, roots, fallen, s, q[|q| - 1], b);
    }
  }

  /** The flow is what paths of such steps lead to. */
  lemma FlowIsPaths(t: Cfg, roots: seq<ExceptionRoot>, fallen: set<nat>, b: nat)
    requires InRange(t) && RootsInRange(t, roots)
    ensures b in Flow(t, roots, fallen) <==> FlowsTo(t, roots, fallen, b)
  {
    hide FlowStep, IsFlowPath, ClosedFlow, FlowsTo;
    var s := set x | x in Below(|t|) && FlowsTo(t, roots, fallen, x);
    PathsAreClosed(t, roots, fallen, s);
    AllIsClosed(t, roots, fallen);
    if FlowsTo(t, roots, fallen, b) {
      PathEndsInFlow(t, roots, fallen, b);
    }
  }

  lemma PathEndsInFlow(t: Cfg, roots: seq<ExceptionRoot>, fallen: set<nat>, b: nat)
    requires FlowsTo(t, roots, fallen, b) && ClosedFlow(t, roots, fallen, Below(|t|))
    ensures b in Flow(t, roots, fallen)
  {
    hide IsFlowPath, ClosedFlow;
    var p: seq<nat> :| IsFlowPath(t, roots, fallen, b, p);
    ClosedHoldsPath(t, roots, fallen, Below(|t|), b, p);
    forall c: set<nat> | ClosedFlow(t, roots, fallen, c)
      ensures b in c
    {
      ClosedHoldsPath(t, roots, fallen, c, b, p);
    }
  }

  lemma AllIsClosed(t: Cfg, roots: seq<ExceptionRoot>, fallen: set<nat>)
    requires InRange(t) && RootsInRange(t, roots)
    ensures ClosedFlow(t, roots, fallen, Below(|t|))
  {
  }

  lemma PathsAreClosed(t: Cfg, roots: seq<ExceptionRoot>, fallen: set<nat>, s: set<nat>)
    requires InRange(t) && RootsInRange(t, roots)
    requires forall x: nat :: x in s <==> x < |t| && FlowsTo(t, roots, fallen, x)
    ensures ClosedFlow(t, roots, fallen, s)
  {
    hide FlowsTo, IsFlowPath;
    if t != [] {
      StartsAtEntry(t, roots, fallen);
    }
    forall b, c | b in s && Edge(t, b, c)
      ensures c in s
    {
      FlowsOn(t, roots, fallen, b, c);
      EdgeInRange(t, b, c);
    }
    forall i: nat, g: nat | Guarded(roots, i, |t|, g) && g in s
      ensures roots[i].block in s
    {
      FlowsOn(t, roots, fallen, g, roots[i].block);
    }
    forall i | i in fallen && i < |roots|
      ensures roots[i].block in s
    {
      FlowsOn(t, roots, fallen, 0, roots[i].block);
    }
  }

  lemma StartsAtEntry(t: Cfg, roots: seq<ExceptionRoot>, fallen: set<nat>)
    requires t != []
    ensures FlowsTo(t, roots, fallen, 0)
  {
    assert IsFlowPath(t, roots, fallen, 0, [0]);
  }

  /** Root `i` hangs off the entry: it has no guard, or none of the function, or none that
      control can come to when only the roots before it that hang off the entry do. */
  ghost predicate HangsOffEntry(t: Cfg, roots: seq<ExceptionRoot>, fallen: set<nat>, i: nat)
    requires i < |roots|
  {
    || roots[i].guard.None? || roots[i].guard.value >= |t|
    || !FlowsTo(t, roots, (set j | j in fallen && j < i), roots[i].guard.value)
  }

  /** The edges of the view: those of the terminators, and for each root one from its
      guard, or from the entry if the root hangs off it, which is decided root by root. */
  lemma ViewIsExact(t: Cfg, roots: seq<ExceptionRoot>, eh: EhCfg) returns (fallen: set<nat>)
    requires InRange(t) && RootsInRange(t, roots) && IsEhCfg(t, roots, eh)
    ensures forall i: nat :: i < |roots| ==> (i in fallen <==> HangsOffEntry(t, roots, fallen, i))
    ensures forall b: nat, c: nat :: Edge(eh.Graph(), b, c) <==>
              || (b < |t| && c in t[b])
              || exists i :: 0 <= i < |roots| && roots[i].block == c
                             && if i in fallen then b == 0 && t != [] else roots[i].guard == Some(b)
  {
    fallen := Fallen(t, roots, |roots|);
    hide Flow, Fallen, FlowsTo, FallsBack, IsEhCfg;
    forall i: nat | i < |roots|
      ensures i in fallen <==> HangsOffEntry(t, roots, fallen, i)
    {
      HangsIff(t, roots, i);
    }
    forall b: nat, c: nat
      ensures Edge(eh.Graph(), b, c) <==>
              || (b < |t| && c in t[b])
              || exists i :: 0 <= i < |roots| && roots[i].block == c
                             && if i in fallen then b == 0 && t != [] else roots[i].guard == Some(b)
    {
      GraphEdges(t, roots, eh, b, c);
    }
  }

  lemma HangsIff(t: Cfg, roots: seq<ExceptionRoot>, i: nat)
    requires InRange(t) && RootsInRange(t, roots) && i < |roots|
    ensures i in Fallen(t, roots, |roots|) <==> HangsOffEntry(t, roots, Fallen(t, roots, |roots|), i)
  {
    var fallen := Fallen(t, roots, |roots|);
    hide Flow, Fallen, FlowsTo;
    FallenAt(t, roots, i, |roots|);
    FallenBelow(t, roots, i, |roots|);
    var before := set j | j in fallen && j < i;
    assert before == Fallen(t, roots, i);
    if roots[i].guard.Some? {
      FlowIsPaths(t, roots, before, roots[i].guard.value);
      assert Guarded(roots, i, |t|, roots[i].guard.value) <==> roots[i].guard.value < |t|;
    }
  }

  lemma {:induction false} FallenBelow(t: Cfg, roots: seq<ExceptionRoot>, i: nat, k: nat)
    requires i <= k
    ensures forall j :: j in Fallen(t, roots, i) <==> j in Fallen(t, roots, k) && j < i
    decreases k
  {
    hide FallsBack;
    if i < k {
      FallenBelow(t, roots, i, k - 1);
    }
  }

  /** Without roots the view is the terminator relation. */
  lemma NoRootsNoEdges(t: Cfg, eh: EhCfg)
    requires IsEhCfg(t, [], eh)
    ensures eh.Graph() == t && eh.edgeSources == {}
  {
    forall b: nat | b < |t|
      ensures eh.Graph()[b] == t[b] && eh.extraSuccessors[b] == []
    {
      if eh.extraSuccessors[b] != [] {
        assert eh.extraSuccessors[b][0] in eh.extraSuccessors[b];
      }
    }
  }
}
