/** Memory SSA construction: src/analysis/memory.rs, phases two and three.

    Locations are the interned ids of `ordered_locations`.  The graph is the
    exception-aware one, the dominator tree and the frontier rows are inputs with
    a contract, and every name below is that of the program unless a comment says
    otherwise.
  */
module MemorySsa {
  import opened Graph
  import Closure

  type Loc = nat

  /** One instruction: no memory operation, a load, or an operation that defines
      its location. */
  datatype MemOp = NoMemory | Read(loc: Loc) | Write(loc: Loc)

  /** The protected region of a flow root, when its extent is known. */
  datatype Region = Unbounded | Blocks(lo: nat, hi: nat)

  datatype Function = Function(
    graph: Cfg,
    blocks: seq<seq<MemOp>>,
    locations: nat,
    alias: set<(Loc, Loc)>,
    roots: map<nat, Region>)
  {
    ghost predicate Valid() {
      && InRange(graph) && graph != [] && |blocks| == |graph|
      && forall b, i :: 0 <= b < |blocks| && 0 <= i < |blocks[b]| && blocks[b][i].Write? ==>
           blocks[b][i].loc < locations
    }

    /** The operation gives `l` a new version: it defines a location `l` may
        alias. */
    predicate Clobbers(op: MemOp, l: Loc) {
      op.Write? && (l, op.loc) in alias
    }

    /** Index of the last operation that clobbers `l`, or -1. */
    function LastClobber(ops: seq<MemOp>, l: Loc): (i: int)
      ensures -1 <= i < |ops|
      ensures i >= 0 ==> Clobbers(ops[i], l)
      ensures forall j :: i < j < |ops| ==> !Clobbers(ops[j], l)
    {
      if ops == [] then -1
      else if Clobbers(ops[|ops| - 1], l) then |ops| - 1
      else LastClobber(ops[..|ops| - 1], l)
    }

    /** The operations that clobber `l`, in order. */
    function ClobbersOf(ops: seq<MemOp>, l: Loc): (cs: seq<nat>)
      ensures forall k :: 0 <= k < |cs| ==> cs[k] < |ops|
      ensures forall j, k :: 0 <= j < k < |cs| ==> cs[j] < cs[k]
    {
      if ops == [] then []
      else
        var front, last := ops[..|ops| - 1], ops[|ops| - 1];
        var before, more := ClobbersOf(front, l), if Clobbers(last, l) then [|front|] else [];
        before + more
    }

    lemma {:induction false} ClobbersAre(ops: seq<MemOp>, l: Loc, i: nat)
      ensures i in ClobbersOf(ops, l) <==> i < |ops| && Clobbers(ops[i], l)
    {
      if ops != [] {
        var front, last := ops[..|ops| - 1], ops[|ops| - 1];
        ClobbersAre(front, l, i);
        var before, more := ClobbersOf(front, l), if Clobbers(last, l) then [|front|] else [];
        assert i in before + more <==> i in before || i in more;
      }
    }

    predicate DefinesIn(b: nat, l: Loc) {
      b < |blocks| && LastClobber(blocks[b], l) >= 0
    }

    ghost function DefBlocks(l: Loc): set<nat> {
      set b | 0 <= b < |blocks| && DefinesIn(b, l)
    }
  }

  /** The dominator tree handed to both phases. */
  datatype DomTree = DomTree(idom: seq<nat>, children: seq<seq<nat>>)

  ghost predicate IsDomTree(g: Cfg, t: DomTree) {
    && |t.idom| == |t.children| == |g|
    && (forall b :: 0 < b < |g| && Reachable(g, b) ==>
          t.idom[b] < |g| && IsIdom(g, t.idom[b], b) && b in t.children[t.idom[b]])
    && (forall d, k :: 0 <= d < |g| && 0 <= k < |t.children[d]| ==>
          var b := t.children[d][k]; 0 < b < |g| && Reachable(g, b) && t.idom[b] == d)
  }

  /** The dominance frontier as `compute_dominance_frontiers` fills it: the
      textbook relation, except that a block with fewer than two incoming edges
      is in no row. */
  ghost predicate InFrontier(g: Cfg, x: nat, b: nat) {
    && IsJoin(g, b)
    && !StrictlyDominates(g, x, b)
    && exists p :: Edge(g, p, b) && Dominates(g, x, p)
  }

  ghost predicate AreFrontiers(g: Cfg, rows: Closure.Rows) {
    && |rows| == |g|
    && forall x, b :: 0 <= x < |g| ==> (b in rows[x] <==> InFrontier(g, x, b))
  }

  // ----- the result

  datatype DefSite = Entry | Store(block: nat, instr: nat) | Phi(block: nat) | ExceptionEntry(block: nat)

  datatype PhiOperand = PhiOperand(predecessor: nat, version: nat)

  datatype MemoryPhi = MemoryPhi(location: Loc, version: nat, operands: seq<PhiOperand>)

  type Phis = map<nat, seq<MemoryPhi>>

  type Definitions = map<(Loc, nat), DefSite>

  type Versions = map<(Loc, nat), nat>

  function PhisAt(phis: Phis, b: nat): seq<MemoryPhi> {
    if b in phis then phis[b] else []
  }

  ghost predicate HasPhi(phis: Phis, b: nat, l: Loc) {
    exists i :: 0 <= i < |PhisAt(phis, b)| && PhisAt(phis, b)[i].location == l
  }

  ghost function PhiBlocks(phis: Phis, l: Loc): set<nat> {
    set b | b in phis && HasPhi(phis, b, l)
  }

  /** No block carries two phis for one location. */
  ghost predicate OnePhiEach(phis: Phis) {
    forall b, i, j :: 0 <= i < j < |PhisAt(phis, b)| ==> PhisAt(phis, b)[i].location != PhisAt(phis, b)[j].location
  }

  /** A phi names a location of the function, and its version is recorded as
      defined by a phi at its block. */
  ghost predicate PhisDefined(f: Function, phis: Phis, defs: Definitions) {
    forall b, i :: 0 <= i < |PhisAt(phis, b)| ==>
      var phi := PhisAt(phis, b)[i];
      phi.location < f.locations && (phi.location, phi.version) in defs && defs[(phi.location, phi.version)] == Phi(b)
  }

  ghost predicate PhisAtFrontier(f: Function, rows: Closure.Rows, phis: Phis, l: Loc) {
    Closure.IsLeastClosed(rows, f.DefBlocks(l), PhiBlocks(phis, l))
  }

  /** Phis stand exactly at the iterated frontier of each location's definition
      blocks, once each, and their versions are recorded as theirs. */
  ghost predicate PhisPlaced(f: Function, rows: Closure.Rows, phis: Phis, defs: Definitions) {
    && OnePhiEach(phis)
    && PhisDefined(f, phis, defs)
    && forall l: Loc :: l < f.locations ==> PhisAtFrontier(f, rows, phis, l)
  }

  // ----- version allocation

  function NextOf(next: map<Loc, nat>, l: Loc): nat {
    if l in next then next[l] else 0
  }

  /** Every recorded version is below its location's counter. */
  ghost predicate Allocated(next: map<Loc, nat>, defs: Definitions) {
    forall l, v :: (l, v) in defs ==> v < NextOf(next, l)
  }

  function AddPhi(phis: Phis, b: nat, phi: MemoryPhi): Phis {
    phis[b := PhisAt(phis, b) + [phi]]
  }

  lemma AddPhiBlocks(phis: Phis, b: nat, phi: MemoryPhi, l: Loc)
    ensures PhiBlocks(AddPhi(phis, b, phi), l) == if l == phi.location then PhiBlocks(phis, l) + {b} else PhiBlocks(phis, l)
  {
    var phis' := AddPhi(phis, b, phi);
    forall c
      ensures HasPhi(phis', c, l) <==> HasPhi(phis, c, l) || (c == b && l == phi.location)
    {
      var old_ := PhisAt(phis, c);
      if HasPhi(phis, c, l) {
        var i :| 0 <= i < |old_| && old_[i].location == l;
        assert PhisAt(phis', c)[i].location == l;
      }
      if c == b {
        assert PhisAt(phis', b)[|old_|] == phi;
      }
    }
  }

  lemma AddPhiKeeps(f: Function, phis: Phis, defs: Definitions, b: nat, phi: MemoryPhi)
    requires OnePhiEach(phis) && PhisDefined(f, phis, defs)
    requires !HasPhi(phis, b, phi.location) && phi.location < f.locations
    requires (phi.location, phi.version) !in defs
    ensures var defs' := defs[(phi.location, phi.version) := Phi(b)];
      OnePhiEach(AddPhi(phis, b, phi)) && PhisDefined(f, AddPhi(phis, b, phi), defs')
  {
    var phis' := AddPhi(phis, b, phi);
    var n := |PhisAt(phis, b)|;
    assert PhisAt(phis', b) == PhisAt(phis, b) + [phi];
    assert forall c :: c != b ==> PhisAt(phis', c) == PhisAt(phis, c);
    assert forall i :: 0 <= i < n ==> PhisAt(phis', b)[i] == PhisAt(phis, b)[i];
    assert forall i :: 0 <= i < n ==> PhisAt(phis, b)[i].location != phi.location;
  }

  /** While phis are placed: only locations below `n` have any, and all versions so far
      are phis'. */
  ghost predicate Placing(f: Function, phis: Phis, defs: Definitions, next: map<Loc, nat>, n: nat) {
    && OnePhiEach(phis) && PhisDefined(f, phis, defs) && Allocated(next, defs) && NoOperands(phis)
    && (forall d :: d in defs ==> defs[d].Phi?)
    && forall b, i :: 0 <= i < |PhisAt(phis, b)| ==> PhisAt(phis, b)[i].location < n
  }

  lemma NoPhisYet(f: Function, phis: Phis, defs: Definitions, next: map<Loc, nat>, l: Loc)
    requires Placing(f, phis, defs, next, l)
    ensures Placing(f, phis, defs, next, l + 1) && PhiBlocks(phis, l) == {}
  {
    assert forall b :: !HasPhi(phis, b, l);
  }

  lemma AddPhiPlaces(f: Function, phis: Phis, defs: Definitions, next: map<Loc, nat>, b: nat, phi: MemoryPhi)
    requires Placing(f, phis, defs, next, phi.location + 1) && phi.location < f.locations && phi.operands == []
    requires b !in PhiBlocks(phis, phi.location) && phi.version == NextOf(next, phi.location)
    ensures Placing(f, AddPhi(phis, b, phi), defs[(phi.location, phi.version) := Phi(b)],
                    next[phi.location := phi.version + 1], phi.location + 1)
  {
    AddPhiKeeps(f, phis, defs, b, phi);
    hide OnePhiEach, PhisDefined, Allocated;
    AllocatedGrows(next, defs, phi.location, phi.version, Phi(b));
    var phis' := AddPhi(phis, b, phi);
    assert PhisAt(phis', b) == PhisAt(phis, b) + [phi];
    assert forall c :: c != b ==> PhisAt(phis', c) == PhisAt(phis, c);
  }

  lemma AllocatedGrows(next: map<Loc, nat>, defs: Definitions, l: Loc, version: nat, site: DefSite)
    requires Allocated(next, defs) && version == NextOf(next, l)
    ensures Allocated(next[l := version + 1], defs[(l, version) := site])
  {
  }

  lemma MinimalStep(rows: Closure.Rows, seeds: set<nat>, x: set<nat>, b: nat, c: nat)
    requires b in seeds || b in x
    requires c in Closure.Row(rows, b)
    requires forall y :: Closure.ClosedFrom(rows, seeds, y) ==> x <= y
    ensures forall y :: Closure.ClosedFrom(rows, seeds, y) ==> x + {c} <= y
  {
    forall y | Closure.ClosedFrom(rows, seeds, y)
      ensures x + {c} <= y
    {
      assert Closure.Row(rows, b) <= y;
    }
  }

  // ----- version stacks

  type Stacks = seq<seq<nat>>

  ghost predicate NoneEmpty(s: Stacks) {
    forall l :: 0 <= l < |s| ==> s[l] != []
  }

  function Top(s: Stacks, l: Loc): nat
    requires l < |s| && s[l] != []
  {
    s[l][|s[l]| - 1]
  }

  function Push(s: Stacks, l: Loc, v: nat): Stacks
    requires l < |s|
  {
    s[l := s[l] + [v]]
  }

  /** Popping an empty or absent stack does nothing. */
  function PopOne(s: Stacks, l: Loc): Stacks {
    if l < |s| && s[l] != [] then s[l := s[l][..|s[l]| - 1]] else s
  }

  function PopAll(s: Stacks, pushed: seq<Loc>): Stacks
    decreases |pushed|
  {
    if pushed == [] then s else PopAll(PopOne(s, pushed[0]), pushed[1..])
  }

  function Count(pushed: seq<Loc>, l: Loc): nat {
    multiset(pushed)[l]
  }

  /** `t` is `s` with one version pushed per entry of `pushed`. */
  ghost predicate Grown(s: Stacks, t: Stacks, pushed: seq<Loc>) {
    && |t| == |s|
    && (forall l :: l in pushed ==> l < |s|)
    && forall l: Loc :: l < |s| ==> |t[l]| == |s[l]| + Count(pushed, l) && t[l][..|s[l]|] == s[l]
  }

  /** Popping exactly what was pushed restores every stack, in any order. */
  lemma {:induction false} PopAllRestores(s: Stacks, t: Stacks, pushed: seq<Loc>)
    requires Grown(s, t, pushed)
    ensures PopAll(t, pushed) == s
    decreases |pushed|
  {
    if pushed == [] {
      assert forall l :: 0 <= l < |s| ==> t[l] == s[l];
    } else {
      var l := pushed[0];
      var rest := pushed[1..];
      assert pushed == [l] + rest;
      assert multiset(pushed) == multiset{l} + multiset(rest);
      assert forall m :: m in rest ==> m in pushed;
      var t' := PopOne(t, l);
      forall m: Loc | m < |s|
        ensures |t'[m]| == |s[m]| + Count(rest, m) && t'[m][..|s[m]|] == s[m]
      {
        assert t[m][..|s[m]|] == s[m];
      }
      PopAllRestores(s, t', rest);
    }
  }

  lemma GrownSize(s: Stacks, t: Stacks, pushed: seq<Loc>)
    requires Grown(s, t, pushed)
    ensures |t| == |s|
  {
  }

  lemma GrownByOne(s: Stacks, t: Stacks, pushed: seq<Loc>, l: Loc, v: nat)
    requires Grown(s, t, pushed) && l < |s|
    ensures Grown(s, Push(t, l, v), pushed + [l])
  {
    assert multiset(pushed + [l]) == multiset(pushed) + multiset{l};
    var t' := Push(t, l, v);
    forall m: Loc | m < |s|
      ensures |t'[m]| == |s[m]| + Count(pushed + [l], m) && t'[m][..|s[m]|] == s[m]
    {
      assert t[m][..|s[m]|] == s[m];
    }
  }

  /** Every version on a stack has a recorded definition. */
  ghost predicate StacksDefined(defs: Definitions, s: Stacks) {
    forall l, k :: 0 <= l < |s| && 0 <= k < |s[l]| ==> (l, s[l][k]) in defs
  }

  ghost predicate Keeps(d: Definitions, e: Definitions) {
    forall k :: k in d ==> k in e && e[k] == d[k]
  }

  // ----- what renaming one block records

  /** The stack of `l` grew by one version for each operation that clobbers it, in
      order. */
  ghost predicate StoresPushed(f: Function, defs: Definitions, b: nat, ops: seq<MemOp>, l: Loc, before: seq<nat>,
                               after: seq<nat>)
  {
    var cs := f.ClobbersOf(ops, l);
    && |after| == |before| + |cs| && after[..|before|] == before
    && forall k :: |before| <= k < |after| ==>
         (l, after[k]) in defs && defs[(l, after[k])] == Store(b, cs[k - |before|])
  }

  lemma StoresPushOne(f: Function, defs: Definitions, defs': Definitions, b: nat, ops: seq<MemOp>, op: MemOp, l: Loc,
                      before: seq<nat>, mid: seq<nat>, after: seq<nat>)
    requires StoresPushed(f, defs, b, ops, l, before, mid) && Keeps(defs, defs')
    requires if f.Clobbers(op, l)
             then |after| == |mid| + 1 && after[..|mid|] == mid
                  && (l, after[|mid|]) in defs' && defs'[(l, after[|mid|])] == Store(b, |ops|)
             else after == mid
    ensures StoresPushed(f, defs', b, ops + [op], l, before, after)
  {
    var cs, all := f.ClobbersOf(ops, l), f.ClobbersOf(ops + [op], l);
    assert (ops + [op])[..|ops|] == ops;
    assert all == cs + if f.Clobbers(op, l) then [|ops|] else [];
    assert after[..|mid|] == mid;
    assert after[..|before|] == mid[..|before|];
    forall k | |before| <= k < |after|
      ensures (l, after[k]) in defs' && defs'[(l, after[k])] == Store(b, all[k - |before|])
    {
      if k < |mid| {
        assert after[..|mid|][k] == mid[k];
      }
    }
  }

  /** The region a root interrupts may have made this definition. */
  predicate Interrupted(region: Region, site: DefSite) {
    match site
    case Store(b, _) => region.Unbounded? || region.lo <= b < region.hi
    case Phi(b) => region.Unbounded? || region.lo <= b < region.hi
    case ExceptionEntry(_) => false
    case Entry => false
  }

  ghost predicate PhiVersion(phis: Phis, b: nat, l: Loc, v: nat) {
    exists i :: 0 <= i < |PhisAt(phis, b)| && PhisAt(phis, b)[i].location == l && PhisAt(phis, b)[i].version == v
  }

  /** Phis keep their place, location and version; operands are only added. */
  ghost predicate PhisGrow(p: Phis, q: Phis) {
    && p.Keys == q.Keys
    && forall b :: b in p ==> |q[b]| == |p[b]| && forall i :: 0 <= i < |p[b]| ==>
         && q[b][i].location == p[b][i].location && q[b][i].version == p[b][i].version
         && p[b][i].operands <= q[b][i].operands
  }

  /** How block `b` treats location `l`, whose live version on the way in is
      `live`: an exception root may replace it, and the block's phi and then its
      last clobbering operation define what it leaves. */
  ghost predicate LocationRenamed(f: Function, phis: Phis, defs: Definitions, entry: Versions, exit: Versions, b: nat,
                                  l: Loc, live: nat)
    requires f.Valid() && b < |f.blocks|
  {
    && (l, b) in entry && (l, b) in exit
    && (l, live) in defs && (l, entry[(l, b)]) in defs && (l, exit[(l, b)]) in defs
    && (if b in f.roots && Interrupted(f.roots[b], defs[(l, live)])
        then defs[(l, entry[(l, b)])] == ExceptionEntry(b)
        else entry[(l, b)] == live)
    && (if f.DefinesIn(b, l)
        then defs[(l, exit[(l, b)])] == Store(b, f.LastClobber(f.blocks[b], l))
        else if HasPhi(phis, b, l) then PhiVersion(phis, b, l, exit[(l, b)])
        else exit[(l, b)] == entry[(l, b)])
  }

  ghost predicate BlockRenamed(f: Function, phis: Phis, defs: Definitions, entry: Versions, exit: Versions, b: nat,
                               before: Stacks, after: Stacks)
    requires f.Valid()
  {
    && b < |f.blocks| && |before| == |after| == f.locations && NoneEmpty(before) && NoneEmpty(after)
    && forall l :: 0 <= l < f.locations ==>
         && LocationRenamed(f, phis, defs, entry, exit, b, l, Top(before, l))
         && Top(after, l) == exit[(l, b)]
  }

  ghost predicate OperandsFilled(f: Function, phis: Phis, exit: Versions, p: nat)
    requires f.Valid()
  {
    forall b, i :: Edge(f.graph, p, b) && 0 <= i < |PhisAt(phis, b)| ==>
      var phi := PhisAt(phis, b)[i];
      (phi.location, p) in exit && PhiOperand(p, exit[(phi.location, p)]) in phi.operands
  }

  /** Every operand was put there by the renaming of a predecessor in `done`, and
      carries what that predecessor left. */
  ghost predicate OperandsExact(f: Function, phis: Phis, exit: Versions, done: set<nat>) {
    forall b, i, k :: 0 <= i < |PhisAt(phis, b)| && 0 <= k < |PhisAt(phis, b)[i].operands| ==>
      OperandExact(f, exit, done, b, PhisAt(phis, b)[i].location, PhisAt(phis, b)[i].operands[k])
  }

  ghost predicate OperandExact(f: Function, exit: Versions, done: set<nat>, b: nat, l: Loc, o: PhiOperand) {
    && o.predecessor in done && Edge(f.graph, o.predecessor, b)
    && (l, o.predecessor) in exit && exit[(l, o.predecessor)] == o.version
  }

  /** The operands that renaming `block` adds. */
  ghost predicate OperandsAdded(f: Function, p: Phis, q: Phis, exit: Versions, block: nat) {
    forall b, i, k :: 0 <= i < |PhisAt(p, b)| && i < |PhisAt(q, b)|
                      && |PhisAt(p, b)[i].operands| <= k < |PhisAt(q, b)[i].operands| ==>
      OperandExact(f, exit, {block}, b, PhisAt(q, b)[i].location, PhisAt(q, b)[i].operands[k])
  }

  lemma OperandsStayExact(f: Function, p: Phis, q: Phis, exit: Versions, exit': Versions, done: set<nat>, block: nat)
    requires OperandsExact(f, p, exit, done) && PhisGrow(p, q) && OperandsAdded(f, p, q, exit', block)
    requires forall b :: b in done ==> SameAt(exit, exit', b)
    ensures OperandsExact(f, q, exit', done + {block})
  {
    forall b, i, k | 0 <= i < |PhisAt(q, b)| && 0 <= k < |PhisAt(q, b)[i].operands|
      ensures OperandExact(f, exit', done + {block}, b, PhisAt(q, b)[i].location, PhisAt(q, b)[i].operands[k])
    {
      var o := PhisAt(q, b)[i].operands[k];
      if k < |PhisAt(p, b)[i].operands| {
        assert PhisAt(p, b)[i].operands[k] == o;
        assert OperandExact(f, exit, done, b, PhisAt(p, b)[i].location, o);
        assert SameAt(exit, exit', o.predecessor);
      } else {
        assert OperandExact(f, exit', {block}, b, PhisAt(q, b)[i].location, o);
      }
    }
  }

  lemma OperandsAddedCompose(f: Function, p: Phis, q: Phis, r: Phis, exit: Versions, block: nat)
    requires OperandsAdded(f, p, q, exit, block) && OperandsAdded(f, q, r, exit, block)
    requires PhisGrow(p, q) && PhisGrow(q, r)
    ensures OperandsAdded(f, p, r, exit, block)
  {
    forall b, i, k | 0 <= i < |PhisAt(p, b)| && i < |PhisAt(r, b)|
                     && |PhisAt(p, b)[i].operands| <= k < |PhisAt(r, b)[i].operands|
      ensures OperandExact(f, exit, {block}, b, PhisAt(r, b)[i].location, PhisAt(r, b)[i].operands[k])
    {
      if k < |PhisAt(q, b)[i].operands| {
        assert PhisAt(q, b)[i].operands[k] == PhisAt(r, b)[i].operands[k];
        assert OperandExact(f, exit, {block}, b, PhisAt(q, b)[i].location, PhisAt(q, b)[i].operands[k]);
      }
    }
  }

  /** How many operands come from block `p`. */
  function CountFrom(operands: seq<PhiOperand>, p: nat): nat {
    if operands == [] then 0
    else CountFrom(operands[..|operands| - 1], p) + if operands[|operands| - 1].predecessor == p then 1 else 0
  }

  /** How many edges lead from `p` to `b`. */
  function EdgeCount(g: Cfg, p: nat, b: nat): nat {
    if p < |g| then multiset(g[p])[b] else 0
  }

  /** Every phi has one operand for each edge from a block in `done`. */
  ghost predicate OperandsPerEdge(g: Cfg, phis: Phis, done: set<nat>) {
    forall b: nat, i, p: nat :: 0 <= i < |PhisAt(phis, b)| ==>
      CountFrom(PhisAt(phis, b)[i].operands, p) == if p in done then EdgeCount(g, p, b) else 0
  }

  /** Every phi of `b` gained one operand from `block` for each occurrence of `b` among
      `targets`. */
  ghost predicate Gained(p: Phis, q: Phis, block: nat, targets: seq<nat>) {
    forall b: nat, i, x: nat :: 0 <= i < |PhisAt(p, b)| && i < |PhisAt(q, b)| ==>
      CountFrom(PhisAt(q, b)[i].operands, x) ==
      CountFrom(PhisAt(p, b)[i].operands, x) + if x == block then multiset(targets)[b] else 0
  }

  lemma NothingGained(p: Phis, block: nat)
    ensures Gained(p, p, block, [])
  {
  }

  lemma GainedTwice(p: Phis, q: Phis, r: Phis, block: nat, targets: seq<nat>, more: nat)
    requires PhisGrow(p, q) && PhisGrow(q, r) && Gained(p, q, block, targets) && Gained(q, r, block, [more])
    ensures Gained(p, r, block, targets + [more])
  {
    assert forall b: nat :: multiset(targets + [more])[b] == multiset(targets)[b] + multiset([more])[b];
  }

  lemma GainedByOne(p: Phis, q: Phis, block: nat, b: nat)
    requires forall c: nat :: c != b ==> PhisAt(q, c) == PhisAt(p, c)
    requires |PhisAt(q, b)| == |PhisAt(p, b)|
    requires forall i :: 0 <= i < |PhisAt(p, b)| ==>
               var ops, ops' := PhisAt(p, b)[i].operands, PhisAt(q, b)[i].operands;
               |ops'| == |ops| + 1 && ops'[..|ops|] == ops && ops'[|ops|].predecessor == block
    ensures Gained(p, q, block, [b])
  {
    forall c: nat, i, x: nat | 0 <= i < |PhisAt(p, c)| && i < |PhisAt(q, c)|
      ensures CountFrom(PhisAt(q, c)[i].operands, x) ==
              CountFrom(PhisAt(p, c)[i].operands, x) + if x == block then multiset([b])[c] else 0
    {
      var ops, ops' := PhisAt(p, c)[i].operands, PhisAt(q, c)[i].operands;
      if c == b {
        assert ops'[..|ops'| - 1] == ops;
      }
    }
  }

  /** Filling in a block's edges adds that block to those whose edges are filled in. */
  lemma EdgesFilled(g: Cfg, p: Phis, q: Phis, done: set<nat>, block: nat)
    requires OperandsPerEdge(g, p, done) && PhisGrow(p, q) && block < |g| && Gained(p, q, block, g[block]) && block !in done
    ensures OperandsPerEdge(g, q, done + {block})
  {
    forall b: nat, i, x: nat | 0 <= i < |PhisAt(q, b)|
      ensures CountFrom(PhisAt(q, b)[i].operands, x) == if x in done + {block} then EdgeCount(g, x, b) else 0
    {
      assert 0 <= i < |PhisAt(p, b)|;
    }
  }

  lemma NoEdgesFilled(g: Cfg, phis: Phis)
    requires NoOperands(phis)
    ensures OperandsPerEdge(g, phis, {})
  {
  }

  lemma PhiShapeKept(p: Phis, q: Phis, b: nat, l: Loc, v: nat)
    requires PhisGrow(p, q)
    ensures HasPhi(p, b, l) <==> HasPhi(q, b, l)
    ensures PhiVersion(p, b, l, v) <==> PhiVersion(q, b, l, v)
  {
    if HasPhi(p, b, l) {
      var i :| 0 <= i < |PhisAt(p, b)| && PhisAt(p, b)[i].location == l;
      assert PhisAt(q, b)[i].location == l;
    }
    if HasPhi(q, b, l) {
      var i :| 0 <= i < |PhisAt(q, b)| && PhisAt(q, b)[i].location == l;
      assert PhisAt(p, b)[i].location == l;
    }
    if PhiVersion(p, b, l, v) {
      var i :| 0 <= i < |PhisAt(p, b)| && PhisAt(p, b)[i].location == l && PhisAt(p, b)[i].version == v;
      assert PhisAt(q, b)[i].location == l;
    }
    if PhiVersion(q, b, l, v) {
      var i :| 0 <= i < |PhisAt(q, b)| && PhisAt(q, b)[i].location == l && PhisAt(q, b)[i].version == v;
      assert PhisAt(p, b)[i].location == l;
    }
  }

  /** `w` is `v` but for the entries of the first `n` locations at block `b`, all of
      which it has. */
  ghost predicate OnlyRecorded(n: nat, b: nat, v: Versions, w: Versions) {
    && (forall key :: key in w <==> key in v || (key.0 < n && key.1 == b))
    && forall key :: key in v && !(key.0 < n && key.1 == b) ==> w[key] == v[key]
  }

  ghost predicate SameAt(v: Versions, w: Versions, b: nat) {
    forall l :: (l, b) in v ==> (l, b) in w && w[(l, b)] == v[(l, b)]
  }

  /** The steps of renaming a block, put together for one location: the handler's
      replacement, the phi, and the last clobbering operation. */
  lemma LocationSteps(f: Function, phis: Phis, defs0: Definitions, defs1: Definitions, defs: Definitions,
                      entry: Versions, exit: Versions, b: nat, l: Loc, before: Stacks, atEntry: Stacks, atBody: Stacks,
                      after: Stacks)
    requires f.Valid() && b < |f.blocks| && l < |before| == |atEntry| == |atBody| == |after|
    requires NoneEmpty(before) && NoneEmpty(atEntry) && NoneEmpty(atBody) && NoneEmpty(after)
    requires StacksDefined(defs0, before) && StacksDefined(defs1, atEntry) && StacksDefined(defs, after)
    requires Keeps(defs0, defs1) && Keeps(defs1, defs)
    requires (l, b) in entry && entry[(l, b)] == Top(atEntry, l) && (l, b) in exit && exit[(l, b)] == Top(after, l)
    requires (l, Top(before, l)) in defs0
    requires if b in f.roots && Interrupted(f.roots[b], defs0[(l, Top(before, l))])
             then (l, Top(atEntry, l)) in defs1 && defs1[(l, Top(atEntry, l))] == ExceptionEntry(b)
             else atEntry[l] == before[l]
    requires if HasPhi(phis, b, l) then PhiVersion(phis, b, l, Top(atBody, l)) else atBody[l] == atEntry[l]
    requires var i := f.LastClobber(f.blocks[b], l);
      if i >= 0 then (l, Top(after, l)) in defs && defs[(l, Top(after, l))] == Store(b, i) else after[l] == atBody[l]
    ensures LocationRenamed(f, phis, defs, entry, exit, b, l, Top(before, l))
  {
    hide HasPhi, PhiVersion, Interrupted;
    assert atEntry[l][|atEntry[l]| - 1] == Top(atEntry, l);
    assert after[l][|after[l]| - 1] == Top(after, l);
  }

  lemma NothingPushed(f: Function, defs: Definitions, b: nat, stacks: Stacks)
    ensures forall l :: 0 <= l < |stacks| ==> StoresPushed(f, defs, b, [], l, stacks[l], stacks[l])
  {
  }

  /** What was recorded for a block survives the renaming of other blocks. */
  lemma BlockRenamedStable(f: Function, phis: Phis, defs: Definitions, entry: Versions, exit: Versions, phis': Phis,
                           defs': Definitions, entry': Versions, exit': Versions, b: nat, before: Stacks, after: Stacks)
    requires f.Valid() && BlockRenamed(f, phis, defs, entry, exit, b, before, after)
    requires PhisGrow(phis, phis') && Keeps(defs, defs') && SameAt(entry, entry', b) && SameAt(exit, exit', b)
    ensures BlockRenamed(f, phis', defs', entry', exit', b, before, after)
  {
    forall l | 0 <= l < f.locations
      ensures LocationRenamed(f, phis', defs', entry', exit', b, l, Top(before, l))
      ensures Top(after, l) == exit'[(l, b)]
    {
      assert LocationRenamed(f, phis, defs, entry, exit, b, l, Top(before, l));
      PhiShapeKept(phis, phis', b, l, exit[(l, b)]);
    }
  }

  lemma OperandsStay(f: Function, phis: Phis, exit: Versions, phis': Phis, exit': Versions, p: nat)
    requires f.Valid() && OperandsFilled(f, phis, exit, p) && PhisGrow(phis, phis') && SameAt(exit, exit', p)
    ensures OperandsFilled(f, phis', exit', p)
  {
    forall b, i | Edge(f.graph, p, b) && 0 <= i < |PhisAt(phis', b)|
      ensures var phi := PhisAt(phis', b)[i];
        (phi.location, p) in exit' && PhiOperand(p, exit'[(phi.location, p)]) in phi.operands
    {
      var phi := PhisAt(phis, b)[i];
      var phi' := PhisAt(phis', b)[i];
      assert (phi.location, p) in exit && PhiOperand(p, exit[(phi.location, p)]) in phi.operands;
      assert phi.operands <= phi'.operands;
    }
  }

  lemma FilledGrows(p: Phis, b: nat, filled: seq<MemoryPhi>)
    requires b in p && |filled| == |p[b]|
    requires forall i :: 0 <= i < |filled| ==>
               filled[i].location == p[b][i].location && filled[i].version == p[b][i].version
    requires forall i :: 0 <= i < |filled| ==> p[b][i].operands <= filled[i].operands
    ensures PhisGrow(p, p[b := filled])
  {
    assert p[b := filled].Keys == p.Keys;
  }

  lemma PhisGrowTransitive(p: Phis, q: Phis, r: Phis)
    requires PhisGrow(p, q) && PhisGrow(q, r)
    ensures PhisGrow(p, r)
  {
  }

  lemma PhisDefinedStay(f: Function, p: Phis, q: Phis, defs: Definitions)
    requires PhisDefined(f, p, defs) && PhisGrow(p, q)
    ensures PhisDefined(f, q, defs)
    ensures OnePhiEach(p) ==> OnePhiEach(q)
  {
    forall b, i | 0 <= i < |PhisAt(q, b)|
      ensures var phi := PhisAt(q, b)[i];
        phi.location < f.locations && (phi.location, phi.version) in defs && defs[(phi.location, phi.version)] == Phi(b)
    {
      var phi := PhisAt(p, b)[i];
      assert phi.location == PhisAt(q, b)[i].location;
    }
    if OnePhiEach(p) {
      forall b, i, j | 0 <= i < j < |PhisAt(q, b)|
        ensures PhisAt(q, b)[i].location != PhisAt(q, b)[j].location
      {
        assert PhisAt(p, b)[i].location != PhisAt(p, b)[j].location;
      }
    }
  }

  lemma PhisDefinedKept(f: Function, phis: Phis, d: Definitions, e: Definitions)
    requires PhisDefined(f, phis, d) && Keeps(d, e)
    ensures PhisDefined(f, phis, e)
  {
  }

  /** The version live on the way into `b`: the one its immediate dominator left,
      or the function-entry version. */
  function Live(t: DomTree, seeds: seq<nat>, exit: Versions, b: nat, l: Loc): nat
    requires l < |seeds| && b < |t.idom|
  {
    if b == 0 then seeds[l] else if (l, t.idom[b]) in exit then exit[(l, t.idom[b])] else 0
  }

  /** The result of recursive dominator-tree renaming, stated per block. */
  ghost predicate Renamed(f: Function, t: DomTree, seeds: seq<nat>, phis: Phis, defs: Definitions, entry: Versions,
                          exit: Versions)
    requires f.Valid()
  {
    && |seeds| == f.locations && |t.idom| == |f.graph|
    && (forall l :: 0 <= l < f.locations ==> (l, seeds[l]) in defs && defs[(l, seeds[l])] == Entry)
    && (forall b, l :: 0 <= b < |f.graph| && Reachable(f.graph, b) && 0 <= l < f.locations ==>
          LocationRenamed(f, phis, defs, entry, exit, b, l, Live(t, seeds, exit, b, l)))
    && (forall b :: 0 <= b < |f.graph| && Reachable(f.graph, b) ==> OperandsFilled(f, phis, exit, b))
  }

  // ----- the explicit-stack walk

  /** The pending steps, the stacks each of them must find when it is popped, and
      the stacks every renamed block found and left. */
  datatype Walk = Walk(worklist: seq<RenameStep>, saved: seq<Stacks>, ins: map<nat, Stacks>, outs: map<nat, Stacks>)

  function Below(w: Walk, seeds: Stacks, i: nat): Stacks
    requires i <= |w.saved|
  {
    if i == 0 then seeds else w.saved[i - 1]
  }

  /** A pending entry finds the stacks its immediate dominator left; a pending exit
      pops back to what the step under it expects. */
  ghost predicate StepOk(f: Function, t: DomTree, seeds: Stacks, w: Walk, i: nat)
    requires |w.worklist| == |w.saved| && i < |w.saved|
  {
    match w.worklist[i]
    case Enter(b) =>
      && w.saved[i] == Below(w, seeds, i)
      && b < |f.graph| && b < |t.idom| && Reachable(f.graph, b)
      && if b == 0 then w.saved[i] == seeds
         else t.idom[b] in w.outs && w.outs[t.idom[b]] == w.saved[i]
    case Exit(pushed) => Grown(Below(w, seeds, i), w.saved[i], pushed)
  }

  ghost predicate WalkOk(f: Function, t: DomTree, seeds: Stacks, w: Walk, stacks: Stacks) {
    && |w.worklist| == |w.saved|
    && stacks == Below(w, seeds, |w.saved|)
    && (forall i :: 0 <= i < |w.saved| ==> StepOk(f, t, seeds, w, i))
    && InsOk(f, t, seeds, w.ins, w.outs)
  }

  /** A renamed block was entered with the stacks its immediate dominator left. */
  ghost predicate InsOk(f: Function, t: DomTree, seeds: Stacks, ins: map<nat, Stacks>, outs: map<nat, Stacks>) {
    && ins.Keys == outs.Keys
    && forall b :: b in ins ==>
         && b < |f.graph| && b < |t.idom| && Reachable(f.graph, b)
         && if b == 0 then ins[b] == seeds else t.idom[b] in outs && ins[b] == outs[t.idom[b]]
  }

  /** Children of renamed blocks are renamed or pending, and so is the entry. */
  ghost predicate Covered(t: DomTree, w: Walk) {
    && (0 in w.ins || Enter(0) in w.worklist)
    && forall d, c :: d in w.ins && d < |t.children| && c in t.children[d] ==> c in w.ins || Enter(c) in w.worklist
  }

  ghost predicate CoveredBut(t: DomTree, w: Walk, b: nat, done: seq<nat>) {
    && (0 in w.ins || Enter(0) in w.worklist)
    && forall d, c :: d in w.ins && d < |t.children| && c in t.children[d] && (d == b ==> c in done) ==>
         c in w.ins || Enter(c) in w.worklist
  }

  ghost predicate StacksOk(f: Function, defs: Definitions, s: Stacks) {
    |s| == f.locations && NoneEmpty(s) && StacksDefined(defs, s)
  }

  ghost predicate SavedOk(f: Function, defs: Definitions, seeds: Stacks, w: Walk, stacks: Stacks) {
    && StacksOk(f, defs, stacks) && StacksOk(f, defs, seeds)
    && forall i :: 0 <= i < |w.saved| ==> StacksOk(f, defs, w.saved[i])
  }

  ghost predicate FactsOk(f: Function, phis: Phis, defs: Definitions, entry: Versions, exit: Versions, w: Walk)
    requires f.Valid()
  {
    forall b :: b in w.ins && b in w.outs ==>
      BlockRenamed(f, phis, defs, entry, exit, b, w.ins[b], w.outs[b]) && OperandsFilled(f, phis, exit, b)
  }

  ghost predicate NoOperands(phis: Phis) {
    forall b, i :: 0 <= i < |PhisAt(phis, b)| ==> PhisAt(phis, b)[i].operands == []
  }

  ghost function BlockSet(order: seq<nat>): set<nat> {
    set b | b in order
  }

  lemma NoOperandsExact(f: Function, phis: Phis, exit: Versions, done: set<nat>)
    requires NoOperands(phis)
    ensures OperandsExact(f, phis, exit, done)
  {
  }

  lemma PhisGrowReflexive(p: Phis)
    ensures PhisGrow(p, p)
  {
  }

  lemma KeepsTransitive(d: Definitions, e: Definitions, h: Definitions)
    requires Keeps(d, e) && Keeps(e, h)
    ensures Keeps(d, h)
  {
  }

  lemma WalkStarts(f: Function, t: DomTree, seeds: Stacks, phis: Phis, defs: Definitions, entry: Versions,
                   exit: Versions)
    requires f.Valid() && IsDomTree(f.graph, t)
    requires |seeds| == f.locations && NoneEmpty(seeds) && StacksDefined(defs, seeds)
    ensures var w := Walk([Enter(0)], [seeds], map[], map[]);
      && WalkOk(f, t, seeds, w, seeds) && Covered(t, w) && SavedOk(f, defs, seeds, w, seeds)
      && FactsOk(f, phis, defs, entry, exit, w)
  {
    EntryReachable(f.graph);
  }

  /** What popping a step tells about it. */
  lemma WalkTop(f: Function, t: DomTree, seeds: Stacks, w: Walk, stacks: Stacks, defs: Definitions)
    requires WalkOk(f, t, seeds, w, stacks) && w.worklist != [] && SavedOk(f, defs, seeds, w, stacks)
    ensures |w.saved| == |w.worklist| && w.ins.Keys == w.outs.Keys
    ensures w.worklist[|w.worklist| - 1].Enter? ==> w.worklist[|w.worklist| - 1].block < |f.graph|
    ensures |stacks| == f.locations && NoneEmpty(stacks) && StacksDefined(defs, stacks)
  {
    assert StepOk(f, t, seeds, w, |w.saved| - 1);
  }

  lemma WalkDrop(f: Function, t: DomTree, seeds: Stacks, w: Walk, stacks: Stacks, defs: Definitions)
    requires WalkOk(f, t, seeds, w, stacks) && w.worklist != [] && SavedOk(f, defs, seeds, w, stacks)
    ensures |w.saved| == |w.worklist|
    ensures var n := |w.worklist| - 1;
      var w' := w.(worklist := w.worklist[..n], saved := w.saved[..n]);
      WalkOk(f, t, seeds, w', Below(w, seeds, n)) && SavedOk(f, defs, seeds, w', Below(w, seeds, n))
  {
    var n := |w.worklist| - 1;
    var w' := w.(worklist := w.worklist[..n], saved := w.saved[..n]);
    forall i | 0 <= i < n
      ensures StepOk(f, t, seeds, w', i)
    {
      assert StepOk(f, t, seeds, w, i);
    }
  }

  lemma WalkSkip(f: Function, t: DomTree, seeds: Stacks, w: Walk, stacks: Stacks, defs: Definitions)
    requires WalkOk(f, t, seeds, w, stacks) && w.worklist != [] && SavedOk(f, defs, seeds, w, stacks) && Covered(t, w)
    requires w.worklist[|w.worklist| - 1].Enter? && w.worklist[|w.worklist| - 1].block in w.ins
    ensures |w.saved| == |w.worklist|
    ensures var n := |w.worklist| - 1;
      var w' := w.(worklist := w.worklist[..n], saved := w.saved[..n]);
      WalkOk(f, t, seeds, w', stacks) && SavedOk(f, defs, seeds, w', stacks) && Covered(t, w')
  {
    hide Reachable, Grown, StacksOk, SavedOk, InsOk;
    var n := |w.worklist| - 1;
    assert StepOk(f, t, seeds, w, n);
    WalkDrop(f, t, seeds, w, stacks, defs);
    assert w.worklist == w.worklist[..n] + [w.worklist[n]];
  }

  lemma WalkExit(f: Function, t: DomTree, seeds: Stacks, w: Walk, stacks: Stacks, pushed: seq<Loc>, defs: Definitions)
    requires WalkOk(f, t, seeds, w, stacks) && w.worklist != [] && SavedOk(f, defs, seeds, w, stacks) && Covered(t, w)
    requires w.worklist[|w.worklist| - 1] == Exit(pushed)
    ensures |w.saved| == |w.worklist|
    ensures var n := |w.worklist| - 1;
      var w' := w.(worklist := w.worklist[..n], saved := w.saved[..n]);
      var stacks' := PopAll(stacks, pushed);
      WalkOk(f, t, seeds, w', stacks') && SavedOk(f, defs, seeds, w', stacks') && Covered(t, w')
  {
    hide Reachable, Grown, StacksOk;
    var n := |w.worklist| - 1;
    assert StepOk(f, t, seeds, w, n);
    PopAllRestores(Below(w, seeds, n), stacks, pushed);
    WalkDrop(f, t, seeds, w, stacks, defs);
    assert w.worklist == w.worklist[..n] + [w.worklist[n]];
  }

  /** Renaming a block replaces its pending entry by its pending exit. */
  lemma WalkEnter(f: Function, t: DomTree, seeds: Stacks, w: Walk, before: Stacks, b: nat, pushed: seq<Loc>,
                  after: Stacks)
    requires WalkOk(f, t, seeds, w, before) && w.worklist != [] && b !in w.ins && Covered(t, w)
    requires w.worklist[|w.worklist| - 1] == Enter(b) && Grown(before, after, pushed)
    ensures |w.saved| == |w.worklist|
    ensures var n := |w.worklist| - 1;
      var w' := Walk(w.worklist[..n] + [Exit(pushed)], w.saved[..n] + [after], w.ins[b := before], w.outs[b := after]);
      WalkOk(f, t, seeds, w', after) && CoveredBut(t, w', b, [])
  {
    hide Reachable, Grown;
    var n := |w.worklist| - 1;
    var w' := Walk(w.worklist[..n] + [Exit(pushed)], w.saved[..n] + [after], w.ins[b := before], w.outs[b := after]);
    assert StepOk(f, t, seeds, w, n);
    forall i | 0 <= i <= n
      ensures StepOk(f, t, seeds, w', i)
    {
      StepStays(f, t, seeds, w, b, before, pushed, after, i);
    }
    EnterCovers(t, w, w', b, n);
  }

  lemma StepStays(f: Function, t: DomTree, seeds: Stacks, w: Walk, b: nat, before: Stacks, pushed: seq<Loc>,
                  after: Stacks, i: nat)
    requires |w.worklist| == |w.saved| && i < |w.saved| && b !in w.outs && w.worklist[|w.worklist| - 1] == Enter(b)
    requires StepOk(f, t, seeds, w, i) && w.saved[|w.saved| - 1] == before && Grown(before, after, pushed)
    ensures var n := |w.worklist| - 1;
      var w' := Walk(w.worklist[..n] + [Exit(pushed)], w.saved[..n] + [after], w.ins[b := before], w.outs[b := after]);
      StepOk(f, t, seeds, w', i)
  {
    hide Reachable, Grown;
    var n := |w.worklist| - 1;
    var w' := Walk(w.worklist[..n] + [Exit(pushed)], w.saved[..n] + [after], w.ins[b := before], w.outs[b := after]);
    assert Below(w', seeds, i) == Below(w, seeds, i);
    if i < n {
      assert w'.worklist[i] == w.worklist[i] && w'.saved[i] == w.saved[i];
    }
  }

  lemma EnterCovers(t: DomTree, w: Walk, w': Walk, b: nat, n: nat)
    requires Covered(t, w) && w.worklist != [] && n == |w.worklist| - 1 && w.worklist[n] == Enter(b)
    requires w'.ins.Keys == w.ins.Keys + {b} && w.worklist[..n] <= w'.worklist
    ensures CoveredBut(t, w', b, [])
  {
    forall step | step in w.worklist && step != Enter(b)
      ensures step in w'.worklist
    {
      var i :| 0 <= i < |w.worklist| && w.worklist[i] == step;
      assert w'.worklist[i] == w.worklist[..n][i] == step;
    }
  }

  lemma ChildOf(g: Cfg, t: DomTree, b: nat, c: nat)
    requires IsDomTree(g, t) && b < |g| && c in t.children[b]
    ensures 0 < c < |g| && c < |t.idom| && Reachable(g, c) && t.idom[c] == b
  {
  }

  lemma WalkChild(f: Function, t: DomTree, seeds: Stacks, w: Walk, stacks: Stacks, b: nat, c: nat, defs: Definitions)
    requires WalkOk(f, t, seeds, w, stacks) && SavedOk(f, defs, seeds, w, stacks)
    requires 0 < c < |f.graph| && c < |t.idom| && Reachable(f.graph, c) && t.idom[c] == b
    requires b in w.outs && w.outs[b] == stacks
    ensures var w' := w.(worklist := w.worklist + [Enter(c)], saved := w.saved + [stacks]);
      WalkOk(f, t, seeds, w', stacks) && SavedOk(f, defs, seeds, w', stacks)
  {
    hide Reachable, Grown, StacksOk, StepOk, SavedOk, InsOk;
    var w' := w.(worklist := w.worklist + [Enter(c)], saved := w.saved + [stacks]);
    SavedAppend(f, defs, seeds, w, stacks, Enter(c));
    ChildStep(f, t, seeds, w, stacks, b, c);
    forall i | 0 <= i < |w.saved|
      ensures StepOk(f, t, seeds, w', i)
    {
      EarlierStep(f, t, seeds, w, w', i);
    }
  }

  lemma SavedAppend(f: Function, defs: Definitions, seeds: Stacks, w: Walk, stacks: Stacks, step: RenameStep)
    requires SavedOk(f, defs, seeds, w, stacks)
    ensures SavedOk(f, defs, seeds, w.(worklist := w.worklist + [step], saved := w.saved + [stacks]), stacks)
  {
    hide StacksOk;
  }

  lemma ChildStep(f: Function, t: DomTree, seeds: Stacks, w: Walk, stacks: Stacks, b: nat, c: nat)
    requires |w.worklist| == |w.saved| && stacks == Below(w, seeds, |w.saved|)
    requires 0 < c < |f.graph| && c < |t.idom| && Reachable(f.graph, c) && t.idom[c] == b
    requires b in w.outs && w.outs[b] == stacks
    ensures var w' := w.(worklist := w.worklist + [Enter(c)], saved := w.saved + [stacks]);
      StepOk(f, t, seeds, w', |w.saved|)
  {
  }

  lemma EarlierStep(f: Function, t: DomTree, seeds: Stacks, w: Walk, w': Walk, i: nat)
    requires |w.worklist| == |w.saved| && i < |w.saved| && StepOk(f, t, seeds, w, i)
    requires |w'.worklist| == |w'.saved| && w.worklist <= w'.worklist && w.saved <= w'.saved && w'.outs == w.outs
    ensures StepOk(f, t, seeds, w', i)
  {
    assert Below(w', seeds, i) == Below(w, seeds, i);
  }

  lemma CoverChild(t: DomTree, w: Walk, w': Walk, b: nat, children: seq<nat>, k: nat)
    requires k < |children| && CoveredBut(t, w, b, children[..k])
    requires w'.ins == w.ins && (w' == w || w'.worklist == w.worklist + [Enter(children[k])])
    requires children[k] in w'.ins || Enter(children[k]) in w'.worklist
    ensures CoveredBut(t, w', b, children[..k + 1])
  {
    assert children[..k + 1] == children[..k] + [children[k]];
  }

  lemma CoverDone(t: DomTree, w: Walk, b: nat)
    requires b in w.ins && b < |t.children| && CoveredBut(t, w, b, t.children[b])
    ensures Covered(t, w)
  {
  }

  lemma DefinedStays(d: Definitions, e: Definitions, s: Stacks)
    requires Keeps(d, e) && StacksDefined(d, s)
    ensures StacksDefined(e, s)
  {
  }

  lemma SavedStays(f: Function, defs: Definitions, defs': Definitions, seeds: Stacks, w: Walk, before: Stacks, b: nat,
                   after: Stacks, pushed: seq<Loc>)
    requires SavedOk(f, defs, seeds, w, before) && Keeps(defs, defs') && w.worklist != [] && |w.saved| == |w.worklist|
    requires |after| == f.locations && NoneEmpty(after) && StacksDefined(defs', after)
    ensures var n := |w.worklist| - 1;
      var w' := Walk(w.worklist[..n] + [Exit(pushed)], w.saved[..n] + [after], w.ins[b := before], w.outs[b := after]);
      SavedOk(f, defs', seeds, w', after)
  {
    hide Keeps, StacksDefined, NoneEmpty;
    var n := |w.worklist| - 1;
    DefinedStays(defs, defs', seeds);
    forall i | 0 <= i < n
      ensures StacksOk(f, defs', w.saved[i])
    {
      assert StacksOk(f, defs, w.saved[i]);
      DefinedStays(defs, defs', w.saved[i]);
    }
  }

  lemma FactsGrow(f: Function, phis: Phis, defs: Definitions, entry: Versions, exit: Versions, phis': Phis,
                  defs': Definitions, entry': Versions, exit': Versions, w: Walk, b: nat, before: Stacks, after: Stacks,
                  pushed: seq<Loc>)
    requires f.Valid() && FactsOk(f, phis, defs, entry, exit, w) && b !in w.ins && w.worklist != []
    requires |w.saved| == |w.worklist|
    requires PhisGrow(phis, phis') && Keeps(defs, defs')
    requires forall c :: c != b ==> SameAt(entry, entry', c) && SameAt(exit, exit', c)
    requires BlockRenamed(f, phis', defs', entry', exit', b, before, after) && OperandsFilled(f, phis', exit', b)
    ensures var n := |w.worklist| - 1;
      FactsOk(f, phis', defs', entry', exit',
              Walk(w.worklist[..n] + [Exit(pushed)], w.saved[..n] + [after], w.ins[b := before], w.outs[b := after]))
  {
    hide BlockRenamed, OperandsFilled, PhisGrow, Keeps, SameAt;
    forall c | c in w.ins && c in w.outs && c != b
      ensures BlockRenamed(f, phis', defs', entry', exit', c, w.ins[c], w.outs[c]) && OperandsFilled(f, phis', exit', c)
    {
      BlockRenamedStable(f, phis, defs, entry, exit, phis', defs', entry', exit', c, w.ins[c], w.outs[c]);
      OperandsStay(f, phis, exit, phis', exit', c);
    }
  }

  /** A set of blocks holding the entry and closed under dominator-tree children
      holds every reachable block. */
  lemma {:induction false} TreeCovers(g: Cfg, t: DomTree, v: set<nat>, b: nat, p: seq<nat>)
    requires InRange(g) && g != [] && IsDomTree(g, t) && Joins(g, 0, b, p)
    requires 0 in v && forall d, c :: d in v && d < |g| && c in t.children[d] ==> c in v
    ensures b in v
    decreases |p|
  {
    if b != 0 {
      assert Reachable(g, b);
      ReachesInRange(g, 0, b);
      var d := t.idom[b];
      assert IsIdom(g, d, b);
      assert d in p;
      var k :| 0 <= k < |p| && p[k] == d;
      Prefix(g, 0, b, p, k);
      TreeCovers(g, t, v, d, p[..k + 1]);
    }
  }

  lemma TreeSizes(g: Cfg, t: DomTree)
    requires IsDomTree(g, t)
    ensures |t.idom| == |t.children| == |g|
  {
  }

  lemma TreeCoversAll(g: Cfg, t: DomTree, v: set<nat>)
    requires InRange(g) && g != [] && IsDomTree(g, t)
    requires 0 in v && forall d, c :: d in v && d < |g| && c in t.children[d] ==> c in v
    ensures forall b :: Reachable(g, b) ==> b in v
  {
    hide IsDomTree, InRange, IsPath;
    forall b | Reachable(g, b)
      ensures b in v
    {
      var p :| Joins(g, 0, b, p);
      TreeCovers(g, t, v, b, p);
    }
  }

  /** With nothing pending: the stacks are the seeds again, the renamed blocks are
      closed under dominator-tree children, and each was entered with what its
      immediate dominator left. */
  lemma WalkDone(f: Function, t: DomTree, seeds: Stacks, w: Walk, stacks: Stacks)
    requires WalkOk(f, t, seeds, w, stacks) && Covered(t, w) && w.worklist == []
    ensures stacks == seeds && 0 in w.ins
    ensures forall d, c :: d in w.ins && d < |t.children| && c in t.children[d] ==> c in w.ins
    ensures w.ins.Keys == w.outs.Keys
    ensures forall b :: b in w.ins ==>
              && b < |f.graph| && b < |t.idom| && Reachable(f.graph, b)
              && if b == 0 then w.ins[b] == seeds else t.idom[b] in w.outs && w.ins[b] == w.outs[t.idom[b]]
  {
    hide StepOk, Reachable, Covered;
    CoveredDone(t, w);
  }

  lemma CoveredDone(t: DomTree, w: Walk)
    requires Covered(t, w) && w.worklist == []
    ensures 0 in w.ins
    ensures forall d, c :: d in w.ins && d < |t.children| && c in t.children[d] ==> c in w.ins
  {
  }

  lemma BlockFacts(f: Function, t: DomTree, seeds: seq<nat>, seedStacks: Stacks, w: Walk, phis: Phis, defs: Definitions,
                   entry: Versions, exit: Versions, b: nat, l: Loc)
    requires f.Valid() && FactsOk(f, phis, defs, entry, exit, w)
    requires w.ins.Keys == w.outs.Keys && b in w.ins && b < |t.idom|
    requires if b == 0 then w.ins[b] == seedStacks else t.idom[b] in w.outs && w.ins[b] == w.outs[t.idom[b]]
    requires |seeds| == |seedStacks| == f.locations && l < f.locations && seedStacks[l] == [seeds[l]]
    ensures b < |f.blocks| && LocationRenamed(f, phis, defs, entry, exit, b, l, Live(t, seeds, exit, b, l))
  {
    hide LocationRenamed, OperandsFilled, BlockRenamed;
    assert BlockRenamed(f, phis, defs, entry, exit, b, w.ins[b], w.outs[b]);
    LocationIn(f, phis, defs, entry, exit, b, w.ins[b], w.outs[b], l);
    if b != 0 {
      var d := t.idom[b];
      assert BlockRenamed(f, phis, defs, entry, exit, d, w.ins[d], w.outs[d]);
      LocationIn(f, phis, defs, entry, exit, d, w.ins[d], w.outs[d], l);
    }
  }

  lemma WalkEnds(f: Function, t: DomTree, seeds: seq<nat>, seedStacks: Stacks, w: Walk, stacks: Stacks, phis: Phis,
                 defs: Definitions, entry: Versions, exit: Versions)
    requires f.Valid() && IsDomTree(f.graph, t) && w.worklist == []
    requires WalkOk(f, t, seedStacks, w, stacks) && Covered(t, w)
    requires FactsOk(f, phis, defs, entry, exit, w)
    requires |seeds| == |seedStacks| == f.locations
    requires forall l :: 0 <= l < f.locations ==>
               seedStacks[l] == [seeds[l]] && (l, seeds[l]) in defs && defs[(l, seeds[l])] == Entry
    ensures Renamed(f, t, seeds, phis, defs, entry, exit) && stacks == seedStacks
    ensures forall b :: b in w.ins <==> Reachable(f.graph, b)
  {
    WalkDone(f, t, seedStacks, w, stacks);
    TreeSizes(f.graph, t);
    TreeCoversAll(f.graph, t, w.ins.Keys);
    hide LocationRenamed, OperandsFilled, IsDomTree, Reachable, Covered, BlockRenamed, Live, WalkOk, InRange, IsIdom;
    forall b, l | 0 <= b < |f.graph| && Reachable(f.graph, b) && 0 <= l < f.locations
      ensures LocationRenamed(f, phis, defs, entry, exit, b, l, Live(t, seeds, exit, b, l))
    {
      BlockFacts(f, t, seeds, seedStacks, w, phis, defs, entry, exit, b, l);
    }
  }

  lemma LocationIn(f: Function, phis: Phis, defs: Definitions, entry: Versions, exit: Versions, b: nat, before: Stacks,
                   after: Stacks, l: Loc)
    requires f.Valid() && BlockRenamed(f, phis, defs, entry, exit, b, before, after) && l < f.locations
    ensures |before| == |after| == f.locations && before[l] != [] && after[l] != [] && b < |f.blocks|
    ensures LocationRenamed(f, phis, defs, entry, exit, b, l, Top(before, l))
    ensures (l, b) in exit && Top(after, l) == exit[(l, b)]
  {
    assert LocationRenamed(f, phis, defs, entry, exit, b, l, Top(before, l));
  }

  lemma KeepsReflexive(d: Definitions)
    ensures Keeps(d, d)
  {
  }

  lemma SeedsKept(f: Function, seeds: seq<nat>, stacks: Stacks, d: Definitions, e: Definitions)
    requires |seeds| == f.locations && Keeps(d, e)
    requires forall l :: 0 <= l < f.locations ==> (l, seeds[l]) in d && d[(l, seeds[l])] == Entry
    ensures forall l :: 0 <= l < f.locations ==> (l, seeds[l]) in e && e[(l, seeds[l])] == Entry
  {
  }

  lemma BlockSizes(f: Function, phis: Phis, defs: Definitions, entry: Versions, exit: Versions, b: nat, before: Stacks,
                   after: Stacks)
    requires f.Valid() && BlockRenamed(f, phis, defs, entry, exit, b, before, after)
    ensures |before| == |after| == f.locations
  {
  }

  lemma FactsSame(f: Function, phis: Phis, defs: Definitions, entry: Versions, exit: Versions, w: Walk, w': Walk)
    requires f.Valid() && FactsOk(f, phis, defs, entry, exit, w) && w'.ins == w.ins && w'.outs == w.outs
    ensures FactsOk(f, phis, defs, entry, exit, w')
  {
    hide BlockRenamed, OperandsFilled;
  }

  ghost function Unvisited(visited: seq<bool>): set<nat> {
    set b | 0 <= b < |visited| && !visited[b]
  }

  lemma VisitShrinks(visited: seq<bool>, b: nat)
    requires b < |visited| && !visited[b]
    ensures Unvisited(visited[b := true]) < Unvisited(visited)
  {
    assert b in Unvisited(visited) && b !in Unvisited(visited[b := true]);
  }

  datatype RenameStep = Enter(block: nat) | Exit(pushed: seq<Loc>)

  class MemorySsa {
    var nextVersion: map<Loc, nat>
    var memoryPhis: Phis
    var definitions: Definitions
    var entryVersions: Versions
    var exitVersions: Versions

    constructor ()
      ensures nextVersion == map[] && memoryPhis == map[] && definitions == map[]
      ensures entryVersions == map[] && exitVersions == map[]
    {
      nextVersion, memoryPhis, definitions := map[], map[], map[];
      entryVersions, exitVersions := map[], map[];
    }

    method AllocateVersion(l: Loc) returns (version: nat)
      modifies this`nextVersion
      ensures version == NextOf(old(nextVersion), l) && nextVersion == old(nextVersion)[l := version + 1]
    {
      version := NextOf(nextVersion, l);
      nextVersion := nextVersion[l := version + 1];
    }

    /** Phase two: phis at the iterated dominance frontier of the blocks that
        define a location or anything it may alias. */
    method PlaceMemoryPhis(f: Function, frontiers: Closure.Rows)
      requires f.Valid() && |frontiers| == |f.graph|
      requires memoryPhis == map[] && definitions == map[] && nextVersion == map[]
      modifies this`nextVersion, this`memoryPhis, this`definitions
      ensures PhisPlaced(f, frontiers, memoryPhis, definitions) && Allocated(nextVersion, definitions)
      ensures forall d :: d in definitions ==> definitions[d].Phi?
      ensures NoOperands(memoryPhis)
    {
      for l := 0 to f.locations
        invariant Placing(f, memoryPhis, definitions, nextVersion, l)
        invariant forall m: Loc :: m < l ==> PhisAtFrontier(f, frontiers, memoryPhis, m)
      {
        ghost var before := memoryPhis;
        PlacePhisFor(f, frontiers, l);
        forall m: Loc | m < l
          ensures PhisAtFrontier(f, frontiers, memoryPhis, m)
        {
          assert PhisAtFrontier(f, frontiers, before, m);
        }
      }
    }

    /** The worklist for one location. */
    method PlacePhisFor(f: Function, frontiers: Closure.Rows, l: Loc)
      requires f.Valid() && |frontiers| == |f.graph| && l < f.locations
      requires Placing(f, memoryPhis, definitions, nextVersion, l)
      modifies this`nextVersion, this`memoryPhis, this`definitions
      ensures Placing(f, memoryPhis, definitions, nextVersion, l + 1)
      ensures PhisAtFrontier(f, frontiers, memoryPhis, l)
      ensures forall m :: m != l ==> PhiBlocks(memoryPhis, m) == PhiBlocks(old(memoryPhis), m)
    {
      hide Placing, PhiBlocks;
      var defs := DefinitionBlocks(f, l);
      ghost var seeds := f.DefBlocks(l);
      var phiBlocks: set<nat> := {};
      var processed: set<nat> := {};
      var worklist := defs;
      ghost var universe := seeds + set b, x | 0 <= b < |frontiers| && x in frontiers[b] :: x;
      NoPhisYet(f, memoryPhis, definitions, nextVersion, l);
      while worklist != []
        invariant Placing(f, memoryPhis, definitions, nextVersion, l + 1)
        invariant PhiBlocks(memoryPhis, l) == phiBlocks
        invariant forall m :: m != l ==> PhiBlocks(memoryPhis, m) == PhiBlocks(old(memoryPhis), m)
        invariant phiBlocks <= universe && processed <= universe
        invariant forall b :: b in worklist || b in processed <==> b in seeds || b in phiBlocks
        invariant forall b :: b in processed ==> Closure.Row(frontiers, b) <= phiBlocks
        invariant forall y :: Closure.ClosedFrom(frontiers, seeds, y) ==> phiBlocks <= y
        decreases universe - processed, |worklist|
      {
        var block := worklist[0];
        worklist := worklist[1..];
        if block in processed || block >= |frontiers| {
          processed := processed + {block};
          continue;
        }
        processed := processed + {block};
        var rest := frontiers[block];
        while rest != {}
          invariant rest <= frontiers[block]
          invariant Placing(f, memoryPhis, definitions, nextVersion, l + 1)
          invariant PhiBlocks(memoryPhis, l) == phiBlocks
          invariant forall m :: m != l ==> PhiBlocks(memoryPhis, m) == PhiBlocks(old(memoryPhis), m)
          invariant phiBlocks <= universe
          invariant forall b :: b in worklist || b in processed <==> b in seeds || b in phiBlocks
          invariant forall b :: b in processed && b != block ==> Closure.Row(frontiers, b) <= phiBlocks
          invariant forall x :: x in frontiers[block] && x !in rest ==> x in phiBlocks
          invariant forall y :: Closure.ClosedFrom(frontiers, seeds, y) ==> phiBlocks <= y
          decreases rest
        {
          var x :| x in rest;
          rest := rest - {x};
          if x !in phiBlocks {
            MinimalStep(frontiers, seeds, phiBlocks, block, x);
            phiBlocks := phiBlocks + {x};
            AddPhiAt(f, x, l);
            worklist := worklist + [x];
          }
        }
      }
    }

    /** Allocates a version for `l` and puts its phi at `block`. */
    method AddPhiAt(f: Function, block: nat, l: Loc)
      requires Placing(f, memoryPhis, definitions, nextVersion, l + 1)
      requires l < f.locations && block !in PhiBlocks(memoryPhis, l)
      modifies this`nextVersion, this`memoryPhis, this`definitions
      ensures Placing(f, memoryPhis, definitions, nextVersion, l + 1)
      ensures forall m :: PhiBlocks(memoryPhis, m) ==
                          if m == l then PhiBlocks(old(memoryPhis), l) + {block} else PhiBlocks(old(memoryPhis), m)
    {
      hide Placing, PhiBlocks;
      var version := AllocateVersion(l);
      ghost var before := memoryPhis;
      var phi := MemoryPhi(l, version, []);
      AddPhiPlaces(f, memoryPhis, definitions, old(nextVersion), block, phi);
      memoryPhis := AddPhi(memoryPhis, block, phi);
      definitions := definitions[(l, version) := Phi(block)];
      forall m
        ensures PhiBlocks(memoryPhis, m) == if m == l then PhiBlocks(before, l) + {block} else PhiBlocks(before, m)
      {
        AddPhiBlocks(before, block, phi, m);
      }
    }

    /** The blocks holding an operation that clobbers `l`, ascending. */
    method DefinitionBlocks(f: Function, l: Loc) returns (blocks: seq<nat>)
      ensures forall b :: b in blocks <==> b in f.DefBlocks(l)
    {
      blocks := [];
      for b := 0 to |f.blocks|
        invariant forall c :: c in blocks <==> 0 <= c < b && f.DefinesIn(c, l)
      {
        if f.DefinesIn(b, l) {
          blocks := blocks + [b];
        }
      }
    }

    // ----- phase three

    /** A fresh version of `l`, defined at `site` and made the live one. */
    method PushFresh(f: Function, l: Loc, site: DefSite, stacks: Stacks, ghost base: Stacks, pushed: seq<Loc>)
      returns (stacks': Stacks, pushed': seq<Loc>)
      requires |stacks| == f.locations && l < f.locations && Grown(base, stacks, pushed)
      requires Allocated(nextVersion, definitions) && StacksDefined(definitions, stacks)
      modifies this`nextVersion, this`definitions
      ensures Allocated(nextVersion, definitions) && StacksDefined(definitions, stacks')
      ensures Keeps(old(definitions), definitions)
      ensures |stacks'| == |stacks| && stacks'[l] != [] && stacks' == Push(stacks, l, Top(stacks', l))
      ensures (l, Top(stacks', l)) in definitions && definitions[(l, Top(stacks', l))] == site
      ensures (l, Top(stacks', l)) !in old(definitions)
      ensures pushed' == pushed + [l] && Grown(base, stacks', pushed')
    {
      var version := AllocateVersion(l);
      GrownByOne(base, stacks, pushed, l, version);
      stacks' := Push(stacks, l, version);
      definitions := definitions[(l, version) := site];
      pushed' := pushed + [l];
    }

    /** Entering a handler or filter: locations whose live version the region may
        have made get a version that stands for "unknown". */
    method KillAtExceptionRoot(f: Function, block: nat, stacks: Stacks) returns (stacks': Stacks, killed: seq<Loc>)
      requires f.Valid() && block in f.roots && |stacks| == f.locations && NoneEmpty(stacks)
      requires Allocated(nextVersion, definitions) && StacksDefined(definitions, stacks)
      modifies this`nextVersion, this`definitions
      ensures Allocated(nextVersion, definitions) && StacksDefined(definitions, stacks')
      ensures Keeps(old(definitions), definitions)
      ensures Grown(stacks, stacks', killed) && NoneEmpty(stacks')
      ensures forall l :: 0 <= l < f.locations ==>
                if Interrupted(f.roots[block], old(definitions)[(l, Top(stacks, l))])
                then (l, Top(stacks', l)) in definitions && definitions[(l, Top(stacks', l))] == ExceptionEntry(block)
                else stacks'[l] == stacks[l]
    {
      ghost var defs := definitions;
      var region := f.roots[block];
      stacks', killed := stacks, [];
      for l := 0 to f.locations
        invariant Allocated(nextVersion, definitions) && StacksDefined(definitions, stacks') && Keeps(defs, definitions)
        invariant Grown(stacks, stacks', killed) && NoneEmpty(stacks')
        invariant forall m :: l <= m < f.locations ==> stacks'[m] == stacks[m]
        invariant forall m :: 0 <= m < l ==>
                    if Interrupted(region, defs[(m, Top(stacks, m))])
                    then && (m, Top(stacks', m)) in definitions
                         && definitions[(m, Top(stacks', m))] == ExceptionEntry(block)
                    else stacks'[m] == stacks[m]
      {
        if Interrupted(region, definitions[(l, Top(stacks', l))]) {
          stacks', killed := PushFresh(f, l, ExceptionEntry(block), stacks', stacks, killed);
        }
      }
    }

    /** The block's phis define new versions, in the order they were placed. */
    method PushPhis(f: Function, block: nat, stacks: Stacks, ghost base: Stacks, pushed: seq<Loc>)
      returns (stacks': Stacks, pushed': seq<Loc>)
      requires f.Valid() && |stacks| == f.locations && Grown(base, stacks, pushed) && NoneEmpty(stacks)
      requires OnePhiEach(memoryPhis) && PhisDefined(f, memoryPhis, definitions) && StacksDefined(definitions, stacks)
      ensures StacksDefined(definitions, stacks') && Grown(base, stacks', pushed') && NoneEmpty(stacks')
      ensures |stacks'| == f.locations
      ensures forall l :: 0 <= l < f.locations ==>
                if HasPhi(memoryPhis, block, l) then PhiVersion(memoryPhis, block, l, Top(stacks', l))
                else stacks'[l] == stacks[l]
    {
      hide Grown;
      GrownSize(base, stacks, pushed);
      stacks', pushed' := stacks, pushed;
      var phis := PhisAt(memoryPhis, block);
      for i := 0 to |phis|
        invariant |stacks'| == f.locations && NoneEmpty(stacks')
        invariant StacksDefined(definitions, stacks') && Grown(base, stacks', pushed')
        invariant forall j :: 0 <= j < i ==>
                  phis[j].location < f.locations && Top(stacks', phis[j].location) == phis[j].version
        invariant forall l :: 0 <= l < f.locations && (forall j :: 0 <= j < i ==> phis[j].location != l) ==>
                  stacks'[l] == stacks[l]
      {
        assert phis[i] == PhisAt(memoryPhis, block)[i];
        assert forall j :: 0 <= j < i ==> phis[j].location != phis[i].location;
        GrownByOne(base, stacks', pushed', phis[i].location, phis[i].version);
        stacks' := Push(stacks', phis[i].location, phis[i].version);
        pushed' := pushed' + [phis[i].location];
      }
      forall l | 0 <= l < f.locations && HasPhi(memoryPhis, block, l)
        ensures PhiVersion(memoryPhis, block, l, Top(stacks', l))
      {
        var i :| 0 <= i < |phis| && phis[i].location == l;
        assert PhisAt(memoryPhis, block)[i].version == Top(stacks', l);
      }
    }

    /** One defining operation gives every location it may clobber a version. */
    method RenameOperation(f: Function, block: nat, instr: nat, defined: Loc, stacks: Stacks, ghost base: Stacks,
                           pushed: seq<Loc>)
      returns (stacks': Stacks, pushed': seq<Loc>)
      requires |stacks| == f.locations && Grown(base, stacks, pushed) && NoneEmpty(stacks)
      requires Allocated(nextVersion, definitions) && StacksDefined(definitions, stacks)
      modifies this`nextVersion, this`definitions
      ensures Allocated(nextVersion, definitions) && StacksDefined(definitions, stacks')
      ensures Keeps(old(definitions), definitions)
      ensures Grown(base, stacks', pushed') && NoneEmpty(stacks') && |stacks'| == f.locations
      ensures forall l :: 0 <= l < f.locations ==>
                if (l, defined) in f.alias
                then && (l, Top(stacks', l)) in definitions && definitions[(l, Top(stacks', l))] == Store(block, instr)
                     && |stacks'[l]| == |stacks[l]| + 1 && stacks'[l][..|stacks[l]|] == stacks[l]
                else stacks'[l] == stacks[l]
    {
      ghost var defs := definitions;
      stacks', pushed' := stacks, pushed;
      for l := 0 to f.locations
        invariant Allocated(nextVersion, definitions) && StacksDefined(definitions, stacks') && Keeps(defs, definitions)
        invariant Grown(base, stacks', pushed') && NoneEmpty(stacks') && |stacks'| == f.locations
        invariant forall m :: l <= m < f.locations ==> stacks'[m] == stacks[m]
        invariant forall m :: 0 <= m < l ==>
                    if (m, defined) in f.alias
                    then && (m, Top(stacks', m)) in definitions
                         && definitions[(m, Top(stacks', m))] == Store(block, instr)
                         && |stacks'[m]| == |stacks[m]| + 1 && stacks'[m][..|stacks[m]|] == stacks[m]
                    else stacks'[m] == stacks[m]
      {
        if (l, defined) in f.alias {
          stacks', pushed' := PushFresh(f, l, Store(block, instr), stacks', base, pushed');
        }
      }
    }

    method RenameInstructions(f: Function, block: nat, stacks: Stacks, ghost base: Stacks, pushed: seq<Loc>)
      returns (stacks': Stacks, pushed': seq<Loc>)
      requires f.Valid() && block < |f.blocks| && |stacks| == f.locations && Grown(base, stacks, pushed)
      requires NoneEmpty(stacks)
      requires Allocated(nextVersion, definitions) && StacksDefined(definitions, stacks)
      modifies this`nextVersion, this`definitions
      ensures Allocated(nextVersion, definitions) && StacksDefined(definitions, stacks')
      ensures Keeps(old(definitions), definitions)
      ensures Grown(base, stacks', pushed') && NoneEmpty(stacks') && |stacks'| == f.locations
      ensures forall l :: 0 <= l < f.locations ==>
                var i := f.LastClobber(f.blocks[block], l);
                if i >= 0
                then (l, Top(stacks', l)) in definitions && definitions[(l, Top(stacks', l))] == Store(block, i)
                else stacks'[l] == stacks[l]
      ensures forall l :: 0 <= l < f.locations ==>
                StoresPushed(f, definitions, block, f.blocks[block], l, stacks[l], stacks'[l])
    {
      hide StoresPushed;
      ghost var defs := definitions;
      stacks', pushed' := stacks, pushed;
      var ops := f.blocks[block];
      NothingPushed(f, definitions, block, stacks);
      for i := 0 to |ops|
        invariant Allocated(nextVersion, definitions) && StacksDefined(definitions, stacks') && Keeps(defs, definitions)
        invariant Grown(base, stacks', pushed') && NoneEmpty(stacks') && |stacks'| == f.locations
        invariant forall l :: 0 <= l < f.locations ==>
                    var j := f.LastClobber(ops[..i], l);
                    if j >= 0
                    then (l, Top(stacks', l)) in definitions && definitions[(l, Top(stacks', l))] == Store(block, j)
                    else stacks'[l] == stacks[l]
        invariant forall l :: 0 <= l < f.locations ==>
                    StoresPushed(f, definitions, block, ops[..i], l, stacks[l], stacks'[l])
      {
        assert ops[..i + 1][..i] == ops[..i] && ops[..i + 1][i] == ops[i] && ops[..i + 1] == ops[..i] + [ops[i]];
        ghost var mid, defs1 := stacks', definitions;
        if ops[i].Write? {
          stacks', pushed' := RenameOperation(f, block, i, ops[i].loc, stacks', base, pushed');
        }
        forall l | 0 <= l < f.locations
          ensures StoresPushed(f, definitions, block, ops[..i + 1], l, stacks[l], stacks'[l])
        {
          StoresPushOne(f, defs1, definitions, block, ops[..i], ops[i], l, stacks[l], mid[l], stacks'[l]);
        }
      }
      assert ops[..|ops|] == ops;
    }

    /** The phis with the operand for one edge appended. */
    method WithOperands(f: Function, phis: seq<MemoryPhi>, block: nat, stacks: Stacks) returns (filled: seq<MemoryPhi>)
      requires |stacks| == f.locations && NoneEmpty(stacks)
      requires forall i :: 0 <= i < |phis| ==> phis[i].location < f.locations
      ensures |filled| == |phis|
      ensures forall j :: 0 <= j < |phis| ==>
                filled[j].location == phis[j].location && filled[j].version == phis[j].version
      ensures forall j :: 0 <= j < |phis| ==>
                filled[j].operands == phis[j].operands + [PhiOperand(block, Top(stacks, phis[j].location))]
    {
      filled := [];
      for i := 0 to |phis|
        invariant |filled| == i
        invariant forall j :: 0 <= j < i ==>
                  filled[j].location == phis[j].location && filled[j].version == phis[j].version
        invariant forall j :: 0 <= j < i ==>
                    filled[j].operands == phis[j].operands + [PhiOperand(block, Top(stacks, phis[j].location))]
      {
        var operand := PhiOperand(block, Top(stacks, phis[i].location));
        filled := filled + [phis[i].(operands := phis[i].operands + [operand])];
      }
    }

    /** Appends the operand for one edge to every phi of its target. */
    method FillOperandsOf(f: Function, block: nat, succ: nat, stacks: Stacks)
      requires |stacks| == f.locations && NoneEmpty(stacks)
      requires forall i :: 0 <= i < |PhisAt(memoryPhis, succ)| ==> PhisAt(memoryPhis, succ)[i].location < f.locations
      requires Edge(f.graph, block, succ)
      requires forall l :: 0 <= l < f.locations ==>
                (l, block) in exitVersions && exitVersions[(l, block)] == Top(stacks, l)
      modifies this`memoryPhis
      ensures PhisGrow(old(memoryPhis), memoryPhis)
      ensures forall i :: 0 <= i < |PhisAt(memoryPhis, succ)| ==>
                var phi := PhisAt(memoryPhis, succ)[i];
                phi.location < f.locations && PhiOperand(block, Top(stacks, phi.location)) in phi.operands
      ensures OperandsAdded(f, old(memoryPhis), memoryPhis, exitVersions, block)
      ensures Gained(old(memoryPhis), memoryPhis, block, [succ])
    {
      hide CountFrom, Gained;
      ghost var before := memoryPhis;
      if succ in memoryPhis {
        assert memoryPhis[succ] == PhisAt(memoryPhis, succ);
        var filled := WithOperands(f, memoryPhis[succ], block, stacks);
        FilledGrows(memoryPhis, succ, filled);
        memoryPhis := memoryPhis[succ := filled];
      }
      GainedByOne(before, memoryPhis, block, succ);
    }

    method FillOperands(f: Function, block: nat, stacks: Stacks)
      requires f.Valid() && block < |f.graph| && |stacks| == f.locations && NoneEmpty(stacks)
      requires PhisDefined(f, memoryPhis, definitions)
      requires forall l :: 0 <= l < f.locations ==>
                (l, block) in exitVersions && exitVersions[(l, block)] == Top(stacks, l)
      modifies this`memoryPhis
      ensures PhisGrow(old(memoryPhis), memoryPhis)
      ensures OperandsFilled(f, memoryPhis, exitVersions, block)
      ensures OperandsAdded(f, old(memoryPhis), memoryPhis, exitVersions, block)
      ensures Gained(old(memoryPhis), memoryPhis, block, f.graph[block])
    {
      hide Gained;
      ghost var before := memoryPhis;
      var succs := f.graph[block];
      NothingGained(before, block);
      for k := 0 to |succs|
        invariant PhisGrow(before, memoryPhis) && OperandsAdded(f, before, memoryPhis, exitVersions, block)
        invariant Gained(before, memoryPhis, block, succs[..k])
        invariant forall b, i :: b in succs[..k] && 0 <= i < |PhisAt(memoryPhis, b)| ==>
                    var phi := PhisAt(memoryPhis, b)[i];
                    phi.location < f.locations && PhiOperand(block, Top(stacks, phi.location)) in phi.operands
      {
        ghost var p := memoryPhis;
        PhisDefinedStay(f, before, p, definitions);
        assert forall i :: 0 <= i < |PhisAt(p, succs[k])| ==> PhisAt(p, succs[k])[i].location < f.locations;
        FillOperandsOf(f, block, succs[k], stacks);
        PhisGrowTransitive(before, p, memoryPhis);
        OperandsAddedCompose(f, before, p, memoryPhis, exitVersions, block);
        GainedTwice(before, p, memoryPhis, block, succs[..k], succs[k]);
        assert succs[..k + 1] == succs[..k] + [succs[k]];
        forall b, i | b in succs[..k] && 0 <= i < |PhisAt(memoryPhis, b)|
          ensures var phi := PhisAt(memoryPhis, b)[i];
            phi.location < f.locations && PhiOperand(block, Top(stacks, phi.location)) in phi.operands
        {
          assert PhisAt(p, b)[i].operands <= PhisAt(memoryPhis, b)[i].operands;
        }
      }
      assert succs[..|succs|] == succs;
    }

    method RecordVersions(f: Function, block: nat, stacks: Stacks, versions: Versions) returns (versions': Versions)
      requires |stacks| == f.locations && NoneEmpty(stacks)
      ensures forall l :: 0 <= l < f.locations ==> (l, block) in versions' && versions'[(l, block)] == Top(stacks, l)
      ensures forall b :: b != block ==> SameAt(versions, versions', b)
      ensures OnlyRecorded(f.locations, block, versions, versions')
    {
      versions' := versions;
      for l := 0 to f.locations
        invariant forall m :: 0 <= m < l ==> (m, block) in versions' && versions'[(m, block)] == Top(stacks, m)
        invariant forall b :: b != block ==> SameAt(versions, versions', b)
        invariant OnlyRecorded(l, block, versions, versions')
      {
        ghost var w := versions';
        versions' := versions'[(l, block) := Top(stacks, l)];
        forall b | b != block
          ensures SameAt(versions, versions', b)
        {
          assert SameAt(versions, w, b);
        }
      }
    }

    /** Renames one block: kills, entry versions, phis, operations, exit versions,
        operands of the successors' phis. */
    method RenameBlock(f: Function, block: nat, stacks: Stacks) returns (stacks': Stacks, pushed: seq<Loc>)
      requires f.Valid() && block < |f.graph| && |stacks| == f.locations && NoneEmpty(stacks)
      requires Allocated(nextVersion, definitions) && StacksDefined(definitions, stacks)
      requires OnePhiEach(memoryPhis) && PhisDefined(f, memoryPhis, definitions)
      modifies this
      ensures Allocated(nextVersion, definitions) && StacksDefined(definitions, stacks')
      ensures OnePhiEach(memoryPhis) && PhisDefined(f, memoryPhis, definitions)
      ensures Keeps(old(definitions), definitions) && PhisGrow(old(memoryPhis), memoryPhis)
      ensures forall b :: b != block ==>
                SameAt(old(entryVersions), entryVersions, b) && SameAt(old(exitVersions), exitVersions, b)
      ensures Grown(stacks, stacks', pushed) && NoneEmpty(stacks')
      ensures BlockRenamed(f, memoryPhis, definitions, entryVersions, exitVersions, block, stacks, stacks')
      ensures OperandsFilled(f, memoryPhis, exitVersions, block)
      ensures OperandsAdded(f, old(memoryPhis), memoryPhis, exitVersions, block)
      ensures Gained(old(memoryPhis), memoryPhis, block, f.graph[block])
    {
      hide Allocated, OnePhiEach, PhisDefined, OperandsFilled, OperandsAdded, PhisGrow, OnlyRecorded, LocationRenamed,
           Gained, StoresPushed;
      ghost var defs0, phis0 := definitions, memoryPhis;
      stacks', pushed := stacks, [];
      assert Grown(stacks, stacks', pushed);
      if block in f.roots {
        stacks', pushed := KillAtExceptionRoot(f, block, stacks);
      }
      ghost var atEntry, defs1 := stacks', definitions;
      entryVersions := RecordVersions(f, block, stacks', entryVersions);
      PhisDefinedKept(f, memoryPhis, defs0, defs1);
      stacks', pushed := PushPhis(f, block, stacks', stacks, pushed);
      ghost var atBody := stacks';
      stacks', pushed := RenameInstructions(f, block, stacks', stacks, pushed);
      exitVersions := RecordVersions(f, block, stacks', exitVersions);
      PhisDefinedKept(f, memoryPhis, defs1, definitions);
      forall l | 0 <= l < f.locations
        ensures LocationRenamed(f, memoryPhis, definitions, entryVersions, exitVersions, block, l, Top(stacks, l))
      {
        LocationSteps(f, memoryPhis, defs0, defs1, definitions, entryVersions, exitVersions, block, l, stacks, atEntry,
                      atBody, stacks');
      }
      assert BlockRenamed(f, memoryPhis, definitions, entryVersions, exitVersions, block, stacks, stacks');
      FillOperands(f, block, stacks');
      BlockRenamedStable(f, phis0, definitions, entryVersions, exitVersions,
                         memoryPhis, definitions, entryVersions, exitVersions, block, stacks, stacks');
      PhisDefinedStay(f, phis0, memoryPhis, definitions);
    }

    /** Every location starts from its function-entry version. */
    method SeedEntryVersions(f: Function) returns (stacks: Stacks, ghost seeds: seq<nat>)
      requires Allocated(nextVersion, definitions)
      modifies this`nextVersion, this`definitions
      ensures Allocated(nextVersion, definitions) && Keeps(old(definitions), definitions)
      ensures |stacks| == |seeds| == f.locations && NoneEmpty(stacks) && StacksDefined(definitions, stacks)
      ensures forall l :: 0 <= l < f.locations ==>
                stacks[l] == [seeds[l]] && (l, seeds[l]) in definitions && definitions[(l, seeds[l])] == Entry
    {
      ghost var defs := definitions;
      stacks, seeds := [], [];
      for l := 0 to f.locations
        invariant Allocated(nextVersion, definitions) && Keeps(defs, definitions)
        invariant |stacks| == |seeds| == l && StacksDefined(definitions, stacks)
        invariant forall m :: 0 <= m < l ==>
                  stacks[m] == [seeds[m]] && (m, seeds[m]) in definitions && definitions[(m, seeds[m])] == Entry
      {
        var version := AllocateVersion(l);
        stacks, seeds := stacks + [[version]], seeds + [version];
        definitions := definitions[(l, version) := Entry];
      }
    }

    /** Queues the dominator-tree children of a block just renamed. */
    method PushChildren(f: Function, t: DomTree, b: nat, visited: seq<bool>, worklist: seq<RenameStep>, stacks: Stacks,
                        ghost seeds: Stacks, ghost w: Walk)
      returns (worklist': seq<RenameStep>, ghost w': Walk)
      requires IsDomTree(f.graph, t) && b < |f.graph| == |t.children|
      requires |visited| == |f.graph| && forall c :: 0 <= c < |visited| ==> (visited[c] <==> c in w.ins)
      requires worklist == w.worklist && b in w.ins && b in w.outs && w.outs[b] == stacks
      requires WalkOk(f, t, seeds, w, stacks) && SavedOk(f, definitions, seeds, w, stacks) && CoveredBut(t, w, b, [])
      ensures worklist' == w'.worklist && w'.ins == w.ins && w'.outs == w.outs
      ensures WalkOk(f, t, seeds, w', stacks) && SavedOk(f, definitions, seeds, w', stacks) && Covered(t, w')
    {
      hide WalkOk, SavedOk, CoveredBut, Covered, IsDomTree, Reachable;
      worklist', w' := worklist, w;
      var children := t.children[b];
      for k := 0 to |children|
        invariant worklist' == w'.worklist && w'.ins == w.ins && w'.outs == w.outs
        invariant WalkOk(f, t, seeds, w', stacks) && SavedOk(f, definitions, seeds, w', stacks)
        invariant CoveredBut(t, w', b, children[..k])
      {
        ghost var w1 := w';
        ChildOf(f.graph, t, b, children[k]);
        if !visited[children[k]] {
          worklist' := worklist' + [Enter(children[k])];
          w' := w'.(worklist := w'.worklist + [Enter(children[k])], saved := w'.saved + [stacks]);
          WalkChild(f, t, seeds, w1, stacks, b, children[k], definitions);
        }
        CoverChild(t, w1, w', b, children, k);
      }
      assert children[..|children|] == children;
      CoverDone(t, w', b);
    }

    /** Handles the entry step of a block met for the first time. */
    method EnterBlock(f: Function, t: DomTree, b: nat, visited: seq<bool>, worklist: seq<RenameStep>, stacks: Stacks,
                      ghost seeds: Stacks, ghost w: Walk)
      returns (worklist': seq<RenameStep>, stacks': Stacks, ghost w': Walk)
      requires f.Valid() && IsDomTree(f.graph, t) && b < |f.graph| && b !in w.ins
      requires |visited| == |f.graph| && forall c :: 0 <= c < |visited| ==> (visited[c] <==> c in w.ins || c == b)
      requires worklist == w.worklist && worklist != [] && worklist[|worklist| - 1] == Enter(b)
      requires |w.saved| == |worklist|
      requires WalkOk(f, t, seeds, w, stacks) && Covered(t, w) && SavedOk(f, definitions, seeds, w, stacks)
      requires FactsOk(f, memoryPhis, definitions, entryVersions, exitVersions, w)
      requires OperandsExact(f, memoryPhis, exitVersions, w.ins.Keys)
      requires OperandsPerEdge(f.graph, memoryPhis, w.ins.Keys)
      requires Allocated(nextVersion, definitions) && OnePhiEach(memoryPhis) && PhisDefined(f, memoryPhis, definitions)
      modifies this
      ensures worklist' == w'.worklist && w'.ins.Keys == w.ins.Keys + {b}
      ensures WalkOk(f, t, seeds, w', stacks') && Covered(t, w') && SavedOk(f, definitions, seeds, w', stacks')
      ensures FactsOk(f, memoryPhis, definitions, entryVersions, exitVersions, w')
      ensures OperandsExact(f, memoryPhis, exitVersions, w'.ins.Keys)
      ensures OperandsPerEdge(f.graph, memoryPhis, w'.ins.Keys)
      ensures Allocated(nextVersion, definitions) && OnePhiEach(memoryPhis) && PhisDefined(f, memoryPhis, definitions)
      ensures PhisGrow(old(memoryPhis), memoryPhis) && Keeps(old(definitions), definitions)
    {
      hide WalkOk, CoveredBut, Covered, IsDomTree, Reachable, BlockRenamed, OperandsFilled, PhisGrow, Keeps, SameAt,
        Allocated, OnePhiEach, PhisDefined, Grown, InRange, NoneEmpty, StacksDefined, OperandsPerEdge, Gained;
      TreeSizes(f.graph, t);
      ghost var defs, phis, entry, exit := definitions, memoryPhis, entryVersions, exitVersions;
      ghost var n := |worklist| - 1;
      var pushed;
      stacks', pushed := RenameBlock(f, b, stacks);
      var steps := worklist[..|worklist| - 1] + [Exit(pushed)];
      w' := Walk(w.worklist[..n] + [Exit(pushed)], w.saved[..n] + [stacks'], w.ins[b := stacks], w.outs[b := stacks']);
      WalkEnter(f, t, seeds, w, stacks, b, pushed, stacks');
      BlockSizes(f, memoryPhis, definitions, entryVersions, exitVersions, b, stacks, stacks');
      SavedStays(f, defs, definitions, seeds, w, stacks, b, stacks', pushed);
      FactsGrow(f, phis, defs, entry, exit, memoryPhis, definitions, entryVersions, exitVersions,
                w, b, stacks, stacks', pushed);
      OperandsStayExact(f, phis, memoryPhis, exit, exitVersions, w.ins.Keys, b);
      EdgesFilled(f.graph, phis, memoryPhis, w.ins.Keys, b);
      assert w'.ins.Keys == w.ins.Keys + {b};
      hide SavedOk, FactsOk, OperandsExact, OperandsAdded;
      ghost var w1 := w';
      worklist', w' := PushChildren(f, t, b, visited, steps, stacks', seeds, w');
      FactsSame(f, memoryPhis, definitions, entryVersions, exitVersions, w1, w');
    }

    /** Phase three: rename in dominator-tree preorder with an explicit stack.
        `order` lists the blocks in the order they were renamed and `final` is
        what the walk leaves on the version stacks. */
    method RenameMemoryVersions(f: Function, t: DomTree)
      returns (ghost seeds: seq<nat>, ghost order: seq<nat>, final: Stacks)
      requires f.Valid() && IsDomTree(f.graph, t)
      requires Allocated(nextVersion, definitions)
      requires OnePhiEach(memoryPhis) && PhisDefined(f, memoryPhis, definitions)
      requires NoOperands(memoryPhis)
      modifies this
      ensures PhisGrow(old(memoryPhis), memoryPhis) && Keeps(old(definitions), definitions)
      ensures OnePhiEach(memoryPhis) && PhisDefined(f, memoryPhis, definitions)
      ensures Renamed(f, t, seeds, memoryPhis, definitions, entryVersions, exitVersions)
      ensures OperandsExact(f, memoryPhis, exitVersions, BlockSet(order))
      ensures OperandsPerEdge(f.graph, memoryPhis, BlockSet(order))
      ensures forall b :: b in order <==> Reachable(f.graph, b)
      ensures forall i, j :: 0 <= i < j < |order| ==> order[i] != order[j]
      ensures |final| == |seeds| && forall l :: 0 <= l < |seeds| ==> final[l] == [seeds[l]]
    {
      hide Allocated, StacksDefined, OnePhiEach, PhisDefined, PhisGrow, InRange, WalkOk, Covered, Reachable, FactsOk, SavedOk,
        NoneEmpty, IsDomTree, Renamed, PopAll, Keeps, OperandsExact, OperandsPerEdge;
      ghost var phis0, defs0 := memoryPhis, definitions;
      var stacks;
      stacks, seeds := SeedEntryVersions(f);
      ghost var seedStacks, seedDefs := stacks, definitions;
      ghost var w := Walk([Enter(0)], [stacks], map[], map[]);
      WalkStarts(f, t, stacks, memoryPhis, definitions, entryVersions, exitVersions);
      NoOperandsExact(f, memoryPhis, exitVersions, w.ins.Keys);
      NoEdgesFilled(f.graph, memoryPhis);
      assert w.ins.Keys == {};
      PhisDefinedKept(f, memoryPhis, defs0, definitions);
      PhisGrowReflexive(memoryPhis);
      KeepsReflexive(definitions);
      var worklist := [Enter(0)];
      var visited: seq<bool> := seq(|f.graph|, _ => false);
      order := [];
      while worklist != []
        invariant worklist == w.worklist && |visited| == |f.graph|
        invariant forall b :: 0 <= b < |visited| ==> (visited[b] <==> b in w.ins)
        invariant WalkOk(f, t, seedStacks, w, stacks) && Covered(t, w)
        invariant SavedOk(f, definitions, seedStacks, w, stacks)
        invariant FactsOk(f, memoryPhis, definitions, entryVersions, exitVersions, w)
        invariant OperandsExact(f, memoryPhis, exitVersions, w.ins.Keys)
        invariant OperandsPerEdge(f.graph, memoryPhis, w.ins.Keys)
        invariant Allocated(nextVersion, definitions)
        invariant OnePhiEach(memoryPhis) && PhisDefined(f, memoryPhis, definitions)
        invariant PhisGrow(phis0, memoryPhis) && Keeps(seedDefs, definitions)
        invariant forall b :: b in order <==> b in w.ins
        invariant forall i, j :: 0 <= i < j < |order| ==> order[i] != order[j]
        decreases Unvisited(visited), |worklist|
      {
        var n := |worklist| - 1;
        var step := worklist[n];
        WalkTop(f, t, seedStacks, w, stacks, definitions);
        ghost var phis, defs, w1 := memoryPhis, definitions, w;
        match step {
          case Enter(b) =>
            if visited[b] {
              WalkSkip(f, t, seedStacks, w, stacks, definitions);
              w := w.(worklist := w.worklist[..n], saved := w.saved[..n]);
              worklist := worklist[..n];
              FactsSame(f, memoryPhis, definitions, entryVersions, exitVersions, w1, w);
            } else {
              VisitShrinks(visited, b);
              visited := visited[b := true];
              worklist, stacks, w := EnterBlock(f, t, b, visited, worklist, stacks, seedStacks, w);
              order := order + [b];
              PhisGrowTransitive(phis0, phis, memoryPhis);
              KeepsTransitive(seedDefs, defs, definitions);
            }
          case Exit(pushed) =>
            WalkExit(f, t, seedStacks, w, stacks, pushed, definitions);
            stacks := PopPushed(stacks, pushed);
            w := w.(worklist := w.worklist[..n], saved := w.saved[..n]);
            worklist := worklist[..n];
            FactsSame(f, memoryPhis, definitions, entryVersions, exitVersions, w1, w);
        }
      }
      final := stacks;
      assert BlockSet(order) == w.ins.Keys;
      SeedsKept(f, seeds, seedStacks, seedDefs, definitions);
      KeepsTransitive(defs0, seedDefs, definitions);
      WalkEnds(f, t, seeds, seedStacks, w, stacks, memoryPhis, definitions, entryVersions, exitVersions);
    }

    method PopPushed(stacks: Stacks, pushed: seq<Loc>) returns (stacks': Stacks)
      ensures stacks' == PopAll(stacks, pushed)
      ensures forall before :: Grown(before, stacks, pushed) ==> stacks' == before
    {
      stacks' := stacks;
      for k := 0 to |pushed|
        invariant PopAll(stacks', pushed[k..]) == PopAll(stacks, pushed)
      {
        assert pushed[k..][1..] == pushed[k + 1..];
        stacks' := PopOne(stacks', pushed[k]);
      }
      forall before | Grown(before, stacks, pushed)
        ensures stacks' == before
      {
        PopAllRestores(before, stacks, pushed);
      }
    }
  }

  // ----- the finished structure

  /** What construction leaves: the phis, the definition site of every version, and
      the version of every location at every block's entry and exit. */
  datatype View = View(seeds: seq<nat>, phis: Phis, definitions: Definitions, entry: Versions, exit: Versions)

  ghost predicate IsMemorySsa(f: Function, t: DomTree, rows: Closure.Rows, v: View) {
    && f.Valid() && IsDomTree(f.graph, t) && AreFrontiers(f.graph, rows)
    && PhisPlaced(f, rows, v.phis, v.definitions)
    && Renamed(f, t, v.seeds, v.phis, v.definitions, v.entry, v.exit)
    && OperandsFromReachable(f.graph, v.phis)
    && forall b, i, k :: 0 <= i < |PhisAt(v.phis, b)| && 0 <= k < |PhisAt(v.phis, b)[i].operands| ==>
         OperandOf(f, v, b, PhisAt(v.phis, b)[i].location, PhisAt(v.phis, b)[i].operands[k])
  }

  /** Every phi has one operand for each edge from a reachable block, and no others. */
  ghost predicate OperandsFromReachable(g: Cfg, phis: Phis) {
    forall b: nat, i, p: nat :: 0 <= i < |PhisAt(phis, b)| ==>
      CountFrom(PhisAt(phis, b)[i].operands, p) == if Reachable(g, p) then EdgeCount(g, p, b) else 0
  }

  lemma AllEdgesFilled(g: Cfg, phis: Phis, done: set<nat>)
    requires OperandsPerEdge(g, phis, done) && forall b: nat :: b in done <==> Reachable(g, b)
    ensures OperandsFromReachable(g, phis)
  {
    hide Reachable, CountFrom, EdgeCount;
  }

  /** An operand comes over an edge from a reachable block and carries the version
      that block leaves. */
  ghost predicate OperandOf(f: Function, v: View, b: nat, l: Loc, o: PhiOperand) {
    && Reachable(f.graph, o.predecessor) && Edge(f.graph, o.predecessor, b)
    && (l, o.predecessor) in v.exit && v.exit[(l, o.predecessor)] == o.version
  }

  lemma PlacementStays(f: Function, rows: Closure.Rows, p: Phis, q: Phis, defs: Definitions)
    requires forall l: Loc :: l < f.locations ==> PhisAtFrontier(f, rows, p, l)
    requires PhisGrow(p, q) && OnePhiEach(q) && PhisDefined(f, q, defs)
    ensures PhisPlaced(f, rows, q, defs)
  {
    forall l: Loc | l < f.locations
      ensures PhisAtFrontier(f, rows, q, l)
    {
      assert PhisAtFrontier(f, rows, p, l);
      forall b
        ensures HasPhi(p, b, l) <==> HasPhi(q, b, l)
      {
        PhiShapeKept(p, q, b, l, 0);
      }
      assert PhiBlocks(p, l) == PhiBlocks(q, l);
    }
  }

  method Build(f: Function, t: DomTree, frontiers: Closure.Rows) returns (m: MemorySsa, ghost seeds: seq<nat>)
    requires f.Valid() && IsDomTree(f.graph, t) && AreFrontiers(f.graph, frontiers)
    ensures IsMemorySsa(f, t, frontiers, View(seeds, m.memoryPhis, m.definitions, m.entryVersions, m.exitVersions))
  {
    hide IsDomTree, Renamed, PhisAtFrontier, PhisGrow, Keeps, OnePhiEach, PhisDefined, Allocated, InRange, Reachable,
         OperandsPerEdge, OperandsFromReachable;
    m := new MemorySsa();
    m.PlaceMemoryPhis(f, frontiers);
    ghost var placed := m.memoryPhis;
    ghost var order;
    var final;
    seeds, order, final := m.RenameMemoryVersions(f, t);
    ghost var v := View(seeds, m.memoryPhis, m.definitions, m.entryVersions, m.exitVersions);
    PlacementStays(f, frontiers, placed, m.memoryPhis, m.definitions);
    AllEdgesFilled(f.graph, m.memoryPhis, BlockSet(order));
    forall b, i, k | 0 <= i < |PhisAt(v.phis, b)| && 0 <= k < |PhisAt(v.phis, b)[i].operands|
      ensures OperandOf(f, v, b, PhisAt(v.phis, b)[i].location, PhisAt(v.phis, b)[i].operands[k])
    {
      assert OperandExact(f, v.exit, BlockSet(order), b, PhisAt(v.phis, b)[i].location, PhisAt(v.phis, b)[i].operands[k]);
    }
  }
}
