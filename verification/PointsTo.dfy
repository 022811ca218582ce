/** The inclusion-based points-to solver of src/analysis/pointsto.rs.

    `Solve` is the difference-propagation worklist.  What it must compute is
    stated without it: a relation satisfying every constraint that is contained
    in every other such relation.
  */
module PointsTo {
  import opened Sequences

  type Loc = nat

  /** One inclusion constraint: `ptr = &target`, `dst = src`, `dst = *ptr`,
      `*ptr = src`. */
  datatype Constraint =
    | AddressOf(ptr: Loc, target: Loc)
    | Copy(dst: Loc, src: Loc)
    | Load(dst: Loc, ptr: Loc)
    | Store(ptr: Loc, src: Loc)

  /** Points-to sets, copy edges and the load / store index share this shape. */
  type Sets = map<Loc, set<Loc>>

  function At(s: Sets, l: Loc): set<Loc> {
    if l in s then s[l] else {}
  }

  /** `s` with `x` added to the set of `l`, creating the entry when absent. */
  function Insert(s: Sets, l: Loc, x: Loc): Sets {
    s[l := At(s, l) + {x}]
  }

  // ----- the declarative meaning of a constraint list

  ghost predicate Holds(c: Constraint, s: Sets) {
    match c
    case AddressOf(ptr, target) => target in At(s, ptr)
    case Copy(dst, src) => At(s, src) <= At(s, dst)
    case Load(dst, ptr) => forall o :: o in At(s, ptr) ==> At(s, o) <= At(s, dst)
    case Store(ptr, src) => forall o :: o in At(s, ptr) ==> At(s, src) <= At(s, o)
  }

  ghost predicate IsSolution(cs: seq<Constraint>, s: Sets) {
    forall c :: c in cs ==> Holds(c, s)
  }

  ghost predicate Below(s: Sets, t: Sets) {
    forall l :: At(s, l) <= At(t, l)
  }

  ghost predicate IsLeastSolution(cs: seq<Constraint>, s: Sets) {
    IsSolution(cs, s) && forall t :: IsSolution(cs, t) ==> Below(s, t)
  }

  // ----- what the solver's state must satisfy

  /** Nothing recorded goes beyond what every solution holds. */
  ghost predicate Sound(cs: seq<Constraint>, sets: Sets, edges: Sets) {
    forall t :: IsSolution(cs, t) ==>
      Below(sets, t) && forall a, b :: b in At(edges, a) ==> At(t, a) <= At(t, b)
  }

  ghost predicate CopyClosed(sets: Sets, edges: Sets, pending: set<Loc>) {
    forall a, b :: b in At(edges, a) && a !in pending ==> At(sets, a) <= At(sets, b)
  }

  ghost predicate EdgeOrSame(edges: Sets, a: Loc, b: Loc) {
    a == b || b in At(edges, a)
  }

  ghost predicate LoadClosed(sets: Sets, edges: Sets, loads: Sets, pending: set<Loc>) {
    forall p, d, o :: d in At(loads, p) && p !in pending && o in At(sets, p) ==> EdgeOrSame(edges, o, d)
  }

  ghost predicate StoreClosed(sets: Sets, edges: Sets, stores: Sets, pending: set<Loc>) {
    forall p, s, o :: s in At(stores, p) && p !in pending && o in At(sets, p) ==> EdgeOrSame(edges, s, o)
  }

  /** Locations and pointees all come from the finite universe `u`. */
  ghost predicate Within(s: Sets, u: set<Loc>) {
    forall l :: At(s, l) <= u && (At(s, l) != {} ==> l in u)
  }

  // ----- the loading phase as a function

  datatype Loaded = Loaded(sets: Sets, edges: Sets, loads: Sets, stores: Sets, queue: seq<Loc>)

  function Enqueue(queue: seq<Loc>, l: Loc): seq<Loc> {
    if l in queue then queue else queue + [l]
  }

  function LoadOne(s: Loaded, c: Constraint): Loaded {
    match c
    case AddressOf(ptr, target) =>
      s.(sets := Insert(s.sets, ptr, target),
         queue := if target in At(s.sets, ptr) then s.queue else Enqueue(s.queue, ptr))
    case Copy(dst, src) =>
      s.(edges := Insert(s.edges, src, dst),
         queue := if src in s.sets then Enqueue(s.queue, src) else s.queue)
    case Load(dst, ptr) =>
      s.(loads := Insert(s.loads, ptr, dst),
         queue := if ptr in s.sets then Enqueue(s.queue, ptr) else s.queue)
    case Store(ptr, src) =>
      s.(stores := Insert(s.stores, ptr, src),
         queue := if ptr in s.sets then Enqueue(s.queue, ptr) else s.queue)
  }

  function LoadAll(cs: seq<Constraint>): Loaded {
    if cs == [] then Loaded(map[], map[], map[], map[], [])
    else LoadOne(LoadAll(cs[..|cs| - 1]), cs[|cs| - 1])
  }

  lemma InAppended(cs: seq<Constraint>, c: Constraint)
    requires cs != []
    ensures c in cs <==> c in cs[..|cs| - 1] || c == cs[|cs| - 1]
  {
  }

  lemma {:induction false} LoadedSets(cs: seq<Constraint>, l: Loc, x: Loc)
    ensures x in At(LoadAll(cs).sets, l) <==> AddressOf(l, x) in cs
  {
    if cs != [] {
      LoadedSets(cs[..|cs| - 1], l, x);
      InAppended(cs, AddressOf(l, x));
    }
  }

  lemma {:induction false} LoadedEdges(cs: seq<Constraint>, a: Loc, b: Loc)
    ensures b in At(LoadAll(cs).edges, a) <==> Copy(b, a) in cs
  {
    if cs != [] {
      LoadedEdges(cs[..|cs| - 1], a, b);
      InAppended(cs, Copy(b, a));
    }
  }

  lemma {:induction false} LoadedLoads(cs: seq<Constraint>, p: Loc, d: Loc)
    ensures d in At(LoadAll(cs).loads, p) <==> Load(d, p) in cs
  {
    if cs != [] {
      LoadedLoads(cs[..|cs| - 1], p, d);
      InAppended(cs, Load(d, p));
    }
  }

  lemma {:induction false} LoadedStores(cs: seq<Constraint>, p: Loc, x: Loc)
    ensures x in At(LoadAll(cs).stores, p) <==> Store(p, x) in cs
  {
    if cs != [] {
      LoadedStores(cs[..|cs| - 1], p, x);
      InAppended(cs, Store(p, x));
    }
  }

  /** Loading indexes exactly the constraints of the list. */
  lemma LoadedIndexes(cs: seq<Constraint>)
    ensures forall l, x :: x in At(LoadAll(cs).sets, l) <==> AddressOf(l, x) in cs
    ensures forall a, b :: b in At(LoadAll(cs).edges, a) <==> Copy(b, a) in cs
    ensures forall p, d :: d in At(LoadAll(cs).loads, p) <==> Load(d, p) in cs
    ensures forall p, x :: x in At(LoadAll(cs).stores, p) <==> Store(p, x) in cs
  {
    forall l, x
      ensures x in At(LoadAll(cs).sets, l) <==> AddressOf(l, x) in cs
      ensures x in At(LoadAll(cs).edges, l) <==> Copy(x, l) in cs
      ensures x in At(LoadAll(cs).loads, l) <==> Load(x, l) in cs
      ensures x in At(LoadAll(cs).stores, l) <==> Store(l, x) in cs
    {
      LoadedSets(cs, l, x);
      LoadedEdges(cs, l, x);
      LoadedLoads(cs, l, x);
      LoadedStores(cs, l, x);
    }
  }

  /** Every location that holds a pointee is queued once loading is over. */
  lemma {:induction false} HoldersQueued(cs: seq<Constraint>, l: Loc)
    ensures At(LoadAll(cs).sets, l) != {} <==> l in LoadAll(cs).queue
    ensures l in LoadAll(cs).sets ==> At(LoadAll(cs).sets, l) != {}
  {
    if cs != [] {
      HoldersQueued(cs[..|cs| - 1], l);
    }
  }

  lemma LoadKeepsFirst(s: Loaded, c: Constraint)
    requires s.queue != []
    ensures LoadOne(s, c).queue != [] && LoadOne(s, c).queue[0] == s.queue[0]
  {
  }

  /** A list that opens with an address-of pops that pointer first. */
  lemma {:induction false} FirstQueued(cs: seq<Constraint>)
    requires cs != [] && cs[0].AddressOf?
    ensures var q := LoadAll(cs).queue; q != [] && q[0] == cs[0].ptr
  {
    var n := |cs| - 1;
    assert LoadAll(cs) == LoadOne(LoadAll(cs[..n]), cs[n]);
    if n == 0 {
      assert LoadAll(cs[..0]) == Loaded(map[], map[], map[], map[], []);
    } else {
      hide LoadAll, LoadOne;
      FirstQueued(cs[..n]);
      LoadKeepsFirst(LoadAll(cs[..n]), cs[n]);
    }
  }

  function Locs(cs: seq<Constraint>): set<Loc> {
    if cs == [] then {}
    else Locs(cs[..|cs| - 1]) + match cs[|cs| - 1] {
      case AddressOf(p, t) => {p, t}
      case Copy(d, s) => {d, s}
      case Load(d, p) => {d, p}
      case Store(p, s) => {p, s}
    }
  }

  lemma {:induction false} LocsHoldsAll(cs: seq<Constraint>)
    ensures forall l, x :: AddressOf(l, x) in cs || Copy(l, x) in cs || Load(l, x) in cs || Store(l, x) in cs
              ==> l in Locs(cs) && x in Locs(cs)
  {
    if cs != [] {
      var n := |cs| - 1;
      LocsHoldsAll(cs[..n]);
      assert cs == cs[..n] + [cs[n]];
    }
  }

  // ----- the propagation budget

  /** `usize` arithmetic saturates on the 64-bit targets the crate builds for. */
  const USIZE_MAX: nat := 0xFFFF_FFFF_FFFF_FFFF

  function Saturate(n: nat): nat {
    if n <= USIZE_MAX then n else USIZE_MAX
  }

  function SafetyBound(n: nat): nat {
    Saturate(Saturate(n * 64) + 64)
  }

  /** `steps` after a pop that expands `c` copy edges, `p` load pairs and `q` store
      pairs. */
  ghost function Charge(steps: nat, c: nat, p: nat, q: nat): nat {
    Saturate(Saturate(Saturate(steps + c) + Saturate(p)) + Saturate(q))
  }

  lemma ChargeRange(steps: nat, c: nat, p: nat, q: nat)
    ensures Charge(steps, c, p, q) <= steps + c + p + q
    ensures steps <= USIZE_MAX ==> steps <= Charge(steps, c, p, q) <= USIZE_MAX
  {
  }

  // ----- one pop as a function

  /** What the loop changes: points-to sets, copy edges and the queue. */
  datatype Net = Net(sets: Sets, edges: Sets, queue: seq<Loc>)

  /** The solver between two pops. */
  datatype State = State(net: Net, steps: nat)

  /** The set of `a` flows into `b`, which is queued when it grew. */
  ghost function Flow(n: Net, a: Loc, b: Loc): Net {
    if a == b || At(n.sets, a) <= At(n.sets, b) then n
    else n.(sets := n.sets[b := At(n.sets, b) + At(n.sets, a)], queue := Enqueue(n.queue, b))
  }

  /** The copy edge `a -> b` is added; one that is new takes effect at once. */
  ghost function AddEdge(n: Net, a: Loc, b: Loc): Net {
    if a == b || b in At(n.edges, a) then n
    else Flow(n.(edges := Insert(n.edges, a, b)), a, b)
  }

  /** `l` flows into each of `dsts`, in ascending order. */
  ghost function FollowEdges(n: Net, l: Loc, dsts: set<Loc>): Net
    decreases dsts
  {
    if dsts == {} then n
    else var b := Least(dsts); FollowEdges(Flow(n, l, b), l, dsts - {b})
  }

  ghost function LoadInto(n: Net, o: Loc, dsts: set<Loc>): Net
    decreases dsts
  {
    if dsts == {} then n
    else var b := Least(dsts); LoadInto(AddEdge(n, o, b), o, dsts - {b})
  }

  ghost function StoreFrom(n: Net, srcs: set<Loc>, o: Loc): Net
    decreases srcs
  {
    if srcs == {} then n
    else var a := Least(srcs); StoreFrom(AddEdge(n, a, o), srcs - {a}, o)
  }

  /** An edge from every pointee to every load destination. */
  ghost function LoadEdges(n: Net, pointees: set<Loc>, dsts: set<Loc>): Net
    decreases pointees
  {
    if pointees == {} then n
    else var o := Least(pointees); LoadEdges(LoadInto(n, o, dsts), pointees - {o}, dsts)
  }

  /** An edge from every stored value to every pointee. */
  ghost function StoreEdges(n: Net, pointees: set<Loc>, srcs: set<Loc>): Net
    decreases pointees
  {
    if pointees == {} then n
    else var o := Least(pointees); StoreEdges(StoreFrom(n, srcs, o), pointees - {o}, srcs)
  }

  /** The front of the queue leaves it, follows its copy edges, and materializes
      the edges of the loads and the stores through it.  The charge is what it
      expands. */
  ghost function Pop(d: Loaded, s: State): State
    requires s.net.queue != []
  {
    var l := s.net.queue[0];
    var popped := s.net.(queue := s.net.queue[1..]);
    var copied := FollowEdges(popped, l, At(popped.edges, l));
    var loaded := LoadEdges(copied, At(copied.sets, l), At(d.loads, l));
    var stored := StoreEdges(loaded, At(loaded.sets, l), At(d.stores, l));
    State(stored, Charge(s.steps, |At(popped.edges, l)|, |At(copied.sets, l)| * |At(d.loads, l)|,
                         |At(loaded.sets, l)| * |At(d.stores, l)|))
  }

  ghost function Start(cs: seq<Constraint>): State {
    var d := LoadAll(cs);
    State(Net(d.sets, d.edges, d.queue), 0)
  }

  // ----- the solver's objects

  class Worklist {
    var queue: seq<Loc>
    var queued: set<Loc>

    ghost predicate Valid()
      reads this
    {
      && (forall l :: l in queued <==> l in queue)
      && (forall i, j :: 0 <= i < j < |queue| ==> queue[i] != queue[j])
    }

    constructor ()
      ensures Valid() && queue == []
    {
      queue, queued := [], {};
    }

    method Push(l: Loc)
      requires Valid()
      modifies this
      ensures Valid() && queue == Enqueue(old(queue), l) && queued == old(queued) + {l}
    {
      if l !in queued {
        queued := queued + {l};
        queue := queue + [l];
      }
    }

    method Pop() returns (l: Loc)
      requires Valid() && queue != []
      modifies this
      ensures Valid() && l == old(queue)[0] && queue == old(queue)[1..]
      ensures queued == old(queued) - {l}
    {
      l := queue[0];
      queue := queue[1..];
      queued := queued - {l};
    }
  }

  class SolverGraph {
    var sets: Sets
    var copyEdges: Sets

    constructor ()
      ensures sets == map[] && copyEdges == map[]
    {
      sets, copyEdges := map[], map[];
    }

    ghost function View(work: Worklist): Net
      reads this, work
    {
      Net(sets, copyEdges, work.queue)
    }

    method AddPointee(l: Loc, target: Loc) returns (grew: bool)
      modifies this`sets
      ensures sets == Insert(old(sets), l, target)
      ensures grew <==> target !in At(old(sets), l)
    {
      grew := target !in At(sets, l);
      sets := Insert(sets, l, target);
    }

    /** Copies the members `dst` lacks and queues it when there were any. */
    method PropagateCopy(src: Loc, dst: Loc, work: Worklist)
      requires work.Valid()
      modifies this`sets, work
      ensures work.Valid() && View(work) == Flow(old(View(work)), src, dst)
    {
      if src == dst {
        return;
      }
      if src !in sets {
        return;
      }
      var additions := sets[src] - At(sets, dst);
      if additions == {} {
        assert forall x :: x in At(sets, src) ==> x !in additions;
        return;
      }
      assert At(sets, dst) + additions == At(sets, dst) + At(sets, src);
      sets := sets[dst := At(sets, dst) + additions];
      work.Push(dst);
    }

    /** Adds `src -> dst`; an edge that is new takes effect at once. */
    method AddCopyEdge(src: Loc, dst: Loc, work: Worklist)
      requires work.Valid()
      modifies this, work
      ensures work.Valid() && View(work) == AddEdge(old(View(work)), src, dst)
    {
      if src == dst {
        return;
      }
      var added := dst !in At(copyEdges, src);
      if !added {
        assert copyEdges[src] + {dst} == copyEdges[src];
      }
      copyEdges := Insert(copyEdges, src, dst);
      if added {
        PropagateCopy(src, dst, work);
      }
    }
  }

  /** The popped location's set goes along the copy edges out of it. */
  method PropagateEdges(l: Loc, graph: SolverGraph, work: Worklist)
    requires work.Valid()
    modifies graph, work
    ensures work.Valid()
    ensures graph.View(work) == FollowEdges(old(graph.View(work)), l, At(old(graph.copyEdges), l))
  {
    var rest := At(graph.copyEdges, l);
    while rest != {}
      invariant work.Valid()
      invariant FollowEdges(graph.View(work), l, rest) == FollowEdges(old(graph.View(work)), l, At(old(graph.copyEdges), l))
      decreases rest
    {
      var dst := Least(rest);
      rest := rest - {dst};
      graph.PropagateCopy(l, dst, work);
    }
  }

  /** An edge from every pointee of `l` to every load through `l`; the pointees
      are those `l` has at the start, even if its set grows meanwhile. */
  method MaterializeLoads(l: Loc, deref: Loaded, graph: SolverGraph, work: Worklist)
    requires work.Valid()
    modifies graph, work
    ensures work.Valid()
    ensures graph.View(work) == LoadEdges(old(graph.View(work)), At(old(graph.sets), l), At(deref.loads, l))
  {
    var dsts := At(deref.loads, l);
    var rest := At(graph.sets, l);
    while rest != {}
      invariant work.Valid()
      invariant LoadEdges(graph.View(work), rest, dsts) == LoadEdges(old(graph.View(work)), At(old(graph.sets), l), dsts)
      decreases rest
    {
      var o := Least(rest);
      ghost var n := graph.View(work);
      var unseen := dsts;
      while unseen != {}
        invariant work.Valid()
        invariant LoadInto(graph.View(work), o, unseen) == LoadInto(n, o, dsts)
        decreases unseen
      {
        var dst := Least(unseen);
        unseen := unseen - {dst};
        graph.AddCopyEdge(o, dst, work);
      }
      rest := rest - {o};
    }
  }

  /** An edge from every value stored through `l` to every pointee. */
  method MaterializeStores(l: Loc, deref: Loaded, graph: SolverGraph, work: Worklist)
    requires work.Valid()
    modifies graph, work
    ensures work.Valid()
    ensures graph.View(work) == StoreEdges(old(graph.View(work)), At(old(graph.sets), l), At(deref.stores, l))
  {
    var srcs := At(deref.stores, l);
    var rest := At(graph.sets, l);
    while rest != {}
      invariant work.Valid()
      invariant StoreEdges(graph.View(work), rest, srcs) == StoreEdges(old(graph.View(work)), At(old(graph.sets), l), srcs)
      decreases rest
    {
      var o := Least(rest);
      ghost var n := graph.View(work);
      var unseen := srcs;
      while unseen != {}
        invariant work.Valid()
        invariant StoreFrom(graph.View(work), unseen, o) == StoreFrom(n, srcs, o)
        decreases unseen
      {
        var src := Least(unseen);
        unseen := unseen - {src};
        graph.AddCopyEdge(src, o, work);
      }
      rest := rest - {o};
    }
  }

  /** One pop: it charges and propagates what it expands. */
  method ProcessPop(deref: Loaded, graph: SolverGraph, work: Worklist, steps: nat) returns (steps': nat)
    requires work.Valid() && work.queue != []
    modifies graph, work
    ensures work.Valid()
    ensures State(graph.View(work), steps') == Pop(deref, State(old(graph.View(work)), steps))
  {
    hide FollowEdges, LoadEdges, StoreEdges, Saturate, At;
    var l := work.Pop();
    steps' := Saturate(steps + |At(graph.copyEdges, l)|);
    PropagateEdges(l, graph, work);
    steps' := Saturate(steps' + Saturate(|At(graph.sets, l)| * |At(deref.loads, l)|));
    MaterializeLoads(l, deref, graph, work);
    steps' := Saturate(steps' + Saturate(|At(graph.sets, l)| * |At(deref.stores, l)|));
    MaterializeStores(l, deref, graph, work);
  }

  // ----- what every stage of a pop keeps

  /** Every edge comes from a constraint. */
  ghost predicate Originated(cs: seq<Constraint>, edges: Sets) {
    forall a, b :: b in At(edges, a) ==> b in Possible(cs, Targets(cs), a)
  }

  ghost predicate Invariant(cs: seq<Constraint>, d: Loaded, u: set<Loc>, sets: Sets, edges: Sets, copies: set<Loc>,
                            loads: set<Loc>, stores: set<Loc>)
  {
    && Within(sets, u) && Within(edges, u)
    && copies <= u && loads <= u && stores <= u
    && Sound(cs, sets, edges) && Originated(cs, edges)
    && Below(d.sets, sets) && Below(d.edges, edges)
    && CopyClosed(sets, edges, copies)
    && LoadClosed(sets, edges, d.loads, loads)
    && StoreClosed(sets, edges, d.stores, stores)
  }

  /** `t` is `s` after the set of `a` has flowed into `b`. */
  ghost predicate Flowed(s: Sets, t: Sets, a: Loc, b: Loc) {
    forall l :: At(t, l) == if l == b then At(s, b) + At(s, a) else At(s, l)
  }

  lemma FlowKeepsSound(cs: seq<Constraint>, sets: Sets, edges: Sets, sets': Sets, edges': Sets, a: Loc, b: Loc)
    requires Sound(cs, sets, edges) && Flowed(sets, sets', a, b)
    requires edges' == edges || edges' == Insert(edges, a, b)
    requires forall t :: IsSolution(cs, t) ==> At(t, a) <= At(t, b)
    ensures Sound(cs, sets', edges')
  {
  }

  lemma FlowKeepsCopies(sets: Sets, edges: Sets, sets': Sets, edges': Sets, a: Loc, b: Loc, pending: set<Loc>,
                        more: set<Loc>)
    requires CopyClosed(sets, edges, pending) && Flowed(sets, sets', a, b) && a != b
    requires edges' == edges || edges' == Insert(edges, a, b)
    requires At(sets, a) <= At(sets, b) || b in more
    ensures CopyClosed(sets', edges', pending + more)
  {
  }

  lemma FlowKeepsDerefs(sets: Sets, edges: Sets, sets': Sets, edges': Sets, a: Loc, b: Loc, loads: Sets, stores: Sets,
                        pl: set<Loc>, ps: set<Loc>, more: set<Loc>)
    requires LoadClosed(sets, edges, loads, pl) && StoreClosed(sets, edges, stores, ps)
    requires Flowed(sets, sets', a, b) && Below(edges, edges')
    requires At(sets, a) <= At(sets, b) || b in more
    ensures LoadClosed(sets', edges', loads, pl + more) && StoreClosed(sets', edges', stores, ps + more)
  {
    forall p, e, o | e in At(loads, p) && p !in pl + more && o in At(sets', p)
      ensures EdgeOrSame(edges', o, e)
    {
      assert o in At(sets, p);
      assert EdgeOrSame(edges, o, e);
    }
    forall p, x, o | x in At(stores, p) && p !in ps + more && o in At(sets', p)
      ensures EdgeOrSame(edges', x, o)
    {
      assert o in At(sets, p);
      assert EdgeOrSame(edges, x, o);
    }
  }

  lemma FlowKeepsWithin(s: Sets, t: Sets, u: set<Loc>, a: Loc, b: Loc)
    requires Within(s, u) && Flowed(s, t, a, b) && b in u
    ensures Within(t, u) && Below(s, t)
  {
  }

  lemma EdgesGrow(edges: Sets, edges': Sets, u: set<Loc>, a: Loc, b: Loc)
    requires Within(edges, u) && a in u && b in u
    requires edges' == edges || edges' == Insert(edges, a, b)
    ensures Within(edges', u) && Below(edges, edges')
  {
    if edges' != edges {
      assert At(edges', a) == At(edges, a) + {b};
      assert forall l :: l != a ==> At(edges', l) == At(edges, l);
    }
  }

  lemma EdgeOriginated(cs: seq<Constraint>, edges: Sets, edges': Sets, a: Loc, b: Loc)
    requires Originated(cs, edges)
    requires edges' == edges || (edges' == Insert(edges, a, b) && b in Possible(cs, Targets(cs), a))
    ensures Originated(cs, edges')
  {
    hide Possible, Targets;
  }

  lemma BelowTwice(k: Sets, m: Sets, n: Sets)
    requires Below(k, m) && Below(m, n)
    ensures Below(k, n)
  {
  }

  /** Flowing a set over an edge that every solution respects keeps the
      invariant, as long as a set that grew is pending. */
  lemma FlowKeepsInvariant(cs: seq<Constraint>, d: Loaded, u: set<Loc>, sets: Sets, edges: Sets, sets': Sets,
                           edges': Sets, a: Loc, b: Loc, copies: set<Loc>, loads: set<Loc>, stores: set<Loc>,
                           more: set<Loc>)
    requires Invariant(cs, d, u, sets, edges, copies, loads, stores)
    requires Flowed(sets, sets', a, b) && a != b
    requires edges' == edges || edges' == Insert(edges, a, b)
    requires a in u && b in u
    requires forall t :: IsSolution(cs, t) ==> At(t, a) <= At(t, b)
    requires edges' != edges ==> b in Possible(cs, Targets(cs), a)
    requires At(sets, a) <= At(sets, b) || b in more
    requires more <= u
    ensures Invariant(cs, d, u, sets', edges', copies + more, loads + more, stores + more)
    ensures Below(sets, sets') && Below(edges, edges')
  {
    hide Sound, CopyClosed, LoadClosed, StoreClosed, IsSolution, Originated, Within, Flowed;
    FlowKeepsWithin(sets, sets', u, a, b);
    EdgesGrow(edges, edges', u, a, b);
    EdgeOriginated(cs, edges, edges', a, b);
    FlowKeepsSound(cs, sets, edges, sets', edges', a, b);
    FlowKeepsCopies(sets, edges, sets', edges', a, b, copies, more);
    FlowKeepsDerefs(sets, edges, sets', edges', a, b, d.loads, d.stores, loads, stores, more);
    hide Below, Insert, At;
    BelowTwice(d.sets, sets, sets');
    BelowTwice(d.edges, edges, edges');
  }

  ghost function Pending(n: Net): set<Loc> {
    set l | l in n.queue
  }

  /** The invariant of a net, whose queue is pending in every respect. */
  ghost predicate NetOk(cs: seq<Constraint>, n: Net, copies: set<Loc>, loads: set<Loc>, stores: set<Loc>) {
    var q := Pending(n);
    Invariant(cs, LoadAll(cs), Locs(cs), n.sets, n.edges, q + copies, q + loads, q + stores)
  }

  /** What one propagation step keeps, whatever it adds. */
  ghost predicate Grown(m: Net, n: Net) {
    && Below(m.sets, n.sets) && Below(m.edges, n.edges)
    && (Distinct(m.queue) ==> Distinct(n.queue)) && (forall l :: l in m.queue ==> l in n.queue)
    && forall l :: l in n.queue && l !in m.queue ==> At(m.sets, l) != At(n.sets, l)
  }

  /** A set that changes is pending afterwards. */
  ghost predicate Noted(m: Net, n: Net) {
    forall l :: At(m.sets, l) != At(n.sets, l) ==> l in n.queue
  }

  lemma GrownTwice(k: Net, m: Net, n: Net)
    requires Grown(k, m) && Grown(m, n)
    ensures Grown(k, n)
    ensures Noted(k, m) && Noted(m, n) ==> Noted(k, n)
  {
    forall l | l in n.queue && l !in k.queue
      ensures At(k.sets, l) != At(n.sets, l)
    {
      assert At(k.sets, l) <= At(m.sets, l) <= At(n.sets, l);
    }
  }

  lemma FlowGrows(n: Net, edges: Sets, a: Loc, b: Loc)
    requires Below(n.edges, edges)
    ensures Grown(n, Flow(n.(edges := edges), a, b)) && Noted(n, Flow(n.(edges := edges), a, b))
  {
  }

  lemma AddEdgeGrows(n: Net, a: Loc, b: Loc)
    ensures Grown(n, AddEdge(n, a, b)) && Noted(n, AddEdge(n, a, b)) && EdgeOrSame(AddEdge(n, a, b).edges, a, b)
  {
    if a != b && b !in At(n.edges, a) {
      FlowGrows(n, Insert(n.edges, a, b), a, b);
    }
  }

  lemma FlowKeepsNet(cs: seq<Constraint>, n: Net, edges: Sets, a: Loc, b: Loc, copies: set<Loc>, loads: set<Loc>,
                     stores: set<Loc>)
    requires NetOk(cs, n, copies, loads, stores) && a in Locs(cs) && b in Locs(cs) && a != b
    requires edges == n.edges || edges == Insert(n.edges, a, b)
    requires edges != n.edges ==> b in Possible(cs, Targets(cs), a)
    requires forall t :: IsSolution(cs, t) ==> At(t, a) <= At(t, b)
    ensures NetOk(cs, Flow(n.(edges := edges), a, b), copies, loads, stores)
  {
    hide Invariant, LoadAll, Locs, IsSolution;
    var m := Flow(n.(edges := edges), a, b);
    var p, q := Pending(n), Pending(m);
    var more: set<Loc> := if At(n.sets, a) <= At(n.sets, b) then {} else {b};
    assert q == p + more;
    assert more <= Locs(cs);
    assert Flowed(n.sets, m.sets, a, b);
    FlowKeepsInvariant(cs, LoadAll(cs), Locs(cs), n.sets, n.edges, m.sets, edges, a, b, p + copies, p + loads, p + stores, more);
    assert p + copies + more == q + copies && p + loads + more == q + loads && p + stores + more == q + stores;
  }

  lemma AddEdgeKeeps(cs: seq<Constraint>, n: Net, a: Loc, b: Loc, copies: set<Loc>, loads: set<Loc>, stores: set<Loc>)
    requires NetOk(cs, n, copies, loads, stores) && a in Locs(cs) && b in Locs(cs) && b in Possible(cs, Targets(cs), a)
    requires forall t :: IsSolution(cs, t) ==> At(t, a) <= At(t, b)
    ensures NetOk(cs, AddEdge(n, a, b), copies, loads, stores)
  {
    hide NetOk, IsSolution, Locs, Flow;
    if a != b && b !in At(n.edges, a) {
      FlowKeepsNet(cs, n, Insert(n.edges, a, b), a, b, copies, loads, stores);
    }
  }

  /** Every solution respects a recorded edge. */
  lemma EdgeRespected(cs: seq<Constraint>, n: Net, copies: set<Loc>, loads: set<Loc>, stores: set<Loc>, a: Loc, b: Loc)
    requires NetOk(cs, n, copies, loads, stores) && b in At(n.edges, a)
    ensures a in Locs(cs) && b in Locs(cs)
    ensures forall t :: IsSolution(cs, t) ==> At(t, a) <= At(t, b)
  {
    hide LoadAll, Locs, IsSolution, LoadClosed, StoreClosed, CopyClosed;
  }

  /** Once the set of `l` has reached all its copy successors, `l` need not be
      pending for copies. */
  lemma CopiesDone(cs: seq<Constraint>, d: Loaded, u: set<Loc>, sets: Sets, edges: Sets, pending: set<Loc>,
                   loads: set<Loc>, stores: set<Loc>, l: Loc)
    requires Invariant(cs, d, u, sets, edges, pending + {l}, loads, stores)
    requires forall m :: m in At(edges, l) ==> At(sets, l) <= At(sets, m)
    ensures Invariant(cs, d, u, sets, edges, pending, loads, stores)
  {
  }

  /** A pointee of a load pointer flows into the load's destination in every
      solution, and a stored value into every pointee. */
  lemma DerefRespected(cs: seq<Constraint>, d: Loaded, u: set<Loc>, sets: Sets, edges: Sets, copies: set<Loc>,
                       loads: set<Loc>, stores: set<Loc>, p: Loc, o: Loc, x: Loc)
    requires Invariant(cs, d, u, sets, edges, copies, loads, stores) && d == LoadAll(cs) && u == Locs(cs)
    requires o in At(sets, p)
    ensures o in u && Within(sets, u)
    ensures x in At(d.loads, p) ==> x in u && forall t :: IsSolution(cs, t) ==> At(t, o) <= At(t, x)
    ensures x in At(d.stores, p) ==> x in u && forall t :: IsSolution(cs, t) ==> At(t, x) <= At(t, o)
  {
    hide CopyClosed, LoadClosed, StoreClosed, LoadAll, IsSolution;
    LocsHoldsAll(cs);
    LoadedLoads(cs, p, x);
    LoadedStores(cs, p, x);
    forall t | IsSolution(cs, t)
      ensures x in At(d.loads, p) ==> At(t, o) <= At(t, x)
      ensures x in At(d.stores, p) ==> At(t, x) <= At(t, o)
    {
      DerefHolds(cs, t, p, o, x);
      assert Below(sets, t);
    }
  }

  lemma DerefHolds(cs: seq<Constraint>, t: Sets, p: Loc, o: Loc, x: Loc)
    requires IsSolution(cs, t)
    ensures Load(x, p) in cs && o in At(t, p) ==> At(t, o) <= At(t, x)
    ensures Store(p, x) in cs && o in At(t, p) ==> At(t, x) <= At(t, o)
  {
  }

  /** Once every pointee of `l` has its edges to the loads through `l`, `l` need
      not be pending for loads; likewise for stores. */
  lemma LoadsDone(cs: seq<Constraint>, d: Loaded, u: set<Loc>, sets: Sets, edges: Sets, p: set<Loc>, l: Loc,
                  pointees: set<Loc>, stores: set<Loc>)
    requires Invariant(cs, d, u, sets, edges, p, p + {l}, stores)
    requires At(sets, l) == pointees || l in p
    requires forall o, e :: o in pointees && e in At(d.loads, l) ==> EdgeOrSame(edges, o, e)
    ensures Invariant(cs, d, u, sets, edges, p, p, stores)
  {
  }

  lemma StoresDone(cs: seq<Constraint>, d: Loaded, u: set<Loc>, sets: Sets, edges: Sets, p: set<Loc>, l: Loc,
                   pointees: set<Loc>)
    requires Invariant(cs, d, u, sets, edges, p, p, p + {l})
    requires At(sets, l) == pointees || l in p
    requires forall o, x :: o in pointees && x in At(d.stores, l) ==> EdgeOrSame(edges, x, o)
    ensures Invariant(cs, d, u, sets, edges, p, p, p)
  {
  }

  // ----- the three stages of a pop

  lemma {:induction false} FollowEdgesKeeps(cs: seq<Constraint>, n: Net, l: Loc, rest: set<Loc>)
    requires NetOk(cs, n, {l}, {l}, {l}) && l !in n.queue && rest <= At(n.edges, l)
    requires forall m :: m in At(n.edges, l) - rest ==> At(n.sets, l) <= At(n.sets, m)
    ensures NetOk(cs, FollowEdges(n, l, rest), {}, {l}, {l})
    ensures Grown(n, FollowEdges(n, l, rest))
    decreases rest
  {
    hide NetOk, IsSolution, Locs;
    if rest == {} {
      assert NetOk(cs, n, {}, {l}, {l}) by {
        FollowEdgesEnd(cs, n, l);
      }
    } else {
      var b := Least(rest);
      var m := Flow(n, l, b);
      assert n.(edges := n.edges) == n;
      FlowGrows(n, n.edges, l, b);
      if l != b {
        EdgeRespected(cs, n, {l}, {l}, {l}, l, b);
        FlowKeepsNet(cs, n, n.edges, l, b, {l}, {l}, {l});
      }
      FollowEdgesKeeps(cs, m, l, rest - {b});
      GrownTwice(n, m, FollowEdges(m, l, rest - {b}));
    }
  }

  lemma FollowEdgesEnd(cs: seq<Constraint>, n: Net, l: Loc)
    requires NetOk(cs, n, {l}, {l}, {l})
    requires forall m :: m in At(n.edges, l) ==> At(n.sets, l) <= At(n.sets, m)
    ensures NetOk(cs, n, {}, {l}, {l})
  {
    hide Invariant, LoadAll, Locs;
    var q := Pending(n);
    CopiesDone(cs, LoadAll(cs), Locs(cs), n.sets, n.edges, q, q + {l}, q + {l}, l);
    assert q + {} == q;
  }

  lemma DerefsRespected(cs: seq<Constraint>, n: Net, loads: set<Loc>, stores: set<Loc>, p: Loc, o: Loc, x: Loc)
    requires NetOk(cs, n, {}, loads, stores) && o in At(n.sets, p)
    ensures o in Locs(cs)
    ensures x in At(LoadAll(cs).loads, p) ==> && x in Locs(cs) && x in Possible(cs, Targets(cs), o)
                                              && forall t :: IsSolution(cs, t) ==> At(t, o) <= At(t, x)
    ensures x in At(LoadAll(cs).stores, p) ==> && x in Locs(cs) && o in Possible(cs, Targets(cs), x)
                                               && forall t :: IsSolution(cs, t) ==> At(t, x) <= At(t, o)
  {
    hide Invariant, LoadAll, Locs, IsSolution;
    var q := Pending(n);
    DerefRespected(cs, LoadAll(cs), Locs(cs), n.sets, n.edges, q + {}, q + loads, q + stores, p, o, x);
    NetFits(cs, n, {}, loads, stores);
    LoadedLoads(cs, p, x);
    LoadedStores(cs, p, x);
    PossibleHolds(cs, Targets(cs), o, x, p);
    PossibleHolds(cs, Targets(cs), x, o, p);
  }

  lemma {:induction false} LoadIntoKeeps(cs: seq<Constraint>, n: Net, l: Loc, o: Loc, dsts: set<Loc>)
    requires NetOk(cs, n, {}, {l}, {l}) && o in At(n.sets, l) && dsts <= At(LoadAll(cs).loads, l)
    ensures var n' := LoadInto(n, o, dsts);
            NetOk(cs, n', {}, {l}, {l}) && Grown(n, n') && Noted(n, n')
            && forall x :: x in dsts ==> EdgeOrSame(n'.edges, o, x)
    decreases dsts
  {
    hide NetOk, IsSolution, Locs, LoadAll, AddEdge;
    if dsts != {} {
      var b := Least(dsts);
      var m := AddEdge(n, o, b);
      DerefsRespected(cs, n, {l}, {l}, l, o, b);
      AddEdgeKeeps(cs, n, o, b, {}, {l}, {l});
      AddEdgeGrows(n, o, b);
      LoadIntoKeeps(cs, m, l, o, dsts - {b});
      GrownTwice(n, m, LoadInto(m, o, dsts - {b}));
    }
  }

  lemma {:induction false} StoreFromKeeps(cs: seq<Constraint>, n: Net, l: Loc, o: Loc, srcs: set<Loc>)
    requires NetOk(cs, n, {}, {}, {l}) && o in At(n.sets, l) && srcs <= At(LoadAll(cs).stores, l)
    ensures var n' := StoreFrom(n, srcs, o);
            NetOk(cs, n', {}, {}, {l}) && Grown(n, n') && Noted(n, n')
            && forall x :: x in srcs ==> EdgeOrSame(n'.edges, x, o)
    decreases srcs
  {
    hide NetOk, IsSolution, Locs, LoadAll, AddEdge;
    if srcs != {} {
      var a := Least(srcs);
      var m := AddEdge(n, a, o);
      DerefsRespected(cs, n, {}, {l}, l, o, a);
      AddEdgeKeeps(cs, n, a, o, {}, {}, {l});
      AddEdgeGrows(n, a, o);
      StoreFromKeeps(cs, m, l, o, srcs - {a});
      GrownTwice(n, m, StoreFrom(m, srcs - {a}, o));
    }
  }

  lemma {:induction false} LoadEdgesKeeps(cs: seq<Constraint>, n: Net, l: Loc, pointees: set<Loc>, rest: set<Loc>)
    requires NetOk(cs, n, {}, {l}, {l}) && rest <= pointees <= At(n.sets, l)
    requires At(n.sets, l) == pointees || l in n.queue
    requires forall o, x :: o in pointees - rest && x in At(LoadAll(cs).loads, l) ==> EdgeOrSame(n.edges, o, x)
    ensures var n' := LoadEdges(n, rest, At(LoadAll(cs).loads, l)); NetOk(cs, n', {}, {}, {l}) && Grown(n, n')
    decreases rest
  {
    hide NetOk, IsSolution, Locs, LoadAll, LoadInto;
    var dsts := At(LoadAll(cs).loads, l);
    if rest == {} {
      LoadEdgesEnd(cs, n, l, pointees);
    } else {
      var o := Least(rest);
      var m := LoadInto(n, o, dsts);
      LoadIntoKeeps(cs, n, l, o, dsts);
      forall y, x | y in pointees - (rest - {o}) && x in dsts
        ensures EdgeOrSame(m.edges, y, x)
      {
        assert y != o ==> EdgeOrSame(n.edges, y, x);
      }
      LoadEdgesKeeps(cs, m, l, pointees, rest - {o});
      GrownTwice(n, m, LoadEdges(m, rest - {o}, dsts));
    }
  }

  lemma LoadEdgesEnd(cs: seq<Constraint>, n: Net, l: Loc, pointees: set<Loc>)
    requires NetOk(cs, n, {}, {l}, {l}) && (At(n.sets, l) == pointees || l in n.queue)
    requires forall o, x :: o in pointees && x in At(LoadAll(cs).loads, l) ==> EdgeOrSame(n.edges, o, x)
    ensures NetOk(cs, n, {}, {}, {l})
  {
    hide Invariant, LoadAll, Locs;
    var q := Pending(n);
    assert q + {} == q;
    LoadsDone(cs, LoadAll(cs), Locs(cs), n.sets, n.edges, q, l, pointees, q + {l});
  }

  lemma {:induction false} StoreEdgesKeeps(cs: seq<Constraint>, n: Net, l: Loc, pointees: set<Loc>, rest: set<Loc>)
    requires NetOk(cs, n, {}, {}, {l}) && rest <= pointees <= At(n.sets, l)
    requires At(n.sets, l) == pointees || l in n.queue
    requires forall o, x :: o in pointees - rest && x in At(LoadAll(cs).stores, l) ==> EdgeOrSame(n.edges, x, o)
    ensures var n' := StoreEdges(n, rest, At(LoadAll(cs).stores, l)); NetOk(cs, n', {}, {}, {}) && Grown(n, n')
    decreases rest
  {
    hide NetOk, IsSolution, Locs, LoadAll, StoreFrom;
    var srcs := At(LoadAll(cs).stores, l);
    if rest == {} {
      StoreEdgesEnd(cs, n, l, pointees);
    } else {
      var o := Least(rest);
      var m := StoreFrom(n, srcs, o);
      StoreFromKeeps(cs, n, l, o, srcs);
      forall y, x | y in pointees - (rest - {o}) && x in srcs
        ensures EdgeOrSame(m.edges, x, y)
      {
        assert y != o ==> EdgeOrSame(n.edges, x, y);
      }
      StoreEdgesKeeps(cs, m, l, pointees, rest - {o});
      GrownTwice(n, m, StoreEdges(m, rest - {o}, srcs));
    }
  }

  lemma StoreEdgesEnd(cs: seq<Constraint>, n: Net, l: Loc, pointees: set<Loc>)
    requires NetOk(cs, n, {}, {}, {l}) && (At(n.sets, l) == pointees || l in n.queue)
    requires forall o, x :: o in pointees && x in At(LoadAll(cs).stores, l) ==> EdgeOrSame(n.edges, x, o)
    ensures NetOk(cs, n, {}, {}, {})
  {
    hide Invariant, LoadAll, Locs;
    var q := Pending(n);
    assert q + {} == q;
    StoresDone(cs, LoadAll(cs), Locs(cs), n.sets, n.edges, q, l, pointees);
  }

  /** One pop leaves every location that is not queued fully propagated, adds
      nothing a solution lacks, and queues only what grew. */
  lemma PopKeeps(cs: seq<Constraint>, s: State)
    requires NetOk(cs, s.net, {}, {}, {}) && Distinct(s.net.queue) && s.net.queue != []
    ensures NetOk(cs, Pop(LoadAll(cs), s).net, {}, {}, {})
    ensures Grown(s.net.(queue := s.net.queue[1..]), Pop(LoadAll(cs), s).net)
  {
    var l := s.net.queue[0];
    var d := LoadAll(cs);
    hide NetOk, LoadAll, Locs, FollowEdges, LoadEdges, StoreEdges;
    var popped := s.net.(queue := s.net.queue[1..]);
    PoppedKeeps(cs, s.net);
    FollowEdgesKeeps(cs, popped, l, At(popped.edges, l));
    var copied := FollowEdges(popped, l, At(popped.edges, l));
    LoadEdgesKeeps(cs, copied, l, At(copied.sets, l), At(copied.sets, l));
    var loaded := LoadEdges(copied, At(copied.sets, l), At(d.loads, l));
    StoreEdgesKeeps(cs, loaded, l, At(loaded.sets, l), At(loaded.sets, l));
    var stored := StoreEdges(loaded, At(loaded.sets, l), At(d.stores, l));
    GrownTwice(popped, copied, loaded);
    GrownTwice(popped, loaded, stored);
  }

  lemma PoppedKeeps(cs: seq<Constraint>, n: Net)
    requires NetOk(cs, n, {}, {}, {}) && Distinct(n.queue) && n.queue != []
    ensures var l := n.queue[0]; var q := n.queue[1..]; NetOk(cs, n.(queue := q), {l}, {l}, {l}) && l !in q
  {
    hide Invariant, LoadAll, Locs;
    var l := n.queue[0];
    var m := n.(queue := n.queue[1..]);
    assert n.queue == [l] + m.queue;
    assert Pending(m) + {l} == Pending(n) + {};
  }

  // ----- the solver

  /** Where a run may stand between two pops. */
  ghost predicate Running(cs: seq<Constraint>, s: State) {
    NetOk(cs, s.net, {}, {}, {}) && Distinct(s.net.queue) && s.steps <= USIZE_MAX
  }

  lemma LoadedInvariant(cs: seq<Constraint>, p: set<Loc>)
    requires forall l :: l in LoadAll(cs).queue <==> l in p
    ensures var d := LoadAll(cs); Invariant(cs, d, Locs(cs), d.sets, d.edges, p, p, p)
  {
    var d := LoadAll(cs);
    hide LoadAll, Locs;
    LoadedIndexes(cs);
    LocsHoldsAll(cs);
    forall l
      ensures l in p <==> At(d.sets, l) != {}
    {
      HoldersQueued(cs, l);
    }
    LoadedSound(cs, d);
    forall a, b | b in At(d.edges, a)
      ensures b in Possible(cs, Targets(cs), a)
    {
      PossibleHolds(cs, Targets(cs), a, b, 0);
    }
    forall l
      ensures At(d.sets, l) <= Locs(cs) && (At(d.sets, l) != {} ==> l in Locs(cs))
      ensures At(d.edges, l) <= Locs(cs) && (At(d.edges, l) != {} ==> l in Locs(cs))
    {
      assert forall x :: x in At(d.sets, l) ==> AddressOf(l, x) in cs;
      assert forall x :: x in At(d.edges, l) ==> Copy(x, l) in cs;
    }
  }

  lemma LoadedSound(cs: seq<Constraint>, d: Loaded)
    requires forall l, x :: x in At(d.sets, l) ==> AddressOf(l, x) in cs
    requires forall a, b :: b in At(d.edges, a) ==> Copy(b, a) in cs
    ensures Sound(cs, d.sets, d.edges)
  {
  }

  /** With nothing pending the invariant says the sets solve the constraints. */
  lemma ClosedIsLeast(cs: seq<Constraint>, sets: Sets, edges: Sets)
    requires Invariant(cs, LoadAll(cs), Locs(cs), sets, edges, {}, {}, {})
    ensures IsLeastSolution(cs, sets)
  {
    var d := LoadAll(cs);
    hide LoadAll, Locs;
    LoadedIndexes(cs);
    forall c | c in cs
      ensures Holds(c, sets)
    {
      match c
      case AddressOf(ptr, target) =>
        assert target in At(d.sets, ptr);
      case Copy(dst, src) =>
        assert dst in At(d.edges, src);
        assert At(d.edges, src) <= At(edges, src);
      case Load(dst, ptr) =>
        assert dst in At(d.loads, ptr);
        assert forall o :: o in At(sets, ptr) ==> EdgeOrSame(edges, o, dst);
      case Store(ptr, src) =>
        assert src in At(d.stores, ptr);
        assert forall o :: o in At(sets, ptr) ==> EdgeOrSame(edges, src, o);
    }
  }

  /** The loading loop computes `LoadAll`, one constraint at a time. */
  method LoadConstraints(cs: seq<Constraint>, graph: SolverGraph, work: Worklist) returns (deref: Loaded)
    requires work.Valid() && work.queue == [] && graph.sets == map[] && graph.copyEdges == map[]
    modifies graph, work
    ensures work.Valid() && deref == LoadAll(cs)
    ensures graph.sets == deref.sets && graph.copyEdges == deref.edges && work.queue == deref.queue
  {
    var loads: Sets, stores: Sets := map[], map[];
    for i := 0 to |cs|
      invariant work.Valid()
      invariant LoadAll(cs[..i]) == Loaded(graph.sets, graph.copyEdges, loads, stores, work.queue)
    {
      assert cs[..i + 1][..i] == cs[..i] && cs[..i + 1][i] == cs[i];
      match cs[i] {
        case AddressOf(ptr, target) =>
          var grew := graph.AddPointee(ptr, target);
          if grew {
            work.Push(ptr);
          }
        case Copy(dst, src) =>
          graph.copyEdges := Insert(graph.copyEdges, src, dst);
          if src in graph.sets {
            work.Push(src);
          }
        case Load(dst, ptr) =>
          loads := Insert(loads, ptr, dst);
          if ptr in graph.sets {
            work.Push(ptr);
          }
        case Store(ptr, src) =>
          stores := Insert(stores, ptr, src);
          if ptr in graph.sets {
            work.Push(ptr);
          }
      }
    }
    assert cs[..|cs|] == cs;
    deref := LoadAll(cs);
  }

  lemma {:induction false} LoadedDistinct(cs: seq<Constraint>)
    ensures Distinct(LoadAll(cs).queue)
  {
    if cs != [] {
      LoadedDistinct(cs[..|cs| - 1]);
    }
  }

  lemma StartRuns(cs: seq<Constraint>)
    ensures Running(cs, Start(cs))
  {
    hide LoadAll, Locs, Invariant;
    LoadedDistinct(cs);
    var q := Pending(Start(cs).net);
    LoadedInvariant(cs, q);
    assert q + {} == q;
  }

  lemma PopRuns(cs: seq<Constraint>, s: State)
    requires Running(cs, s) && s.net.queue != []
    ensures Running(cs, Pop(LoadAll(cs), s)) && s.steps <= Pop(LoadAll(cs), s).steps
  {
    var d := LoadAll(cs);
    PopSteps(d, s);
    hide NetOk, LoadAll, Pop, Distinct, Below;
    PopKeeps(cs, s);
    DistinctTail(s.net.queue);
  }

  lemma PopSteps(d: Loaded, s: State)
    requires s.net.queue != [] && s.steps <= USIZE_MAX
    ensures s.steps <= Pop(d, s).steps <= USIZE_MAX
  {
    hide FollowEdges, LoadEdges, StoreEdges, Charge;
    var l := s.net.queue[0];
    var popped := s.net.(queue := s.net.queue[1..]);
    var copied := FollowEdges(popped, l, At(popped.edges, l));
    var loaded := LoadEdges(copied, At(copied.sets, l), At(d.loads, l));
    ChargeRange(s.steps, |At(popped.edges, l)|, |At(copied.sets, l)| * |At(d.loads, l)|,
                |At(loaded.sets, l)| * |At(d.stores, l)|);
  }

  lemma DistinctTail(s: seq<Loc>)
    requires Distinct(s) && s != []
    ensures Distinct(s[1..])
  {
  }

  /** The loop from state `s` on, under the step budget `bound`. */
  ghost function RunOn(cs: seq<Constraint>, s: State, bound: nat): (r: State)
    requires Running(cs, s)
    ensures Running(cs, r) && (r.net.queue == [] || r.steps > bound)
    decreases Left(cs, s.net)
  {
    if s.net.queue == [] || s.steps > bound then s
    else
      PopRuns(cs, s);
      PopPays(cs, One, s);
      RunOn(cs, Pop(LoadAll(cs), s), bound)
  }

  /** Where the solver stops. */
  ghost function Stop(cs: seq<Constraint>): (r: State)
    ensures Running(cs, r) && (r.net.queue == [] || r.steps > SafetyBound(|cs|))
  {
    StartRuns(cs);
    RunOn(cs, Start(cs), SafetyBound(|cs|))
  }

  /** The loop's guard and one round of it. */
  lemma RunOnRound(cs: seq<Constraint>, s: State, bound: nat)
    requires Running(cs, s)
    ensures s.net.queue == [] || s.steps > bound ==> RunOn(cs, s, bound) == s
    ensures s.net.queue != [] && s.steps <= bound ==>
              var t := Pop(LoadAll(cs), s);
              Running(cs, t) && RunOn(cs, s, bound) == RunOn(cs, t, bound) && 0 <= Left(cs, t.net) < Left(cs, s.net)
  {
    hide NetOk, LoadAll, Credit, Pop, Top, Targets;
    if s.net.queue != [] && s.steps <= bound {
      PopRuns(cs, s);
      PopPays(cs, One, s);
      LeftIsSum(cs, s);
      LeftIsSum(cs, Pop(LoadAll(cs), s));
    }
  }

  /** Solves a constraint list.  The result is contained in every solution, even
      when the budget cuts the run short; a run that drains its queue returns the
      least solution, and a list whose work fits the budget drains it. */
  method Solve(cs: seq<Constraint>) returns (result: Sets)
    ensures result == Stop(cs).net.sets
    ensures forall t :: IsSolution(cs, t) ==> Below(result, t)
    ensures Stop(cs).net.queue == [] ==> IsLeastSolution(cs, result)
    ensures Work(cs) <= 64 * |cs| + 64 ==> IsLeastSolution(cs, result)
  {
    hide RunOn, Running, Invariant, NetOk, LoadAll, Locs, IsSolution, IsLeastSolution, Pop, Left, Work;
    var graph := new SolverGraph();
    var work := new Worklist();
    var deref := LoadConstraints(cs, graph, work);
    var bound := SafetyBound(|cs|);
    var steps := 0;
    StartRuns(cs);
    while work.queue != [] && steps <= bound
      invariant work.Valid() && Running(cs, State(graph.View(work), steps))
      invariant RunOn(cs, State(graph.View(work), steps), bound) == Stop(cs)
      decreases Left(cs, graph.View(work))
    {
      RunOnRound(cs, State(graph.View(work), steps), bound);
      steps := ProcessPop(deref, graph, work, steps);
    }
    RunOnRound(cs, State(graph.View(work), steps), bound);
    result := graph.sets;
    StopIsBelow(cs);
    if Work(cs) <= 64 * |cs| + 64 {
      ConvergesWithinWork(cs);
    }
  }

  lemma StopIsBelow(cs: seq<Constraint>)
    ensures forall t :: IsSolution(cs, t) ==> Below(Stop(cs).net.sets, t)
    ensures Stop(cs).net.queue == [] ==> IsLeastSolution(cs, Stop(cs).net.sets)
  {
    var r := Stop(cs);
    RunningIsBelow(cs, r);
  }

  /** What is recorded is below every solution, and with nothing queued it is the
      least one. */
  lemma RunningIsBelow(cs: seq<Constraint>, s: State)
    requires Running(cs, s)
    ensures forall t :: IsSolution(cs, t) ==> Below(s.net.sets, t)
    ensures s.net.queue == [] ==> IsLeastSolution(cs, s.net.sets)
  {
    hide LoadAll, Locs, IsSolution, IsLeastSolution;
    NetIsBelow(cs, s.net);
    if s.net.queue == [] {
      assert Pending(s.net) + {} == {};
      ClosedIsLeast(cs, s.net.sets, s.net.edges);
    }
  }

  lemma NetIsBelow(cs: seq<Constraint>, n: Net)
    requires NetOk(cs, n, {}, {}, {})
    ensures forall t :: IsSolution(cs, t) ==> Below(n.sets, t)
  {
    hide LoadAll, Locs, IsSolution, CopyClosed, LoadClosed, StoreClosed;
  }

  // ----- what a run may cost

  /** Every pointee of a solution the solver builds is an address-of target. */
  ghost function Targets(cs: seq<Constraint>): set<Loc> {
    if cs == [] then {}
    else Targets(cs[..|cs| - 1]) + if cs[|cs| - 1].AddressOf? then {cs[|cs| - 1].target} else {}
  }

  ghost function Copies(cs: seq<Constraint>): nat {
    if cs == [] then 0 else Copies(cs[..|cs| - 1]) + if cs[|cs| - 1].Copy? then 1 else 0
  }

  /** Loads and stores. */
  ghost function Derefs(cs: seq<Constraint>): nat {
    if cs == [] then 0 else Derefs(cs[..|cs| - 1]) + if cs[|cs| - 1].Load? || cs[|cs| - 1].Store? then 1 else 0
  }

  /** The most a list can cost: a location is popped at most once per pointee it
      gains, and a pop expands its copy edges and its loads and stores once per
      pointee. */
  ghost function Work(cs: seq<Constraint>): nat {
    var t := |Targets(cs)|;
    t * (Copies(cs) + 2 * t * Derefs(cs))
  }

  /** The locations an edge out of `l` may lead to, when `ts` are the targets. */
  ghost function Possible(cs: seq<Constraint>, ts: set<Loc>, l: Loc): set<Loc> {
    if cs == [] then {}
    else Possible(cs[..|cs| - 1], ts, l) + match cs[|cs| - 1] {
      case AddressOf(_, _) => {}
      case Copy(d, s) => if l == s then {d} else {}
      case Load(d, _) => if l in ts then {d} else {}
      case Store(_, s) => if l == s then ts else {}
    }
  }

  ghost function WeightOne(c: Constraint, ts: set<Loc>, l: Loc): nat {
    match c
    case AddressOf(_, _) => 0
    case Copy(_, s) => if l == s then 1 else 0
    case Load(_, p) => (if l in ts then 1 else 0) + if l == p then |ts| else 0
    case Store(p, s) => (if l == s then |ts| else 0) + if l == p then |ts| else 0
  }

  /** The most one pop of `l` can charge. */
  ghost function Weight(cs: seq<Constraint>, ts: set<Loc>, l: Loc): nat {
    if cs == [] then 0
    else Weight(cs[..|cs| - 1], ts, l) + WeightOne(cs[|cs| - 1], ts, l)
  }

  ghost function WeightOf(cs: seq<Constraint>): Loc -> nat {
    l => Weight(cs, Targets(cs), l)
  }

  ghost function One(l: Loc): nat {
    1
  }

  lemma {:induction false} TargetsHolds(cs: seq<Constraint>, x: Loc)
    ensures x in Targets(cs) <==> exists l :: AddressOf(l, x) in cs
    ensures Targets(cs) <= Locs(cs)
  {
    if cs != [] {
      var n := |cs| - 1;
      TargetsHolds(cs[..n], x);
      assert cs == cs[..n] + [cs[n]];
      if cs[n].AddressOf? && cs[n].target == x {
        assert AddressOf(cs[n].ptr, x) in cs;
      }
    }
  }

  lemma {:induction false} PossibleHolds(cs: seq<Constraint>, ts: set<Loc>, l: Loc, x: Loc, p: Loc)
    ensures Copy(x, l) in cs ==> x in Possible(cs, ts, l)
    ensures Load(x, p) in cs && l in ts ==> x in Possible(cs, ts, l)
    ensures Store(p, l) in cs && x in ts ==> x in Possible(cs, ts, l)
  {
    if cs != [] {
      var n := |cs| - 1;
      PossibleHolds(cs[..n], ts, l, x, p);
      InAppended(cs, Copy(x, l));
      InAppended(cs, Load(x, p));
      InAppended(cs, Store(p, l));
    }
  }

  /** The relation that gives every location every target solves the list. */
  lemma AllTargets(cs: seq<Constraint>, t: Sets)
    requires t == map l | l in Locs(cs) :: Targets(cs)
    ensures IsSolution(cs, t)
  {
    LocsHoldsAll(cs);
    TargetsHolds(cs, 0);
    forall c | c in cs
      ensures Holds(c, t)
    {
      match c
      case AddressOf(ptr, target) => TargetsHolds(cs, target);
      case Copy(dst, src) =>
      case Load(dst, ptr) =>
      case Store(ptr, src) =>
    }
  }

  lemma SetsHoldTargets(cs: seq<Constraint>, sets: Sets, edges: Sets)
    requires Sound(cs, sets, edges)
    ensures forall l :: At(sets, l) <= Targets(cs)
  {
    hide IsSolution;
    var t: Sets := map l | l in Locs(cs) :: Targets(cs);
    AllTargets(cs, t);
    forall l
      ensures At(sets, l) <= Targets(cs)
    {
      assert At(sets, l) <= At(t, l);
    }
  }

  lemma {:induction false} PossibleFits(cs: seq<Constraint>, ts: set<Loc>, l: Loc)
    ensures var d := LoadAll(cs);
            |Possible(cs, ts, l)| + |ts| * |At(d.loads, l)| + |ts| * |At(d.stores, l)| <= Weight(cs, ts, l)
  {
    if cs != [] {
      var n := |cs| - 1;
      PossibleFits(cs[..n], ts, l);
      var d := LoadAll(cs[..n]);
      var c := cs[n];
      assert |Possible(cs, ts, l)| <= |Possible(cs[..n], ts, l)| + match c {
        case AddressOf(_, _) => 0
        case Copy(_, s) => if l == s then 1 else 0
        case Load(_, _) => if l in ts then 1 else 0
        case Store(_, s) => if l == s then |ts| else 0
      };
      match c
      case AddressOf(_, _) =>
      case Copy(_, _) =>
      case Load(x, p) =>
        if l == p {
          OneMore(At(d.loads, l), x, |ts|);
        }
      case Store(p, x) =>
        if l == p {
          OneMore(At(d.stores, l), x, |ts|);
        }
    }
  }

  lemma OneMore(s: set<Loc>, x: Loc, k: nat)
    ensures k * |s + {x}| <= k * |s| + k
  {
    if x in s {
      assert s + {x} == s;
    } else {
      assert k * (|s| + 1) == k * |s| + k;
    }
  }

  /** One pop charges no more than the weight of its location. */
  lemma PopCharges(cs: seq<Constraint>, s: State)
    requires Running(cs, s) && s.net.queue != []
    ensures Pop(LoadAll(cs), s).steps <= s.steps + Weight(cs, Targets(cs), s.net.queue[0])
  {
    var d := LoadAll(cs);
    var ts := Targets(cs);
    var l := s.net.queue[0];
    hide LoadAll, Possible, Weight, FollowEdges, LoadEdges, StoreEdges, Running, Charge, Targets, At;
    PossibleFits(cs, ts, l);
    PopStages(cs, s);
    var popped := s.net.(queue := s.net.queue[1..]);
    var copied := FollowEdges(popped, l, At(popped.edges, l));
    var loaded := LoadEdges(copied, At(copied.sets, l), At(d.loads, l));
    SubsetSize(At(popped.edges, l), Possible(cs, ts, l));
    SubsetSize(At(copied.sets, l), ts);
    SubsetSize(At(loaded.sets, l), ts);
    ChargeFits(s.steps, |At(popped.edges, l)|, |At(copied.sets, l)|, |At(loaded.sets, l)|, |ts|,
               |Possible(cs, ts, l)|, |At(d.loads, l)|, |At(d.stores, l)|);
  }

  lemma ChargeFits(steps: nat, c: nat, a: nat, b: nat, t: nat, p: nat, x: nat, y: nat)
    requires c <= p && a <= t && b <= t
    ensures Charge(steps, c, a * x, b * y) <= steps + p + t * x + t * y
  {
    hide Charge;
    ChargeRange(steps, c, a * x, b * y);
    Scale(a, t, x);
    Scale(b, t, y);
  }

  lemma Scale(a: nat, b: nat, k: nat)
    requires a <= b
    ensures a * k <= b * k && a * k == k * a && b * k == k * b
  {
  }

  /** The stages of a pop hold only targets and possible edges. */
  lemma PopStages(cs: seq<Constraint>, s: State)
    requires Running(cs, s) && s.net.queue != []
    ensures var l := s.net.queue[0];
            var popped := s.net.(queue := s.net.queue[1..]);
            var copied := FollowEdges(popped, l, At(popped.edges, l));
            var loaded := LoadEdges(copied, At(copied.sets, l), At(LoadAll(cs).loads, l));
            && At(popped.edges, l) <= Possible(cs, Targets(cs), l)
            && At(copied.sets, l) <= Targets(cs) && At(loaded.sets, l) <= Targets(cs)
  {
    hide NetOk, LoadAll, FollowEdges, LoadEdges;
    var l := s.net.queue[0];
    var popped := s.net.(queue := s.net.queue[1..]);
    var copied := FollowEdges(popped, l, At(popped.edges, l));
    PoppedKeeps(cs, s.net);
    NetFits(cs, popped, {l}, {l}, {l});
    FollowEdgesKeeps(cs, popped, l, At(popped.edges, l));
    NetFits(cs, copied, {}, {l}, {l});
    LoadEdgesKeeps(cs, copied, l, At(copied.sets, l), At(copied.sets, l));
    NetFits(cs, LoadEdges(copied, At(copied.sets, l), At(LoadAll(cs).loads, l)), {}, {}, {l});
  }

  lemma NetFits(cs: seq<Constraint>, n: Net, copies: set<Loc>, loads: set<Loc>, stores: set<Loc>)
    requires NetOk(cs, n, copies, loads, stores)
    ensures forall l :: At(n.sets, l) <= Targets(cs)
    ensures forall l :: At(n.edges, l) <= Possible(cs, Targets(cs), l)
    ensures forall l :: l in n.queue ==> l in Locs(cs)
  {
    hide LoadAll, Locs, Sound, CopyClosed, LoadClosed, StoreClosed, Possible;
    SetsHoldTargets(cs, n.sets, n.edges);
    assert forall l :: l in n.queue ==> l in Pending(n);
  }

  // ----- what a pop charges and in what order it works, without its own functions

  /** Saturating at every step saturates the sum. */
  lemma ChargeIsSum(steps: nat, c: nat, p: nat, q: nat)
    ensures Charge(steps, c, p, q) == if steps + c + p + q <= USIZE_MAX then steps + c + p + q else USIZE_MAX
  {
  }

  /** Following the edges out of a location leaves its own set alone. */
  lemma {:induction false} FollowEdgesKeepsOwn(n: Net, l: Loc, dsts: set<Loc>)
    ensures At(FollowEdges(n, l, dsts).sets, l) == At(n.sets, l)
    decreases dsts
  {
    if dsts != {} {
      var b := Least(dsts);
      FollowEdgesKeepsOwn(Flow(n, l, b), l, dsts - {b});
    }
  }

  /** A pop charges its location's copy edges, its pointees for each load, and its
      pointees, with those the loads may have added, for each store. */
  lemma PopChargeIs(d: Loaded, s: State) returns (pointees: nat)
    requires s.net.queue != []
    ensures var l := s.net.queue[0];
      var sum := s.steps + |At(s.net.edges, l)| + |At(s.net.sets, l)| * |At(d.loads, l)| + pointees * |At(d.stores, l)|;
      Pop(d, s).steps == if sum <= USIZE_MAX then sum else USIZE_MAX
    ensures At(d.loads, s.net.queue[0]) == {} ==> pointees == |At(s.net.sets, s.net.queue[0])|
  {
    var l := s.net.queue[0];
    var popped := s.net.(queue := s.net.queue[1..]);
    var copied := FollowEdges(popped, l, At(popped.edges, l));
    var loaded := LoadEdges(copied, At(copied.sets, l), At(d.loads, l));
    pointees := |At(loaded.sets, l)|;
    FollowEdgesKeepsOwn(popped, l, At(popped.edges, l));
    NoLoads(copied, At(copied.sets, l));
    hide FollowEdges, LoadEdges, StoreEdges, Charge;
    ChargeIsSum(s.steps, |At(popped.edges, l)|, |At(copied.sets, l)| * |At(d.loads, l)|,
                |At(loaded.sets, l)| * |At(d.stores, l)|);
  }

  lemma {:induction false} NoLoads(n: Net, pointees: set<Loc>)
    ensures LoadEdges(n, pointees, {}) == n
    decreases pointees
  {
    if pointees != {} {
      NoLoads(n, pointees - {Least(pointees)});
    }
  }

  /** Pairs in ascending order, by the first and then by the second. */
  predicate PairsAscend(ps: seq<(Loc, Loc)>) {
    forall i, j :: 0 <= i < j < |ps| ==> ps[i].0 < ps[j].0 || (ps[i].0 == ps[j].0 && ps[i].1 < ps[j].1)
  }

  /** All pairs of `o` with a member of `xs`, and of a member of `os` with one of `xs`. */
  ghost function RowOf(o: Loc, xs: set<Loc>): seq<(Loc, Loc)>
    decreases xs
  {
    if xs == {} then [] else var b := Least(xs); [(o, b)] + RowOf(o, xs - {b})
  }

  ghost function Pairs(os: set<Loc>, xs: set<Loc>): seq<(Loc, Loc)>
    decreases os
  {
    if os == {} then [] else var o := Least(os); RowOf(o, xs) + Pairs(os - {o}, xs)
  }

  lemma PairsAppend(ps: seq<(Loc, Loc)>, qs: seq<(Loc, Loc)>)
    requires PairsAscend(ps) && PairsAscend(qs)
    requires forall p, q :: p in ps && q in qs ==> p.0 < q.0 || (p.0 == q.0 && p.1 < q.1)
    ensures PairsAscend(ps + qs)
  {
  }

  lemma {:induction false} RowIs(o: Loc, xs: set<Loc>)
    ensures PairsAscend(RowOf(o, xs))
    ensures forall p :: p in RowOf(o, xs) <==> p.0 == o && p.1 in xs
    decreases xs
  {
    hide PairsAscend;
    NoPairs();
    if xs != {} {
      var b := Least(xs);
      RowIs(o, xs - {b});
      OnePair((o, b));
      PairsAppend([(o, b)], RowOf(o, xs - {b}));
    }
  }

  lemma NoPairs()
    ensures PairsAscend([])
  {
  }

  lemma OnePair(p: (Loc, Loc))
    ensures PairsAscend([p])
  {
  }

  /** The pairs are those of the two sets, each once, in ascending order. */
  lemma {:induction false} PairsAre(os: set<Loc>, xs: set<Loc>)
    ensures PairsAscend(Pairs(os, xs))
    ensures forall p :: p in Pairs(os, xs) <==> p.0 in os && p.1 in xs
    decreases os
  {
    hide PairsAscend, RowOf;
    NoPairs();
    if os != {} {
      var o := Least(os);
      RowIs(o, xs);
      PairsAre(os - {o}, xs);
      PairsAppend(RowOf(o, xs), Pairs(os - {o}, xs));
    }
  }

  /** The copy edges of a list of pairs, added one after the other, one way or the
      other. */
  ghost function AddEach(n: Net, ps: seq<(Loc, Loc)>): Net
    decreases |ps|
  {
    if ps == [] then n else AddEach(AddEdge(n, ps[0].0, ps[0].1), ps[1..])
  }

  ghost function AddEachBack(n: Net, ps: seq<(Loc, Loc)>): Net
    decreases |ps|
  {
    if ps == [] then n else AddEachBack(AddEdge(n, ps[0].1, ps[0].0), ps[1..])
  }

  lemma {:induction false} AddEachConcat(n: Net, ps: seq<(Loc, Loc)>, qs: seq<(Loc, Loc)>)
    ensures AddEach(n, ps + qs) == AddEach(AddEach(n, ps), qs)
    decreases |ps|
  {
    hide AddEdge;
    if ps == [] {
      assert ps + qs == qs;
    } else {
      assert (ps + qs)[1..] == ps[1..] + qs;
      AddEachConcat(AddEdge(n, ps[0].0, ps[0].1), ps[1..], qs);
    }
  }

  lemma {:induction false} AddEachBackConcat(n: Net, ps: seq<(Loc, Loc)>, qs: seq<(Loc, Loc)>)
    ensures AddEachBack(n, ps + qs) == AddEachBack(AddEachBack(n, ps), qs)
    decreases |ps|
  {
    hide AddEdge;
    if ps == [] {
      assert ps + qs == qs;
    } else {
      assert (ps + qs)[1..] == ps[1..] + qs;
      AddEachBackConcat(AddEdge(n, ps[0].1, ps[0].0), ps[1..], qs);
    }
  }

  lemma {:induction false} RowInto(n: Net, o: Loc, xs: set<Loc>)
    ensures LoadInto(n, o, xs) == AddEach(n, RowOf(o, xs))
    decreases xs
  {
    hide AddEdge;
    if xs != {} {
      var b := Least(xs);
      RowInto(AddEdge(n, o, b), o, xs - {b});
      assert RowOf(o, xs)[1..] == RowOf(o, xs - {b});
    }
  }

  lemma {:induction false} RowFrom(n: Net, o: Loc, xs: set<Loc>)
    ensures StoreFrom(n, xs, o) == AddEachBack(n, RowOf(o, xs))
    decreases xs
  {
    hide AddEdge;
    if xs != {} {
      var b := Least(xs);
      RowFrom(AddEdge(n, b, o), o, xs - {b});
      assert RowOf(o, xs)[1..] == RowOf(o, xs - {b});
    }
  }

  /** Loads add the edge from every pointee to every destination, pointees ascending and
      destinations ascending for each. */
  lemma {:induction false} LoadsInOrder(n: Net, pointees: set<Loc>, dsts: set<Loc>)
    ensures LoadEdges(n, pointees, dsts) == AddEach(n, Pairs(pointees, dsts))
    ensures PairsAscend(Pairs(pointees, dsts))
    ensures forall p :: p in Pairs(pointees, dsts) <==> p.0 in pointees && p.1 in dsts
    decreases pointees
  {
    PairsAre(pointees, dsts);
    hide AddEdge, RowOf, LoadInto, PairsAscend;
    if pointees != {} {
      var o := Least(pointees);
      RowInto(n, o, dsts);
      LoadsInOrder(LoadInto(n, o, dsts), pointees - {o}, dsts);
      AddEachConcat(n, RowOf(o, dsts), Pairs(pointees - {o}, dsts));
    }
  }

  /** Stores add the edge from every stored value to every pointee, pointees ascending
      and stored values ascending for each. */
  lemma {:induction false} StoresInOrder(n: Net, pointees: set<Loc>, srcs: set<Loc>)
    ensures StoreEdges(n, pointees, srcs) == AddEachBack(n, Pairs(pointees, srcs))
    ensures PairsAscend(Pairs(pointees, srcs))
    ensures forall p :: p in Pairs(pointees, srcs) <==> p.0 in pointees && p.1 in srcs
    decreases pointees
  {
    PairsAre(pointees, srcs);
    hide AddEdge, RowOf, StoreFrom, PairsAscend;
    if pointees != {} {
      var o := Least(pointees);
      RowFrom(n, o, srcs);
      StoresInOrder(StoreFrom(n, srcs, o), pointees - {o}, srcs);
      AddEachBackConcat(n, RowOf(o, srcs), Pairs(pointees - {o}, srcs));
    }
  }

  /** The first queue: every location that is given a pointee, in the order in which the
      list first gives it one. */
  lemma {:induction false} FirstQueueInOrder(cs: seq<Constraint>) returns (at: seq<nat>)
    ensures var q := LoadAll(cs).queue;
      && |at| == |q| && (forall i, j :: 0 <= i < j < |at| ==> at[i] < at[j])
      && (forall i :: 0 <= i < |q| ==> at[i] < |cs| && cs[at[i]].AddressOf? && cs[at[i]].ptr == q[i])
      && (forall i, k :: 0 <= i < |q| && 0 <= k < at[i] ==> !(cs[k].AddressOf? && cs[k].ptr == q[i]))
  {
    at := [];
    if cs != [] {
      var n := |cs| - 1;
      var before := FirstQueueInOrder(cs[..n]);
      var d, c := LoadAll(cs[..n]), cs[n];
      assert forall k :: 0 <= k < n ==> cs[..n][k] == cs[k];
      var l := if c.AddressOf? then c.ptr else if c.Copy? then c.src else c.ptr;
      HoldersQueued(cs[..n], l);
      assert LoadAll(cs) == LoadOne(d, c);
      if LoadOne(d, c).queue == d.queue {
        at := before;
      } else {
        at := before + [n];
        NewHolder(cs[..n], l);
      }
    }
  }

  lemma NewHolder(cs: seq<Constraint>, l: Loc)
    requires l !in LoadAll(cs).queue
    ensures forall k :: 0 <= k < |cs| ==> !(cs[k].AddressOf? && cs[k].ptr == l)
  {
    HoldersQueued(cs, l);
    hide LoadAll;
    forall k | 0 <= k < |cs| && cs[k].AddressOf? && cs[k].ptr == l
      ensures false
    {
      LoadedSets(cs, l, cs[k].target);
    }
  }

  // ----- the credit a run draws on

  /** The pops a location may still cause: one for each pointee it can gain, and
      the one it waits for. */
  ghost function Slack(ts: set<Loc>, n: Net, l: Loc): int {
    |ts| - |At(n.sets, l)| + if l in n.queue then 1 else 0
  }

  ghost function Credit(w: Loc -> nat, ts: set<Loc>, n: Net, top: nat): int {
    if top == 0 then 0 else Credit(w, ts, n, top - 1) + w(top - 1) * Slack(ts, n, top - 1)
  }

  ghost function Top(u: set<Loc>): (n: nat)
    ensures forall l :: l in u ==> l < n
  {
    if u == {} then 0
    else
      var x := Least(u);
      var n := Top(u - {x});
      assert forall l :: l in u ==> l == x || l in u - {x};
      if x < n then n else x + 1
  }

  /** The pops still to come, at most. */
  ghost function Left(cs: seq<Constraint>, n: Net): int {
    Credit(One, Targets(cs), n, Top(Locs(cs)))
  }

  lemma SubsetSize(s: set<Loc>, t: set<Loc>)
    requires s <= t
    ensures |s| <= |t| && (s != t ==> |s| < |t|)
  {
    if s != t {
      var x :| x in t && x !in s;
      StrictSize(s, t, x);
    } 
  }

  lemma StrictSize(s: set<Loc>, t: set<Loc>, x: Loc)
    requires s <= t && x in t && x !in s
    ensures |s| < |t|
  {
    assert t == s + (t - s);
    assert |t| == |s| + |t - s|;
    assert x in t - s;
  }

  lemma SlackFalls(ts: set<Loc>, m: Net, n: Net)
    requires Grown(m, n)
    ensures forall l :: Slack(ts, n, l) <= Slack(ts, m, l)
  {
    forall l
      ensures Slack(ts, n, l) <= Slack(ts, m, l)
    {
      SubsetSize(At(m.sets, l), At(n.sets, l));
    }
  }

  lemma SlackNonNegative(ts: set<Loc>, n: Net)
    requires forall l :: At(n.sets, l) <= ts
    ensures forall l :: Slack(ts, n, l) >= 0
  {
    forall l
      ensures Slack(ts, n, l) >= 0
    {
      SubsetSize(At(n.sets, l), ts);
    }
  }

  lemma {:induction false} CreditFalls(w: Loc -> nat, ts: set<Loc>, m: Net, n: Net, l: Loc, top: nat)
    requires forall x :: Slack(ts, n, x) + (if x == l then 1 else 0) <= Slack(ts, m, x)
    ensures Credit(w, ts, n, top) + (if l < top then w(l) else 0) <= Credit(w, ts, m, top)
  {
    if top > 0 {
      CreditFalls(w, ts, m, n, l, top - 1);
      var x := top - 1;
      Weigh(w(x), Slack(ts, n, x) + (if x == l then 1 else 0), Slack(ts, m, x));
      assert w(x) * (Slack(ts, n, x) + 1) == w(x) * Slack(ts, n, x) + w(x);
    }
  }

  lemma Weigh(w: nat, a: int, b: int)
    requires a <= b
    ensures w * a <= w * b
  {
  }

  lemma {:induction false} CreditRange(w: Loc -> nat, ts: set<Loc>, n: Net, top: nat)
    requires forall l :: 0 <= Slack(ts, n, l)
    ensures 0 <= Credit(w, ts, n, top)
  {
    if top > 0 {
      CreditRange(w, ts, n, top - 1);
      Weigh(w(top - 1), 0, Slack(ts, n, top - 1));
    }
  }

  /** A pop spends its location's weight and earns none back. */
  lemma PopPays(cs: seq<Constraint>, w: Loc -> nat, s: State)
    requires Running(cs, s) && s.net.queue != []
    ensures var ts := Targets(cs); var top := Top(Locs(cs));
            && s.net.queue[0] < top
            && 0 <= Credit(w, ts, Pop(LoadAll(cs), s).net, top)
            && Credit(w, ts, Pop(LoadAll(cs), s).net, top) + w(s.net.queue[0]) <= Credit(w, ts, s.net, top)
  {
    var ts, top := Targets(cs), Top(Locs(cs));
    var m := Pop(LoadAll(cs), s).net;
    hide NetOk, Pop, LoadAll, Credit, Slack, Top, Targets, Locs, Possible;
    PopKeeps(cs, s);
    NetFits(cs, s.net, {}, {}, {});
    NetFits(cs, m, {}, {}, {});
    SlackPaid(ts, s.net, m);
    CreditFalls(w, ts, s.net, m, s.net.queue[0], top);
    SlackNonNegative(ts, m);
    CreditRange(w, ts, m, top);
  }

  /** Popping a location costs it one pop. */
  lemma SlackPaid(ts: set<Loc>, m: Net, n: Net)
    requires m.queue != [] && Distinct(m.queue) && Grown(m.(queue := m.queue[1..]), n)
    ensures forall x :: Slack(ts, n, x) + (if x == m.queue[0] then 1 else 0) <= Slack(ts, m, x)
  {
    var l := m.queue[0];
    var popped := m.(queue := m.queue[1..]);
    assert m.queue == [l] + popped.queue;
    hide Grown;
    SlackFalls(ts, popped, n);
    forall x
      ensures Slack(ts, n, x) + (if x == l then 1 else 0) <= Slack(ts, m, x)
    {
      assert Slack(ts, n, x) <= Slack(ts, popped, x);
    }
  }

  lemma LeftIsSum(cs: seq<Constraint>, s: State)
    requires Running(cs, s)
    ensures Left(cs, s.net) >= 0
  {
    hide NetOk;
    NetFits(cs, s.net, {}, {}, {});
    SlackNonNegative(Targets(cs), s.net);
    CreditRange(One, Targets(cs), s.net, Top(Locs(cs)));
  }

  // ----- the whole credit

  ghost function SumOne(c: Constraint, ts: set<Loc>, top: nat): nat {
    if top == 0 then 0 else SumOne(c, ts, top - 1) + WeightOne(c, ts, top - 1)
  }

  ghost function SumAll(cs: seq<Constraint>, ts: set<Loc>, top: nat): nat {
    if cs == [] then 0 else SumAll(cs[..|cs| - 1], ts, top) + SumOne(cs[|cs| - 1], ts, top)
  }

  ghost function CostOne(c: Constraint, t: nat): nat {
    if c.AddressOf? then 0 else if c.Copy? then 1 else 2 * t
  }

  lemma {:induction false} SumOneFits(c: Constraint, ts: set<Loc>, top: nat)
    ensures SumOne(c, ts, top) <= CostOne(c, |ts|)
    ensures c.Copy? && c.src >= top ==> SumOne(c, ts, top) == 0
    ensures c.Load? ==> SumOne(c, ts, top) == |LowPart(ts, top)| + if c.ptr < top then |ts| else 0
    ensures c.Store? ==> SumOne(c, ts, top) == (if c.src < top then |ts| else 0) + if c.ptr < top then |ts| else 0
  {
    LowPartSize(ts, top);
    if top > 0 {
      SumOneFits(c, ts, top - 1);
      LowPartSize(ts, top - 1);
    }
  }

  ghost function LowPart(ts: set<Loc>, top: nat): set<Loc> {
    set l | l in ts && l < top
  }

  lemma LowPartSize(ts: set<Loc>, top: nat)
    ensures |LowPart(ts, top)| <= |ts|
    ensures |LowPart(ts, top + 1)| == |LowPart(ts, top)| + if top in ts then 1 else 0
    ensures LowPart(ts, 0) == {}
  {
    SubsetSize(LowPart(ts, top), ts);
    if top in ts {
      assert LowPart(ts, top + 1) == LowPart(ts, top) + {top};
    } else {
      assert LowPart(ts, top + 1) == LowPart(ts, top);
    }
  }

  lemma OneMoreDeref(t: nat, k: nat)
    ensures 2 * t * (k + 1) == 2 * t * k + 2 * t
  {
  }

  lemma {:induction false} SumAllFits(cs: seq<Constraint>, ts: set<Loc>, top: nat)
    ensures SumAll(cs, ts, top) <= Copies(cs) + 2 * |ts| * Derefs(cs)
  {
    hide SumOne;
    if cs != [] {
      var n := |cs| - 1;
      SumAllFits(cs[..n], ts, top);
      SumOneFits(cs[n], ts, top);
      OneMoreDeref(|ts|, Derefs(cs[..n]));
    }
  }

  lemma {:induction false} SumAllIsWeight(cs: seq<Constraint>, ts: set<Loc>, top: nat)
    requires top > 0
    ensures SumAll(cs, ts, top) == SumAll(cs, ts, top - 1) + Weight(cs, ts, top - 1)
  {
    if cs != [] {
      SumAllIsWeight(cs[..|cs| - 1], ts, top);
    }
  }

  lemma {:induction false} NothingBelowZero(cs: seq<Constraint>, ts: set<Loc>)
    ensures SumAll(cs, ts, 0) == 0
  {
    if cs != [] {
      NothingBelowZero(cs[..|cs| - 1], ts);
    }
  }

  /** The credit at the start, when nothing has more slack than the targets. */
  lemma {:induction false} CreditFits(cs: seq<Constraint>, n: Net, top: nat)
    requires forall l :: Slack(Targets(cs), n, l) <= |Targets(cs)|
    ensures Credit(WeightOf(cs), Targets(cs), n, top) <= |Targets(cs)| * SumAll(cs, Targets(cs), top)
  {
    var ts := Targets(cs);
    hide SumAll, Weight, Slack, Targets;
    if top == 0 {
      NothingBelowZero(cs, ts);
    } else {
      CreditFits(cs, n, top - 1);
      SumAllIsWeight(cs, ts, top);
      Weigh(Weight(cs, ts, top - 1), Slack(ts, n, top - 1), |ts|);
      Spread(|ts|, SumAll(cs, ts, top - 1), Weight(cs, ts, top - 1));
    }
  }

  lemma Spread(k: nat, a: nat, b: nat)
    ensures k * (a + b) == k * a + b * k
  {
  }

  lemma StartCredit(cs: seq<Constraint>)
    ensures Credit(WeightOf(cs), Targets(cs), Start(cs).net, Top(Locs(cs))) <= Work(cs)
  {
    var ts, n, top := Targets(cs), Start(cs).net, Top(Locs(cs));
    hide LoadAll, Credit, Top, WeightOf, Copies, Derefs, SumAll;
    forall l
      ensures Slack(ts, n, l) <= |ts|
    {
      HoldersQueued(cs, l);
      SubsetSize({}, At(n.sets, l));
    }
    CreditFits(cs, n, top);
    SumAllFits(cs, ts, top);
    Weigh(|ts|, SumAll(cs, ts, top), Copies(cs) + 2 * |ts| * Derefs(cs));
  }

  // ----- when the budget is enough

  /** A run drains its queue when what it has spent and the credit it has left fit
      the bound, and when the bound is out of the counter's reach. */
  lemma {:induction false} RunDrains(cs: seq<Constraint>, s: State, bound: nat)
    requires Running(cs, s)
    requires bound >= USIZE_MAX || s.steps + Credit(WeightOf(cs), Targets(cs), s.net, Top(Locs(cs))) <= bound
    ensures RunOn(cs, s, bound).net.queue == []
    decreases Left(cs, s.net)
  {
    hide NetOk, LoadAll, Pop, Credit, Left, Top, Targets;
    RunOnRound(cs, s, bound);
    if s.net.queue != [] {
      CreditStays(cs, s);
      PopCharges(cs, s);
      PopPays(cs, WeightOf(cs), s);
      RunDrains(cs, Pop(LoadAll(cs), s), bound);
    }
  }

  lemma CreditStays(cs: seq<Constraint>, s: State)
    requires Running(cs, s)
    ensures 0 <= Credit(WeightOf(cs), Targets(cs), s.net, Top(Locs(cs)))
  {
    hide NetOk;
    NetFits(cs, s.net, {}, {}, {});
    SlackNonNegative(Targets(cs), s.net);
    CreditRange(WeightOf(cs), Targets(cs), s.net, Top(Locs(cs)));
  }

  /** A list whose work fits the budget is solved to the least solution. */
  lemma ConvergesWithinWork(cs: seq<Constraint>)
    requires Work(cs) <= 64 * |cs| + 64
    ensures Stop(cs).net.queue == [] && IsLeastSolution(cs, Stop(cs).net.sets)
  {
    hide Running, Work, Credit, RunOn, IsLeastSolution;
    StartRuns(cs);
    StartCredit(cs);
    RunDrains(cs, Start(cs), SafetyBound(|cs|));
    StopIsBelow(cs);
  }

  /** With at most five distinct targets every list is solved to the least
      solution, and so is a list without loads and stores with at most 64. */
  lemma FewTargetsConverge(cs: seq<Constraint>)
    requires |Targets(cs)| <= 5 || (Derefs(cs) == 0 && |Targets(cs)| <= 64)
    ensures IsLeastSolution(cs, Stop(cs).net.sets)
  {
    hide IsLeastSolution, Stop, Targets, Copies, Derefs;
    CountsFit(cs);
    FewFit(|Targets(cs)|, Copies(cs), Derefs(cs), |cs|);
    ConvergesWithinWork(cs);
  }

  lemma FewFit(t: nat, c: nat, k: nat, n: nat)
    requires c + k <= n && (t <= 5 || (k == 0 && t <= 64))
    ensures t * (c + 2 * t * k) <= 64 * n + 64
  {
    if t <= 5 {
      Scale(t, 5, k);
      Scale(t, 5, c + 2 * t * k);
    } else {
      Scale(t, 64, c);
    }
  }

  lemma {:induction false} CountsFit(cs: seq<Constraint>)
    ensures Copies(cs) + Derefs(cs) <= |cs|
  {
    if cs != [] {
      CountsFit(cs[..|cs| - 1]);
    }
  }

  /** What the solver would charge before its last pop, had it no budget. */
  ghost function SpentBeforeLast(cs: seq<Constraint>, s: State): nat
    requires Running(cs, s)
    decreases Left(cs, s.net)
  {
    if s.net.queue == [] then 0
    else
      PopRuns(cs, s);
      PopPays(cs, One, s);
      var t := Pop(LoadAll(cs), s);
      if t.net.queue == [] then s.steps else SpentBeforeLast(cs, t)
  }

  lemma SpentRound(cs: seq<Constraint>, s: State)
    requires Running(cs, s) && s.net.queue != []
    ensures var t := Pop(LoadAll(cs), s);
            && Running(cs, t) && s.steps <= t.steps
            && SpentBeforeLast(cs, s) == if t.net.queue == [] then s.steps else SpentBeforeLast(cs, t)
  {
    hide NetOk, LoadAll, Pop, Left;
    PopRuns(cs, s);
  }

  lemma {:induction false} SpentGrows(cs: seq<Constraint>, s: State)
    requires Running(cs, s) && s.net.queue != []
    ensures s.steps <= SpentBeforeLast(cs, s)
    decreases Left(cs, s.net)
  {
    hide NetOk, LoadAll, Pop, Left, Running;
    SpentRound(cs, s);
    RunOnRound(cs, s, s.steps);
    if Pop(LoadAll(cs), s).net.queue != [] {
      SpentGrows(cs, Pop(LoadAll(cs), s));
    }
  }

  /** The exact condition: the budget is not hit just when the run without a
      budget has spent no more than the bound before its last pop. */
  lemma {:induction false} DrainsIffAffordable(cs: seq<Constraint>, s: State, bound: nat)
    requires Running(cs, s)
    ensures RunOn(cs, s, bound).net.queue == [] <==> SpentBeforeLast(cs, s) <= bound
    decreases Left(cs, s.net)
  {
    hide NetOk, LoadAll, Pop, Left, Running;
    RunOnRound(cs, s, bound);
    if s.net.queue != [] {
      SpentRound(cs, s);
      SpentGrows(cs, s);
      if s.steps <= bound {
        var t := Pop(LoadAll(cs), s);
        DrainsIffAffordable(cs, t, bound);
        RunOnRound(cs, t, bound);
      }
    }
  }

  /** What a solver without a budget returns. */
  ghost function Unbounded(cs: seq<Constraint>): State {
    StartRuns(cs);
    RunOn(cs, Start(cs), USIZE_MAX)
  }

  /** The solver without a budget always returns the least solution.  The solver
      with one returns it exactly when its result is a solution, which is when the
      one without would add nothing more; its queue drains exactly when the one
      without spends no more than the bound before its last pop. */
  lemma BudgetIsExact(cs: seq<Constraint>)
    ensures IsLeastSolution(cs, Unbounded(cs).net.sets)
    ensures IsLeastSolution(cs, Stop(cs).net.sets) <==> IsSolution(cs, Stop(cs).net.sets)
    ensures IsSolution(cs, Stop(cs).net.sets) <==> forall l :: At(Stop(cs).net.sets, l) == At(Unbounded(cs).net.sets, l)
    ensures Running(cs, Start(cs))
    ensures Stop(cs).net.queue == [] <==> SpentBeforeLast(cs, Start(cs)) <= SafetyBound(|cs|)
  {
    hide Running, RunOn, Credit, SpentBeforeLast, IsSolution;
    StartRuns(cs);
    RunDrains(cs, Start(cs), USIZE_MAX);
    RunningIsBelow(cs, Unbounded(cs));
    StopIsBelow(cs);
    DrainsIffAffordable(cs, Start(cs), SafetyBound(|cs|));
    var a, b := Stop(cs).net.sets, Unbounded(cs).net.sets;
    if forall l :: At(a, l) == At(b, l) {
      SameAnswer(cs, a, b);
    }
    if IsSolution(cs, a) {
      assert Below(a, b) && Below(b, a);
      assert forall l :: At(a, l) <= At(b, l) <= At(a, l);
    }
  }

  lemma SameAnswer(cs: seq<Constraint>, a: Sets, b: Sets)
    requires IsSolution(cs, b) && forall l :: At(a, l) == At(b, l)
    ensures IsSolution(cs, a)
  {
    forall c | c in cs
      ensures Holds(c, a)
    {
      assert Holds(c, b);
    }
  }

  // ----- a run the budget cuts short loses aliases

  /** One pointer with 130 pointees, dereferenced by 130 loads; one pointee holds
      3000, which must flow through a load into 2000 and from there into 4000. */
  function DenseList(): seq<Constraint> {
    seq(130, (i: nat) => AddressOf(0, 1000 + i))
    + seq(130, (i: nat) => Load(2000 + i, 0))
    + [AddressOf(1000, 3000), Copy(4000, 2000)]
  }

  lemma {:induction false} RangeSize(lo: nat, n: nat, s: set<Loc>)
    requires forall i :: lo <= i < lo + n ==> i in s
    ensures |s| >= n
  {
    if n > 0 {
      RangeSize(lo, n - 1, s - {lo + n - 1});
    }
  }

  lemma DenseShape(c: Constraint)
    ensures c in DenseList() <==>
              || (c.AddressOf? && c.ptr == 0 && 1000 <= c.target < 1130)
              || (c.Load? && c.ptr == 0 && 2000 <= c.dst < 2130)
              || c == AddressOf(1000, 3000) || c == Copy(4000, 2000)
    ensures |DenseList()| == 262 && DenseList()[0] == AddressOf(0, 1000)
  {
    var a := seq(130, (i: nat) => AddressOf(0, 1000 + i));
    var b := seq(130, (i: nat) => Load(2000 + i, 0));
    var e := [AddressOf(1000, 3000), Copy(4000, 2000)];
    assert c in DenseList() <==> c in a || c in b || c in e;
    if c.AddressOf? && c.ptr == 0 && 1000 <= c.target < 1130 {
      assert a[c.target - 1000] == c;
    }
    if c.Load? && c.ptr == 0 && 2000 <= c.dst < 2130 {
      assert b[c.dst - 2000] == c;
    }
  }

  lemma DenseFlows(t: Sets)
    requires IsSolution(DenseList(), t)
    ensures 3000 in At(t, 4000)
  {
    DenseShape(AddressOf(0, 1000));
    DenseShape(Load(2000, 0));
    DenseShape(AddressOf(1000, 3000));
    DenseShape(Copy(4000, 2000));
    assert Holds(AddressOf(0, 1000), t) && Holds(Load(2000, 0), t);
    assert Holds(AddressOf(1000, 3000), t) && Holds(Copy(4000, 2000), t);
  }

  lemma DenseLoaded(d: Loaded)
    requires d == LoadAll(DenseList())
    ensures d.queue != [] && d.queue[0] == 0
    ensures |At(d.sets, 0)| >= 130 && |At(d.loads, 0)| >= 130
    ensures At(d.stores, 0) == {} && At(d.edges, 0) == {} && At(d.sets, 4000) == {} && 4000 !in At(d.loads, 0)
  {
    var cs := DenseList();
    hide LoadAll, DenseList;
    LoadedIndexes(cs);
    DenseShape(AddressOf(0, 0));
    FirstQueued(cs);
    forall x | 1000 <= x < 1130
      ensures x in At(d.sets, 0)
    {
      DenseShape(AddressOf(0, x));
    }
    forall x: Loc
      ensures 2000 <= x < 2130 <==> x in At(d.loads, 0)
      ensures x !in At(d.stores, 0) && x !in At(d.edges, 0) && x !in At(d.sets, 4000)
    {
      DenseShape(Load(x, 0));
      DenseShape(Store(0, x));
      DenseShape(Copy(x, 0));
      DenseShape(AddressOf(4000, x));
    }
    RangeSize(1000, 130, At(d.sets, 0));
    RangeSize(2000, 130, At(d.loads, 0));
  }

  lemma {:induction false} LoadIntoTouches(n: Net, o: Loc, dsts: set<Loc>, x: Loc)
    requires x !in dsts
    ensures At(LoadInto(n, o, dsts).sets, x) == At(n.sets, x)
    decreases dsts
  {
    if dsts != {} {
      var b := Least(dsts);
      LoadIntoTouches(AddEdge(n, o, b), o, dsts - {b}, x);
    }
  }

  /** Loads change their destinations only. */
  lemma {:induction false} LoadEdgesTouch(n: Net, pointees: set<Loc>, dsts: set<Loc>, x: Loc)
    requires x !in dsts
    ensures At(LoadEdges(n, pointees, dsts).sets, x) == At(n.sets, x)
    decreases pointees
  {
    if pointees != {} {
      var o := Least(pointees);
      LoadIntoTouches(n, o, dsts, x);
      LoadEdgesTouch(LoadInto(n, o, dsts), pointees - {o}, dsts, x);
    }
  }

  lemma {:induction false} NoStores(n: Net, pointees: set<Loc>)
    ensures StoreEdges(n, pointees, {}) == n
    decreases pointees
  {
    if pointees != {} {
      NoStores(n, pointees - {Least(pointees)});
    }
  }

  lemma DenseFirstPop(d: Loaded, s: State)
    requires d == LoadAll(DenseList()) && s == Start(DenseList())
    ensures s.net.queue != [] && Pop(d, s).steps > 16832 && 3000 !in At(Pop(d, s).net.sets, 4000)
  {
    hide LoadAll, DenseList, LoadEdges, StoreEdges;
    DenseLoaded(d);
    BigProduct(|At(d.sets, 0)|, |At(d.loads, 0)|);
    var popped := s.net.(queue := s.net.queue[1..]);
    assert FollowEdges(popped, 0, At(popped.edges, 0)) == popped;
    var loaded := LoadEdges(popped, At(d.sets, 0), At(d.loads, 0));
    LoadEdgesTouch(popped, At(d.sets, 0), At(d.loads, 0), 4000);
    NoStores(loaded, At(loaded.sets, 0));
  }

  /** A partial result need not cover the aliases: on this list the solver stops
      at its second pop with work pending and without the pointee that every
      solution gives to 4000. */
  lemma TruncatedRunLosesAlias()
    ensures Stop(DenseList()).net.queue != []
    ensures 3000 !in At(Stop(DenseList()).net.sets, 4000)
    ensures !IsSolution(DenseList(), Stop(DenseList()).net.sets)
    ensures forall t :: IsSolution(DenseList(), t) ==> 3000 in At(t, 4000)
  {
    var cs := DenseList();
    var d := LoadAll(cs);
    hide LoadAll, DenseList, IsSolution, Pop, RunOn, Running;
    DenseShape(AddressOf(0, 0));
    assert SafetyBound(262) == 16832;
    StartRuns(cs);
    DenseFirstPop(d, Start(cs));
    var t := Pop(d, Start(cs));
    RunOnRound(cs, Start(cs), 16832);
    RunOnRound(cs, t, 16832);
    assert Stop(cs) == t;
    forall r | IsSolution(cs, r)
      ensures 3000 in At(r, 4000)
    {
      DenseFlows(r);
    }
    if t.net.queue == [] {
      StopIsBelow(cs);
    }
  }

  lemma BigProduct(m: nat, n: nat)
    requires m >= 130 && n >= 130
    ensures 16900 <= m * n
  {
  }

  // ----- transitive closure of a solved relation

  ghost predicate ClosedUnder(s: Sets, r: set<Loc>) {
    forall l :: l in r ==> At(s, l) <= r
  }

  /** Everything a chain of dereferences from the seeds can reach: the least set
      that holds the seeds and the pointees of its members. */
  method ReachableClosure(s: Sets, seeds: seq<Loc>) returns (reached: set<Loc>)
    ensures forall l :: l in seeds ==> l in reached
    ensures ClosedUnder(s, reached)
    ensures forall r :: ClosedUnder(s, r) && (forall l :: l in seeds ==> l in r) ==> reached <= r
  {
    reached := {};
    var stack: seq<Loc> := [];
    ghost var u := set l | l in seeds;
    ghost var all := u + (set l, x | l in s && x in s[l] :: x);
    for i := 0 to |seeds|
      invariant forall l :: l in seeds[..i] <==> l in reached
      invariant forall l :: l in stack <==> l in reached
      invariant forall j, k :: 0 <= j < k < |stack| ==> stack[j] != stack[k]
    {
      if seeds[i] !in reached {
        reached := reached + {seeds[i]};
        stack := stack + [seeds[i]];
      }
    }
    while stack != []
      invariant reached <= all && u <= reached
      invariant forall l :: l in stack ==> l in reached
      invariant forall l :: l in reached && l !in stack ==> At(s, l) <= reached
      invariant forall r :: ClosedUnder(s, r) && (forall l :: l in seeds ==> l in r) ==> reached <= r
      decreases all - reached, |stack|
    {
      var l := stack[|stack| - 1];
      stack := stack[..|stack| - 1];
      ghost var below := stack;
      var rest := At(s, l);
      ghost var r0 := reached;
      while rest != {}
        invariant rest <= At(s, l) && reached <= all && r0 <= reached
        invariant forall x :: x in At(s, l) && x !in rest ==> x in reached
        invariant forall x :: x in stack ==> x in reached
        invariant forall x :: x in below ==> x in stack
        invariant reached == r0 ==> stack == below
        invariant forall x :: x in reached && x !in stack && x != l ==> At(s, x) <= reached
        invariant forall x :: x in reached ==> x in r0 || x in At(s, l)
        decreases rest
      {
        var x :| x in rest;
        rest := rest - {x};
        if x !in reached {
          reached := reached + {x};
          stack := stack + [x];
        }
      }
      forall r | ClosedUnder(s, r) && (forall y :: y in seeds ==> y in r)
        ensures reached <= r
      {
        assert r0 <= r;
      }
    }
  }
}
