/** Conversion-chain collapse: src/analysis/convert.rs.

    Values are bit patterns, so a value of a `w`-bit type is a natural number below
    two to the power `w`.
  */
module Convert {
  import opened Bits
  import opened Options
  import opened Sequences

  // ----- what one conversion computes

  /** The low `to` bits of a `from`-bit operand, extended above `from` by zero or by
      sign. */
  function Conv(x: nat, from: nat, to: nat, unsigned: bool): (r: nat)
    ensures r < Pow2(to)
  {
    if to <= from || unsigned then Low(x, to) else Low(Signed(x, from), to)
  }

  /** A `w`-bit result may read past a link to width `m` from a source of width `s`:
      the test the walk makes. */
  predicate Transparent(s: nat, m: nat, linkUnsigned: bool, w: nat, unsigned: bool) {
    w <= m && (w <= s || linkUnsigned == unsigned)
  }

  /** The low bits of a sign extension that stay inside the source are the source's. */
  lemma SignedLowBits(x: nat, s: nat, w: nat)
    requires w <= s
    ensures Low(Signed(x, s), w) == Low(x, w)
  {
    hide Low, Pow2;
    Pow2Split(s - w, w);
    var k: int := 0 - Pow2(s - w);
    LowShift(x, k, w);
    assert k * Pow2(w) == 0 - Pow2(s);
  }

  lemma TransparentLink(x: nat, s: nat, m: nat, linkUnsigned: bool, w: nat, unsigned: bool)
    requires Transparent(s, m, linkUnsigned, w, unsigned)
    ensures Conv(Conv(x, s, m, linkUnsigned), m, w, unsigned) == Conv(x, s, w, unsigned)
  {
    hide Low, Pow2, Signed;
    LowOfLow(x, w, m);
    LowOfLow(Signed(x, s), w, m);
    if w <= s {
      SignedLowBits(x, s, w);
    }
  }

  lemma IdentityConversion(x: nat, w: nat, unsigned: bool)
    requires x < Pow2(w)
    ensures Conv(x, w, w, unsigned) == x
  {
    hide Low, Pow2;
    LowOfSmall(x, w);
  }

  /** Reading past the link gives the same number for every source value. */
  ghost predicate Interchangeable(s: nat, m: nat, linkUnsigned: bool, w: nat, unsigned: bool) {
    forall x: nat :: x < Pow2(s) ==>
      Conv(Conv(x, s, m, linkUnsigned), m, w, unsigned) == Conv(x, s, w, unsigned)
  }

  /** Exactly when a link is unobservable: the walk's test, or else a link that leaves
      the source's pattern alone below a wider result, which the walk passes up. */
  lemma InterchangeableIsExact(s: nat, m: nat, linkUnsigned: bool, w: nat, unsigned: bool)
    requires s > 0
    ensures Interchangeable(s, m, linkUnsigned, w, unsigned) <==>
              || Transparent(s, m, linkUnsigned, w, unsigned)
              || (m < w && (s == m || (s < m && linkUnsigned == unsigned)))
  {
    hide Low, Pow2, Conv;
    if Transparent(s, m, linkUnsigned, w, unsigned) {
      forall x: nat | x < Pow2(s)
        ensures Conv(Conv(x, s, m, linkUnsigned), m, w, unsigned) == Conv(x, s, w, unsigned)
      {
        TransparentLink(x, s, m, linkUnsigned, w, unsigned);
      }
    } else if w > m && s > m {
      DroppedBitShows(s, m, linkUnsigned, w, unsigned);
    } else if s == m {
      forall x: nat | x < Pow2(s)
        ensures Conv(x, s, m, linkUnsigned) == x
      {
        IdentityConversion(x, s, linkUnsigned);
      }
    } else if linkUnsigned == unsigned {
      forall x: nat | x < Pow2(s)
        ensures Conv(Conv(x, s, m, linkUnsigned), m, w, unsigned) == Conv(x, s, w, unsigned)
      {
        WideningTwice(x, s, m, w, unsigned);
      }
    } else {
      SignBitShows(s, m, linkUnsigned, w, unsigned);
    }
  }

  /** What a widening conversion computes. */
  lemma Widening(x: nat, s: nat, w: nat, unsigned: bool)
    requires 0 < s < w && x < Pow2(s)
    ensures Conv(x, s, w, unsigned) == if !unsigned && x >= Pow2(s - 1) then x - Pow2(s) + Pow2(w) else x
    ensures 2 * Pow2(s) <= Pow2(w) && Pow2(s) == 2 * Pow2(s - 1) && Pow2(w) == 2 * Pow2(w - 1)
  {
    hide Low;
    Pow2Grows(s, w);
    if !unsigned && x >= Pow2(s - 1) {
      LowUnique(Signed(x, s), -1, x - Pow2(s) + Pow2(w), w);
    } else {
      LowOfSmall(x, w);
    }
  }

  /** Extending in two steps of one kind extends in one. */
  lemma WideningTwice(x: nat, s: nat, m: nat, w: nat, unsigned: bool)
    requires 0 < s < m < w && x < Pow2(s)
    ensures Conv(Conv(x, s, m, unsigned), m, w, unsigned) == Conv(x, s, w, unsigned)
  {
    hide Low, Pow2, Conv;
    Widening(x, s, m, unsigned);
    Widening(x, s, w, unsigned);
    Widening(Conv(x, s, m, unsigned), m, w, unsigned);
  }

  /** Where the two conversions extend differently, the lone sign bit shows it. */
  lemma SignBitShows(s: nat, m: nat, linkUnsigned: bool, w: nat, unsigned: bool)
    requires 0 < s < m && s < w && linkUnsigned != unsigned
    ensures !Interchangeable(s, m, linkUnsigned, w, unsigned)
  {
    hide Low, Conv;
    var x := Pow2(s - 1);
    Widening(x, s, m, linkUnsigned);
    Widening(x, s, w, unsigned);
    Widening(x, s, w, linkUnsigned);
    if w <= m {
      TransparentLink(x, s, m, linkUnsigned, w, linkUnsigned);
      Narrowing(Conv(x, s, m, linkUnsigned), m, w, linkUnsigned, unsigned);
    } else {
      Widening(Conv(x, s, m, linkUnsigned), m, w, unsigned);
    }
    assert x < Pow2(s);
    assert Conv(Conv(x, s, m, linkUnsigned), m, w, unsigned) != Conv(x, s, w, unsigned);
  }

  lemma Narrowing(x: nat, m: nat, w: nat, unsigned: bool, other: bool)
    requires w <= m
    ensures Conv(x, m, w, unsigned) == Conv(x, m, w, other)
  {
  }

  /** A narrowing link below a wider result drops a bit the result keeps. */
  lemma DroppedBitShows(s: nat, m: nat, linkUnsigned: bool, w: nat, unsigned: bool)
    requires m < s && m < w
    ensures !Interchangeable(s, m, linkUnsigned, w, unsigned)
  {
    hide Low;
    var x := Pow2(m);
    Pow2Grows(m, s);
    Pow2Grows(m, w);
    LowUnique(x, 1, 0, m);
    LowOfSmall(0, w);
    assert Conv(Conv(x, s, m, linkUnsigned), m, w, unsigned) == 0 by {
      assert Conv(x, s, m, linkUnsigned) == 0;
    }
    assert Conv(x, s, w, unsigned) != 0 by {
      if s < w {
        Widening(x, s, w, unsigned);
      } else {
        LowOfSmall(x, w);
      }
    }
  }

  // ----- functions and their definitions

  /** A type of the source program: two types may share a width, or have none. */
  datatype Type = Type(id: nat, width: Option<nat>)

  datatype Op =
    | IntConv(dest: nat, operand: nat, target: Type, overflowCheck: bool, unsigned: bool)
    | Copy(dest: nat, src: nat)
    | Other(results: set<nat>)
  {
    function Defs(): set<nat> {
      match this
      case IntConv(d, _, _, _, _) => {d}
      case Copy(d, _) => {d}
      case Other(ds) => ds
    }
  }

  /** A recorded definition site; a phi has no instruction. */
  datatype DefSite = DefSite(block: nat, instruction: Option<nat>)

  datatype Variable = Variable(ty: Type, site: DefSite)

  datatype Function = Function(variables: seq<Variable>, blocks: seq<seq<Op>>, issued: nat) {
    function VarIdBound(): nat {
      if issued > |variables| then issued else |variables|
    }

    /** The operation the variable's own site records, if that operation does define
        the variable. */
    function RecordedDefinition(v: nat): Option<Op> {
      if v >= |variables| then None
      else
        var site := variables[v].site;
        if site.instruction.None? || site.block >= |blocks| then None
        else if site.instruction.value >= |blocks[site.block]| then None
        else
          var op := blocks[site.block][site.instruction.value];
          if v in op.Defs() then Some(op) else None
    }

    function Width(v: nat): Option<nat> {
      if v < |variables| then variables[v].ty.width else None
    }
  }

  // ----- the chain a conversion reads through

  /** The instruction that the record of `v` points to converts `x` to `v`, unchecked and
      between known widths, and a `w`-bit result may read `x` instead: it keeps no bit
      the link dropped, and what the link added the result adds itself. */
  predicate IsLink(f: Function, v: nat, x: nat, w: nat, unsigned: bool) {
    && v < |f.variables| && x < |f.variables| && f.variables[x].ty.width.Some?
    && var site := f.variables[v].site;
    && site.instruction.Some? && site.block < |f.blocks| && site.instruction.value < |f.blocks[site.block]|
    && var link := f.blocks[site.block][site.instruction.value];
    && link.IntConv? && link.dest == v && link.operand == x && !link.overflowCheck && link.target.width.Some?
    && w <= link.target.width.value
    && (w <= f.variables[x].ty.width.value || link.unsigned == unsigned)
  }

  /** Variables from `v` inwards, each linked to the next. */
  ghost predicate IsChain(f: Function, v: nat, p: seq<nat>, w: nat, unsigned: bool) {
    p != [] && p[0] == v && forall i :: 0 <= i < |p| - 1 ==> IsLink(f, p[i], p[i + 1], w, unsigned)
  }

  ghost predicate HasLink(f: Function, v: nat, w: nat, unsigned: bool) {
    exists x :: IsLink(f, v, x, w, unsigned)
  }

  lemma LinkOfChain(f: Function, v: nat, p: seq<nat>, w: nat, unsigned: bool, k: nat)
    requires IsChain(f, v, p, w, unsigned) && k < |p| - 1
    ensures IsLink(f, p[k], p[k + 1], w, unsigned) && HasLink(f, p[k], w, unsigned)
  {
  }

  /** A chain that goes on no further. */
  ghost predicate IsFullChain(f: Function, v: nat, p: seq<nat>, w: nat, unsigned: bool) {
    IsChain(f, v, p, w, unsigned) && !HasLink(f, p[|p| - 1], w, unsigned)
  }

  ghost predicate IsCyclic(f: Function, v: nat, w: nat, unsigned: bool) {
    exists p: seq<nat> :: IsChain(f, v, p, w, unsigned) && !Distinct(p)
  }

  /** The answer: a copy for a conversion to the operand's own type, else a conversion
      of the variable at the end of the full chain from the operand; no answer for a
      checked conversion, an unknown width, an operand without a link, or a cyclic
      chain. */
  ghost predicate IsCollapse(f: Function, op: Op, r: Option<Op>) {
    if !op.IntConv? || op.overflowCheck then r == None
    else if op.operand < |f.variables| && f.variables[op.operand].ty == op.target
    then r == Some(Copy(op.dest, op.operand))
    else if op.target.width.None? then r == None
    else
      var v, w, u := op.operand, op.target.width.value, op.unsigned;
      || (r == None && IsCyclic(f, v, w, u))
      || exists p: seq<nat> ::
           && IsFullChain(f, v, p, w, u)
           && r == if |p| == 1 then None else Some(IntConv(op.dest, p[|p| - 1], op.target, false, u))
  }

  lemma OneLinkEach(f: Function, v: nat, x: nat, y: nat, w: nat, unsigned: bool)
    requires IsLink(f, v, x, w, unsigned) && IsLink(f, v, y, w, unsigned)
    ensures x == y
  {
  }

  /** Two chains from one variable go the same way. */
  lemma {:induction false} ChainsAgree(f: Function, v: nat, p: seq<nat>, q: seq<nat>, w: nat, unsigned: bool, k: nat)
    requires IsChain(f, v, p, w, unsigned) && IsChain(f, v, q, w, unsigned) && k < |p| && k < |q|
    ensures p[k] == q[k]
  {
    hide IsLink;
    if k > 0 {
      ChainsAgree(f, v, p, q, w, unsigned, k - 1);
      OneLinkEach(f, p[k - 1], p[k], q[k], w, unsigned);
    }
  }

  /** A full chain is the longest. */
  lemma FullIsLongest(f: Function, v: nat, p: seq<nat>, q: seq<nat>, w: nat, unsigned: bool)
    requires IsFullChain(f, v, p, w, unsigned) && IsChain(f, v, q, w, unsigned)
    ensures |q| <= |p|
  {
    hide IsLink;
    if |q| > |p| {
      ChainsAgree(f, v, p, q, w, unsigned, |p| - 1);
      LinkOfChain(f, v, q, w, unsigned, |p| - 1);
    }
  }

  lemma {:induction false} ChainRepeats(f: Function, v: nat, p: seq<nat>, w: nat, unsigned: bool, i: nat, j: nat,
                                        d: nat)
    requires IsChain(f, v, p, w, unsigned) && i < j && j + d < |p| && p[i] == p[j]
    ensures p[i + d] == p[j + d]
  {
    hide IsLink;
    if d > 0 {
      ChainRepeats(f, v, p, w, unsigned, i, j, d - 1);
      OneLinkEach(f, p[i + d - 1], p[i + d], p[j + d], w, unsigned);
    }
  }

  /** A chain either comes to an end or meets a variable again, not both. */
  lemma FullIsNotCyclic(f: Function, v: nat, p: seq<nat>, w: nat, unsigned: bool)
    requires IsFullChain(f, v, p, w, unsigned)
    ensures !IsCyclic(f, v, w, unsigned)
  {
    hide IsLink;
    forall q: seq<nat> | IsChain(f, v, q, w, unsigned)
      ensures Distinct(q)
    {
      FullIsLongest(f, v, p, q, w, unsigned);
      forall i, j | 0 <= i < j < |q|
        ensures q[i] != q[j]
      {
        ChainsAgree(f, v, p, q, w, unsigned, i);
        ChainsAgree(f, v, p, q, w, unsigned, j);
        if p[i] == p[j] {
          var last := |p| - 1;
          ChainRepeats(f, v, p, w, unsigned, i, j, last - j);
          LinkOfChain(f, v, p, w, unsigned, last - (j - i));
        }
      }
    }
  }

  /** More links than there are variables: some variable is met twice, so the chain is
      cyclic.  The step bound refuses no other. */
  lemma TooLongIsCyclic(f: Function, v: nat, p: seq<nat>, w: nat, unsigned: bool)
    requires IsChain(f, v, p, w, unsigned) && |p| > |f.variables| + 1
    ensures IsCyclic(f, v, w, unsigned)
  {
    var front := p[..|p| - 1];
    forall k | 0 <= k < |front|
      ensures front[k] < |f.variables|
    {
      assert IsLink(f, p[k], p[k + 1], w, unsigned);
    }
    if Distinct(front) {
      DistinctBelowFit(front, |f.variables|);
    }
  }

  lemma ChainGrows(f: Function, v: nat, p: seq<nat>, x: nat, w: nat, unsigned: bool)
    requires IsChain(f, v, p, w, unsigned) && IsLink(f, p[|p| - 1], x, w, unsigned)
    ensures IsChain(f, v, p + [x], w, unsigned)
  {
    hide IsLink;
    var q := p + [x];
    forall i | 0 <= i < |q| - 1
      ensures IsLink(f, q[i], q[i + 1], w, unsigned)
    {
      if i < |p| - 1 {
        assert q[i] == p[i] && q[i + 1] == p[i + 1];
      }
    }
  }

  method CollapseConversionChain(f: Function, op: Op) returns (r: Option<Op>)
    ensures IsCollapse(f, op, r)
  {
    if !op.IntConv? || op.overflowCheck {
      return None;
    }
    if op.operand < |f.variables| && f.variables[op.operand].ty == op.target {
      return Some(Copy(op.dest, op.operand));
    }
    if op.target.width.None? {
      return None;
    }
    hide IsChain;
    var w := op.target.width.value;
    var reached, steps := op.operand, 0;
    ghost var p := [reached];
    SingleChain(f, reached, w, op.unsigned);
    while true
      invariant steps <= f.VarIdBound() && |p| == steps + 1 && p[steps] == reached
      invariant IsChain(f, op.operand, p, w, op.unsigned)
      invariant p[0] == op.operand
      decreases f.VarIdBound() - steps
    {
      var definition := f.RecordedDefinition(reached);
      if definition.None? || !definition.value.IntConv? || definition.value.overflowCheck {
        break;
      }
      var link := definition.value;
      if link.target.width.None? || f.Width(link.operand).None? {
        break;
      }
      var linkWidth, sourceWidth := link.target.width.value, f.Width(link.operand).value;
      if w > linkWidth {
        break;
      }
      if w > sourceWidth && link.unsigned != op.unsigned {
        break;
      }
      ChainGrows(f, op.operand, p, link.operand, w, op.unsigned);
      p := p + [link.operand];
      steps := steps + 1;
      if steps > f.VarIdBound() {
        TooLongIsCyclic(f, op.operand, p, w, op.unsigned);
        return None;
      }
      reached := link.operand;
    }
    assert IsFullChain(f, op.operand, p, w, op.unsigned);
    if reached == op.operand {
      FullMovesOn(f, op.operand, p, w, op.unsigned);
      return None;
    }
    return Some(op.(operand := reached));
  }

  lemma SingleChain(f: Function, v: nat, w: nat, unsigned: bool)
    ensures IsChain(f, v, [v], w, unsigned)
  {
  }

  lemma FullMovesOn(f: Function, v: nat, p: seq<nat>, w: nat, unsigned: bool)
    requires IsFullChain(f, v, p, w, unsigned) && p[|p| - 1] == v
    ensures |p| == 1
  {
    if |p| > 1 {
      LinkOfChain(f, v, p, w, unsigned, 0);
    }
  }

  // ----- the answer computes what the chain computes

  /** Every converted variable has the type it was converted to. */
  ghost predicate WellTyped(f: Function) {
    forall v: nat :: var d := f.RecordedDefinition(v); d.Some? && d.value.IntConv? ==>
      f.variables[v].ty == d.value.target
  }

  /** Values of the variables that fit their types and obey the unchecked conversions. */
  ghost predicate Obeys(f: Function, env: seq<nat>) {
    && |env| == |f.variables|
    && (forall v: nat :: v < |env| && f.Width(v).Some? ==> env[v] < Pow2(f.Width(v).value))
    && forall v: nat :: var d := f.RecordedDefinition(v);
      d.Some? && d.value.IntConv? && !d.value.overflowCheck && Value(f, env, d.value).Some? ==>
        Value(f, env, d.value) == Some(env[v])
  }

  /** What an operation computes: converting to the operand's own type does nothing,
      and a conversion needs both widths otherwise. */
  function Value(f: Function, env: seq<nat>, op: Op): Option<nat>
    requires |env| == |f.variables|
  {
    match op
    case Copy(_, src) => if src < |env| then Some(env[src]) else None
    case IntConv(_, operand, target, _, unsigned) =>
      if operand >= |env| then None
      else if f.variables[operand].ty == target then Some(env[operand])
      else if f.Width(operand).None? || target.width.None? then None
      else Some(Conv(env[operand], f.Width(operand).value, target.width.value, unsigned))
    case Other(_) => None
  }

  /** A link taken computes what it converted to. */
  lemma LinkKeepsValue(f: Function, env: seq<nat>, v: nat, x: nat, w: nat, unsigned: bool)
    requires WellTyped(f) && Obeys(f, env) && IsLink(f, v, x, w, unsigned)
    ensures f.Width(v).Some? && f.Width(x).Some?
    ensures Conv(env[x], f.Width(x).value, w, unsigned) == Conv(env[v], f.Width(v).value, w, unsigned)
  {
    var link := f.RecordedDefinition(v).value;
    var s, m := f.Width(x).value, link.target.width.value;
    hide Conv, Pow2;
    IdentityConversion(env[x], s, link.unsigned);
    assert Value(f, env, link) == Some(Conv(env[x], s, m, link.unsigned));
    TransparentLink(env[x], s, m, link.unsigned, w, unsigned);
  }

  /** Converting from where a chain leads computes what converting its start does. */
  lemma {:induction false} ChainKeepsValue(f: Function, env: seq<nat>, v: nat, p: seq<nat>, w: nat, unsigned: bool,
                                           n: nat)
    requires WellTyped(f) && Obeys(f, env) && IsChain(f, v, p, w, unsigned) && n < |p| && f.Width(v).Some?
    ensures f.Width(p[n]).Some?
    ensures Conv(env[p[n]], f.Width(p[n]).value, w, unsigned) == Conv(env[v], f.Width(v).value, w, unsigned)
  {
    hide WellTyped, Obeys, IsLink, Conv;
    assert |env| == |f.variables| by {
      Fits(f, env);
    }
    if n > 0 {
      ChainKeepsValue(f, env, v, p, w, unsigned, n - 1);
      LinkKeepsValue(f, env, p[n - 1], p[n], w, unsigned);
    }
  }

  lemma Fits(f: Function, env: seq<nat>)
    requires Obeys(f, env)
    ensures |env| == |f.variables|
  {
  }

  /** Whatever the chain's length, widths and signs, and whatever the source's value,
      the answer computes the value the conversion had. */
  lemma CollapseKeepsValue(f: Function, env: seq<nat>, op: Op, r: Op)
    requires WellTyped(f) && Obeys(f, env) && IsCollapse(f, op, Some(r))
    ensures r.dest == op.dest
    ensures Value(f, env, r).Some? && Value(f, env, r) == Value(f, env, op)
  {
    if r.IntConv? {
      var v, w, u := op.operand, op.target.width.value, op.unsigned;
      var p: seq<nat> :| IsFullChain(f, v, p, w, u) && |p| > 1 && r == IntConv(op.dest, p[|p| - 1], op.target, false, u);
      assert IsLink(f, p[0], p[1], w, u);
      LinkKeepsValue(f, env, p[0], p[1], w, u);
      hide IsLink, Conv;
      ChainKeepsValue(f, env, v, p, w, u, |p| - 1);
      var x := p[|p| - 1];
      if f.variables[x].ty == op.target {
        IdentityConversion(env[x], w, op.unsigned);
      }
    }
  }

  /** There is one answer. */
  lemma CollapseIsUnique(f: Function, op: Op, r: Option<Op>, q: Option<Op>)
    requires IsCollapse(f, op, r) && IsCollapse(f, op, q)
    ensures r == q
  {
    hide IsLink, IsChain, IsCyclic;
    if op.IntConv? && op.target.width.Some? {
      var v, w, u := op.operand, op.target.width.value, op.unsigned;
      forall p: seq<nat> | IsFullChain(f, v, p, w, u)
        ensures !IsCyclic(f, v, w, u)
        ensures forall o: seq<nat> :: IsFullChain(f, v, o, w, u) ==> |o| == |p| && p != [] && o != [] && o[|o| - 1] == p[|p| - 1]
      {
        FullIsNotCyclic(f, v, p, w, u);
        forall o: seq<nat> | IsFullChain(f, v, o, w, u)
          ensures |o| == |p| && p != [] && o != [] && o[|o| - 1] == p[|p| - 1]
        {
          FullChainsAgree(f, v, p, o, w, u);
        }
      }
    }
  }

  lemma FullChainsAgree(f: Function, v: nat, p: seq<nat>, o: seq<nat>, w: nat, unsigned: bool)
    requires IsFullChain(f, v, p, w, unsigned) && IsFullChain(f, v, o, w, unsigned)
    ensures |o| == |p| && p != [] && o != [] && o[|o| - 1] == p[|p| - 1]
  {
    hide IsLink;
    FullIsLongest(f, v, p, o, w, unsigned);
    FullIsLongest(f, v, o, p, w, unsigned);
    ChainsAgree(f, v, p, o, w, unsigned, |p| - 1);
  }
}
