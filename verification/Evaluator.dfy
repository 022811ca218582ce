/** The evaluator's undo journal: src/analysis/evaluator.rs.

    Every mutation is a sequence of writes to single slots, and the journal holds, for
    each write, the write that puts the slot's former content back.
  */
module Evaluator {
  import opened Options
  import opened Sequences

  datatype Expr = Constant(value: int) | Variable(id: nat) | Named(name: string)

  datatype Constraint = Equal(value: int) | Other(kind: nat)

  /** The journaled part of an evaluator. */
  datatype State = State(
    values: map<nat, Expr>,
    locals: map<nat, Expr>,
    args: map<nat, Expr>,
    constraints: map<nat, seq<Constraint>>,
    predecessor: Option<nat>)

  /** One slot and the content to give it. */
  datatype Write =
    | Value(v: nat, expr: Option<Expr>)
    | Local(index: nat, expr: Option<Expr>)
    | Arg(index: nat, expr: Option<Expr>)
    | Constraints(v: nat, list: Option<seq<Constraint>>)
    | Predecessor(block: Option<nat>)

  function Put<V>(m: map<nat, V>, k: nat, v: Option<V>): map<nat, V> {
    if v.Some? then m[k := v.value] else m - {k}
  }

  function Get<V>(m: map<nat, V>, k: nat): Option<V> {
    if k in m then Some(m[k]) else None
  }

  function Apply(s: State, u: Write): State {
    match u
    case Value(v, e) => s.(values := Put(s.values, v, e))
    case Local(i, e) => s.(locals := Put(s.locals, i, e))
    case Arg(i, e) => s.(args := Put(s.args, i, e))
    case Constraints(v, list) => s.(constraints := Put(s.constraints, v, list))
    case Predecessor(b) => s.(predecessor := b)
  }

  /** The write that gives the slot of `u` the content it has in `s`. */
  function Former(s: State, u: Write): Write {
    match u
    case Value(v, _) => Value(v, Get(s.values, v))
    case Local(i, _) => Local(i, Get(s.locals, i))
    case Arg(i, _) => Arg(i, Get(s.args, i))
    case Constraints(v, _) => Constraints(v, Get(s.constraints, v))
    case Predecessor(_) => Predecessor(s.predecessor)
  }

  function Writes(s: State, us: seq<Write>): State {
    if us == [] then s else Apply(Writes(s, us[..|us| - 1]), us[|us| - 1])
  }

  /** What the journal gains from a sequence of writes. */
  function Entries(s: State, us: seq<Write>): (es: seq<Write>)
    ensures |es| == |us|
  {
    if us == [] then []
    else
      var front := us[..|us| - 1];
      Entries(s, front) + [Former(Writes(s, front), us[|us| - 1])]
  }

  /** Undoes journal entries, newest first, until `len` are left. */
  function Unwind(s: State, journal: seq<Write>, len: nat): State
    decreases |journal|
  {
    if |journal| <= len then s else Unwind(Apply(s, journal[|journal| - 1]), journal[..|journal| - 1], len)
  }

  /** The former contents of the slots, all read in `s`. */
  function Formers(s: State, us: seq<Write>): seq<Write> {
    seq(|us|, i requires 0 <= i < |us| => Former(s, us[i]))
  }

  // ----- unwinding

  lemma UndoOne(s: State, u: Write)
    ensures Apply(Apply(s, u), Former(s, u)) == s
  {
  }

  /** Unwinding part of what was written leaves the state part-way. */
  lemma {:induction false} UnwindToMiddle(s: State, journal: seq<Write>, us: seq<Write>, len: nat)
    requires |journal| <= len <= |journal| + |us|
    ensures Unwind(Writes(s, us), journal + Entries(s, us), len) == Writes(s, us[..len - |journal|])
    decreases |us|
  {
    hide Apply, Former;
    if len == |journal| + |us| {
      assert us[..len - |journal|] == us;
    } else {
      var front := us[..|us| - 1];
      UndoOne(Writes(s, front), us[|us| - 1]);
      var full := journal + Entries(s, us);
      assert full[..|full| - 1] == journal + Entries(s, front);
      UnwindToMiddle(s, journal, front, len);
      assert us[..len - |journal|] == front[..len - |journal|];
    }
  }

  /** Unwinding all that was written since restores the state. */
  lemma UnwindRestores(s: State, journal: seq<Write>, us: seq<Write>)
    ensures Unwind(Writes(s, us), journal + Entries(s, us), |journal|) == s
  {
    UnwindToMiddle(s, journal, us, |journal|);
  }

  /** Going back in two stages is going back in one. */
  lemma {:induction false} UnwindTwice(s: State, journal: seq<Write>, inner: nat, outer: nat)
    requires outer <= inner <= |journal|
    ensures Unwind(Unwind(s, journal, inner), journal[..inner], outer) == Unwind(s, journal, outer)
    decreases |journal|
  {
    hide Apply;
    if |journal| == inner {
      assert journal[..inner] == journal;
    } else {
      var front := journal[..|journal| - 1];
      assert front[..inner] == journal[..inner];
      UnwindTwice(Apply(s, journal[|journal| - 1]), front, inner, outer);
    }
  }

  lemma {:induction false} WritesAppend(s: State, us: seq<Write>, more: seq<Write>)
    ensures Writes(s, us + more) == Writes(Writes(s, us), more)
    ensures Entries(s, us + more) == Entries(s, us) + Entries(Writes(s, us), more)
    decreases |more|
  {
    hide Apply, Former;
    if more == [] {
      assert us + more == us;
    } else {
      var front := more[..|more| - 1];
      assert (us + more)[..|us + more| - 1] == us + front;
      WritesAppend(s, us, front);
    }
  }

  lemma {:induction false} UnwindAppend(s: State, journal: seq<Write>, us: seq<Write>, len: nat)
    requires len <= |journal|
    ensures Unwind(Writes(s, us), journal + Entries(s, us), len) == Unwind(s, journal, len)
  {
    UnwindTwice(Writes(s, us), journal + Entries(s, us), |journal|, len);
    UnwindRestores(s, journal, us);
    assert (journal + Entries(s, us))[..|journal|] == journal;
  }

  // ----- writes that bypass the journal

  /** The two writes are to one slot. */
  predicate SameSlot(u: Write, e: Write) {
    match u
    case Value(v, _) => e.Value? && e.v == v
    case Local(i, _) => e.Local? && e.index == i
    case Arg(i, _) => e.Arg? && e.index == i
    case Constraints(v, _) => e.Constraints? && e.v == v
    case Predecessor(_) => e.Predecessor?
  }

  predicate Touched(journal: seq<Write>, len: nat, u: Write) {
    exists i :: len <= i < |journal| && SameSlot(u, journal[i])
  }

  lemma PutTwice<V>(m: map<nat, V>, k: nat, v: Option<V>, w: Option<V>)
    ensures Put(Put(m, k, v), k, w) == Put(m, k, w)
  {
  }

  lemma PutsCommute<V>(m: map<nat, V>, k: nat, v: Option<V>, l: nat, w: Option<V>)
    requires k != l
    ensures Put(Put(m, k, v), l, w) == Put(Put(m, l, w), k, v)
  {
  }

  lemma SlotOverwritten(s: State, u: Write, e: Write)
    requires SameSlot(u, e)
    ensures Apply(Apply(s, u), e) == Apply(s, e)
  {
    hide Put;
    match u
    case Value(v, x) => PutTwice(s.values, v, x, e.expr);
    case Local(i, x) => PutTwice(s.locals, i, x, e.expr);
    case Arg(i, x) => PutTwice(s.args, i, x, e.expr);
    case Constraints(v, x) => PutTwice(s.constraints, v, x, e.list);
    case Predecessor(_) =>
  }

  lemma SlotsCommute(s: State, u: Write, e: Write)
    requires !SameSlot(u, e)
    ensures Apply(Apply(s, u), e) == Apply(Apply(s, e), u)
  {
    hide Put;
    match (u, e)
    case (Value(v, x), Value(w, y)) => PutsCommute(s.values, v, x, w, y);
    case (Local(v, x), Local(w, y)) => PutsCommute(s.locals, v, x, w, y);
    case (Arg(v, x), Arg(w, y)) => PutsCommute(s.args, v, x, w, y);
    case (Constraints(v, x), Constraints(w, y)) => PutsCommute(s.constraints, v, x, w, y);
    case _ =>
  }

  /** A write does nothing exactly when the slot already has the content. */
  lemma IdleIff(s: State, u: Write)
    ensures Apply(s, u) == s <==> Former(s, u) == u
  {
  }

  lemma UntouchedByOne(s: State, u: Write, e: Write)
    requires !SameSlot(u, e)
    ensures Apply(s, u) == s <==> Apply(Apply(s, e), u) == Apply(s, e)
  {
    IdleIff(s, u);
    IdleIff(Apply(s, e), u);
    assert Former(Apply(s, e), u) == Former(s, u);
    hide Apply, Former;
  }

  /** A raw write survives unwinding just when no journal entry covers its slot. */
  lemma {:induction false} RawWriteUnwound(s: State, journal: seq<Write>, len: nat, u: Write)
    requires len <= |journal|
    ensures Unwind(Apply(s, u), journal, len) ==
            if Touched(journal, len, u) then Unwind(s, journal, len) else Apply(Unwind(s, journal, len), u)
    ensures !Touched(journal, len, u) ==>
              (Apply(s, u) == s <==> Apply(Unwind(s, journal, len), u) == Unwind(s, journal, len))
    decreases |journal|
  {
    hide Apply, SameSlot;
    if |journal| > len {
      var e := journal[|journal| - 1];
      var front := journal[..|journal| - 1];
      if SameSlot(u, e) {
        SlotOverwritten(s, u, e);
      } else {
        SlotsCommute(s, u, e);
      }
      RawWriteUnwound(Apply(s, e), front, len, u);
      assert Touched(journal, len, u) <==> SameSlot(u, e) || Touched(front, len, u) by {
        if Touched(front, len, u) {
          var i :| len <= i < |front| && SameSlot(u, front[i]);
          assert journal[i] == front[i];
        }
        if Touched(journal, len, u) && !SameSlot(u, e) {
          var i :| len <= i < |journal| && SameSlot(u, journal[i]);
          assert front[i] == journal[i];
        }
      }
      if !SameSlot(u, e) {
        UntouchedByOne(s, u, e);
      }
    }
  }

  // ----- what unwinding leaves in a slot

  /** The oldest entry at or past `len` for the slot of `u`; the end if there is none. */
  ghost function Oldest(journal: seq<Write>, len: nat, u: Write): (i: nat)
    requires len <= |journal|
    ensures len <= i <= |journal| && (i < |journal| ==> SameSlot(u, journal[i]))
    ensures forall k :: len <= k < i ==> !SameSlot(u, journal[k])
    decreases |journal| - len
  {
    if len == |journal| || SameSlot(u, journal[len]) then len else Oldest(journal, len + 1, u)
  }

  /** Entries added behind an entry for the slot do not change which is oldest. */
  lemma OldestOfFront(journal: seq<Write>, len: nat, u: Write, e: Write)
    requires len <= |journal|
    ensures Oldest(journal + [e], len, u) ==
            if Oldest(journal, len, u) < |journal| || SameSlot(u, e) then Oldest(journal, len, u) else |journal| + 1
  {
    hide SameSlot;
    var i, k := Oldest(journal, len, u), Oldest(journal + [e], len, u);
    assert forall m :: len <= m < |journal| ==> (journal + [e])[m] == journal[m];
    if i < |journal| {
      assert SameSlot(u, (journal + [e])[i]);
    } else {
      assert (journal + [e])[|journal|] == e;
    }
  }

  lemma FormerOfApply(s: State, e: Write, u: Write)
    ensures Former(Apply(s, e), u) == if SameSlot(u, e) then e else Former(s, u)
  {
  }

  /** The oldest entry past `len` wins; a slot without one keeps its content. */
  lemma {:induction false} UnwindSlot(s: State, journal: seq<Write>, len: nat, u: Write)
    requires len <= |journal|
    ensures var i := Oldest(journal, len, u);
      Former(Unwind(s, journal, len), u) == if i < |journal| then journal[i] else Former(s, u)
    decreases |journal|
  {
    hide Apply, Former, SameSlot;
    if |journal| > len {
      var e, front := journal[|journal| - 1], journal[..|journal| - 1];
      assert journal == front + [e];
      UnwindSlot(Apply(s, e), front, len, u);
      FormerOfApply(s, e, u);
      OldestOfFront(front, len, u, e);
    }
  }

  /** States are equal when every slot has the same content in both. */
  lemma SlotsDecide(s: State, t: State)
    requires forall u :: Former(s, u) == Former(t, u)
    ensures s == t
  {
    forall k
      ensures Get(s.values, k) == Get(t.values, k) && Get(s.locals, k) == Get(t.locals, k)
      ensures Get(s.args, k) == Get(t.args, k) && Get(s.constraints, k) == Get(t.constraints, k)
    {
      assert Former(s, Value(k, None)) == Former(t, Value(k, None));
      assert Former(s, Local(k, None)) == Former(t, Local(k, None));
      assert Former(s, Arg(k, None)) == Former(t, Arg(k, None));
      assert Former(s, Constraints(k, None)) == Former(t, Constraints(k, None));
    }
    assert Former(s, Predecessor(None)) == Former(t, Predecessor(None));
    MapsEqual(s.values, t.values);
    MapsEqual(s.locals, t.locals);
    MapsEqual(s.args, t.args);
    MapsEqual(s.constraints, t.constraints);
  }

  lemma MapsEqual<V>(m: map<nat, V>, n: map<nat, V>)
    requires forall k :: Get(m, k) == Get(n, k)
    ensures m == n
  {
    forall k: nat
      ensures k in m <==> k in n
      ensures k in m ==> m[k] == n[k]
    {
      assert Get(m, k) == Get(n, k);
    }
  }

  /** Entry `i` is the oldest at or past `len` for its slot. */
  ghost predicate IsOldest(journal: seq<Write>, len: nat, i: nat) {
    len <= i < |journal| && forall k :: len <= k < i ==> !SameSlot(journal[i], journal[k])
  }

  /** Unwinding any journal to any length gives state `t` exactly when the oldest
      entry of every slot that has one records what the slot holds in `t`, and the
      other slots hold the same in both. */
  lemma UnwindIs(s: State, journal: seq<Write>, len: nat, t: State)
    requires len <= |journal|
    ensures Unwind(s, journal, len) == t <==>
            forall u :: Former(t, u) == var i := Oldest(journal, len, u); if i < |journal| then journal[i] else Former(s, u)
  {
    hide Former, Oldest, Unwind;
    forall u
      ensures Former(Unwind(s, journal, len), u) ==
              var i := Oldest(journal, len, u); if i < |journal| then journal[i] else Former(s, u)
    {
      UnwindSlot(s, journal, len, u);
    }
    if forall u :: Former(t, u) == Former(Unwind(s, journal, len), u) {
      SlotsDecide(Unwind(s, journal, len), t);
    }
  }

  /** Unwinding any journal to any length changes nothing exactly when every slot
      with an entry past that length holds what its oldest such entry records. */
  lemma UnwindIsIdleIff(s: State, journal: seq<Write>, len: nat)
    ensures Unwind(s, journal, len) == s <==>
            forall i: nat :: IsOldest(journal, len, i) ==> Former(s, journal[i]) == journal[i]
  {
    hide Former, Oldest, Unwind, SameSlot;
    if len >= |journal| {
      UnwindNothing(s, journal, len);
    } else {
      UnwindIs(s, journal, len, s);
      if Unwind(s, journal, len) == s {
        forall i: nat | IsOldest(journal, len, i)
          ensures Former(s, journal[i]) == journal[i]
        {
          SameSlotSelf(journal[i]);
          assert Oldest(journal, len, journal[i]) == i;
        }
      }
      if forall i: nat :: IsOldest(journal, len, i) ==> Former(s, journal[i]) == journal[i] {
        forall u
          ensures Former(s, u) == var i := Oldest(journal, len, u); if i < |journal| then journal[i] else Former(s, u)
        {
          var i := Oldest(journal, len, u);
          if i < |journal| {
            SlotOf(s, u, journal[i]);
            forall k | len <= k < i
              ensures !SameSlot(journal[i], journal[k])
            {
              SlotsTwice(u, journal[i], journal[k]);
            }
            assert IsOldest(journal, len, i);
          }
        }
      }
    }
  }

  lemma UnwindNothing(s: State, journal: seq<Write>, len: nat)
    requires len >= |journal|
    ensures Unwind(s, journal, len) == s
  {
  }

  lemma SameSlotSelf(u: Write)
    ensures SameSlot(u, u)
  {
  }

  lemma SlotsTwice(u: Write, e: Write, f: Write)
    requires SameSlot(u, e)
    ensures SameSlot(u, f) <==> SameSlot(e, f)
  {
  }

  lemma SlotOf(s: State, u: Write, e: Write)
    requires SameSlot(u, e)
    ensures Former(s, u) == Former(s, e)
  {
  }

  // ----- runs that mix journaled and raw writes

  /** One write, through the journal or past it. */
  datatype Op = Journaled(u: Write) | Raw(u: Write)

  function Mixed(s: State, ops: seq<Op>): State {
    if ops == [] then s else Apply(Mixed(s, ops[..|ops| - 1]), ops[|ops| - 1].u)
  }

  /** What the journal gains from such a run. */
  function MixedEntries(s: State, ops: seq<Op>): seq<Write> {
    if ops == [] then []
    else
      var front, last := ops[..|ops| - 1], ops[|ops| - 1];
      MixedEntries(s, front) + if last.Journaled? then [Former(Mixed(s, front), last.u)] else []
  }

  /** The first journaled write to the slot of `u` from `i` on; the end if there is none. */
  function FirstJournaled(ops: seq<Op>, i: nat, u: Write): (k: nat)
    requires i <= |ops|
    ensures i <= k <= |ops| && (k < |ops| ==> ops[k].Journaled? && SameSlot(u, ops[k].u))
    ensures forall m :: i <= m < k ==> !(ops[m].Journaled? && SameSlot(u, ops[m].u))
    decreases |ops| - i
  {
    if i == |ops| || (ops[i].Journaled? && SameSlot(u, ops[i].u)) then i else FirstJournaled(ops, i + 1, u)
  }

  lemma FirstOfFront(ops: seq<Op>, u: Write)
    requires ops != []
    ensures var n := |ops| - 1;
      var k := FirstJournaled(ops[..n], 0, u);
      FirstJournaled(ops, 0, u) ==
      if k < n || (ops[n].Journaled? && SameSlot(u, ops[n].u)) then k else |ops|
  {
    hide SameSlot;
    var n := |ops| - 1;
    var front := ops[..n];
    assert forall m :: 0 <= m < n ==> front[m] == ops[m];
    var k, m := FirstJournaled(front, 0, u), FirstJournaled(ops, 0, u);
    if k < n {
      assert front[k] == ops[k];
    }
  }

  lemma FormerSlot(s: State, e: Write, u: Write)
    ensures SameSlot(u, Former(s, e)) <==> SameSlot(u, e)
  {
  }

  /** A slot has an entry just when the run journaled a write to it. */
  lemma {:induction false} EntryIffJournaled(s: State, journal: seq<Write>, ops: seq<Op>, u: Write)
    ensures var j := journal + MixedEntries(s, ops);
      Oldest(j, |journal|, u) < |j| <==> FirstJournaled(ops, 0, u) < |ops|
  {
    hide SameSlot, Former, Mixed;
    if ops == [] {
      assert journal + [] == journal;
    } else {
      var front, last := ops[..|ops| - 1], ops[|ops| - 1];
      EntryIffJournaled(s, journal, front, u);
      FirstOfFront(ops, u);
      var j := journal + MixedEntries(s, front);
      if last.Journaled? {
        var e := Former(Mixed(s, front), last.u);
        FormerSlot(Mixed(s, front), last.u, u);
        assert journal + MixedEntries(s, ops) == j + [e];
        OldestOfFront(j, |journal|, u, e);
      } else {
        assert journal + MixedEntries(s, ops) == j;
      }
    }
  }

  /** Rolling such a run back leaves every slot with the content it had at its first
      journaled write, and with its last content if it had none. */
  lemma {:induction false} MixedUnwound(s: State, journal: seq<Write>, ops: seq<Op>, u: Write)
    ensures Former(Unwind(Mixed(s, ops), journal + MixedEntries(s, ops), |journal|), u) ==
            Former(Mixed(s, ops[..FirstJournaled(ops, 0, u)]), u)
  {
    hide SameSlot, Former, Apply, Oldest, FirstJournaled;
    if ops == [] {
      assert journal + [] == journal;
    } else {
      var front, last := ops[..|ops| - 1], ops[|ops| - 1];
      var m, j := Mixed(s, front), journal + MixedEntries(s, front);
      var k := FirstJournaled(front, 0, u);
      MixedUnwound(s, journal, front, u);
      FirstOfFront(ops, u);
      FormerOfApply(m, last.u, u);
      assert front[..k] == ops[..k] && front[..|front|] == front && ops[..|ops|] == ops;
      if last.Journaled? {
        var full := j + [Former(m, last.u)];
        assert journal + MixedEntries(s, ops) == full && full[..|full| - 1] == j;
        UndoOne(m, last.u);
      } else {
        assert journal + MixedEntries(s, ops) == j;
        EntryIffJournaled(s, journal, front, u);
        UnwindSlot(m, j, |journal|, u);
        UnwindSlot(Apply(m, last.u), j, |journal|, u);
      }
    }
  }

  lemma {:induction false} MixedElsewhere(s: State, ops: seq<Op>, u: Write)
    requires forall i :: 0 <= i < |ops| ==> !SameSlot(u, ops[i].u)
    ensures Former(Mixed(s, ops), u) == Former(s, u)
  {
    hide SameSlot, Former, Apply;
    if ops != [] {
      MixedElsewhere(s, ops[..|ops| - 1], u);
      FormerOfApply(Mixed(s, ops[..|ops| - 1]), ops[|ops| - 1].u, u);
    }
  }

  /** A rollback undoes a run of journaled and raw writes, in any mix, exactly when
      every slot written raw has, at its first journaled write or at the end if it
      has none, the content it had at the checkpoint. */
  lemma BypassesAreUndoneIff(s: State, journal: seq<Write>, ops: seq<Op>)
    ensures Unwind(Mixed(s, ops), journal + MixedEntries(s, ops), |journal|) == s <==>
            forall i :: 0 <= i < |ops| && ops[i].Raw? ==>
              var u := ops[i].u; Former(Mixed(s, ops[..FirstJournaled(ops, 0, u)]), u) == Former(s, u)
  {
    hide SameSlot, Former, Apply, Mixed, MixedEntries, Unwind;
    var t := Unwind(Mixed(s, ops), journal + MixedEntries(s, ops), |journal|);
    forall u
      ensures Former(t, u) == Former(Mixed(s, ops[..FirstJournaled(ops, 0, u)]), u)
    {
      MixedUnwound(s, journal, ops, u);
    }
    if forall i :: 0 <= i < |ops| && ops[i].Raw? ==> Former(t, ops[i].u) == Former(s, ops[i].u) {
      forall u
        ensures Former(t, u) == Former(s, u)
      {
        var k := FirstJournaled(ops, 0, u);
        if i :| 0 <= i < k && SameSlot(u, ops[i].u) {
          SlotOf(t, u, ops[i].u);
          SlotOf(s, u, ops[i].u);
        } else {
          MixedElsewhere(s, ops[..k], u);
        }
      }
      SlotsDecide(t, s);
    }
  }

  /** Two loads past the journal can cancel out although the first alone is not
      undone: what counts is the slot's content in the end. */
  lemma BypassesMayCancel(s: State, v: nat, a: nat, b: nat)
    requires v in s.values && s.values[v] == Variable(b) && a != b
    ensures var first, second := Raw(Value(v, Some(Variable(a)))), Raw(Value(v, Some(Variable(b))));
      && Unwind(Mixed(s, [first]), MixedEntries(s, [first]), 0) != s
      && Unwind(Mixed(s, [first, second]), MixedEntries(s, [first, second]), 0) == s
  {
    var first, second := Raw(Value(v, Some(Variable(a)))), Raw(Value(v, Some(Variable(b))));
    assert [first, second][..1] == [first];
    assert Mixed(s, [first][..0]) == s;
    assert MixedEntries(s, [first]) == [] && MixedEntries(s, [first, second]) == [];
    assert Mixed(s, [first]).values[v] == Variable(a);
    assert Mixed(s, [first, second]).values == s.values;
  }

  // ----- the evaluator

  datatype Origin = FromLocal(index: nat) | FromArgument(index: nat) | Elsewhere

  datatype PhiOperand = PhiOperand(value: nat, predecessor: nat)

  datatype Phi = Phi(result: nat, operands: seq<PhiOperand>)

  /** The function under evaluation, as far as these operations read it. */
  datatype Function = Function(origins: seq<Origin>, phis: seq<seq<Phi>>)

  datatype Config = Config(trackMemory: bool, trackPath: bool)

  datatype Cell = StaticField(field: nat) | InstanceField(object_: nat, field: nat)

  type Memory = map<Cell, nat>

  datatype Mark = Mark(len: nat, tracked: Option<(Memory, seq<nat>)>)

  /** A value that reaches a variable of local or argument origin also reaches the slot. */
  function OriginWrites(f: Function, v: nat, e: Expr): seq<Write> {
    if v < |f.origins| then
      match f.origins[v]
      case FromLocal(i) => [Local(i, Some(e))]
      case FromArgument(i) => [Arg(i, Some(e))]
      case Elsewhere => []
    else []
  }

  function SetWrites(f: Function, v: nat, e: Expr): seq<Write> {
    [Value(v, Some(e))] + OriginWrites(f, v, e)
  }

  function ConstraintWrites(f: Function, s: State, v: nat, c: Constraint): seq<Write> {
    (if c.Equal? then SetWrites(f, v, Constant(c.value)) else [])
    + [Constraints(v, Some((if v in s.constraints then s.constraints[v] else []) + [c]))]
  }

  /** The first operand that comes from `block`. */
  function OperandFrom(operands: seq<PhiOperand>, block: nat): Option<nat> {
    if operands == [] then None
    else if operands[0].predecessor == block then Some(operands[0].value)
    else OperandFrom(operands[1..], block)
  }

  /** What a phi reads in `s`: its operand from the predecessor, if there are both. */
  function PhiValue(s: State, phi: Phi): Option<Expr> {
    if s.predecessor.None? then None
    else
      var operand := OperandFrom(phi.operands, s.predecessor.value);
      if operand.Some? then Get(s.values, operand.value) else None
  }

  function ResultWrites(f: Function, result: (nat, Option<Expr>)): seq<Write> {
    if result.1.Some? then SetWrites(f, result.0, result.1.value) else [Value(result.0, None)]
  }

  function AllResultWrites(f: Function, results: seq<(nat, Option<Expr>)>): seq<Write> {
    if results == [] then []
    else AllResultWrites(f, results[..|results| - 1]) + ResultWrites(f, results[|results| - 1])
  }

  function PhiResults(s: State, phis: seq<Phi>): seq<(nat, Option<Expr>)> {
    seq(|phis|, i requires 0 <= i < |phis| => (phis[i].result, PhiValue(s, phis[i])))
  }

  function Drops(keys: seq<nat>): seq<Write> {
    seq(|keys|, i requires 0 <= i < |keys| => Value(keys[i], None))
  }

  function ConstraintDrops(keys: seq<nat>): seq<Write> {
    seq(|keys|, i requires 0 <= i < |keys| => Constraints(keys[i], None))
  }

  function ClearWrites(s: State): seq<Write> {
    Drops(Ascending(s.values.Keys)) + ConstraintDrops(Ascending(s.constraints.Keys)) + [Predecessor(None)]
  }

  lemma NothingWritten(s: State)
    ensures Writes(s, []) == s && Entries(s, []) == []
  {
  }

  lemma OneWrite(s: State, u: Write)
    ensures Writes(s, [u]) == Apply(s, u) && Entries(s, [u]) == [Former(s, u)]
  {
  }

  /** The journal after writes, if it is on. */
  function Recorded(s: State, journal: seq<Write>, on: bool, us: seq<Write>): seq<Write> {
    journal + if on then Entries(s, us) else []
  }

  lemma NothingRecorded(s: State, journal: seq<Write>, on: bool)
    ensures Writes(s, []) == s && Recorded(s, journal, on, []) == journal
  {
  }

  lemma RecordedAppend(s: State, journal: seq<Write>, on: bool, us: seq<Write>, more: seq<Write>)
    ensures Writes(s, us + more) == Writes(Writes(s, us), more)
    ensures Recorded(s, journal, on, us + more) == Recorded(Writes(s, us), Recorded(s, journal, on, us), on, more)
  {
    hide Writes, Entries;
    WritesAppend(s, us, more);
  }

  class SsaEvaluator {
    const ssa: Function
    const config: Config
    var values: map<nat, Expr>
    var locals: map<nat, Expr>
    var args: map<nat, Expr>
    var constraints: map<nat, seq<Constraint>>
    var predecessor: Option<nat>
    var path: seq<nat>
    var memory: Memory
    var journal: seq<Write>
    var journaling: bool

    constructor (ssa: Function, config: Config)
      ensures this.ssa == ssa && this.config == config
      ensures S() == State(map[], map[], map[], map[], None) && path == [] && memory == map[]
      ensures journal == [] && !journaling
    {
      this.ssa, this.config := ssa, config;
      values, locals, args, constraints, predecessor := map[], map[], map[], map[], None;
      path, memory, journal, journaling := [], map[], [], false;
    }

    function S(): State
      reads this`values, this`locals, this`args, this`constraints, this`predecessor
    {
      State(values, locals, args, constraints, predecessor)
    }

    /** The state took the writes, and the journal recorded them if it is on. */
    twostate predicate Wrote(us: seq<Write>)
      reads this
    {
      && S() == Writes(old(S()), us)
      && journal == Recorded(old(S()), old(journal), old(journaling), us)
      && journaling == old(journaling)
    }

    method Checkpoint() returns (mark: Mark)
      modifies this`journaling
      ensures journaling
      ensures mark == Mark(|journal|, if config.trackMemory || config.trackPath then Some((memory, path)) else None)
    {
      journaling := true;
      mark := Mark(|journal|, if config.trackMemory || config.trackPath then Some((memory, path)) else None);
    }

    method Rollback(mark: Mark)
      modifies this`values, this`locals, this`args, this`constraints, this`predecessor, this`journal, this`memory, this`path
      ensures S() == Unwind(old(S()), old(journal), mark.len)
      ensures journal == if mark.len < |old(journal)| then old(journal)[..mark.len] else old(journal)
      ensures mark.tracked.Some? ==> (memory, path) == mark.tracked.value
      ensures mark.tracked.None? ==> memory == old(memory) && path == old(path)
    {
      while |journal| > mark.len
        invariant Unwind(S(), journal, mark.len) == Unwind(old(S()), old(journal), mark.len)
        invariant |journal| <= |old(journal)| && journal == old(journal)[..|journal|]
        invariant |journal| >= mark.len || journal == old(journal)
        invariant memory == old(memory) && path == old(path)
      {
        var entry := journal[|journal| - 1];
        journal := journal[..|journal| - 1];
        match entry
        case Value(v, e) => values := Put(values, v, e);
        case Local(i, e) => locals := Put(locals, i, e);
        case Arg(i, e) => args := Put(args, i, e);
        case Constraints(v, list) => constraints := Put(constraints, v, list);
        case Predecessor(b) => predecessor := b;
      }
      if mark.tracked.Some? {
        memory, path := mark.tracked.value.0, mark.tracked.value.1;
      }
    }

    // ----- single writes

    method PutValue(v: nat, e: Expr)
      modifies this`values, this`journal
      ensures Wrote([Value(v, Some(e))])
    {
      OneWrite(S(), Value(v, Some(e)));
      if journaling {
        journal := journal + [Value(v, Get(values, v))];
      }
      values := values[v := e];
    }

    method DropValue(v: nat)
      modifies this`values, this`journal
      ensures Wrote([Value(v, None)])
    {
      OneWrite(S(), Value(v, None));
      if journaling {
        journal := journal + [Value(v, Get(values, v))];
      }
      values := values - {v};
    }

    method PutLocal(i: nat, e: Expr)
      modifies this`locals, this`journal
      ensures Wrote([Local(i, Some(e))])
    {
      OneWrite(S(), Local(i, Some(e)));
      if journaling {
        journal := journal + [Local(i, Get(locals, i))];
      }
      locals := locals[i := e];
    }

    method PutArg(i: nat, e: Expr)
      modifies this`args, this`journal
      ensures Wrote([Arg(i, Some(e))])
    {
      OneWrite(S(), Arg(i, Some(e)));
      if journaling {
        journal := journal + [Arg(i, Get(args, i))];
      }
      args := args[i := e];
    }

    method SetPredecessor(block: Option<nat>)
      modifies this`predecessor, this`journal
      ensures Wrote([Predecessor(block)])
    {
      OneWrite(S(), Predecessor(block));
      if journaling {
        journal := journal + [Predecessor(predecessor)];
      }
      predecessor := block;
    }

    method ClearConstraints(v: nat)
      modifies this`constraints, this`journal
      ensures Wrote([Constraints(v, None)])
    {
      OneWrite(S(), Constraints(v, None));
      if journaling {
        journal := journal + [Constraints(v, Get(constraints, v))];
      }
      constraints := constraints - {v};
    }

    // ----- mutators made of several writes

    method TrackOriginState(v: nat, e: Expr)
      modifies this`locals, this`args, this`journal
      ensures Wrote(OriginWrites(ssa, v, e))
    {
      if v < |ssa.origins| {
        match ssa.origins[v]
        case FromLocal(i) => PutLocal(i, e);
        case FromArgument(i) => PutArg(i, e);
        case Elsewhere =>
      }
    }

    method Set(v: nat, e: Expr)
      modifies this`values, this`locals, this`args, this`journal
      ensures Wrote(SetWrites(ssa, v, e)) && TookValue(ssa, old(S()), S(), v, e)
    {
      SetTakes(ssa, S(), v, e);
      hide Writes, Entries, OriginWrites;
      RecordedAppend(S(), journal, journaling, [Value(v, Some(e))], OriginWrites(ssa, v, e));
      PutValue(v, e);
      TrackOriginState(v, e);
    }

    method AddConstraint(v: nat, c: Constraint)
      modifies this`values, this`locals, this`args, this`constraints, this`journal
      ensures Wrote(ConstraintWrites(ssa, old(S()), v, c)) && TookConstraint(ssa, old(S()), S(), v, c)
    {
      ConstraintTakes(ssa, S(), v, c);
      hide SetWrites, Writes, Entries, TookConstraint;
      ghost var s, j := S(), journal;
      ghost var front := if c.Equal? then SetWrites(ssa, v, Constant(c.value)) else [];
      if c.Equal? {
        Set(v, Constant(c.value));
      }
      ghost var last := Constraints(v, Some((if v in constraints then constraints[v] else []) + [c]));
      NothingWritten(s);
      RecordedAppend(s, j, journaling, front, [last]);
      OneWrite(S(), last);
      if journaling {
        journal := journal + [Constraints(v, Get(constraints, v))];
      }
      constraints := constraints[v := (if v in constraints then constraints[v] else []) + [c]];
    }

    method Clear()
      modifies this`values, this`constraints, this`predecessor, this`journal
      ensures Wrote(ClearWrites(old(S())))
      ensures S() == State(map[], old(locals), old(args), map[], None)
    {
      hide Writes, Entries, ClearWrites, Drops, ConstraintDrops, Formers;
      ghost var s := S();
      if journaling {
        var keys := Ascending(values.Keys);
        var dropped := DroppedValues(keys);
        var lists := Ascending(constraints.Keys);
        var more := DroppedConstraints(lists);
        journal := journal + (dropped + more + [Predecessor(predecessor)]);
        ClearEntries(s);
      }
      ClearedState(s);
      values := map[];
      predecessor := None;
      constraints := map[];
    }

    method DroppedValues(keys: seq<nat>) returns (dropped: seq<Write>)
      requires forall i :: 0 <= i < |keys| ==> keys[i] in values
      ensures dropped == Formers(S(), Drops(keys))
    {
      dropped := [];
      ghost var all := Formers(S(), Drops(keys));
      for i := 0 to |keys|
        invariant dropped == all[..i]
      {
        dropped := dropped + [Value(keys[i], Some(values[keys[i]]))];
      }
    }

    method DroppedConstraints(keys: seq<nat>) returns (dropped: seq<Write>)
      requires forall i :: 0 <= i < |keys| ==> keys[i] in constraints
      ensures dropped == Formers(S(), ConstraintDrops(keys))
    {
      dropped := [];
      ghost var all := Formers(S(), ConstraintDrops(keys));
      for i := 0 to |keys|
        invariant dropped == all[..i]
      {
        dropped := dropped + [Constraints(keys[i], Some(constraints[keys[i]]))];
      }
    }

    // ----- phis and blocks

    method EvaluatePhis(block: nat)
      modifies this`values, this`locals, this`args, this`journal
      ensures Wrote(if block < |ssa.phis| then AllResultWrites(ssa, PhiResults(old(S()), ssa.phis[block])) else [])
      ensures if block < |ssa.phis| then PhisTook(ssa, old(S()), S(), ssa.phis[block]) else S() == old(S())
    {
      if block >= |ssa.phis| {
        return;
      }
      hide PhiValue, AllResultWrites, Writes, Entries, PhisTook;
      PhisAreSimultaneous(ssa, S(), ssa.phis[block]);
      var results := ReadPhis(ssa.phis[block]);
      WriteResults(results);
    }

    /** Reads what every phi selects, before any result is written. */
    method ReadPhis(phis: seq<Phi>) returns (results: seq<(nat, Option<Expr>)>)
      ensures results == PhiResults(S(), phis)
    {
      hide PhiValue;
      results := [];
      ghost var all := PhiResults(S(), phis);
      for i := 0 to |phis|
        invariant results == all[..i]
      {
        results := results + [(phis[i].result, PhiValue(S(), phis[i]))];
      }
    }

    method WriteResult(result: (nat, Option<Expr>))
      modifies this`values, this`locals, this`args, this`journal
      ensures Wrote(ResultWrites(ssa, result))
    {
      hide SetWrites, Writes, Entries;
      if result.1.Some? {
        Set(result.0, result.1.value);
      } else {
        DropValue(result.0);
      }
    }

    method WriteResults(results: seq<(nat, Option<Expr>)>)
      modifies this`values, this`locals, this`args, this`journal
      ensures Wrote(AllResultWrites(ssa, results))
    {
      hide Writes, Entries, ResultWrites, Recorded;
      NothingRecorded(S(), journal, journaling);
      for i := 0 to |results|
        invariant Wrote(AllResultWrites(ssa, results[..i]))
      {
        assert results[..i + 1][..i] == results[..i];
        RecordedAppend(old(S()), old(journal), journaling, AllResultWrites(ssa, results[..i]), ResultWrites(ssa, results[i]));
        WriteResult(results[i]);
      }
      assert results[..|results|] == results;
    }

    method EnterBlock(block: nat)
      modifies this`path
      ensures path == if config.trackPath then old(path) + [block] else old(path)
    {
      if config.trackPath {
        path := path + [block];
      }
    }

    method StoreField(cell: Cell, value: nat)
      modifies this`memory
      ensures memory == if config.trackMemory then old(memory)[cell := value] else old(memory)
    {
      if config.trackMemory {
        memory := memory[cell := value];
      }
    }

    /** Loads from tracked memory.  The write is journaled, but for the case where the
        stored variable has no value: then `dest` is written past the journal. */
    method LoadField(dest: nat, cell: Cell)
      modifies this`values, this`journal
      ensures var stored := if config.trackMemory && cell in memory then Some(memory[cell]) else None;
        if stored.None? then Wrote([Value(dest, None)])
        else if stored.value in old(values) then Wrote([Value(dest, Some(old(values)[stored.value]))])
        else S() == Apply(old(S()), Value(dest, Some(Variable(stored.value)))) && journal == old(journal)
    {
      if config.trackMemory && cell in memory {
        if memory[cell] in values {
          PutValue(dest, values[memory[cell]]);
        } else {
          values := values[dest := Variable(memory[cell])];
        }
      } else {
        DropValue(dest);
      }
    }

    /** Taking a local's address drops `dest` through the journal and the slot past it. */
    method LoadLocalAddr(dest: nat, index: nat)
      modifies this`values, this`locals, this`journal
      ensures S() == Apply(Writes(old(S()), [Value(dest, None)]), Local(index, None))
      ensures journal == old(journal) + if journaling then Entries(old(S()), [Value(dest, None)]) else []
    {
      DropValue(dest);
      locals := locals - {index};
    }

    method LoadArgAddr(dest: nat, index: nat)
      modifies this`values, this`args, this`journal
      ensures S() == Apply(Writes(old(S()), [Value(dest, None)]), Arg(index, None))
      ensures journal == old(journal) + if journaling then Entries(old(S()), [Value(dest, None)]) else []
    {
      DropValue(dest);
      args := args - {index};
    }
  }

  // ----- clearing

  /** Writes to different slots record what those slots had before all of them. */
  lemma {:induction false} EntriesOfDistinct(s: State, us: seq<Write>)
    requires forall i, j :: 0 <= i < j < |us| ==> !SameSlot(us[j], us[i])
    ensures Entries(s, us) == Formers(s, us)
  {
    hide Apply, Former, SameSlot;
    if us != [] {
      var front := us[..|us| - 1];
      EntriesOfDistinct(s, front);
      FormerKept(s, front, us[|us| - 1]);
      assert Formers(s, us) == Formers(s, front) + [Former(s, us[|us| - 1])];
    }
  }

  lemma {:induction false} FormerKept(s: State, us: seq<Write>, u: Write)
    requires forall i :: 0 <= i < |us| ==> !SameSlot(u, us[i])
    ensures Former(Writes(s, us), u) == Former(s, u)
  {
    if us != [] {
      hide Apply, Former, SameSlot;
      FormerKept(s, us[..|us| - 1], u);
      FormerKeptByOne(Writes(s, us[..|us| - 1]), us[|us| - 1], u);
    }
  }

  lemma FormerKeptByOne(s: State, e: Write, u: Write)
    requires !SameSlot(u, e)
    ensures Former(Apply(s, e), u) == Former(s, u)
  {
  }

  lemma FormersAppend(s: State, us: seq<Write>, more: seq<Write>)
    ensures Formers(s, us + more) == Formers(s, us) + Formers(s, more)
  {
  }

  lemma ClearEntries(s: State)
    ensures Entries(s, ClearWrites(s)) ==
            Formers(s, Drops(Ascending(s.values.Keys)))
            + Formers(s, ConstraintDrops(Ascending(s.constraints.Keys)))
            + [Predecessor(s.predecessor)]
  {
    var keys, lists := Ascending(s.values.Keys), Ascending(s.constraints.Keys);
    SlotsOfClear(keys, lists);
    EntriesOfDistinct(s, ClearWrites(s));
    FormersAppend(s, Drops(keys), ConstraintDrops(lists));
    FormersAppend(s, Drops(keys) + ConstraintDrops(lists), [Predecessor(None)]);
    assert Formers(s, [Predecessor(None)]) == [Predecessor(s.predecessor)];
  }

  lemma SlotsOfClear(keys: seq<nat>, lists: seq<nat>)
    requires forall i, j :: 0 <= i < j < |keys| ==> keys[i] < keys[j]
    requires forall i, j :: 0 <= i < j < |lists| ==> lists[i] < lists[j]
    ensures var us := Drops(keys) + ConstraintDrops(lists) + [Predecessor(None)];
      forall i, j :: 0 <= i < j < |us| ==> !SameSlot(us[j], us[i])
  {
  }

  lemma {:induction false} ValuesDropped(s: State, keys: seq<nat>)
    ensures var s' := Writes(s, Drops(keys));
      s' == s.(values := s'.values) && forall k :: k in s'.values ==> k in s.values && k !in keys
  {
    if keys != [] {
      var front := keys[..|keys| - 1];
      ValuesDropped(s, front);
      assert Drops(keys)[..|keys| - 1] == Drops(front);
      assert keys == front + [keys[|keys| - 1]];
    }
  }

  lemma {:induction false} ConstraintsDropped(s: State, keys: seq<nat>)
    ensures var s' := Writes(s, ConstraintDrops(keys));
      s' == s.(constraints := s'.constraints) && forall k :: k in s'.constraints ==> k in s.constraints && k !in keys
  {
    if keys != [] {
      var front := keys[..|keys| - 1];
      ConstraintsDropped(s, front);
      assert ConstraintDrops(keys)[..|keys| - 1] == ConstraintDrops(front);
      assert keys == front + [keys[|keys| - 1]];
    }
  }

  lemma ClearedState(s: State)
    ensures Writes(s, ClearWrites(s)) == State(map[], s.locals, s.args, map[], None)
  {
    var drops, lists := Drops(Ascending(s.values.Keys)), ConstraintDrops(Ascending(s.constraints.Keys));
    WritesAppend(s, drops, lists);
    WritesAppend(s, drops + lists, [Predecessor(None)]);
    ValuesDropped(s, Ascending(s.values.Keys));
    ConstraintsDropped(Writes(s, drops), Ascending(s.constraints.Keys));
    OneWrite(Writes(s, drops + lists), Predecessor(None));
    hide Writes;
    assert Writes(s, drops).values == map[];
    assert Writes(s, drops + lists).constraints == map[];
  }

  // ----- what the mutators leave in the slots

  /** The state after `v` takes `e`: the value, and the slot the variable's origin names. */
  predicate TookValue(f: Function, s: State, t: State, v: nat, e: Expr) {
    && t.values == s.values[v := e]
    && t.locals == (if v < |f.origins| && f.origins[v].FromLocal? then s.locals[f.origins[v].index := e] else s.locals)
    && t.args == (if v < |f.origins| && f.origins[v].FromArgument? then s.args[f.origins[v].index := e] else s.args)
    && t.constraints == s.constraints && t.predecessor == s.predecessor
  }

  lemma SetTakes(f: Function, s: State, v: nat, e: Expr)
    ensures TookValue(f, s, Writes(s, SetWrites(f, v, e)), v, e)
  {
    var first := Value(v, Some(e));
    WritesAppend(s, [first], OriginWrites(f, v, e));
    OneWrite(s, first);
    var s1 := Apply(s, first);
    if OriginWrites(f, v, e) != [] {
      OneWrite(s1, OriginWrites(f, v, e)[0]);
    }
  }

  /** The state after a constraint is added: its list is longer by it, and an equality
      gives the variable its value. */
  predicate TookConstraint(f: Function, s: State, t: State, v: nat, c: Constraint) {
    && t.constraints == s.constraints[v := (if v in s.constraints then s.constraints[v] else []) + [c]]
    && if c.Equal? then TookValue(f, s, t.(constraints := s.constraints), v, Constant(c.value))
       else t == s.(constraints := t.constraints)
  }

  lemma ConstraintTakes(f: Function, s: State, v: nat, c: Constraint)
    ensures TookConstraint(f, s, Writes(s, ConstraintWrites(f, s, v, c)), v, c)
  {
    var front := if c.Equal? then SetWrites(f, v, Constant(c.value)) else [];
    var last := Constraints(v, Some((if v in s.constraints then s.constraints[v] else []) + [c]));
    NothingWritten(s);
    if c.Equal? {
      SetTakes(f, s, v, Constant(c.value));
    }
    hide Writes, SetWrites;
    WritesAppend(s, front, [last]);
    OneWrite(Writes(s, front), last);
  }

  // ----- what the phis of a block read and leave

  /** `k` is the first operand that comes from `block`. */
  predicate IsFirstFrom(operands: seq<PhiOperand>, block: nat, k: nat) {
    k < |operands| && operands[k].predecessor == block && forall m :: 0 <= m < k ==> operands[m].predecessor != block
  }

  /** In `s` the phi has the value `e`: that of its first operand from the predecessor,
      and none without a predecessor or without such an operand. */
  ghost predicate Reads(s: State, phi: Phi, e: Option<Expr>) {
    if s.predecessor.Some? && exists k: nat :: IsFirstFrom(phi.operands, s.predecessor.value, k) then
      exists k: nat :: && IsFirstFrom(phi.operands, s.predecessor.value, k)
                       && var x := phi.operands[k].value;
                       e == if x in s.values then Some(s.values[x]) else None
    else e == None
  }

  lemma {:induction false} OperandFromIsFirst(operands: seq<PhiOperand>, block: nat, k: nat)
    requires IsFirstFrom(operands, block, k)
    ensures OperandFrom(operands, block) == Some(operands[k].value)
  {
    if k > 0 {
      assert operands[0].predecessor != block;
      assert IsFirstFrom(operands[1..], block, k - 1);
      OperandFromIsFirst(operands[1..], block, k - 1);
    }
  }

  lemma {:induction false} OperandFromNone(operands: seq<PhiOperand>, block: nat) returns (k: nat)
    ensures OperandFrom(operands, block).Some? ==> IsFirstFrom(operands, block, k)
  {
    k := 0;
    if operands != [] && operands[0].predecessor != block {
      var m := OperandFromNone(operands[1..], block);
      k := m + 1;
    }
  }

  lemma PhiValueIsRead(s: State, phi: Phi)
    ensures Reads(s, phi, PhiValue(s, phi))
  {
    if s.predecessor.Some? {
      var p := s.predecessor.value;
      var m := OperandFromNone(phi.operands, p);
      if k: nat :| IsFirstFrom(phi.operands, p, k) {
        OperandFromIsFirst(phi.operands, p, k);
      }
    }
  }

  /** Result `i` is the last for variable `v`. */
  predicate IsLastFor(results: seq<(nat, Option<Expr>)>, v: nat, i: nat) {
    i < |results| && results[i].0 == v && forall j :: i < j < |results| ==> results[j].0 != v
  }

  /** The result is a value for a variable whose origin is the slot. */
  predicate Mirrors(f: Function, result: (nat, Option<Expr>), slot: Origin) {
    result.1.Some? && result.0 < |f.origins| && f.origins[result.0] == slot
  }

  predicate IsLastMirror(f: Function, results: seq<(nat, Option<Expr>)>, slot: Origin, i: nat) {
    i < |results| && Mirrors(f, results[i], slot) && forall j :: i < j < |results| ==> !Mirrors(f, results[j], slot)
  }

  /** `t` is `s` after the results: a variable has its last one, a local or argument
      slot the last value of a variable it is the origin of, and the rest is kept. */
  ghost predicate Landed(f: Function, s: State, t: State, results: seq<(nat, Option<Expr>)>) {
    && (forall v: nat, i: nat :: IsLastFor(results, v, i) ==> Get(t.values, v) == results[i].1)
    && (forall v: nat :: (forall i :: 0 <= i < |results| ==> results[i].0 != v) ==> Get(t.values, v) == Get(s.values, v))
    && (forall n: nat, i: nat :: IsLastMirror(f, results, FromLocal(n), i) ==> Get(t.locals, n) == results[i].1)
    && (forall n: nat :: (forall i :: 0 <= i < |results| ==> !Mirrors(f, results[i], FromLocal(n))) ==>
          Get(t.locals, n) == Get(s.locals, n))
    && (forall n: nat, i: nat :: IsLastMirror(f, results, FromArgument(n), i) ==> Get(t.args, n) == results[i].1)
    && (forall n: nat :: (forall i :: 0 <= i < |results| ==> !Mirrors(f, results[i], FromArgument(n))) ==>
          Get(t.args, n) == Get(s.args, n))
    && t.constraints == s.constraints && t.predecessor == s.predecessor
  }

  /** The state after a block's phis: all are read in `s`, and then all land. */
  ghost predicate PhisTook(f: Function, s: State, t: State, phis: seq<Phi>) {
    exists results: seq<(nat, Option<Expr>)> ::
      && |results| == |phis|
      && (forall i :: 0 <= i < |phis| ==> results[i].0 == phis[i].result && Reads(s, phis[i], results[i].1))
      && Landed(f, s, t, results)
  }

  lemma GetOfPut<V>(m: map<nat, V>, k: nat, v: Option<V>, l: nat)
    ensures Get(Put(m, k, v), l) == if k == l then v else Get(m, l)
  {
  }

  lemma OneResult(f: Function, s: State, result: (nat, Option<Expr>))
    ensures var t := Writes(s, ResultWrites(f, result));
      && t.values == Put(s.values, result.0, result.1)
      && (forall n: nat :: Get(t.locals, n) == if Mirrors(f, result, FromLocal(n)) then result.1 else Get(s.locals, n))
      && (forall n: nat :: Get(t.args, n) == if Mirrors(f, result, FromArgument(n)) then result.1 else Get(s.args, n))
      && t.constraints == s.constraints && t.predecessor == s.predecessor
  {
    if result.1.Some? {
      SetTakes(f, s, result.0, result.1.value);
    } else {
      OneWrite(s, Value(result.0, None));
    }
  }

  lemma {:induction false} ResultsLand(f: Function, s: State, results: seq<(nat, Option<Expr>)>)
    ensures Landed(f, s, Writes(s, AllResultWrites(f, results)), results)
  {
    hide Writes, ResultWrites, Put, Mirrors;
    NothingWritten(s);
    if results != [] {
      var front, last := results[..|results| - 1], results[|results| - 1];
      ResultsLand(f, s, front);
      WritesAppend(s, AllResultWrites(f, front), ResultWrites(f, last));
      var s1 := Writes(s, AllResultWrites(f, front));
      OneResult(f, s1, last);
      assert results == front + [last];
      forall v: nat
        ensures Get(Put(s1.values, last.0, last.1), v) == if last.0 == v then last.1 else Get(s1.values, v)
      {
        GetOfPut(s1.values, last.0, last.1, v);
      }
      hide Get;
      LandOneMore(f, s, s1, Writes(s1, ResultWrites(f, last)), front, last);
    }
  }

  lemma LandOneMore(f: Function, s: State, s1: State, t: State, front: seq<(nat, Option<Expr>)>,
                    last: (nat, Option<Expr>))
    requires Landed(f, s, s1, front)
    requires forall v: nat :: Get(t.values, v) == if last.0 == v then last.1 else Get(s1.values, v)
    requires forall n: nat :: Get(t.locals, n) == if Mirrors(f, last, FromLocal(n)) then last.1 else Get(s1.locals, n)
    requires forall n: nat :: Get(t.args, n) == if Mirrors(f, last, FromArgument(n)) then last.1 else Get(s1.args, n)
    requires t.constraints == s1.constraints && t.predecessor == s1.predecessor
    ensures Landed(f, s, t, front + [last])
  {
    hide Get, Mirrors;
    var all := front + [last];
    assert all[|front|] == last && forall i :: 0 <= i < |front| ==> all[i] == front[i];
    forall v: nat, i: nat | IsLastFor(all, v, i)
      ensures Get(t.values, v) == all[i].1
    {
      assert i < |front| ==> last.0 != v && IsLastFor(front, v, i);
    }
    forall slot, i: nat | IsLastMirror(f, all, slot, i)
      ensures if i == |front| then Mirrors(f, last, slot) else !Mirrors(f, last, slot) && IsLastMirror(f, front, slot, i)
    {
    }
  }

  /** A block's phis all read the state before any of them writes, so they can swap. */
  lemma PhisAreSimultaneous(f: Function, s: State, phis: seq<Phi>)
    ensures PhisTook(f, s, Writes(s, AllResultWrites(f, PhiResults(s, phis))), phis)
  {
    hide PhiValue, Reads, Writes, AllResultWrites;
    var results := PhiResults(s, phis);
    ResultsLand(f, s, results);
    hide Landed;
    forall i | 0 <= i < |phis|
      ensures results[i].0 == phis[i].result && Reads(s, phis[i], results[i].1)
    {
      PhiValueIsRead(s, phis[i]);
    }
  }
}
