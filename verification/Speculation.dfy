/** Whole runs of the evaluator with nested checkpoints: the speculative evaluation
    contract documented at `checkpoint` and `rollback` in src/analysis/evaluator.rs.
  */
module Speculation {
  import opened Evaluator
  import opened Options

  /** An evaluator with journaling on, and the marks it has handed out that were not
      rolled back, oldest first. */
  datatype World = World(state: State, memory: Memory, path: seq<nat>, journal: seq<Write>, marks: seq<Mark>)

  datatype Action =
    | Update(us: seq<Write>)
    | Bypass(u: Write)
    | Store(cell: Cell, value: nat)
    | Visit(block: nat)
    | ClearPath
    | Take
    | Release(i: nat)

  predicate Tracks(c: Config) {
    c.trackMemory || c.trackPath
  }

  /** One action.  Releasing mark `i` rolls back to it and forgets it and the marks taken
      after it. */
  function Step(c: Config, w: World, a: Action): World {
    match a
    case Update(us) => w.(state := Writes(w.state, us), journal := w.journal + Entries(w.state, us))
    case Bypass(u) => w.(state := Apply(w.state, u))
    case Store(cell, v) => if c.trackMemory then w.(memory := w.memory[cell := v]) else w
    case Visit(b) => if c.trackPath then w.(path := w.path + [b]) else w
    case ClearPath => w.(path := [])
    case Take => w.(marks := w.marks + [Mark(|w.journal|, if Tracks(c) then Some((w.memory, w.path)) else None)])
    case Release(i) =>
      if i >= |w.marks| then w
      else
        RolledBack(w, w.marks[i]).(marks := w.marks[..i])
  }

  /** A rollback to any mark, in order or not. */
  function RolledBack(w: World, m: Mark): World {
    World(Unwind(w.state, w.journal, m.len),
          if m.tracked.Some? then m.tracked.value.0 else w.memory,
          if m.tracked.Some? then m.tracked.value.1 else w.path,
          if m.len < |w.journal| then w.journal[..m.len] else w.journal,
          w.marks)
  }

  function Run(c: Config, w: World, actions: seq<Action>): World {
    if actions == [] then w else Step(c, Run(c, w, actions[..|actions| - 1]), actions[|actions| - 1])
  }

  /** A path is only recorded when it is tracked. */
  predicate PathTracked(c: Config, w: World) {
    !Tracks(c) ==> w.path == []
  }

  /** No action releases one of the first `n` marks. */
  predicate Inside(actions: seq<Action>, n: nat) {
    forall i :: 0 <= i < |actions| && actions[i].Release? ==> actions[i].i >= n
  }

  predicate MarksFrom(marks: seq<Mark>, n: nat, len: nat) {
    forall i :: n <= i < |marks| ==> marks[i].len >= len
  }

  /** `w` came out of `w0` by actions that left `w0`'s marks alone. */
  ghost predicate Nested(c: Config, w0: World, w: World) {
    && |w0.journal| <= |w.journal| && w.journal[..|w0.journal|] == w0.journal
    && |w0.marks| <= |w.marks| && w.marks[..|w0.marks|] == w0.marks
    && MarksFrom(w.marks, |w0.marks|, |w0.journal|)
    && PathTracked(c, w)
    && (!Tracks(c) ==> w.memory == w0.memory)
  }

  /** Unwinding the journal to its length in `w0` brings back the state of `w0`. */
  ghost predicate Undoable(c: Config, w0: World, w: World) {
    Nested(c, w0, w) && Unwind(w.state, w.journal, |w0.journal|) == w0.state
  }

  /** A mark keeps the memory and the path exactly when something is tracked. */
  ghost predicate MarksOk(c: Config, w: World) {
    forall i :: 0 <= i < |w.marks| ==> w.marks[i].tracked.Some? == Tracks(c)
  }

  lemma StepNested(c: Config, w0: World, w: World, a: Action)
    requires Nested(c, w0, w) && MarksOk(c, w) && (a.Release? ==> a.i >= |w0.marks|)
    ensures Nested(c, w0, Step(c, w, a)) && MarksOk(c, Step(c, w, a))
  {
    hide Writes, Entries, Unwind;
    match a
    case Release(i) =>
      if i < |w.marks| {
        var m := w.marks[i];
        if m.len < |w.journal| {
          assert w.journal[..m.len][..|w0.journal|] == w0.journal;
        }
        assert w.marks[..i][..|w0.marks|] == w0.marks;
      }
    case Take =>
      assert (w.marks + [Step(c, w, a).marks[|w.marks|]])[..|w0.marks|] == w0.marks;
    case _ =>
  }

  lemma {:induction false} RunNested(c: Config, w0: World, w: World, actions: seq<Action>)
    requires Nested(c, w0, w) && MarksOk(c, w) && Inside(actions, |w0.marks|)
    ensures Nested(c, w0, Run(c, w, actions)) && MarksOk(c, Run(c, w, actions))
  {
    hide Step, Nested, MarksOk;
    if actions != [] {
      var front := actions[..|actions| - 1];
      RunNested(c, w0, w, front);
      StepNested(c, w0, Run(c, w, front), actions[|actions| - 1]);
    }
  }

  /** A write past the journal that a rollback to length `len` undoes: it changes
      nothing, or an entry past that length is for its slot. */
  predicate Harmless(w: World, a: Action, len: nat) {
    a.Bypass? ==> Apply(w.state, a.u) == w.state || Touched(w.journal, len, a.u)
  }

  predicate AllHarmless(c: Config, w: World, actions: seq<Action>, len: nat) {
    forall i :: 0 <= i < |actions| ==> Harmless(Run(c, w, actions[..i]), actions[i], len)
  }

  lemma StepUndoable(c: Config, w0: World, w: World, a: Action)
    requires Undoable(c, w0, w) && MarksOk(c, w) && (a.Release? ==> a.i >= |w0.marks|)
    requires Harmless(w, a, |w0.journal|)
    ensures Undoable(c, w0, Step(c, w, a)) && MarksOk(c, Step(c, w, a))
  {
    StepNested(c, w0, w, a);
    hide Writes, Entries, Touched, Apply;
    match a
    case Update(us) =>
      UnwindAppend(w.state, w.journal, us, |w0.journal|);
    case Bypass(u) =>
      RawWriteUnwound(w.state, w.journal, |w0.journal|, u);
    case Release(i) =>
      if i < |w.marks| && w.marks[i].len < |w.journal| {
        UnwindTwice(w.state, w.journal, w.marks[i].len, |w0.journal|);
      }
    case _ =>
  }

  lemma {:induction false} RunUndoable(c: Config, w0: World, w: World, actions: seq<Action>)
    requires Undoable(c, w0, w) && MarksOk(c, w) && Inside(actions, |w0.marks|)
    requires AllHarmless(c, w, actions, |w0.journal|)
    ensures Undoable(c, w0, Run(c, w, actions)) && MarksOk(c, Run(c, w, actions))
  {
    hide Step, Undoable, MarksOk, Harmless;
    if actions != [] {
      var front := actions[..|actions| - 1];
      forall i | 0 <= i < |front|
        ensures Harmless(Run(c, w, front[..i]), front[i], |w0.journal|)
      {
        assert front[..i] == actions[..i];
      }
      RunUndoable(c, w0, w, front);
      StepUndoable(c, w0, Run(c, w, front), actions[|actions| - 1]);
    }
  }

  lemma TakenIsNested(c: Config, w: World)
    requires PathTracked(c, w) && MarksOk(c, w)
    ensures var taken := Step(c, w, Take); Nested(c, taken, taken) && Undoable(c, taken, taken) && MarksOk(c, taken)
  {
    assert Unwind(w.state, w.journal, |w.journal|) == w.state;
  }

  /** Releasing a mark after any run brings back everything but the state, which is
      unwound. */
  lemma ReleaseUnwinds(c: Config, w: World, actions: seq<Action>)
    requires PathTracked(c, w) && MarksOk(c, w) && Inside(actions, |w.marks| + 1)
    ensures var end := Run(c, Step(c, w, Take), actions);
      && |w.journal| <= |end.journal|
      && Step(c, end, Release(|w.marks|)) == w.(state := Unwind(end.state, end.journal, |w.journal|))
  {
    var taken := Step(c, w, Take);
    TakenIsNested(c, w);
    RunNested(c, taken, taken, actions);
    var end := Run(c, taken, actions);
    hide Run, Unwind;
    var n := |w.marks|;
    assert end.marks[n] == end.marks[..n + 1][n] == taken.marks[n];
    assert end.marks[..n] == end.marks[..n + 1][..n] == taken.marks[..n] == w.marks;
  }

  /** Releasing a mark brings back exactly the evaluator that took it, whatever ran in
      between, inner marks released or abandoned included; writes past the journal must
      change nothing or come behind an entry for their slot. */
  lemma ReleaseRestores(c: Config, w: World, actions: seq<Action>)
    requires PathTracked(c, w) && MarksOk(c, w) && Inside(actions, |w.marks| + 1)
    requires AllHarmless(c, Step(c, w, Take), actions, |w.journal|)
    ensures Step(c, Run(c, Step(c, w, Take), actions), Release(|w.marks|)) == w
  {
    hide Run, AllHarmless;
    TakenIsNested(c, w);
    RunUndoable(c, Step(c, w, Take), Step(c, w, Take), actions);
    ReleaseUnwinds(c, w, actions);
  }

  /** With any writes past the journal in the run, the release brings back the
      evaluator exactly when each slot's oldest entry since the mark records what the
      slot held then, and each slot without one holds it still. */
  lemma ReleaseRestoresIff(c: Config, w: World, actions: seq<Action>)
    requires PathTracked(c, w) && MarksOk(c, w) && Inside(actions, |w.marks| + 1)
    ensures var end := Run(c, Step(c, w, Take), actions);
      && |w.journal| <= |end.journal|
      && (Step(c, end, Release(|w.marks|)) == w <==>
            forall u ::
              var i := Oldest(end.journal, |w.journal|, u);
              Former(w.state, u) == if i < |end.journal| then end.journal[i] else Former(end.state, u))
  {
    hide Run, Unwind, Oldest, Former;
    ReleaseUnwinds(c, w, actions);
    var end := Run(c, Step(c, w, Take), actions);
    UnwindIs(end.state, end.journal, |w.journal|, w.state);
  }

  /** A second rollback of one mark, with nothing recorded since, changes nothing. */
  lemma ReleasedTwice(c: Config, w: World, i: nat)
    requires i < |w.marks|
    ensures var w' := Step(c, w, Release(i));
      Step(c, w'.(marks := w'.marks + [w.marks[i]]), Release(i)) == w'
  {
  }

  // ----- marks used out of order

  /** For any evaluator and any mark, in order or stale: a rollback changes nothing
      exactly when every slot with an entry past the mark's length holds what the
      oldest such entry records, and the memory and path the mark keeps, if it keeps
      any, are the current ones. */
  lemma RollbackIsIdleIff(w: World, m: Mark)
    ensures var w' := RolledBack(w, m);
      (w'.state == w.state && w'.memory == w.memory && w'.path == w.path) <==>
        && (forall i: nat :: IsOldest(w.journal, m.len, i) ==> Former(w.state, w.journal[i]) == w.journal[i])
        && (m.tracked.Some? ==> m.tracked.value == (w.memory, w.path))
  {
    hide Unwind, Former, IsOldest;
    UnwindIsIdleIff(w.state, w.journal, m.len);
  }

  /** A mark that was already undone takes back a value written since. */
  lemma StaleMarkUndoesLater(v: nat, e: Expr)
    ensures var c := Config(false, false);
      var w := World(State(map[], map[], map[], map[], None), map[], [], [], []);
      var taken := Step(c, w, Take);
      var later := Step(c, Step(c, taken, Release(0)), Update([Value(v, Some(e))]));
      v in later.state.values && v !in RolledBack(later, taken.marks[0]).state.values
  {
    var w := World(State(map[], map[], map[], map[], None), map[], [], [], []);
    var u := Value(v, Some(e));
    OneWrite(w.state, u);
    UnwindRestores(w.state, [], [u]);
    assert [] + Entries(w.state, [u]) == Entries(w.state, [u]);
  }

  /** Using an inner mark after the outer one was undone: once enough has been written
      again, only the newest of those writes are taken back, and the state is unchanged
      exactly when the slots they wrote held the same before them. */
  lemma StaleInnerMarkTearsRun(s: State, journal: seq<Write>, inner: nat, later: seq<Write>)
    requires |journal| <= inner
    ensures var s', j' := Writes(s, later), journal + Entries(s, later);
      && Unwind(s', j', inner) == (if inner < |j'| then Writes(s, later[..inner - |journal|]) else s')
      && (Unwind(s', j', inner) == s' <==>
            forall i: nat :: IsOldest(j', inner, i) ==> Former(s', j'[i]) == j'[i])
  {
    UnwindIsIdleIff(Writes(s, later), journal + Entries(s, later), inner);
    if inner < |journal| + |later| {
      UnwindToMiddle(s, journal, later, inner);
    }
  }

  /** With tracking on, a stale inner mark changes the evaluator even when nothing was
      recorded since: it brings back the path of the abandoned branch. */
  lemma StaleMarkRevivesPath(w: World)
    requires w.path == [] && w.marks == []
    ensures var c := Config(false, true);
      var w1 := Step(c, Step(c, Step(c, w, Take), Visit(7)), Take);
      var w2 := Step(c, w1, Release(0));
      w2 == w && Step(c, w2.(marks := [w1.marks[1]]), Release(0)).path == [7]
  {
  }
}
