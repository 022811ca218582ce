/** Pruned phi placement: `place_pruned_phis` in src/analysis/phis.rs. */
module Phis {
  import opened Closure
  import opened Options
  import opened Sequences

  import Csr
  import Graph
  import Liveness

  type Groups = map<nat, set<nat>>

  /** The inputs.  `leave` gives the target of a block that leaves a handler. */
  datatype Config = Config(
    defs: Groups,
    liveIn: Groups,
    frontiers: Rows,
    reachable: Option<set<nat>>,
    selected: set<nat>,
    leave: seq<Option<nat>>,
    blockCount: nat)
  {
    /** A block of the function that is known to be reachable. */
    predicate Allows(b: nat) {
      b < blockCount && (reachable.Some? ==> b in reachable.value)
    }

    function LeaveTarget(b: nat): Option<nat> {
      if b < |leave| then leave[b] else None
    }

    /** The blocks one step from `b`: its frontier and its leave target. */
    function Step(b: nat): (s: set<nat>)
      ensures s <= Below(blockCount)
      ensures forall x :: x in s <==> Allows(x) && (x in Row(frontiers, b) || LeaveTarget(b) == Some(x))
    {
      set x | x in Below(blockCount) && Allows(x) && (x in Row(frontiers, b) || LeaveTarget(b) == Some(x))
    }

    function Steps(): (rows: Rows)
      ensures forall b: nat :: Row(rows, b) == Step(b)
    {
      var n := if |frontiers| < |leave| then |leave| else |frontiers|;
      var rows := seq(n, (b: nat) => Step(b));
      assert forall b: nat :: b >= n ==> Step(b) == {};
      rows
    }

    /** The blocks a group's phi may be placed at: the least set closed under steps from
        its definitions. */
    ghost function PhiBlocks(group: nat): (x: set<nat>)
      requires group in defs
      ensures IsLeastClosed(Steps(), defs[group], x) && x <= Below(blockCount)
    {
      LeastExists(this, defs[group]);
      var x :| IsLeastClosed(Steps(), defs[group], x);
      x
    }

    /** Where the group is live, or anywhere without liveness data. */
    predicate Live(group: nat, b: nat) {
      group in liveIn ==> b in liveIn[group]
    }

    ghost function PlacedBlocks(group: nat): set<nat> {
      if group in defs && group in selected then set b | b in PhiBlocks(group) && Live(group, b) else {}
    }
  }

  lemma LeastExists(c: Config, seeds: set<nat>)
    ensures exists x :: IsLeastClosed(c.Steps(), seeds, x)
    ensures forall x :: IsLeastClosed(c.Steps(), seeds, x) ==> x <= Below(c.blockCount)
  {
    var rows := c.Steps();
    var x := set b | b in Below(c.blockCount) && forall y: set<nat> :: ClosedFrom(rows, seeds, y) ==> b in y;
    assert ClosedFrom(rows, seeds, Below(c.blockCount));
    forall b | b in seeds || b in x
      ensures Row(rows, b) <= x
    {
      forall a, y: set<nat> | a in Row(rows, b) && ClosedFrom(rows, seeds, y)
        ensures a in y
      {
      }
    }
    assert IsLeastClosed(rows, seeds, x);
    forall z | IsLeastClosed(rows, seeds, z)
      ensures z <= Below(c.blockCount)
    {
      LeastClosedUnique(rows, seeds, x, z);
    }
  }

  // ----- the worklist

  ghost predicate Growing(c: Config, seeds: set<nat>, x: set<nat>, worklist: seq<nat>) {
    && x <= Below(c.blockCount)
    && (forall b :: b in worklist ==> b in seeds || b in x)
    && (forall b :: (b in seeds || b in x) && b !in worklist ==> c.Step(b) <= x)
    && forall y :: ClosedFrom(c.Steps(), seeds, y) ==> x <= y
  }

  /** While the steps of a popped block are taken. */
  ghost predicate Expanding(c: Config, seeds: set<nat>, x: set<nat>, worklist: seq<nat>, block: nat) {
    && x <= Below(c.blockCount)
    && (forall b :: b in worklist ==> b in seeds || b in x)
    && (block in seeds || block in x)
    && (forall b :: (b in seeds || b in x) && b !in worklist && b != block ==> c.Step(b) <= x)
    && forall y :: ClosedFrom(c.Steps(), seeds, y) ==> x <= y
  }

  lemma PopExpands(c: Config, seeds: set<nat>, x: set<nat>, worklist: seq<nat>, block: nat)
    requires Growing(c, seeds, x, worklist + [block])
    ensures Expanding(c, seeds, x, worklist, block)
  {
  }

  lemma StepExpands(c: Config, seeds: set<nat>, x: set<nat>, worklist: seq<nat>, block: nat, a: nat)
    requires Expanding(c, seeds, x, worklist, block) && a in c.Step(block)
    ensures Expanding(c, seeds, x + {a}, worklist + [a], block)
  {
  }

  lemma ExpandedGrows(c: Config, seeds: set<nat>, x: set<nat>, worklist: seq<nat>, block: nat)
    requires Expanding(c, seeds, x, worklist, block) && c.Step(block) <= x
    ensures Growing(c, seeds, x, worklist)
  {
  }

  lemma DrainedIsLeast(c: Config, seeds: set<nat>, x: set<nat>)
    requires Growing(c, seeds, x, [])
    ensures IsLeastClosed(c.Steps(), seeds, x)
  {
  }

  method TakeStep(c: Config, ghost seeds: set<nat>, x: set<nat>, worklist: seq<nat>, ghost block: nat, a: nat)
    returns (x': set<nat>, worklist': seq<nat>)
    requires Expanding(c, seeds, x, worklist, block) && (c.Allows(a) ==> a in c.Step(block))
    ensures Expanding(c, seeds, x', worklist', block)
    ensures x <= x' <= x + {a} && (c.Allows(a) ==> a in x') && (x' == x ==> worklist' == worklist)
  {
    hide Expanding;
    x', worklist' := x, worklist;
    if c.Allows(a) && a !in x {
      StepExpands(c, seeds, x, worklist, block, a);
      x', worklist' := x + {a}, worklist + [a];
    }
  }

  method ExpandBlock(c: Config, ghost seeds: set<nat>, x: set<nat>, worklist: seq<nat>, block: nat)
    returns (x': set<nat>, worklist': seq<nat>)
    requires Growing(c, seeds, x, worklist + [block])
    ensures Growing(c, seeds, x', worklist')
    ensures x <= x' <= Below(c.blockCount) && (x' == x ==> worklist' == worklist)
  {
    hide Growing, Expanding;
    PopExpands(c, seeds, x, worklist, block);
    x', worklist' := x, worklist;
    if block < |c.frontiers| {
      var rest := c.frontiers[block];
      while rest != {}
        invariant rest <= c.frontiers[block]
        invariant Expanding(c, seeds, x', worklist', block)
        invariant x <= x' && (x' == x ==> worklist' == worklist)
        invariant forall a :: a in c.frontiers[block] && a !in rest && c.Allows(a) ==> a in x'
        decreases rest
      {
        var a :| a in rest;
        rest := rest - {a};
        x', worklist' := TakeStep(c, seeds, x', worklist', block, a);
      }
    }
    if c.LeaveTarget(block).Some? {
      x', worklist' := TakeStep(c, seeds, x', worklist', block, c.LeaveTarget(block).value);
    }
    InBounds(c, seeds, x', worklist', block);
    ExpandedGrows(c, seeds, x', worklist', block);
  }

  lemma InBounds(c: Config, seeds: set<nat>, x: set<nat>, worklist: seq<nat>, block: nat)
    requires Expanding(c, seeds, x, worklist, block)
    ensures x <= Below(c.blockCount)
  {
  }

  lemma Starts(c: Config, seeds: set<nat>, worklist: seq<nat>)
    requires forall b :: b in seeds <==> b in worklist
    ensures Growing(c, seeds, {}, worklist)
  {
  }

  method FindPhiBlocks(c: Config, group: nat) returns (x: set<nat>)
    requires group in c.defs
    ensures x == c.PhiBlocks(group)
  {
    hide Growing, IsLeastClosed;
    var seeds := c.defs[group];
    var worklist := Ascending(seeds);
    x := {};
    Starts(c, seeds, worklist);
    while worklist != []
      invariant Growing(c, seeds, x, worklist) && x <= Below(c.blockCount)
      decreases Below(c.blockCount) - x, |worklist|
    {
      var block, rest := worklist[|worklist| - 1], worklist[..|worklist| - 1];
      assert worklist == rest + [block];
      x, worklist := ExpandBlock(c, seeds, x, rest, block);
    }
    DrainedIsLeast(c, seeds, x);
    LeastClosedUnique(c.Steps(), seeds, x, c.PhiBlocks(group));
  }

  // ----- placement

  /** The placements of one group in order. */
  function GroupPlacements(group: nat, blocks: seq<nat>): seq<(nat, nat)> {
    seq(|blocks|, i requires 0 <= i < |blocks| => (blocks[i], group))
  }

  /** The placements of several groups in order: blocks ascend within a group. */
  ghost function Placements(c: Config, groups: seq<nat>): seq<(nat, nat)> {
    if groups == [] then []
    else
      var last := groups[|groups| - 1];
      Placements(c, groups[..|groups| - 1]) + GroupPlacements(last, Ascending(c.PlacedBlocks(last)))
  }

  /** Every block has the phis it had, then those placed at it, in order. */
  ghost predicate PhisAppended(before: seq<seq<nat>>, placements: seq<(nat, nat)>, after: seq<seq<nat>>) {
    && |after| == |before|
    && forall b: nat :: b < |before| ==> after[b] == before[b] + Csr.Row(placements, b)
  }

  lemma AppendPhi(before: seq<seq<nat>>, placements: seq<(nat, nat)>, after: seq<seq<nat>>, b: nat, group: nat)
    requires PhisAppended(before, placements, after) && b < |after|
    ensures PhisAppended(before, placements + [(b, group)], after[b := after[b] + [group]])
  {
  }

  method PlaceEach(group: nat, blocks: seq<nat>, phis: seq<seq<nat>>, ghost before: seq<seq<nat>>,
                   placements: seq<(nat, nat)>)
    returns (phis': seq<seq<nat>>, placements': seq<(nat, nat)>)
    requires PhisAppended(before, placements, phis) && forall i :: 0 <= i < |blocks| ==> blocks[i] < |phis|
    ensures placements' == placements + GroupPlacements(group, blocks)
    ensures |phis'| == |phis| && PhisAppended(before, placements', phis')
  {
    hide PhisAppended;
    phis', placements' := phis, placements;
    ghost var all := GroupPlacements(group, blocks);
    for i := 0 to |blocks|
      invariant placements' == placements + all[..i]
      invariant |phis'| == |phis| && PhisAppended(before, placements', phis')
    {
      AppendPhi(before, placements', phis', blocks[i], group);
      phis' := phis'[blocks[i] := phis'[blocks[i]] + [group]];
      placements' := placements' + [(blocks[i], group)];
      assert all[..i + 1] == all[..i] + [(blocks[i], group)];
    }
  }

  method PlaceGroup(c: Config, group: nat, phis: seq<seq<nat>>, ghost before: seq<seq<nat>>,
                    placements: seq<(nat, nat)>)
    returns (phis': seq<seq<nat>>, placements': seq<(nat, nat)>)
    requires group in c.defs && |phis| == c.blockCount && PhisAppended(before, placements, phis)
    ensures placements' == placements + GroupPlacements(group, Ascending(c.PlacedBlocks(group)))
    ensures |phis'| == c.blockCount && PhisAppended(before, placements', phis')
  {
    hide PhisAppended, IsLeastClosed;
    phis', placements' := phis, placements;
    if group in c.selected {
      var found := FindPhiBlocks(c, group);
      var kept := set b | b in found && c.Live(group, b);
      assert kept == c.PlacedBlocks(group);
      var blocks := Ascending(kept);
      forall i | 0 <= i < |blocks|
        ensures blocks[i] < c.blockCount
      {
        assert blocks[i] in blocks && blocks[i] in Below(c.blockCount);
      }
      phis', placements' := PlaceEach(group, blocks, phis, before, placements);
    }
  }

  /** Places the phis of every selected group, groups ascending. */
  method PlacePrunedPhis(c: Config, phis: seq<seq<nat>>) returns (phis': seq<seq<nat>>, placements: seq<(nat, nat)>)
    requires |phis| == c.blockCount
    ensures placements == Placements(c, Ascending(c.defs.Keys))
    ensures forall b: nat, group: nat :: (b, group) in placements <==> IsPlaced(c, b, group)
    ensures InPlacementOrder(placements)
    ensures |phis'| == |phis| && forall b: nat :: b < |phis| ==> GainsPhis(c, b, phis[b], phis'[b])
  {
    hide PhisAppended, GroupPlacements, IsLeastClosed, IsPlaced, GainsPhis, InPlacementOrder, Placements;
    phis', placements := phis, [];
    var groups := Ascending(c.defs.Keys);
    NothingAppended(phis);
    NothingPlaced(c);
    for k := 0 to |groups|
      invariant placements == Placements(c, groups[..k])
      invariant |phis'| == c.blockCount && PhisAppended(phis, placements, phis')
    {
      assert groups[..k + 1] == groups[..k] + [groups[k]];
      assert groups[k] in groups;
      PlacedNext(c, groups[..k], groups[k]);
      phis', placements := PlaceGroup(c, groups[k], phis', phis, placements);
    }
    assert groups[..|groups|] == groups;
    AllPlaced(c, phis, placements, phis');
  }

  lemma NothingPlaced(c: Config)
    ensures Placements(c, []) == []
  {
  }

  lemma PlacedNext(c: Config, front: seq<nat>, last: nat)
    ensures Placements(c, front + [last]) == Placements(c, front) + GroupPlacements(last, Ascending(c.PlacedBlocks(last)))
  {
    assert (front + [last])[..|front|] == front;
  }

  lemma AllPlaced(c: Config, phis: seq<seq<nat>>, placements: seq<(nat, nat)>, phis': seq<seq<nat>>)
    requires placements == Placements(c, Ascending(c.defs.Keys)) && PhisAppended(phis, placements, phis')
    ensures forall b: nat, group: nat :: (b, group) in placements <==> IsPlaced(c, b, group)
    ensures InPlacementOrder(placements)
    ensures |phis'| == |phis| && forall b: nat :: b < |phis| ==> GainsPhis(c, b, phis[b], phis'[b])
  {
    hide PhisAppended, IsPlaced, GainsPhis, Placements, InPlacementOrder;
    forall b: nat, group: nat
      ensures (b, group) in placements <==> IsPlaced(c, b, group)
    {
      PlacementIsExact(c, b, group);
    }
    PlacementsInOrder(c, Ascending(c.defs.Keys));
    AppendedSize(phis, placements, phis');
    forall b: nat | b < |phis|
      ensures GainsPhis(c, b, phis[b], phis'[b])
    {
      AppendedRow(phis, placements, phis', b);
      RowInOrder(placements, b);
      RowGains(c, placements, b, phis[b], phis'[b]);
    }
  }

  lemma AppendedSize(before: seq<seq<nat>>, placements: seq<(nat, nat)>, after: seq<seq<nat>>)
    requires PhisAppended(before, placements, after)
    ensures |after| == |before|
  {
  }

  lemma AppendedRow(before: seq<seq<nat>>, placements: seq<(nat, nat)>, after: seq<seq<nat>>, b: nat)
    requires PhisAppended(before, placements, after) && b < |before|
    ensures |after| == |before| && after[b] == before[b] + Csr.Row(placements, b)
  {
  }

  // ----- what must be placed, read off the inputs

  /** `a` is a reachable block of the function one step from `x`: it is in the frontier
      of `x`, or `x` leaves a handler to it. */
  predicate LeadsTo(c: Config, x: nat, a: nat) {
    && a < c.blockCount && (c.reachable.None? || a in c.reachable.value)
    && ((x < |c.frontiers| && a in c.frontiers[x]) || (x < |c.leave| && c.leave[x] == Some(a)))
  }

  ghost predicate HoldsSteps(c: Config, seeds: set<nat>, s: set<nat>) {
    forall x: nat, a: nat :: (x in seeds || x in s) && LeadsTo(c, x, a) ==> a in s
  }

  /** A group that was selected gets a phi at every block that steps from its
      definitions lead to, pruned to the blocks it is live into if liveness is known. */
  ghost predicate IsPlaced(c: Config, b: nat, group: nat) {
    && group in c.defs && group in c.selected
    && (forall s: set<nat> :: HoldsSteps(c, c.defs[group], s) ==> b in s)
    && (group !in c.liveIn || b in c.liveIn[group])
  }

  /** By group, and by block within a group; so nothing twice. */
  ghost predicate InPlacementOrder(placements: seq<(nat, nat)>) {
    forall i, j :: 0 <= i < j < |placements| ==>
      || placements[i].1 < placements[j].1
      || (placements[i].1 == placements[j].1 && placements[i].0 < placements[j].0)
  }

  /** The block keeps its phis and gains one for each group placed at it, ascending. */
  ghost predicate GainsPhis(c: Config, b: nat, before: seq<nat>, after: seq<nat>) {
    && |before| <= |after| && after[..|before|] == before
    && (forall i, j :: |before| <= i < j < |after| ==> after[i] < after[j])
    && forall group: nat :: group in after[|before|..] <==> IsPlaced(c, b, group)
  }

  lemma StepsAreFields(c: Config, seeds: set<nat>, s: set<nat>)
    ensures ClosedFrom(c.Steps(), seeds, s) <==> HoldsSteps(c, seeds, s)
  {
    forall x: nat, a: nat
      ensures a in Row(c.Steps(), x) <==> LeadsTo(c, x, a)
    {
    }
    if HoldsSteps(c, seeds, s) {
      forall x | x in seeds || x in s
        ensures Row(c.Steps(), x) <= s
      {
        assert forall a :: a in Row(c.Steps(), x) ==> LeadsTo(c, x, a);
      }
    }
    if ClosedFrom(c.Steps(), seeds, s) {
      forall x: nat, a: nat | (x in seeds || x in s) && LeadsTo(c, x, a)
        ensures a in s
      {
        assert a in Row(c.Steps(), x);
      }
    }
  }

  lemma PhiBlocksAreFields(c: Config, group: nat, b: nat)
    requires group in c.defs
    ensures b in c.PhiBlocks(group) <==> forall s: set<nat> :: HoldsSteps(c, c.defs[group], s) ==> b in s
  {
    var x := c.PhiBlocks(group);
    StepsAreFields(c, c.defs[group], x);
    forall s: set<nat> | HoldsSteps(c, c.defs[group], s)
      ensures x <= s
    {
      StepsAreFields(c, c.defs[group], s);
    }
  }

  lemma {:induction false} PlacementsInOrder(c: Config, groups: seq<nat>)
    requires forall i, j :: 0 <= i < j < |groups| ==> groups[i] < groups[j]
    ensures InPlacementOrder(Placements(c, groups))
  {
    if groups != [] {
      var front, last := groups[..|groups| - 1], groups[|groups| - 1];
      PlacementsInOrder(c, front);
      var all, earlier := Placements(c, groups), Placements(c, front);
      forall i, j | 0 <= i < j < |all| && i < |earlier| <= j
        ensures all[i].1 < all[j].1
      {
        PlacementsOfGroups(c, front, all[i].0, all[i].1);
        assert all[i] in earlier && all[j].1 == last;
      }
    }
  }

  lemma {:induction false} RowMembers(placements: seq<(nat, nat)>, b: nat, group: nat)
    ensures group in Csr.Row(placements, b) <==> (b, group) in placements
  {
    if placements != [] {
      var front, last := placements[..|placements| - 1], placements[|placements| - 1];
      assert placements == front + [last];
      RowMembers(front, b, group);
      var row, more := Csr.Row(front, b), if last.0 == b then [last.1] else [];
      assert Csr.Row(placements, b) == row + more;
      assert group in row + more <==> group in row || group in more;
    }
  }

  lemma {:induction false} RowInOrder(placements: seq<(nat, nat)>, b: nat)
    requires InPlacementOrder(placements)
    ensures var row := Csr.Row(placements, b); forall i, j :: 0 <= i < j < |row| ==> row[i] < row[j]
  {
    if placements != [] {
      var front, last := placements[..|placements| - 1], placements[|placements| - 1];
      RowInOrder(front, b);
      var row := Csr.Row(front, b);
      forall k | 0 <= k < |row| && last.0 == b
        ensures row[k] < last.1
      {
        RowMembers(front, b, row[k]);
        var m :| 0 <= m < |front| && front[m] == (b, row[k]);
        assert placements[m] == front[m] && placements[|front|] == last;
      }
    }
  }

  lemma RowGains(c: Config, placements: seq<(nat, nat)>, b: nat, before: seq<nat>, after: seq<nat>)
    requires forall x: nat, group: nat :: (x, group) in placements <==> IsPlaced(c, x, group)
    requires var row := Csr.Row(placements, b);
      after == before + row && forall i, j :: 0 <= i < j < |row| ==> row[i] < row[j]
    ensures GainsPhis(c, b, before, after)
  {
    hide IsPlaced;
    forall group: nat
      ensures group in Csr.Row(placements, b) <==> (b, group) in placements
    {
      RowMembers(placements, b, group);
    }
    assert after[|before|..] == Csr.Row(placements, b);
  }

  /** A selected group without liveness data is not pruned. */
  lemma UnprunedWithoutLiveness(c: Config, b: nat, group: nat)
    requires group in c.defs && group in c.selected && group !in c.liveIn
    ensures (b, group) in Placements(c, Ascending(c.defs.Keys)) <==>
            forall s: set<nat> :: HoldsSteps(c, c.defs[group], s) ==> b in s
  {
    PlacementIsExact(c, b, group);
  }

  lemma NothingAppended(phis: seq<seq<nat>>)
    ensures PhisAppended(phis, [], phis)
  {
  }

  // ----- what is placed

  lemma {:induction false} PlacementsOfGroups(c: Config, groups: seq<nat>, b: nat, group: nat)
    ensures (b, group) in Placements(c, groups) <==> group in groups && b in c.PlacedBlocks(group)
  {
    if groups != [] {
      var front, last := groups[..|groups| - 1], groups[|groups| - 1];
      PlacementsOfGroups(c, front, b, group);
      var blocks := Ascending(c.PlacedBlocks(last));
      assert groups == front + [last];
      assert (b, group) in GroupPlacements(last, blocks) <==> group == last && b in blocks by {
        if group == last && b in blocks {
          var i :| 0 <= i < |blocks| && blocks[i] == b;
          assert GroupPlacements(last, blocks)[i] == (b, group);
        }
      }
    }
  }

  /** A phi is placed for exactly the selected groups and the blocks that steps from the
      group's definitions lead to, in the function, reachable, and live for the group
      wherever there is liveness data. */
  lemma PlacementIsExact(c: Config, b: nat, group: nat)
    ensures (b, group) in Placements(c, Ascending(c.defs.Keys)) <==> IsPlaced(c, b, group)
  {
    PlacementsOfGroups(c, Ascending(c.defs.Keys), b, group);
    if group in c.defs {
      PhiBlocksAreFields(c, group, b);
    }
  }

  /** Nothing is placed outside the function or where control cannot come. */
  lemma PlacedInRange(c: Config, b: nat, group: nat)
    requires IsPlaced(c, b, group)
    ensures b < c.blockCount && (c.reachable.None? || b in c.reachable.value)
    ensures exists x: nat :: LeadsTo(c, x, b)
  {
    PhiBlocksAreFields(c, group, b);
    MemberHasSource(c.Steps(), c.defs[group], c.PhiBlocks(group), b);
    var x :| (x in c.defs[group] || x in c.PhiBlocks(group)) && b in Row(c.Steps(), x);
    assert LeadsTo(c, x, b);
  }

  /** With liveness computed for the same graph, a phi is placed just where steps lead and
      a path to a use starts that no definition cuts. */
  lemma PrunedByPaths(c: Config, g: Graph.Cfg, uses: Groups, b: nat, group: nat)
    requires c.liveIn.Keys == c.defs.Keys * uses.Keys && group in uses
    requires forall x :: x in c.liveIn ==> forall a :: a in c.liveIn[x] <==> Liveness.LiveIn(g, c.defs[x], uses[x], a)
    ensures (b, group) in Placements(c, Ascending(c.defs.Keys)) <==>
              && group in c.defs && group in c.selected
              && (forall s: set<nat> :: HoldsSteps(c, c.defs[group], s) ==> b in s)
              && Liveness.LiveIn(g, c.defs[group], uses[group], b)
  {
    PlacementIsExact(c, b, group);
  }
}
