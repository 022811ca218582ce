/** Least sets closed under a step relation given by rows.

    Both phi placements iterate a frontier relation from the blocks that define a
    value; this is what such a worklist must return.
  */
module Closure {

  type Rows = seq<set<nat>>

  /** The successors of `b`; a block past the last row has none. */
  function Row(rows: Rows, b: nat): set<nat> {
    if b < |rows| then rows[b] else {}
  }

  /** `x` holds every block one step from a seed or from a member. */
  ghost predicate ClosedFrom(rows: Rows, seeds: set<nat>, x: set<nat>) {
    forall b :: b in seeds || b in x ==> Row(rows, b) <= x
  }

  ghost predicate IsLeastClosed(rows: Rows, seeds: set<nat>, x: set<nat>) {
    ClosedFrom(rows, seeds, x) && forall y :: ClosedFrom(rows, seeds, y) ==> x <= y
  }

  lemma LeastClosedUnique(rows: Rows, seeds: set<nat>, x: set<nat>, y: set<nat>)
    requires IsLeastClosed(rows, seeds, x) && IsLeastClosed(rows, seeds, y)
    ensures x == y
  {
  }

  /** A member of the least closed set was put there by a step from a seed or
      from another member. */
  lemma MemberHasSource(rows: Rows, seeds: set<nat>, x: set<nat>, b: nat)
    requires IsLeastClosed(rows, seeds, x) && b in x
    ensures exists a :: (a in seeds || a in x) && b in Row(rows, a)
  {
    if forall a :: a in seeds || a in x ==> b !in Row(rows, a) {
      var y := x - {b};
      assert ClosedFrom(rows, seeds, y);
    }
  }
}
