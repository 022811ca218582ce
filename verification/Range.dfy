/** Integer value ranges: src/analysis/range.rs.

    A range stands for a set of integers.  Bounds are 64-bit; a missing bound is
    infinite, so membership is over all integers.
  */
module Range {
  import opened Options

  const MIN_I64: int := -0x8000_0000_0000_0000
  const MAX_I64: int := 0x7fff_ffff_ffff_ffff

  function Checked(x: int): Option<int> {
    if MIN_I64 <= x <= MAX_I64 then Some(x) else None
  }

  function Least(a: int, b: int): int {
    if a < b then a else b
  }

  function Greatest(a: int, b: int): int {
    if a < b then b else a
  }

  // ----- intervals

  datatype IntervalRange = IntervalRange(min: Option<int>, max: Option<int>) {
    predicate Has(x: int) {
      (min.Some? ==> min.value <= x) && (max.Some? ==> x <= max.value)
    }

    /** Bounds fit 64 bits and leave a value in between. */
    predicate Proper() {
      && (min.Some? ==> MIN_I64 <= min.value <= MAX_I64)
      && (max.Some? ==> MIN_I64 <= max.value <= MAX_I64)
      && (min.Some? && max.Some? ==> min.value <= max.value)
    }

    predicate Overlaps(other: IntervalRange) {
      && !(max.Some? && other.min.Some? && max.value < other.min.value)
      && !(other.max.Some? && min.Some? && other.max.value < min.value)
    }

    predicate Adjacent(other: IntervalRange) {
      || (max.Some? && other.min.Some? && Checked(max.value + 1) == other.min)
      || (other.max.Some? && min.Some? && Checked(other.max.value + 1) == min)
    }

    function Meet(other: IntervalRange): Option<IntervalRange> {
      var newMin :=
        if min.None? then other.min else if other.min.None? then min else Some(Greatest(min.value, other.min.value));
      var newMax := if max.None? then other.max else if other.max.None? then max else Some(Least(max.value, other.max.value));
      if newMin.Some? && newMax.Some? && newMin.value > newMax.value then None else Some(IntervalRange(newMin, newMax))
    }

    function Join(other: IntervalRange): IntervalRange {
      IntervalRange(
        if min.Some? && other.min.Some? then Some(Least(min.value, other.min.value)) else None,
        if max.Some? && other.max.Some? then Some(Greatest(max.value, other.max.value)) else None)
    }

    function Widen(other: IntervalRange): IntervalRange {
      IntervalRange(
        if min.Some? && other.min.Some? && other.min.value < min.value then None else min,
        if max.Some? && other.max.Some? && other.max.value > max.value then None else max)
    }

    function Add(other: IntervalRange): IntervalRange {
      IntervalRange(
        if min.Some? && other.min.Some? then Checked(min.value + other.min.value) else None,
        if max.Some? && other.max.Some? then Checked(max.value + other.max.value) else None)
    }

    function Sub(other: IntervalRange): IntervalRange {
      IntervalRange(
        if min.Some? && other.max.Some? then Checked(min.value - other.max.value) else None,
        if max.Some? && other.min.Some? then Checked(max.value - other.min.value) else None)
    }

    function Mul(other: IntervalRange): IntervalRange {
      if min.Some? && max.Some? && other.min.Some? && other.max.Some? then
        var (a, b, c, d) := (min.value, max.value, other.min.value, other.max.value);
        if Checked(a * c).None? || Checked(a * d).None? || Checked(b * c).None? || Checked(b * d).None?
        then IntervalRange(None, None)
        else IntervalRange(Some(Least(Least(a * c, a * d), Least(b * c, b * d))),
                           Some(Greatest(Greatest(a * c, a * d), Greatest(b * c, b * d))))
      else IntervalRange(None, None)
    }
  }

  /** Every value of `b` lies more than one above every value of `a`. */
  predicate GapBetween(a: IntervalRange, b: IntervalRange) {
    a.max.Some? && b.min.Some? && a.max.value + 1 < b.min.value
  }

  predicate AllProper(rs: seq<IntervalRange>) {
    forall i :: 0 <= i < |rs| ==> rs[i].Proper()
  }

  /** Ascending, with gaps. */
  predicate Separated(rs: seq<IntervalRange>) {
    forall i, j :: 0 <= i < j < |rs| ==> GapBetween(rs[i], rs[j])
  }

  predicate AnyHas(rs: seq<IntervalRange>, x: int) {
    exists i :: 0 <= i < |rs| && rs[i].Has(x)
  }

  // ----- ranges

  datatype ValueRange = Bottom | Interval(range: IntervalRange) | Union(ranges: seq<IntervalRange>) | Top {
    predicate Has(x: int) {
      match this
      case Bottom => false
      case Top => true
      case Interval(i) => i.Has(x)
      case Union(rs) => AnyHas(rs, x)
    }

    /** The form every operation keeps: unions hold several proper intervals, ascending
        and separated by gaps. */
    predicate WellFormed() {
      match this
      case Bottom => true
      case Top => true
      case Interval(i) => i.Proper()
      case Union(rs) => |rs| >= 2 && AllProper(rs) && Separated(rs)
    }

    function Hull(): ValueRange {
      match this
      case Union(rs) => if rs == [] then Bottom else Interval(IntervalRange(rs[0].min, rs[|rs| - 1].max))
      case _ => this
    }

    function Widen(other: ValueRange): ValueRange {
      match (this, other)
      case (Bottom, x) => x
      case (x, Bottom) => x
      case (Top, _) => Top
      case (_, Top) => Top
      case (Interval(a), Interval(b)) => Interval(a.Widen(b))
      case _ =>
        match (Hull(), other.Hull())
        case (Interval(a), Interval(b)) => Interval(a.Widen(b))
        case _ => Top
    }

    function BinaryOp(other: ValueRange, op: (IntervalRange, IntervalRange) -> IntervalRange): ValueRange {
      match (this, other)
      case (Bottom, _) => Bottom
      case (_, Bottom) => Bottom
      case (Top, _) => Top
      case (_, Top) => Top
      case (Interval(a), Interval(b)) => Interval(op(a, b))
      case _ =>
        match (Hull(), other.Hull())
        case (Interval(a), Interval(b)) => Interval(op(a, b))
        case _ => Top
    }

    function Add(other: ValueRange): ValueRange {
      BinaryOp(other, (a: IntervalRange, b: IntervalRange) => a.Add(b))
    }

    function Sub(other: ValueRange): ValueRange {
      BinaryOp(other, (a: IntervalRange, b: IntervalRange) => a.Sub(b))
    }

    function Mul(other: ValueRange): ValueRange {
      BinaryOp(other, (a: IntervalRange, b: IntervalRange) => a.Mul(b))
    }
  }

  // ----- normalization

  /** Intervals ordered by lower bound, an infinite one first. */
  predicate StartsBefore(a: IntervalRange, b: IntervalRange) {
    a.min.None? || (b.min.Some? && a.min.value <= b.min.value)
  }

  predicate Ordered(rs: seq<IntervalRange>) {
    forall i, j :: 0 <= i < j < |rs| ==> StartsBefore(rs[i], rs[j])
  }

  predicate SameMembers(a: seq<IntervalRange>, b: seq<IntervalRange>) {
    multiset(a) == multiset(b)
  }

  method SortByMin(rs: seq<IntervalRange>) returns (r: seq<IntervalRange>)
    ensures Ordered(r) && SameMembers(rs, r)
  {
    r := [];
    for k := 0 to |rs|
      invariant Ordered(r) && SameMembers(rs[..k], r)
    {
      var p := |r|;
      while p > 0 && !StartsBefore(r[p - 1], rs[k])
        invariant 0 <= p <= |r|
        invariant forall j :: p <= j < |r| ==> StartsBefore(rs[k], r[j])
      {
        p := p - 1;
      }
      InsertKeeps(rs[..k], r, rs[k], p);
      assert rs[..k + 1] == rs[..k] + [rs[k]];
      r := r[..p] + [rs[k]] + r[p..];
    }
    assert rs[..|rs|] == rs;
  }

  lemma StartsBeforeTransitive(a: IntervalRange, b: IntervalRange, c: IntervalRange)
    requires StartsBefore(a, b) && StartsBefore(b, c)
    ensures StartsBefore(a, c)
  {
  }

  lemma InsertKeeps(was: seq<IntervalRange>, r: seq<IntervalRange>, x: IntervalRange, p: nat)
    requires Ordered(r) && SameMembers(was, r) && p <= |r|
    requires p > 0 ==> StartsBefore(r[p - 1], x)
    requires forall j :: p <= j < |r| ==> StartsBefore(x, r[j])
    ensures Ordered(r[..p] + [x] + r[p..]) && SameMembers(was + [x], r[..p] + [x] + r[p..])
  {
    hide StartsBefore;
    assert r == r[..p] + r[p..];
    forall i | 0 <= i < p
      ensures StartsBefore(r[i], x)
    {
      if i < p - 1 {
        StartsBeforeTransitive(r[i], r[p - 1], x);
      }
    }
    InsertOrdered(r, x, p);
  }

  lemma InsertOrdered(r: seq<IntervalRange>, x: IntervalRange, p: nat)
    requires Ordered(r) && p <= |r|
    requires forall j :: 0 <= j < p ==> StartsBefore(r[j], x)
    requires forall j :: p <= j < |r| ==> StartsBefore(x, r[j])
    ensures Ordered(r[..p] + [x] + r[p..])
  {
  }

  lemma SameMembersHave(a: seq<IntervalRange>, b: seq<IntervalRange>, x: int)
    requires SameMembers(a, b)
    ensures AnyHas(a, x) <==> AnyHas(b, x)
    ensures AllProper(a) ==> AllProper(b)
  {
    forall i | 0 <= i < |a|
      ensures a[i] in b
    {
      assert a[i] in multiset(a);
      assert a[i] in multiset(b);
    }
    forall i | 0 <= i < |b|
      ensures b[i] in a
    {
      assert b[i] in multiset(b);
      assert b[i] in multiset(a);
    }
  }

  /** Touching intervals join into exactly their union; others, in order, leave a gap. */
  lemma JoinOfTouching(a: IntervalRange, b: IntervalRange, x: int)
    requires a.Proper() && b.Proper() && StartsBefore(a, b)
    ensures a.Overlaps(b) || a.Adjacent(b) ==> (a.Join(b).Has(x) <==> a.Has(x) || b.Has(x))
    ensures a.Join(b).Proper() && a.Join(b).min == a.min
    ensures !a.Overlaps(b) && !a.Adjacent(b) ==> GapBetween(a, b)
  {
  }

  lemma AnyHasAppend(rs: seq<IntervalRange>, i: IntervalRange, x: int)
    ensures AnyHas(rs + [i], x) <==> AnyHas(rs, x) || i.Has(x)
  {
    if AnyHas(rs, x) {
      var k :| 0 <= k < |rs| && rs[k].Has(x);
      assert (rs + [i])[k].Has(x);
    }
    if i.Has(x) {
      assert (rs + [i])[|rs|].Has(x);
    }
  }

  /** A merged list: proper, separated, covering what the first `k` intervals cover, its
      last interval starting before those still to come. */
  ghost predicate Merged(sorted: seq<IntervalRange>, k: nat, merged: seq<IntervalRange>)
    requires k <= |sorted|
  {
    && AllProper(merged) && Separated(merged) && (k > 0 ==> merged != [])
    && (forall x :: AnyHas(merged, x) <==> AnyHas(sorted[..k], x))
    && (merged != [] ==> forall j :: k <= j < |sorted| ==> StartsBefore(merged[|merged| - 1], sorted[j]))
  }

  lemma MergeStep(sorted: seq<IntervalRange>, k: nat, merged: seq<IntervalRange>)
    requires Ordered(sorted) && AllProper(sorted) && k < |sorted| && Merged(sorted, k, merged)
    ensures var next := sorted[k];
      if merged != [] && (merged[|merged| - 1].Overlaps(next) || merged[|merged| - 1].Adjacent(next))
      then Merged(sorted, k + 1, merged[|merged| - 1 := merged[|merged| - 1].Join(next)])
      else Merged(sorted, k + 1, merged + [next])
  {
    var next := sorted[k];
    assert sorted[..k + 1] == sorted[..k] + [next];
    assert forall j :: k < j < |sorted| ==> StartsBefore(next, sorted[j]);
    if merged != [] && (merged[|merged| - 1].Overlaps(next) || merged[|merged| - 1].Adjacent(next)) {
      var front, last := merged[..|merged| - 1], merged[|merged| - 1];
      var merged' := merged[|merged| - 1 := last.Join(next)];
      assert merged == front + [last] && merged' == front + [last.Join(next)];
      JoinOfTouching(last, next, 0);
      forall x
        ensures AnyHas(merged', x) <==> AnyHas(sorted[..k + 1], x)
      {
        AnyHasAppend(front, last, x);
        AnyHasAppend(front, last.Join(next), x);
        AnyHasAppend(sorted[..k], next, x);
        JoinOfTouching(last, next, x);
      }
      forall i, j | 0 <= i < j < |merged'|
        ensures GapBetween(merged'[i], merged'[j])
      {
        assert GapBetween(merged[i], merged[j]);
      }
    } else {
      forall x
        ensures AnyHas(merged + [next], x) <==> AnyHas(sorted[..k + 1], x)
      {
        AnyHasAppend(merged, next, x);
        AnyHasAppend(sorted[..k], next, x);
      }
      if merged != [] {
        var last := merged[|merged| - 1];
        JoinOfTouching(last, next, 0);
        forall i | 0 <= i < |merged|
          ensures GapBetween(merged[i], next)
        {
          if i < |merged| - 1 {
            assert GapBetween(merged[i], last);
          }
        }
      }
    }
  }

  method NormalizeUnion(intervals: seq<IntervalRange>) returns (r: ValueRange)
    requires AllProper(intervals)
    ensures r.WellFormed()
    ensures forall x :: r.Has(x) <==> AnyHas(intervals, x)
    ensures !r.Top?
  {
    if intervals == [] {
      return Bottom;
    }
    if |intervals| == 1 {
      assert forall x :: AnyHas(intervals, x) <==> intervals[0].Has(x);
      return Interval(intervals[0]);
    }
    var sorted := SortByMin(intervals);
    assert |sorted| == |intervals| by {
      assert |multiset(intervals)| == |multiset(sorted)|;
    }
    SameMembersHave(intervals, sorted, 0);
    var merged: seq<IntervalRange> := [];
    for k := 0 to |sorted|
      invariant Merged(sorted, k, merged)
    {
      hide Merged;
      MergeStep(sorted, k, merged);
      if merged != [] && (merged[|merged| - 1].Overlaps(sorted[k]) || merged[|merged| - 1].Adjacent(sorted[k])) {
        merged := merged[|merged| - 1 := merged[|merged| - 1].Join(sorted[k])];
      } else {
        merged := merged + [sorted[k]];
      }
    }
    assert sorted[..|sorted|] == sorted;
    forall x
      ensures AnyHas(merged, x) <==> AnyHas(intervals, x)
    {
      SameMembersHave(intervals, sorted, x);
    }
    if |merged| == 1 {
      assert forall x :: AnyHas(merged, x) <==> merged[0].Has(x);
      return Interval(merged[0]);
    }
    return Union(merged);
  }

  // ----- one normal form per set of values

  /** A value of an interval next to a bound. */
  lemma LowestValue(i: IntervalRange, below: int) returns (x: int)
    requires i.Proper()
    ensures i.Has(x)
    ensures if i.min.Some? then x == i.min.value else x <= below
  {
    x := if i.min.Some? then i.min.value else if i.max.Some? then Least(i.max.value, below) else below;
  }

  lemma FirstIsLowest(rs: seq<IntervalRange>, x: int)
    requires Separated(rs) && AllProper(rs) && AnyHas(rs, x)
    ensures rs[0].min.Some? ==> rs[0].min.value <= x
  {
  }

  /** Just above the first interval there is a gap. */
  lemma FirstEnds(rs: seq<IntervalRange>, x: int)
    requires Separated(rs) && AllProper(rs) && rs != [] && rs[0].max.Some? && x == rs[0].max.value + 1
    ensures !AnyHas(rs, x)
  {
  }

  lemma SameFirst(a: seq<IntervalRange>, b: seq<IntervalRange>)
    requires Separated(a) && AllProper(a) && Separated(b) && AllProper(b) && a != [] && b != []
    requires forall x :: AnyHas(a, x) <==> AnyHas(b, x)
    ensures a[0].min.Some? ==> b[0].min.Some? && a[0].min.value <= b[0].min.value
    ensures a[0].min == b[0].min && a[0].max.Some? ==> b[0].max.Some? && b[0].max.value <= a[0].max.value
  {
    if a[0].min.Some? {
      var x := LowestValue(b[0], a[0].min.value - 1);
      assert AnyHas(b, x);
      FirstIsLowest(a, x);
    }
    if a[0].min == b[0].min && a[0].max.Some? {
      var x := a[0].max.value + 1;
      FirstEnds(a, x);
      assert !b[0].Has(x);
      assert a[0].Proper() && b[0].Proper();
    }
  }

  lemma TailHas(rs: seq<IntervalRange>, x: int)
    requires Separated(rs) && AllProper(rs) && rs != []
    ensures AnyHas(rs[1..], x) <==> AnyHas(rs, x) && !rs[0].Has(x)
  {
  }

  /** Separated lists that cover the same values are the same list. */
  lemma {:induction false} SeparatedIsCanonical(a: seq<IntervalRange>, b: seq<IntervalRange>)
    requires Separated(a) && AllProper(a) && Separated(b) && AllProper(b)
    requires forall x :: AnyHas(a, x) <==> AnyHas(b, x)
    ensures a == b
  {
    if a == [] || b == [] {
      if a != [] {
        var x := LowestValue(a[0], 0);
        assert AnyHas(a, x);
      } else if b != [] {
        var x := LowestValue(b[0], 0);
        assert AnyHas(b, x);
      }
    } else {
      SameFirst(a, b);
      SameFirst(b, a);
      forall x
        ensures AnyHas(a[1..], x) <==> AnyHas(b[1..], x)
      {
        TailHas(a, x);
        TailHas(b, x);
      }
      SeparatedIsCanonical(a[1..], b[1..]);
      assert a == [a[0]] + a[1..] && b == [b[0]] + b[1..];
    }
  }

  /** The intervals of a range, taking the top range as one that is unbounded. */
  function Pieces(r: ValueRange): seq<IntervalRange> {
    match r
    case Bottom => []
    case Interval(i) => [i]
    case Union(rs) => rs
    case Top => [IntervalRange(None, None)]
  }

  lemma PiecesHave(r: ValueRange, x: int)
    ensures AnyHas(Pieces(r), x) <==> r.Has(x)
  {
    if r.Interval? && r.Has(x) {
      assert Pieces(r)[0].Has(x);
    }
    if r.Top? {
      assert Pieces(r)[0].Has(x);
    }
  }

  /** Well-formed ranges with the same values are equal, but for the two spellings of
      all values. */
  lemma RangeIsCanonical(a: ValueRange, b: ValueRange)
    requires a.WellFormed() && b.WellFormed() && !a.Top? && !b.Top?
    requires forall x :: a.Has(x) <==> b.Has(x)
    ensures a == b
  {
    forall x
      ensures AnyHas(Pieces(a), x) <==> AnyHas(Pieces(b), x)
    {
      PiecesHave(a, x);
      PiecesHave(b, x);
    }
    SeparatedIsCanonical(Pieces(a), Pieces(b));
  }

  // ----- union, meet and join

  lemma AnyHasConcat(a: seq<IntervalRange>, b: seq<IntervalRange>, x: int)
    ensures AnyHas(a + b, x) <==> AnyHas(a, x) || AnyHas(b, x)
  {
    if AnyHas(a, x) {
      var i :| 0 <= i < |a| && a[i].Has(x);
      assert (a + b)[i].Has(x);
    }
    if AnyHas(b, x) {
      var i :| 0 <= i < |b| && b[i].Has(x);
      assert (a + b)[|a| + i].Has(x);
    }
  }

  /** Exactly the values of the two ranges. */
  method UnionOf(a: ValueRange, b: ValueRange) returns (r: ValueRange)
    requires a.WellFormed() && b.WellFormed()
    ensures r.WellFormed()
    ensures forall x :: r.Has(x) <==> a.Has(x) || b.Has(x)
  {
    match (a, b)
    case (Bottom, _) =>
      r := b;
    case (_, Bottom) =>
      r := a;
    case (Top, _) =>
      r := Top;
    case (_, Top) =>
      r := Top;
    case (Interval(i), Interval(j)) =>
      if i.Overlaps(j) || i.Adjacent(j) {
        r := Interval(i.Join(j));
        TouchingUnion(i, j);
      } else {
        r := if StartsBefore(i, j) then Union([i, j]) else Union([j, i]);
        ApartUnion(i, j);
      }
    case (Union(rs), Interval(i)) =>
      r := NormalizeUnion(rs + [i]);
      forall x { AnyHasAppend(rs, i, x); }
    case (Interval(i), Union(rs)) =>
      r := NormalizeUnion(rs + [i]);
      forall x { AnyHasAppend(rs, i, x); }
    case (Union(rs), Union(ss)) =>
      r := NormalizeUnion(rs + ss);
      forall x { AnyHasConcat(rs, ss, x); }
  }

  lemma TouchingUnion(i: IntervalRange, j: IntervalRange)
    requires i.Proper() && j.Proper() && (i.Overlaps(j) || i.Adjacent(j))
    ensures i.Join(j).Proper() && forall x :: i.Join(j).Has(x) <==> i.Has(x) || j.Has(x)
  {
  }

  lemma ApartUnion(i: IntervalRange, j: IntervalRange)
    requires i.Proper() && j.Proper() && !i.Overlaps(j) && !i.Adjacent(j)
    ensures var r := if StartsBefore(i, j) then Union([i, j]) else Union([j, i]);
      r.WellFormed() && forall x :: r.Has(x) <==> i.Has(x) || j.Has(x)
  {
    var rs := if StartsBefore(i, j) then [i, j] else [j, i];
    JoinOfTouching(rs[0], rs[1], 0);
    forall x
      ensures AnyHas(rs, x) <==> i.Has(x) || j.Has(x)
    {
      AnyHasAppend([rs[0]], rs[1], x);
      AnyHasAppend([], rs[0], x);
      assert [] + [rs[0]] == [rs[0]] && [rs[0]] + [rs[1]] == rs;
    }
  }

  ghost predicate Encloses(h: IntervalRange, r: ValueRange) {
    forall x :: r.Has(x) ==> h.Has(x)
  }

  /** At least the values of the two ranges: the smallest interval around two intervals,
      and no other values in every other case. */
  method Join(a: ValueRange, b: ValueRange) returns (r: ValueRange)
    requires a.WellFormed() && b.WellFormed()
    ensures r.WellFormed()
    ensures forall x :: a.Has(x) || b.Has(x) ==> r.Has(x)
    ensures !(a.Interval? && b.Interval?) ==> forall x :: r.Has(x) ==> a.Has(x) || b.Has(x)
    ensures a.Interval? && b.Interval? ==>
              r.Interval? && forall h :: Encloses(h, a) && Encloses(h, b) ==> Encloses(h, r)
  {
    match (a, b)
    case (Bottom, _) =>
      r := b;
    case (_, Bottom) =>
      r := a;
    case (Top, _) =>
      r := Top;
    case (_, Top) =>
      r := Top;
    case (Interval(i), Interval(j)) =>
      r := Interval(i.Join(j));
      forall h | Encloses(h, a) && Encloses(h, b)
        ensures Encloses(h, r)
      {
        JoinIsHull(i, j, h);
      }
    case (Union(rs), Interval(i)) =>
      r := NormalizeUnion(rs + [i]);
      forall x { AnyHasAppend(rs, i, x); }
    case (Interval(i), Union(rs)) =>
      r := NormalizeUnion(rs + [i]);
      forall x { AnyHasAppend(rs, i, x); }
    case (Union(rs), Union(ss)) =>
      r := NormalizeUnion(rs + ss);
      forall x { AnyHasConcat(rs, ss, x); }
  }

  lemma HighestValue(i: IntervalRange, above: int) returns (x: int)
    requires i.Proper()
    ensures i.Has(x)
    ensures if i.max.Some? then x == i.max.value else x >= above
  {
    x := if i.max.Some? then i.max.value else if i.min.Some? then Greatest(i.min.value, above) else above;
  }

  lemma JoinIsHull(i: IntervalRange, j: IntervalRange, h: IntervalRange)
    requires i.Proper() && j.Proper() && Encloses(h, Interval(i)) && Encloses(h, Interval(j))
    ensures Encloses(h, Interval(i.Join(j)))
  {
    if h.min.Some? {
      var x := LowestValue(i, h.min.value - 1);
      var y := LowestValue(j, h.min.value - 1);
      assert Interval(i).Has(x) && Interval(j).Has(y);
    }
    if h.max.Some? {
      var x := HighestValue(i, h.max.value + 1);
      var y := HighestValue(j, h.max.value + 1);
      assert Interval(i).Has(x) && Interval(j).Has(y);
    }
  }

  lemma MeetHas(a: IntervalRange, b: IntervalRange, x: int)
    ensures a.Meet(b).Some? && a.Meet(b).value.Has(x) <==> a.Has(x) && b.Has(x)
    ensures a.Proper() && b.Proper() && a.Meet(b).Some? ==> a.Meet(b).value.Proper()
  {
  }

  /** The non-empty intersections of the intervals with one interval. */
  method MeetEach(rs: seq<IntervalRange>, i: IntervalRange) returns (results: seq<IntervalRange>)
    requires AllProper(rs) && i.Proper()
    ensures AllProper(results)
    ensures forall x :: AnyHas(results, x) <==> AnyHas(rs, x) && i.Has(x)
  {
    results := [];
    for k := 0 to |rs|
      invariant AllProper(results)
      invariant forall x :: AnyHas(results, x) <==> AnyHas(rs[..k], x) && i.Has(x)
    {
      ghost var was := results;
      var m := rs[k].Meet(i);
      if m.Some? {
        results := results + [m.value];
      }
      assert rs[..k + 1] == rs[..k] + [rs[k]];
      forall x
        ensures AnyHas(results, x) <==> AnyHas(rs[..k + 1], x) && i.Has(x)
      {
        MeetHas(rs[k], i, x);
        AnyHasAppend(rs[..k], rs[k], x);
        if m.Some? {
          AnyHasAppend(was, m.value, x);
        }
      }
    }
    assert rs[..|rs|] == rs;
  }

  /** Exactly the values in both ranges. */
  method Meet(a: ValueRange, b: ValueRange) returns (r: ValueRange)
    requires a.WellFormed() && b.WellFormed()
    ensures r.WellFormed()
    ensures forall x :: r.Has(x) <==> a.Has(x) && b.Has(x)
  {
    match (a, b)
    case (Bottom, _) =>
      r := Bottom;
    case (_, Bottom) =>
      r := Bottom;
    case (Top, _) =>
      r := b;
    case (_, Top) =>
      r := a;
    case (Interval(i), Interval(j)) =>
      var m := i.Meet(j);
      r := if m.Some? then Interval(m.value) else Bottom;
      forall x { MeetHas(i, j, x); }
    case (Union(rs), Interval(i)) =>
      var results := MeetEach(rs, i);
      r := NormalizeUnion(results);
    case (Interval(i), Union(rs)) =>
      var results := MeetEach(rs, i);
      r := NormalizeUnion(results);
    case (Union(rs), Union(ss)) =>
      var results := [];
      for k := 0 to |rs|
        invariant AllProper(results)
        invariant forall x :: AnyHas(results, x) <==> AnyHas(rs[..k], x) && AnyHas(ss, x)
      {
        var more := MeetEach(ss, rs[k]);
        assert rs[..k + 1] == rs[..k] + [rs[k]];
        forall x
          ensures AnyHas(results + more, x) <==> AnyHas(rs[..k + 1], x) && AnyHas(ss, x)
        {
          AnyHasAppend(rs[..k], rs[k], x);
          AnyHasConcat(results, more, x);
        }
        results := results + more;
      }
      assert rs[..|rs|] == rs;
      r := NormalizeUnion(results);
  }

  // ----- arithmetic

  lemma AddContains(a: IntervalRange, b: IntervalRange, x: int, y: int)
    requires a.Proper() && b.Proper() && a.Has(x) && b.Has(y)
    ensures a.Add(b).Has(x + y) && a.Add(b).Proper()
    ensures a.Sub(b).Has(x - y) && a.Sub(b).Proper()
  {
  }

  lemma ProductBetween(k: int, c: int, d: int, y: int)
    requires c <= y <= d
    ensures Least(k * c, k * d) <= k * y <= Greatest(k * c, k * d)
  {
    if k >= 0 {
      assert k * c <= k * y <= k * d;
    } else {
      assert k * d <= k * y <= k * c;
    }
  }

  lemma MulContains(a: IntervalRange, b: IntervalRange, x: int, y: int)
    requires a.Proper() && b.Proper() && a.Has(x) && b.Has(y)
    ensures a.Mul(b).Has(x * y) && a.Mul(b).Proper()
  {
    if a.Mul(b) != IntervalRange(None, None) {
      var (l, h, c, d) := (a.min.value, a.max.value, b.min.value, b.max.value);
      ProductBetween(y, l, h, x);
      ProductBetween(l, c, d, y);
      ProductBetween(h, c, d, y);
      assert y * l == l * y && y * h == h * y && y * x == x * y;
    }
  }

  ghost predicate IsSum(a: IntervalRange, b: IntervalRange, z: int) {
    exists x, y :: a.Has(x) && b.Has(y) && x + y == z
  }

  ghost predicate IsProduct(a: IntervalRange, b: IntervalRange, z: int) {
    exists x, y :: a.Has(x) && b.Has(y) && x * y == z
  }

  /** A value of the interval near `z`. */
  function Nearest(a: IntervalRange, z: int): int {
    if a.min.Some? && z < a.min.value then a.min.value else if a.max.Some? && z > a.max.value then a.max.value else z
  }

  /** Where no bound overflows, every value of the result is a sum. */
  lemma AddIsExact(a: IntervalRange, b: IntervalRange, z: int)
    requires a.Proper() && b.Proper()
    requires a.min.Some? && b.min.Some? ==> Checked(a.min.value + b.min.value).Some?
    requires a.max.Some? && b.max.Some? ==> Checked(a.max.value + b.max.value).Some?
    ensures a.Add(b).Has(z) <==> IsSum(a, b, z)
  {
    if a.Add(b).Has(z) {
      var x := Nearest(a, z - Nearest(b, 0));
      var y := z - x;
      if b.min.Some? && y < b.min.value {
        x := z - b.min.value;
      } else if b.max.Some? && y > b.max.value {
        x := z - b.max.value;
      }
      assert a.Has(x) && b.Has(z - x) && x + (z - x) == z;
    }
    if IsSum(a, b, z) {
      var x, y :| a.Has(x) && b.Has(y) && x + y == z;
      AddContains(a, b, x, y);
    }
  }

  /** Finite bounds of a product are products, so no smaller interval would do. */
  lemma MulIsTight(a: IntervalRange, b: IntervalRange)
    requires a.Proper() && b.Proper()
    ensures var r := a.Mul(b);
      && (r.min.Some? ==> IsProduct(a, b, r.min.value)) && (r.max.Some? ==> IsProduct(a, b, r.max.value))
  {
    var r := a.Mul(b);
    if r.min.Some? {
      var (l, h, c, d) := (a.min.value, a.max.value, b.min.value, b.max.value);
      assert a.Has(l) && a.Has(h) && b.Has(c) && b.Has(d);
      assert IsProduct(a, b, l * c) && IsProduct(a, b, l * d) && IsProduct(a, b, h * c) && IsProduct(a, b, h * d);
    }
  }

  /** The hull of a well-formed range is a proper interval with its values and bounds. */
  lemma HullContains(r: ValueRange, x: int)
    requires r.WellFormed() && (r.Interval? || r.Union?)
    ensures r.Hull().Interval? && r.Hull().WellFormed()
    ensures r.Has(x) ==> r.Hull().Has(x)
  {
  }

  /** Every sum, difference and product of values is in the result's range, which is
      well-formed again. */
  lemma ArithmeticContains(a: ValueRange, b: ValueRange, x: int, y: int)
    requires a.WellFormed() && b.WellFormed() && a.Has(x) && b.Has(y)
    ensures a.Add(b).WellFormed() && a.Add(b).Has(x + y)
    ensures a.Sub(b).WellFormed() && a.Sub(b).Has(x - y)
    ensures a.Mul(b).WellFormed() && a.Mul(b).Has(x * y)
  {
    if (a.Interval? || a.Union?) && (b.Interval? || b.Union?) {
      HullContains(a, x);
      HullContains(b, y);
      AddContains(a.Hull().range, b.Hull().range, x, y);
      MulContains(a.Hull().range, b.Hull().range, x, y);
    }
  }

  // ----- the bounds of arithmetic, and what unions and the extreme ranges give

  ghost predicate IsDifference(a: IntervalRange, b: IntervalRange, z: int) {
    exists x, y :: a.Has(x) && b.Has(y) && x - y == z
  }

  predicate Fits(x: int) {
    MIN_I64 <= x <= MAX_I64
  }

  /** A lower bound of the result is the least sum or difference, and there is one
      exactly when there is a least that fits; likewise above. */
  lemma AddBoundsAreExact(a: IntervalRange, b: IntervalRange, m: int)
    requires a.Proper() && b.Proper()
    ensures a.Add(b).min == Some(m) <==> Fits(m) && IsSum(a, b, m) && forall z :: IsSum(a, b, z) ==> m <= z
    ensures a.Add(b).max == Some(m) <==> Fits(m) && IsSum(a, b, m) && forall z :: IsSum(a, b, z) ==> z <= m
  {
    if a.min.Some? && b.min.Some? {
      assert a.Has(a.min.value) && b.Has(b.min.value) && IsSum(a, b, a.min.value + b.min.value);
    } else {
      SumsGoDown(a, b, m);
    }
    if a.max.Some? && b.max.Some? {
      assert a.Has(a.max.value) && b.Has(b.max.value) && IsSum(a, b, a.max.value + b.max.value);
    } else {
      SumsGoUp(a, b, m);
    }
  }

  lemma SumsGoDown(a: IntervalRange, b: IntervalRange, m: int)
    requires a.Proper() && b.Proper() && (a.min.None? || b.min.None?)
    ensures exists z :: IsSum(a, b, z) && z < m
  {
    var x, y;
    if a.min.None? {
      y := LowestValue(b, 0);
      x := LowestValue(a, m - y - 1);
    } else {
      x := LowestValue(a, 0);
      y := LowestValue(b, m - x - 1);
    }
    assert IsSum(a, b, x + y);
  }

  lemma SumsGoUp(a: IntervalRange, b: IntervalRange, m: int)
    requires a.Proper() && b.Proper() && (a.max.None? || b.max.None?)
    ensures exists z :: IsSum(a, b, z) && m < z
  {
    var x, y;
    if a.max.None? {
      y := HighestValue(b, 0);
      x := HighestValue(a, m - y + 1);
    } else {
      x := HighestValue(a, 0);
      y := HighestValue(b, m - x + 1);
    }
    assert IsSum(a, b, x + y);
  }

  lemma SubBoundsAreExact(a: IntervalRange, b: IntervalRange, m: int)
    requires a.Proper() && b.Proper()
    ensures a.Sub(b).min == Some(m) <==> Fits(m) && IsDifference(a, b, m) && forall z :: IsDifference(a, b, z) ==> m <= z
    ensures a.Sub(b).max == Some(m) <==> Fits(m) && IsDifference(a, b, m) && forall z :: IsDifference(a, b, z) ==> z <= m
  {
    if a.min.Some? && b.max.Some? {
      assert a.Has(a.min.value) && b.Has(b.max.value) && IsDifference(a, b, a.min.value - b.max.value);
    } else {
      DifferencesGoDown(a, b, m);
    }
    if a.max.Some? && b.min.Some? {
      assert a.Has(a.max.value) && b.Has(b.min.value) && IsDifference(a, b, a.max.value - b.min.value);
    } else {
      DifferencesGoUp(a, b, m);
    }
  }

  lemma DifferencesGoDown(a: IntervalRange, b: IntervalRange, m: int)
    requires a.Proper() && b.Proper() && (a.min.None? || b.max.None?)
    ensures exists z :: IsDifference(a, b, z) && z < m
  {
    var x, y;
    if a.min.None? {
      y := HighestValue(b, 0);
      x := LowestValue(a, m + y - 1);
    } else {
      x := LowestValue(a, 0);
      y := HighestValue(b, x - m + 1);
    }
    assert IsDifference(a, b, x - y);
  }

  lemma DifferencesGoUp(a: IntervalRange, b: IntervalRange, m: int)
    requires a.Proper() && b.Proper() && (a.max.None? || b.min.None?)
    ensures exists z :: IsDifference(a, b, z) && m < z
  {
    var x, y;
    if a.max.None? {
      y := LowestValue(b, 0);
      x := HighestValue(a, m + y + 1);
    } else {
      x := HighestValue(a, 0);
      y := LowestValue(b, x - m - 1);
    }
    assert IsDifference(a, b, x - y);
  }

  predicate Finite(a: IntervalRange) {
    a.min.Some? && a.max.Some?
  }

  /** A product of finite intervals none of whose products overflows has the least and
      the greatest product for its bounds; every other product is unbounded. */
  lemma MulBoundsAreExact(a: IntervalRange, b: IntervalRange)
    requires a.Proper() && b.Proper()
    ensures var r := a.Mul(b);
      if Finite(a) && Finite(b) && forall z :: IsProduct(a, b, z) ==> Fits(z) then
        && Finite(r) && IsProduct(a, b, r.min.value) && IsProduct(a, b, r.max.value)
        && forall z :: IsProduct(a, b, z) ==> r.min.value <= z <= r.max.value
      else r == IntervalRange(None, None)
  {
    var r := a.Mul(b);
    if Finite(a) && Finite(b) {
      CornersAreProducts(a, b);
      if Finite(r) {
        MulIsTight(a, b);
        forall z | IsProduct(a, b, z)
          ensures r.min.value <= z <= r.max.value
        {
          var x, y :| a.Has(x) && b.Has(y) && x * y == z;
          MulContains(a, b, x, y);
        }
        MulContains(a, b, a.min.value, b.min.value);
      }
    }
  }

  lemma CornersAreProducts(a: IntervalRange, b: IntervalRange)
    requires a.Proper() && b.Proper() && Finite(a) && Finite(b)
    ensures IsProduct(a, b, a.min.value * b.min.value) && IsProduct(a, b, a.min.value * b.max.value)
    ensures IsProduct(a, b, a.max.value * b.min.value) && IsProduct(a, b, a.max.value * b.max.value)
  {
    assert a.Has(a.min.value) && a.Has(a.max.value) && b.Has(b.min.value) && b.Has(b.max.value);
  }

  /** The hull is the smallest interval around a range. */
  lemma HullIsSmallest(r: ValueRange, h: IntervalRange)
    requires r.WellFormed() && (r.Interval? || r.Union?) && Encloses(h, r)
    ensures r.Hull().Interval? && Encloses(h, r.Hull())
  {
    HullContains(r, 0);
    if h.min.Some? {
      var x := ReachesDown(r, h.min.value - 1);
    }
    if h.max.Some? {
      var x := ReachesUp(r, h.max.value + 1);
    }
  }

  /** No values on either side give none, all values on one side give all, and otherwise
      the operation is done on the hulls. */
  lemma ArithmeticCases(a: ValueRange, b: ValueRange)
    requires a.WellFormed() && b.WellFormed()
    ensures a.Bottom? || b.Bottom? ==> a.Add(b) == Bottom && a.Sub(b) == Bottom && a.Mul(b) == Bottom
    ensures (a.Top? && !b.Bottom?) || (b.Top? && !a.Bottom?) ==> a.Add(b) == Top && a.Sub(b) == Top && a.Mul(b) == Top
    ensures (a.Interval? || a.Union?) && (b.Interval? || b.Union?) ==>
              && a.Hull().Interval? && b.Hull().Interval?
              && a.Add(b) == Interval(a.Hull().range.Add(b.Hull().range))
              && a.Sub(b) == Interval(a.Hull().range.Sub(b.Hull().range))
              && a.Mul(b) == Interval(a.Hull().range.Mul(b.Hull().range))
  {
  }

  // ----- widening

  function Lower(r: ValueRange): Option<int> {
    if r.Hull().Interval? then r.Hull().range.min else None
  }

  function Upper(r: ValueRange): Option<int> {
    if r.Hull().Interval? then r.Hull().range.max else None
  }

  /** The second argument brings an infinite bound where the first has a finite one. */
  predicate LosesBound(a: ValueRange, b: ValueRange) {
    && (a.Interval? || a.Union?) && (b.Interval? || b.Union?)
    && ((Lower(a).Some? && Lower(b).None?) || (Upper(a).Some? && Upper(b).None?))
  }

  /** A value of `r` at or beyond a bound. */
  lemma ReachesDown(r: ValueRange, below: int) returns (x: int)
    requires r.WellFormed() && (r.Interval? || r.Union?)
    ensures r.Has(x)
    ensures if Lower(r).Some? then x == Lower(r).value else x <= below
  {
    var first := Pieces(r)[0];
    x := LowestValue(first, below);
    assert Pieces(r)[0].Has(x);
    PiecesHave(r, x);
  }

  lemma ReachesUp(r: ValueRange, above: int) returns (x: int)
    requires r.WellFormed() && (r.Interval? || r.Union?)
    ensures r.Has(x)
    ensures if Upper(r).Some? then x == Upper(r).value else x >= above
  {
    var last := |Pieces(r)| - 1;
    x := HighestValue(Pieces(r)[last], above);
    assert Pieces(r)[last].Has(x);
    PiecesHave(r, x);
  }

  lemma WidenInterval(h: IntervalRange, k: IntervalRange, x: int)
    requires h.Proper()
    ensures h.Widen(k).Proper()
    ensures h.Has(x) ==> h.Widen(k).Has(x)
    ensures k.Has(x) && (h.min.Some? ==> k.min.Some?) && (h.max.Some? ==> k.max.Some?) ==> h.Widen(k).Has(x)
    ensures h.min.Some? && k.min.None? && x < h.min.value ==> !h.Widen(k).Has(x)
    ensures h.max.Some? && k.max.None? && x > h.max.value ==> !h.Widen(k).Has(x)
  {
  }

  lemma WidenIsOnHulls(a: ValueRange, b: ValueRange)
    requires a.WellFormed() && b.WellFormed() && (a.Interval? || a.Union?) && (b.Interval? || b.Union?)
    ensures a.Hull().Interval? && b.Hull().Interval?
    ensures a.Widen(b) == Interval(a.Hull().range.Widen(b.Hull().range))
  {
  }

  /** Widening keeps the first argument's values, and covers the second's exactly when it
      is not handed a new infinite bound. */
  lemma WidenCovers(a: ValueRange, b: ValueRange)
    requires a.WellFormed() && b.WellFormed()
    ensures a.Widen(b).WellFormed()
    ensures forall x :: a.Has(x) ==> a.Widen(b).Has(x)
    ensures (forall x :: b.Has(x) ==> a.Widen(b).Has(x)) <==> !LosesBound(a, b)
  {
    if (a.Interval? || a.Union?) && (b.Interval? || b.Union?) {
      WidenIsOnHulls(a, b);
      WidenHullsCover(a, b);
    }
  }

  lemma WidenHullsCover(a: ValueRange, b: ValueRange)
    requires a.WellFormed() && b.WellFormed() && (a.Interval? || a.Union?) && (b.Interval? || b.Union?)
    requires a.Hull().Interval? && b.Hull().Interval?
    ensures var r := Interval(a.Hull().range.Widen(b.Hull().range));
      && r.WellFormed()
      && (forall x :: a.Has(x) ==> r.Has(x))
      && ((forall x :: b.Has(x) ==> r.Has(x)) <==> !LosesBound(a, b))
  {
    HullContains(a, 0);
    var h, k := a.Hull().range, b.Hull().range;
    WidenInterval(h, k, 0);
    forall x
      ensures a.Has(x) ==> h.Widen(k).Has(x)
      ensures b.Has(x) && !LosesBound(a, b) ==> h.Widen(k).Has(x)
    {
      HullContains(a, x);
      HullContains(b, x);
      WidenInterval(h, k, x);
    }
    if LosesBound(a, b) {
      LostBoundShows(a, b);
    }
  }

  lemma LostBoundShows(a: ValueRange, b: ValueRange)
    requires a.WellFormed() && b.WellFormed() && LosesBound(a, b)
    requires a.Hull().Interval? && b.Hull().Interval? && a.Hull().range.Proper()
    ensures exists x :: b.Has(x) && !a.Hull().range.Widen(b.Hull().range).Has(x)
  {
    var h, k := a.Hull().range, b.Hull().range;
    var x;
    if h.min.Some? && k.min.None? {
      x := ReachesDown(b, h.min.value - 1);
    } else {
      x := ReachesUp(b, h.max.value + 1);
    }
    WidenInterval(h, k, x);
  }

  /** No values on either side change nothing, and all values stay all values. */
  lemma WidenCases(a: ValueRange, b: ValueRange)
    ensures a.Bottom? ==> a.Widen(b) == b
    ensures b.Bottom? ==> a.Widen(b) == a
    ensures !a.Bottom? && !b.Bottom? && (a.Top? || b.Top?) ==> a.Widen(b) == Top
  {
  }

  /** A bound is given up exactly when the second argument has values beyond it, but not
      infinitely many; otherwise the first argument's bound is kept. */
  lemma WidenBoundsAreExact(a: ValueRange, b: ValueRange)
    requires a.WellFormed() && b.WellFormed() && (a.Interval? || a.Union?) && (b.Interval? || b.Union?)
    ensures var r := a.Widen(b);
      && r.Interval?
      && r.range.min ==
         (if Lower(a).Some? && Lower(b).Some? && (exists y :: b.Has(y) && y < Lower(a).value) then None else Lower(a))
      && r.range.max ==
         (if Upper(a).Some? && Upper(b).Some? && (exists y :: b.Has(y) && y > Upper(a).value) then None else Upper(a))
  {
    WidenIsOnHulls(a, b);
    forall y | b.Has(y)
      ensures (Lower(b).Some? ==> Lower(b).value <= y) && (Upper(b).Some? ==> y <= Upper(b).value)
    {
      HullContains(b, y);
    }
    var lo := ReachesDown(b, 0);
    var hi := ReachesUp(b, 0);
  }

  /** Widening by what an interval already covers keeps the interval. */
  lemma WidenIsStable(i: IntervalRange, b: ValueRange)
    requires i.Proper() && b.WellFormed() && !b.Top? && forall x :: b.Has(x) ==> i.Has(x)
    ensures Interval(i).Widen(b) == Interval(i)
  {
    if !b.Bottom? {
      WidenIsOnHulls(Interval(i), b);
      var lo := ReachesDown(b, if i.min.Some? then i.min.value - 1 else 0);
      var hi := ReachesUp(b, if i.max.Some? then i.max.value + 1 else 0);
      assert i.Has(lo) && i.Has(hi);
    }
  }

  /** How many more times a widened range can change. */
  function WideningRank(r: ValueRange): nat {
    match r
    case Bottom => 5
    case Union(_) => 4
    case Interval(i) => 1 + (if i.min.Some? then 1 else 0) + (if i.max.Some? then 1 else 0)
    case Top => 0
  }

  /** The range after widening by each of `rs` in turn. */
  function Widened(r: ValueRange, rs: seq<ValueRange>): ValueRange {
    if rs == [] then r else Widened(r, rs[..|rs| - 1]).Widen(rs[|rs| - 1])
  }

  /** How often that changed the range. */
  function Changes(r: ValueRange, rs: seq<ValueRange>): nat {
    if rs == [] then 0
    else
      var before := Widened(r, rs[..|rs| - 1]);
      Changes(r, rs[..|rs| - 1]) + if before.Widen(rs[|rs| - 1]) == before then 0 else 1
  }

  lemma WidenLowersRank(a: ValueRange, b: ValueRange)
    ensures a.Widen(b) == a || WideningRank(a.Widen(b)) < WideningRank(a)
  {
  }

  /** Any widening sequence, over any ranges, changes at most five times. */
  lemma {:induction false} WideningSettles(r: ValueRange, rs: seq<ValueRange>)
    ensures Changes(r, rs) + WideningRank(Widened(r, rs)) <= WideningRank(r) <= 5
  {
    if rs != [] {
      WideningSettles(r, rs[..|rs| - 1]);
      WidenLowersRank(Widened(r, rs[..|rs| - 1]), rs[|rs| - 1]);
    }
  }
}
