/** The def-use index: src/analysis/defuse.rs.

    Three flattened tables are built: use sites per variable, and definitions and uses
    per location.  A phi and an instruction of one block share a location when they
    have the same index.
  */
module DefUse {
  import opened Csr
  import opened Options

  datatype Phi = Phi(result: nat, operands: seq<nat>)

  datatype Instruction = Instruction(defs: seq<nat>, uses: seq<nat>)

  datatype Block = Block(phis: seq<Phi>, instructions: seq<Instruction>)

  /** The blocks, and the ids of the registered variables. */
  datatype Function = Function(blocks: seq<Block>, variables: seq<nat>)

  datatype UseSite = PhiOperand(block: nat, index: nat) | AtInstruction(block: nat, index: nat)

  // ----- the use visit

  function PhiVisits(b: nat, phis: seq<Phi>): seq<(nat, UseSite)> {
    if phis == [] then []
    else
      var last := |phis| - 1;
      PhiVisits(b, phis[..last]) + Tagged(phis[last].operands, PhiOperand(b, last))
  }

  function InstructionVisits(b: nat, instructions: seq<Instruction>): seq<(nat, UseSite)> {
    if instructions == [] then []
    else
      var last := |instructions| - 1;
      InstructionVisits(b, instructions[..last]) + Tagged(instructions[last].uses, AtInstruction(b, last))
  }

  /** Every variable occurrence with its site: block by block, phi operands first. */
  function Visits(blocks: seq<Block>): seq<(nat, UseSite)> {
    if blocks == [] then []
    else
      var last := |blocks| - 1;
      Visits(blocks[..last]) + PhiVisits(last, blocks[last].phis) + InstructionVisits(last, blocks[last].instructions)
  }

  // ----- locations

  function Max(a: nat, b: nat): nat {
    if a < b then b else a
  }

  /** The first location row of block `b`. */
  function Base(blocks: seq<Block>, b: nat): nat
    requires b <= |blocks|
  {
    if b == 0 then 0 else Base(blocks, b - 1) + Max(|blocks[b - 1].phis|, |blocks[b - 1].instructions|)
  }

  lemma {:induction false} BaseOrdered(blocks: seq<Block>, a: nat, b: nat)
    requires a <= b <= |blocks|
    ensures Base(blocks, a) <= Base(blocks, b)
  {
    if a < b {
      BaseOrdered(blocks, a, b - 1);
    }
  }

  function PhiLists(block: Block): (lists: seq<seq<nat>>)
    ensures |lists| == |block.phis|
  {
    seq(|block.phis|, i requires 0 <= i < |block.phis| => block.phis[i].operands)
  }

  function UseLists(block: Block): (lists: seq<seq<nat>>)
    ensures |lists| == |block.instructions|
  {
    seq(|block.instructions|, i requires 0 <= i < |block.instructions| => block.instructions[i].uses)
  }

  function DefLists(block: Block): (lists: seq<seq<nat>>)
    ensures |lists| == |block.instructions|
  {
    seq(|block.instructions|, i requires 0 <= i < |block.instructions| => block.instructions[i].defs)
  }

  /** Items that give row `base + i` the variables of list `i`, for the first `k` lists. */
  function Grouped(base: nat, lists: seq<seq<nat>>, k: nat): seq<(nat, nat)>
    requires k <= |lists|
  {
    if k == 0 then [] else Grouped(base, lists, k - 1) + Keyed(base + k - 1, lists[k - 1])
  }

  function Keyed(row: nat, xs: seq<nat>): (items: seq<(nat, nat)>)
    ensures |items| == |xs|
  {
    seq(|xs|, i requires 0 <= i < |xs| => (row, xs[i]))
  }

  function LocationUses(blocks: seq<Block>, b: nat): seq<(nat, nat)>
    requires b <= |blocks|
  {
    if b == 0 then []
    else
      var base, block := Base(blocks, b - 1), blocks[b - 1];
      LocationUses(blocks, b - 1)
      + Grouped(base, PhiLists(block), |block.phis|)
      + Grouped(base, UseLists(block), |block.instructions|)
  }

  function LocationDefs(blocks: seq<Block>, b: nat): seq<(nat, nat)>
    requires b <= |blocks|
  {
    if b == 0 then []
    else
      var base, block := Base(blocks, b - 1), blocks[b - 1];
      LocationDefs(blocks, b - 1) + Grouped(base, DefLists(block), |block.instructions|)
  }

  // ----- the index

  datatype DefUseIndex = DefUseIndex(
    useOffsets: seq<nat>, useValues: seq<UseSite>,
    blockRowBase: seq<nat>,
    locDefsOffsets: seq<nat>, locDefsValues: seq<nat>,
    locUsesOffsets: seq<nat>, locUsesValues: seq<nat>,
    unused: set<nat>)
  {
    /** The use sites of a variable, or nothing for one outside the registered range. */
    function UsesOf(v: nat): Option<seq<UseSite>> {
      if v + 1 < |useOffsets| && useOffsets[v] <= useOffsets[v + 1] <= |useValues|
      then Some(useValues[useOffsets[v]..useOffsets[v + 1]])
      else None
    }

    function RowOf(b: nat, index: nat): Option<nat> {
      if b + 1 < |blockRowBase| && blockRowBase[b] + index < blockRowBase[b + 1]
      then Some(blockRowBase[b] + index)
      else None
    }

    function UsesAt(b: nat, index: nat): seq<nat> {
      var row := RowOf(b, index);
      if row.Some? then CsrRow(locUsesOffsets, locUsesValues, row.value) else []
    }

    function DefsAt(b: nat, index: nat): seq<nat> {
      var row := RowOf(b, index);
      if row.Some? then CsrRow(locDefsOffsets, locDefsValues, row.value) else []
    }

    predicate IsUnused(v: nat) {
      v in unused
    }
  }

  /** One more than the largest registered id, or the number of ids if that is more. */
  function Capacity(variables: seq<nat>): nat {
    Max(AboveAll(variables), |variables|)
  }

  function AboveAll(ids: seq<nat>): (bound: nat)
    ensures forall v :: v in ids ==> v < bound
  {
    if ids == [] then 0
    else
      var front, last := ids[..|ids| - 1], ids[|ids| - 1];
      assert ids == front + [last];
      Max(AboveAll(front), last + 1)
  }

  /** The totals fit the 32-bit offsets. */
  ghost predicate Fits(f: Function) {
    && |Visits(f.blocks)| < MAX_U32 && Base(f.blocks, |f.blocks|) < MAX_U32
    && |LocationUses(f.blocks, |f.blocks|)| < MAX_U32 && |LocationDefs(f.blocks, |f.blocks|)| < MAX_U32
  }

  ghost predicate IsIndex(f: Function, x: DefUseIndex) {
    var n := Base(f.blocks, |f.blocks|);
    && IsTable(Visits(f.blocks), Capacity(f.variables), x.useOffsets, x.useValues)
    && |x.blockRowBase| == |f.blocks| + 1
    && (forall b: nat :: b <= |f.blocks| ==> x.blockRowBase[b] == Base(f.blocks, b))
    && IsTable(LocationUses(f.blocks, |f.blocks|), n, x.locUsesOffsets, x.locUsesValues)
    && IsTable(LocationDefs(f.blocks, |f.blocks|), n, x.locDefsOffsets, x.locDefsValues)
    && forall v: nat :: v in x.unused <==> v in f.variables && Row(Visits(f.blocks), v) == []
  }

  // ----- construction

  method RowBases(blocks: seq<Block>) returns (bases: seq<nat>)
    requires Base(blocks, |blocks|) < MAX_U32
    ensures |bases| == |blocks| + 1
    ensures forall b: nat :: b <= |blocks| ==> bases[b] == Base(blocks, b)
  {
    var total: nat := 0;
    bases := [0];
    for b := 0 to |blocks|
      invariant |bases| == b + 1 && total == Base(blocks, b)
      invariant forall k: nat :: k <= b ==> bases[k] == Base(blocks, k)
    {
      BaseOrdered(blocks, b + 1, |blocks|);
      total := Plus(total, Max(|blocks[b].phis|, |blocks[b].instructions|));
      bases := bases + [total];
    }
  }

  method CountItems<T>(items: seq<(nat, T)>, counts: array<nat>)
    requires |items| < MAX_U32 && counts.Length > 0 && forall i :: 0 <= i < counts.Length ==> counts[i] == 0
    modifies counts
    ensures Counted(items, counts[..])
  {
    hide Row, Counted;
    NothingCounted(items, counts[..]);
    for k := 0 to |items|
      invariant Counted(items[..k], counts[..])
    {
      ghost var was := counts[..];
      Tally(counts, items[k].0, 1);
      TallyCounts(items, k, was, counts[..]);
    }
    assert items[..|items|] == items;
  }

  method ScatterItems<T>(items: seq<(nat, T)>, ghost n: nat, cursors: array<nat>, values: array<T>)
    requires |items| < MAX_U32 && cursors as object != values as object
    requires Scattered(items, 0, n, cursors[..], values[..])
    modifies cursors, values
    ensures Scattered(items, |items|, n, cursors[..], values[..])
  {
    hide Scattered;
    for k := 0 to |items|
      invariant Scattered(items, k, n, cursors[..], values[..])
    {
      ghost var was, before := cursors[..], values[..];
      CursorCount(items, k, n, was, before);
      CsrPush(cursors, values, items[k].0, items[k].1);
      PushScatters(items, k, n, was, before, cursors[..], values[..]);
    }
  }

  /** Builds a table from a list of items visited twice, once to count and once to fill. */
  method BuildTable<T>(items: seq<(nat, T)>, n: nat, filler: T) returns (offsets: seq<nat>, values: seq<T>)
    requires |items| < MAX_U32
    ensures IsTable(items, n, offsets, values)
  {
    hide Row, Counted, Scattered, IsTable, Start;
    var counts := new nat[n + 1](_ => 0);
    CountItems(items, counts);
    var total := PrefixSum(counts, items);
    offsets := counts[..];
    var table := new T[total](_ => filler);
    var cursors := new nat[n + 1](i requires 0 <= i < |offsets| => offsets[i]);
    assert cursors[..] == offsets;
    ScatterStarts(items, n, cursors[..], table[..]);
    ScatterItems(items, n, cursors, table);
    ScatterEnds(items, n, offsets, cursors[..], table[..]);
    values := table[..];
  }

  /** Counts a whole list into one row. */
  lemma TallyManyCounts(items: seq<(nat, nat)>, row: nat, xs: seq<nat>, counts: seq<nat>, counts': seq<nat>)
    requires Counted(items, counts) && |counts'| == |counts| && |items| + |xs| <= MAX_U32
    requires forall i :: 0 <= i < |counts| && i != row + 1 ==> counts'[i] == counts[i]
    requires row + 1 < |counts| ==> counts'[row + 1] == Plus(counts[row + 1], |xs|)
    ensures Counted(items + Keyed(row, xs), counts')
  {
    hide Row;
    var longer := items + Keyed(row, xs);
    forall r: nat | r < |counts'| - 1
      ensures counts'[r + 1] == |Row(longer, r)|
    {
      assert counts[r + 1] == |Row(items, r)|;
      RowAppend(items, Keyed(row, xs), r);
      RowOfKeyed(row, xs, r);
      StartFits(items, r + 1);
      StartNext(items, r);
    }
  }

  lemma {:induction false} RowOfKeyed(row: nat, xs: seq<nat>, r: nat)
    ensures Row(Keyed(row, xs), r) == if row == r then xs else []
  {
    if xs == [] {
      assert Keyed(row, xs) == [];
    } else {
      var front, last := xs[..|xs| - 1], xs[|xs| - 1];
      RowOfKeyed(row, front, r);
      assert Keyed(row, xs)[..|xs| - 1] == Keyed(row, front);
      assert xs == front + [last];
    }
  }

  method TallyLists(counts: array<nat>, base: nat, lists: seq<seq<nat>>, ghost items: seq<(nat, nat)>)
    requires Counted(items, counts[..]) && |items| + |Grouped(base, lists, |lists|)| <= MAX_U32
    modifies counts
    ensures Counted(items + Grouped(base, lists, |lists|), counts[..])
  {
    hide Counted, Grouped;
    GroupedStep(base, lists, 0);
    assert items + [] == items;
    for i := 0 to |lists|
      invariant Counted(items + Grouped(base, lists, i), counts[..])
    {
      ghost var was := counts[..];
      GroupedOrdered(base, lists, i + 1, |lists|);
      GroupedStep(base, lists, i);
      Tally(counts, base + i, |lists[i]|);
      TallyManyCounts(items + Grouped(base, lists, i), base + i, lists[i], was, counts[..]);
      assert items + Grouped(base, lists, i + 1) == items + Grouped(base, lists, i) + Keyed(base + i, lists[i]);
    }
  }

  lemma GroupedStep(base: nat, lists: seq<seq<nat>>, i: nat)
    ensures Grouped(base, lists, 0) == []
    ensures i < |lists| ==> Grouped(base, lists, i + 1) == Grouped(base, lists, i) + Keyed(base + i, lists[i])
  {
  }

  lemma {:induction false} GroupedOrdered(base: nat, lists: seq<seq<nat>>, a: nat, b: nat)
    requires a <= b <= |lists|
    ensures |Grouped(base, lists, a)| <= |Grouped(base, lists, b)|
    ensures Grouped(base, lists, b)[..|Grouped(base, lists, a)|] == Grouped(base, lists, a)
    decreases b
  {
    if a < b {
      GroupedOrdered(base, lists, a, b - 1);
      assert Grouped(base, lists, b)[..|Grouped(base, lists, a)|] == Grouped(base, lists, b - 1)[..|Grouped(base, lists, a)|];
    }
  }

  /** `part` occurs in `items` from position `at`. */
  ghost predicate Occurs(items: seq<(nat, nat)>, at: nat, part: seq<(nat, nat)>) {
    at + |part| <= |items| && items[at..at + |part|] == part
  }

  method PushLists(cursors: array<nat>, values: array<nat>, base: nat, lists: seq<seq<nat>>,
                   ghost items: seq<(nat, nat)>, ghost n: nat, ghost at: nat)
    requires cursors != values && |items| < MAX_U32 && Occurs(items, at, Grouped(base, lists, |lists|))
    requires Scattered(items, at, n, cursors[..], values[..])
    modifies cursors, values
    ensures Scattered(items, at + |Grouped(base, lists, |lists|)|, n, cursors[..], values[..])
  {
    hide Scattered, Grouped;
    GroupedStep(base, lists, 0);
    for i := 0 to |lists|
      invariant at + |Grouped(base, lists, i)| <= |items|
      invariant Scattered(items, at + |Grouped(base, lists, i)|, n, cursors[..], values[..])
    {
      ghost var from := at + |Grouped(base, lists, i)|;
      GroupedOrdered(base, lists, i + 1, |lists|);
      GroupedStep(base, lists, i);
      PartOccurs(items, at, Grouped(base, lists, |lists|), Grouped(base, lists, i), Keyed(base + i, lists[i]));
      PushList(cursors, values, base + i, lists[i], items, n, from);
    }
  }

  lemma PartOccurs(items: seq<(nat, nat)>, at: nat, whole: seq<(nat, nat)>, front: seq<(nat, nat)>,
                   part: seq<(nat, nat)>)
    requires Occurs(items, at, whole) && |front| + |part| <= |whole| && whole[..|front| + |part|] == front + part
    ensures Occurs(items, at + |front|, part)
  {
    forall j | 0 <= j < |part|
      ensures items[at + |front| + j] == part[j]
    {
      assert items[at..at + |whole|][|front| + j] == whole[..|front| + |part|][|front| + j];
    }
  }

  method PushList(cursors: array<nat>, values: array<nat>, row: nat, xs: seq<nat>, ghost items: seq<(nat, nat)>,
                  ghost n: nat, ghost at: nat)
    requires cursors != values && |items| < MAX_U32 && Occurs(items, at, Keyed(row, xs))
    requires Scattered(items, at, n, cursors[..], values[..])
    modifies cursors, values
    ensures Scattered(items, at + |xs|, n, cursors[..], values[..])
  {
    hide Scattered;
    for j := 0 to |xs|
      invariant Scattered(items, at + j, n, cursors[..], values[..])
    {
      ghost var was, before := cursors[..], values[..];
      CursorCount(items, at + j, n, was, before);
      assert items[at + j] == items[at..at + |xs|][j] == (row, xs[j]);
      CsrPush(cursors, values, row, xs[j]);
      PushScatters(items, at + j, n, was, before, cursors[..], values[..]);
    }
  }

  lemma CursorCount<T>(items: seq<(nat, T)>, k: nat, n: nat, cursors: seq<nat>, values: seq<T>)
    requires k <= |items| && Scattered(items, k, n, cursors, values)
    ensures |cursors| == n + 1
  {
  }

  lemma UsesStep(blocks: seq<Block>, b: nat)
    ensures LocationUses(blocks, 0) == []
    ensures b < |blocks| ==>
              LocationUses(blocks, b + 1) == LocationUses(blocks, b)
                + Grouped(Base(blocks, b), PhiLists(blocks[b]), |blocks[b].phis|)
                + Grouped(Base(blocks, b), UseLists(blocks[b]), |blocks[b].instructions|)
  {
  }

  lemma {:induction false} UsesOrdered(blocks: seq<Block>, a: nat, b: nat)
    requires a <= b <= |blocks|
    ensures |LocationUses(blocks, a)| <= |LocationUses(blocks, b)|
    ensures LocationUses(blocks, b)[..|LocationUses(blocks, a)|] == LocationUses(blocks, a)
    decreases b
  {
    hide Grouped;
    if a < b {
      UsesOrdered(blocks, a, b - 1);
      assert LocationUses(blocks, b)[..|LocationUses(blocks, a)|] == LocationUses(blocks, b - 1)[..|LocationUses(blocks, a)|];
    }
  }

  lemma DefsStep(blocks: seq<Block>, b: nat)
    ensures LocationDefs(blocks, 0) == []
    ensures b < |blocks| ==>
              LocationDefs(blocks, b + 1) == LocationDefs(blocks, b)
                + Grouped(Base(blocks, b), DefLists(blocks[b]), |blocks[b].instructions|)
  {
  }

  lemma {:induction false} DefsOrdered(blocks: seq<Block>, a: nat, b: nat)
    requires a <= b <= |blocks|
    ensures |LocationDefs(blocks, a)| <= |LocationDefs(blocks, b)|
    ensures LocationDefs(blocks, b)[..|LocationDefs(blocks, a)|] == LocationDefs(blocks, a)
    decreases b
  {
    hide Grouped;
    if a < b {
      DefsOrdered(blocks, a, b - 1);
      assert LocationDefs(blocks, b)[..|LocationDefs(blocks, a)|] == LocationDefs(blocks, b - 1)[..|LocationDefs(blocks, a)|];
    }
  }

  method CountUses(blocks: seq<Block>, bases: seq<nat>, counts: array<nat>)
    requires |bases| == |blocks| + 1 && forall b: nat :: b <= |blocks| ==> bases[b] == Base(blocks, b)
    requires |LocationUses(blocks, |blocks|)| < MAX_U32
    requires counts.Length > 0 && forall i :: 0 <= i < counts.Length ==> counts[i] == 0
    modifies counts
    ensures Counted(LocationUses(blocks, |blocks|), counts[..])
  {
    hide Counted, Grouped, LocationUses;
    NothingCounted<nat>([], counts[..]);
    UsesStep(blocks, 0);
    for b := 0 to |blocks|
      invariant Counted(LocationUses(blocks, b), counts[..])
    {
      UsesStep(blocks, b);
      UsesOrdered(blocks, b + 1, |blocks|);
      TallyLists(counts, bases[b], PhiLists(blocks[b]), LocationUses(blocks, b));
      TallyLists(counts, bases[b], UseLists(blocks[b]),
                 LocationUses(blocks, b) + Grouped(bases[b], PhiLists(blocks[b]), |blocks[b].phis|));
    }
  }

  method FillUses(blocks: seq<Block>, bases: seq<nat>, cursors: array<nat>, values: array<nat>, ghost n: nat)
    requires |bases| == |blocks| + 1 && forall b: nat :: b <= |blocks| ==> bases[b] == Base(blocks, b)
    requires |LocationUses(blocks, |blocks|)| < MAX_U32 && cursors != values
    requires Scattered(LocationUses(blocks, |blocks|), 0, n, cursors[..], values[..])
    modifies cursors, values
    ensures Scattered(LocationUses(blocks, |blocks|), |LocationUses(blocks, |blocks|)|, n, cursors[..], values[..])
  {
    hide Scattered, Grouped, LocationUses, Occurs;
    ghost var items := LocationUses(blocks, |blocks|);
    UsesStep(blocks, 0);
    for b := 0 to |blocks|
      invariant |LocationUses(blocks, b)| <= |items|
      invariant Scattered(items, |LocationUses(blocks, b)|, n, cursors[..], values[..])
    {
      ghost var front := LocationUses(blocks, b);
      ghost var phis := Grouped(bases[b], PhiLists(blocks[b]), |blocks[b].phis|);
      ghost var instructions := Grouped(bases[b], UseLists(blocks[b]), |blocks[b].instructions|);
      UsesStep(blocks, b);
      UsesOrdered(blocks, b + 1, |blocks|);
      WholeOccurs(items);
      PartOccurs(items, 0, items, front, phis);
      PartOccurs(items, 0, items, front + phis, instructions);
      PushLists(cursors, values, bases[b], PhiLists(blocks[b]), items, n, |front|);
      PushLists(cursors, values, bases[b], UseLists(blocks[b]), items, n, |front + phis|);
    }
  }

  lemma WholeOccurs(items: seq<(nat, nat)>)
    ensures Occurs(items, 0, items)
  {
  }

  method CountDefs(blocks: seq<Block>, bases: seq<nat>, counts: array<nat>)
    requires |bases| == |blocks| + 1 && forall b: nat :: b <= |blocks| ==> bases[b] == Base(blocks, b)
    requires |LocationDefs(blocks, |blocks|)| < MAX_U32
    requires counts.Length > 0 && forall i :: 0 <= i < counts.Length ==> counts[i] == 0
    modifies counts
    ensures Counted(LocationDefs(blocks, |blocks|), counts[..])
  {
    hide Counted, Grouped, LocationDefs;
    NothingCounted<nat>([], counts[..]);
    DefsStep(blocks, 0);
    for b := 0 to |blocks|
      invariant Counted(LocationDefs(blocks, b), counts[..])
    {
      DefsStep(blocks, b);
      DefsOrdered(blocks, b + 1, |blocks|);
      TallyLists(counts, bases[b], DefLists(blocks[b]), LocationDefs(blocks, b));
    }
  }

  method FillDefs(blocks: seq<Block>, bases: seq<nat>, cursors: array<nat>, values: array<nat>, ghost n: nat)
    requires |bases| == |blocks| + 1 && forall b: nat :: b <= |blocks| ==> bases[b] == Base(blocks, b)
    requires |LocationDefs(blocks, |blocks|)| < MAX_U32 && cursors != values
    requires Scattered(LocationDefs(blocks, |blocks|), 0, n, cursors[..], values[..])
    modifies cursors, values
    ensures Scattered(LocationDefs(blocks, |blocks|), |LocationDefs(blocks, |blocks|)|, n, cursors[..], values[..])
  {
    hide Scattered, Grouped, LocationDefs, Occurs;
    ghost var items := LocationDefs(blocks, |blocks|);
    DefsStep(blocks, 0);
    for b := 0 to |blocks|
      invariant |LocationDefs(blocks, b)| <= |items|
      invariant Scattered(items, |LocationDefs(blocks, b)|, n, cursors[..], values[..])
    {
      ghost var front := LocationDefs(blocks, b);
      DefsStep(blocks, b);
      DefsOrdered(blocks, b + 1, |blocks|);
      WholeOccurs(items);
      PartOccurs(items, 0, items, front, Grouped(bases[b], DefLists(blocks[b]), |blocks[b].instructions|));
      PushLists(cursors, values, bases[b], DefLists(blocks[b]), items, n, |front|);
    }
  }

  method BuildLocationUses(blocks: seq<Block>, bases: seq<nat>) returns (offsets: seq<nat>, values: seq<nat>)
    requires |bases| == |blocks| + 1 && forall b: nat :: b <= |blocks| ==> bases[b] == Base(blocks, b)
    requires |LocationUses(blocks, |blocks|)| < MAX_U32
    ensures IsTable(LocationUses(blocks, |blocks|), Base(blocks, |blocks|), offsets, values)
  {
    hide Counted, Scattered, IsTable, Start, LocationUses;
    var n := bases[|blocks|];
    var counts := new nat[n + 1](_ => 0);
    CountUses(blocks, bases, counts);
    var total := PrefixSum(counts, LocationUses(blocks, |blocks|));
    offsets := counts[..];
    var table := new nat[total](_ => 0);
    var cursors := new nat[n + 1](i requires 0 <= i < |offsets| => offsets[i]);
    assert cursors[..] == offsets;
    ScatterStarts(LocationUses(blocks, |blocks|), n, cursors[..], table[..]);
    FillUses(blocks, bases, cursors, table, n);
    ScatterEnds(LocationUses(blocks, |blocks|), n, offsets, cursors[..], table[..]);
    values := table[..];
  }

  method BuildLocationDefs(blocks: seq<Block>, bases: seq<nat>) returns (offsets: seq<nat>, values: seq<nat>)
    requires |bases| == |blocks| + 1 && forall b: nat :: b <= |blocks| ==> bases[b] == Base(blocks, b)
    requires |LocationDefs(blocks, |blocks|)| < MAX_U32
    ensures IsTable(LocationDefs(blocks, |blocks|), Base(blocks, |blocks|), offsets, values)
  {
    hide Counted, Scattered, IsTable, Start, LocationDefs;
    var n := bases[|blocks|];
    var counts := new nat[n + 1](_ => 0);
    CountDefs(blocks, bases, counts);
    var total := PrefixSum(counts, LocationDefs(blocks, |blocks|));
    offsets := counts[..];
    var table := new nat[total](_ => 0);
    var cursors := new nat[n + 1](i requires 0 <= i < |offsets| => offsets[i]);
    assert cursors[..] == offsets;
    ScatterStarts(LocationDefs(blocks, |blocks|), n, cursors[..], table[..]);
    FillDefs(blocks, bases, cursors, table, n);
    ScatterEnds(LocationDefs(blocks, |blocks|), n, offsets, cursors[..], table[..]);
    values := table[..];
  }

  lemma RowEmptyByOffsets(variables: seq<nat>, offsets: seq<nat>, values: seq<UseSite>, visits: seq<(nat, UseSite)>,
                          v: nat)
    requires IsTable(visits, Capacity(variables), offsets, values) && v in variables
    ensures v + 1 < |offsets| && (offsets[v] == offsets[v + 1] <==> Row(visits, v) == [])
  {
  }

  /** The registered variables whose use row is empty. */
  method UnusedVariables(variables: seq<nat>, offsets: seq<nat>, values: seq<UseSite>,
                         ghost visits: seq<(nat, UseSite)>) returns (unused: set<nat>)
    requires IsTable(visits, Capacity(variables), offsets, values)
    ensures forall v: nat :: v in unused <==> v in variables && Row(visits, v) == []
  {
    hide Row, IsTable, Capacity;
    unused := {};
    for i := 0 to |variables|
      invariant forall v: nat :: v in unused <==> v in variables[..i] && Row(visits, v) == []
    {
      var v := variables[i];
      RowEmptyByOffsets(variables, offsets, values, visits, v);
      if offsets[v] == offsets[v + 1] {
        unused := unused + {v};
      }
      assert variables[..i + 1] == variables[..i] + [v];
    }
    assert variables[..|variables|] == variables;
  }

  method Build(f: Function) returns (x: DefUseIndex)
    requires Fits(f)
    ensures IsIndex(f, x)
  {
    hide IsTable, Row;
    var bases := RowBases(f.blocks);
    var usesOffsets, usesValues := BuildLocationUses(f.blocks, bases);
    var defsOffsets, defsValues := BuildLocationDefs(f.blocks, bases);
    var offsets, sites := BuildTable(Visits(f.blocks), Capacity(f.variables), AtInstruction(0, 0));
    var unused := UnusedVariables(f.variables, offsets, sites, Visits(f.blocks));
    x := DefUseIndex(offsets, sites, bases, defsOffsets, defsValues, usesOffsets, usesValues, unused);
  }

  // ----- the index agrees with the naive one

  lemma {:induction false} RowOfGrouped(base: nat, lists: seq<seq<nat>>, k: nat, r: nat)
    requires k <= |lists|
    ensures Row(Grouped(base, lists, k), r) == if base <= r < base + k then lists[r - base] else []
  {
    hide Row;
    if k == 0 {
      RowOfNone(r);
    } else {
      RowOfGrouped(base, lists, k - 1, r);
      RowAppend(Grouped(base, lists, k - 1), Keyed(base + k - 1, lists[k - 1]), r);
      RowOfKeyed(base + k - 1, lists[k - 1], r);
    }
  }

  lemma RowOfNone(r: nat)
    ensures Row<nat>([], r) == []
  {
  }

  /** The list at an index, if it is one. */
  function At(lists: seq<seq<nat>>, i: nat): seq<nat> {
    if i < |lists| then lists[i] else []
  }

  /** Only the block that owns a row contributes to it. */
  lemma {:induction false} UsesOfLocation(blocks: seq<Block>, n: nat, b: nat, i: nat)
    requires n <= |blocks| && b < |blocks| && i < Max(|blocks[b].phis|, |blocks[b].instructions|)
    ensures Row(LocationUses(blocks, n), Base(blocks, b) + i) ==
            if b < n then At(PhiLists(blocks[b]), i) + At(UseLists(blocks[b]), i) else []
  {
    hide Row, Grouped, LocationUses;
    UsesStep(blocks, 0);
    RowOfNone(Base(blocks, b) + i);
    if n > 0 {
      var c, r := n - 1, Base(blocks, b) + i;
      UsesOfLocation(blocks, c, b, i);
      UsesStep(blocks, c);
      var phis := Grouped(Base(blocks, c), PhiLists(blocks[c]), |blocks[c].phis|);
      var instructions := Grouped(Base(blocks, c), UseLists(blocks[c]), |blocks[c].instructions|);
      RowAppend(LocationUses(blocks, c) + phis, instructions, r);
      RowAppend(LocationUses(blocks, c), phis, r);
      RowOfGrouped(Base(blocks, c), PhiLists(blocks[c]), |blocks[c].phis|, r);
      RowOfGrouped(Base(blocks, c), UseLists(blocks[c]), |blocks[c].instructions|, r);
      RowsApart(blocks, b, i, c);
    }
  }

  lemma {:induction false} DefsOfLocation(blocks: seq<Block>, n: nat, b: nat, i: nat)
    requires n <= |blocks| && b < |blocks| && i < Max(|blocks[b].phis|, |blocks[b].instructions|)
    ensures Row(LocationDefs(blocks, n), Base(blocks, b) + i) == if b < n then At(DefLists(blocks[b]), i) else []
  {
    hide Row, Grouped, LocationDefs;
    DefsStep(blocks, 0);
    RowOfNone(Base(blocks, b) + i);
    if n > 0 {
      var c, r := n - 1, Base(blocks, b) + i;
      DefsOfLocation(blocks, c, b, i);
      DefsStep(blocks, c);
      RowAppend(LocationDefs(blocks, c), Grouped(Base(blocks, c), DefLists(blocks[c]), |blocks[c].instructions|), r);
      RowOfGrouped(Base(blocks, c), DefLists(blocks[c]), |blocks[c].instructions|, r);
      RowsApart(blocks, b, i, c);
    }
  }

  lemma RowsApart(blocks: seq<Block>, b: nat, i: nat, c: nat)
    requires b < |blocks| && c < |blocks| && i < Max(|blocks[b].phis|, |blocks[b].instructions|)
    ensures b < c ==> Base(blocks, b) + i < Base(blocks, c)
    ensures c < b ==> Base(blocks, c) + Max(|blocks[c].phis|, |blocks[c].instructions|) <= Base(blocks, b)
  {
    if b < c {
      BaseOrdered(blocks, b + 1, c);
    } else if c < b {
      BaseOrdered(blocks, c + 1, b);
    }
  }

  /** A variable's use sites are its occurrences in the visit, in order; a variable past
      the registered range has none recorded. */
  lemma UsesOfIsFilter(f: Function, x: DefUseIndex, v: nat)
    requires IsIndex(f, x)
    ensures x.UsesOf(v) == if v < Capacity(f.variables) then Some(Row(Visits(f.blocks), v)) else None
  {
    hide Row, Visits, Capacity;
    var visits := Visits(f.blocks);
    if v < Capacity(f.variables) {
      StartNext(visits, v);
      assert x.useOffsets[v + 1] == Start(visits, v + 1);
    }
  }

  // ----- the use sites, read off the blocks

  /** How often `v` occurs at a site. */
  function Occurrences(blocks: seq<Block>, v: nat, site: UseSite): nat {
    match site
    case PhiOperand(b, i) => if b < |blocks| && i < |blocks[b].phis| then multiset(blocks[b].phis[i].operands)[v] else 0
    case AtInstruction(b, i) =>
      if b < |blocks| && i < |blocks[b].instructions| then multiset(blocks[b].instructions[i].uses)[v] else 0
  }

  /** By block, the phi operands of a block before its instructions, and by index. */
  predicate SiteBefore(a: UseSite, c: UseSite) {
    || a.block < c.block
    || (a.block == c.block && a.PhiOperand? && c.AtInstruction?)
    || (a.block == c.block && a.PhiOperand? == c.PhiOperand? && a.index < c.index)
  }

  ghost predicate InSiteOrder(sites: seq<UseSite>) {
    forall j, k :: 0 <= j < k < |sites| ==> SiteBefore(sites[j], sites[k]) || sites[j] == sites[k]
  }

  ghost predicate VisitsInOrder(items: seq<(nat, UseSite)>) {
    forall j, k :: 0 <= j < k < |items| ==> SiteBefore(items[j].1, items[k].1) || items[j].1 == items[k].1
  }

  lemma OrderedAppend(a: seq<(nat, UseSite)>, c: seq<(nat, UseSite)>)
    requires VisitsInOrder(a) && VisitsInOrder(c)
    requires forall x, y :: x in a && y in c ==> SiteBefore(x.1, y.1)
    ensures VisitsInOrder(a + c)
  {
    hide SiteBefore;
  }

  lemma TaggedVisits(xs: seq<nat>, site: UseSite)
    ensures VisitsInOrder(Tagged(xs, site)) && forall x :: x in Tagged(xs, site) ==> x.1 == site
  {
  }

  lemma {:induction false} TaggedCount(xs: seq<nat>, tag: UseSite, v: nat, site: UseSite)
    ensures multiset(Tagged(xs, tag))[(v, site)] == if site == tag then multiset(xs)[v] else 0
  {
    if xs != [] {
      var front, last := xs[..|xs| - 1], xs[|xs| - 1];
      TaggedCount(front, tag, v, site);
      assert xs == front + [last];
      assert Tagged(xs, tag) == Tagged(front, tag) + [(last, tag)];
    }
  }

  lemma {:induction false} PhiVisitsAre(b: nat, phis: seq<Phi>, v: nat, site: UseSite)
    ensures multiset(PhiVisits(b, phis))[(v, site)] ==
            if site.PhiOperand? && site.block == b && site.index < |phis| then multiset(phis[site.index].operands)[v] else 0
    ensures VisitsInOrder(PhiVisits(b, phis))
    ensures forall x :: x in PhiVisits(b, phis) ==> x.1.PhiOperand? && x.1.block == b && x.1.index < |phis|
  {
    if phis != [] {
      var front, last := phis[..|phis| - 1], phis[|phis| - 1];
      var more := Tagged(last.operands, PhiOperand(b, |front|));
      PhiVisitsAre(b, front, v, site);
      TaggedVisits(last.operands, PhiOperand(b, |front|));
      TaggedCount(last.operands, PhiOperand(b, |front|), v, site);
      OrderedAppend(PhiVisits(b, front), more);
      assert PhiVisits(b, phis) == PhiVisits(b, front) + more;
      hide VisitsInOrder, Tagged;
      assert multiset(PhiVisits(b, front) + more) == multiset(PhiVisits(b, front)) + multiset(more);
    }
  }

  lemma {:induction false} InstructionVisitsAre(b: nat, instructions: seq<Instruction>, v: nat, site: UseSite)
    ensures multiset(InstructionVisits(b, instructions))[(v, site)] ==
            if site.AtInstruction? && site.block == b && site.index < |instructions|
            then multiset(instructions[site.index].uses)[v] else 0
    ensures VisitsInOrder(InstructionVisits(b, instructions))
    ensures forall x :: x in InstructionVisits(b, instructions) ==>
              x.1.AtInstruction? && x.1.block == b && x.1.index < |instructions|
  {
    if instructions != [] {
      var front, last := instructions[..|instructions| - 1], instructions[|instructions| - 1];
      var more := Tagged(last.uses, AtInstruction(b, |front|));
      InstructionVisitsAre(b, front, v, site);
      TaggedVisits(last.uses, AtInstruction(b, |front|));
      TaggedCount(last.uses, AtInstruction(b, |front|), v, site);
      OrderedAppend(InstructionVisits(b, front), more);
      assert InstructionVisits(b, instructions) == InstructionVisits(b, front) + more;
      hide VisitsInOrder, Tagged;
      assert multiset(InstructionVisits(b, front) + more) == multiset(InstructionVisits(b, front)) + multiset(more);
    }
  }

  lemma {:induction false} VisitsAre(blocks: seq<Block>, v: nat, site: UseSite)
    ensures multiset(Visits(blocks))[(v, site)] == Occurrences(blocks, v, site)
    ensures VisitsInOrder(Visits(blocks))
    ensures forall x :: x in Visits(blocks) ==> x.1.block < |blocks|
  {
    hide VisitsInOrder;
    if blocks == [] {
      NoVisits();
    } else {
      var front, last := blocks[..|blocks| - 1], blocks[|blocks| - 1];
      var before, phis := Visits(front), PhiVisits(|front|, last.phis);
      var instructions := InstructionVisits(|front|, last.instructions);
      VisitsAre(front, v, site);
      PhiVisitsAre(|front|, last.phis, v, site);
      InstructionVisitsAre(|front|, last.instructions, v, site);
      OccurrencesSplit(front, last, v, site);
      assert blocks == front + [last];
      assert Visits(blocks) == before + phis + instructions;
      hide PhiVisits, InstructionVisits, Visits, Occurrences;
      OrderedAppend(before, phis);
      OrderedAppend(before + phis, instructions);
      assert multiset(before + phis + instructions) == multiset(before) + multiset(phis) + multiset(instructions);
    }
  }

  lemma OccurrencesSplit(front: seq<Block>, last: Block, v: nat, site: UseSite)
    ensures Occurrences(front + [last], v, site) ==
            Occurrences(front, v, site)
            + (if site.PhiOperand? && site.block == |front| && site.index < |last.phis|
               then multiset(last.phis[site.index].operands)[v] else 0)
            + if site.AtInstruction? && site.block == |front| && site.index < |last.instructions|
              then multiset(last.instructions[site.index].uses)[v] else 0
  {
  }

  lemma NoVisits()
    ensures VisitsInOrder([])
  {
  }

  lemma RowGrows(front: seq<(nat, UseSite)>, last: (nat, UseSite), v: nat)
    ensures Row(front + [last], v) == Row(front, v) + if last.0 == v then [last.1] else []
  {
  }

  lemma {:induction false} RowCount(items: seq<(nat, UseSite)>, v: nat, site: UseSite)
    ensures multiset(Row(items, v))[site] == multiset(items)[(v, site)]
  {
    if items != [] {
      var front, last := items[..|items| - 1], items[|items| - 1];
      RowCount(front, v, site);
      RowGrows(front, last, v);
      assert items == front + [last];
      hide Row;
      assert multiset(items) == multiset(front) + multiset{last};
    }
  }

  lemma {:induction false} RowInOrder(items: seq<(nat, UseSite)>, v: nat)
    requires VisitsInOrder(items)
    ensures InSiteOrder(Row(items, v)) && forall site :: site in Row(items, v) ==> (v, site) in items
  {
    if items != [] {
      var front, last := items[..|items| - 1], items[|items| - 1];
      RowInOrder(front, v);
      RowGrows(front, last, v);
      assert items == front + [last];
      hide SiteBefore, Row;
      forall site | site in Row(front, v)
        ensures SiteBefore(site, last.1) || site == last.1
      {
        var k :| 0 <= k < |front| && front[k] == (v, site);
        assert items[k] == front[k] && items[|front|] == last;
      }
      forall site | site in Row(items, v)
        ensures (v, site) in items
      {
        assert site in Row(front, v) || (last.0 == v && site == last.1);
      }
    }
  }

  /** The use sites of a variable: a phi's site as often as the variable is among its
      operands, an instruction's as often as it is among its uses, and no others; by block,
      phi operands first, and by index.  There is an answer for every variable up to the
      largest registered id, and for as many as are registered. */
  lemma UsesOfIsExact(f: Function, x: DefUseIndex, v: nat)
    requires IsIndex(f, x)
    ensures x.UsesOf(v).Some? <==> v < |f.variables| || exists u :: u in f.variables && v <= u
    ensures x.UsesOf(v).Some? ==>
              && InSiteOrder(x.UsesOf(v).value)
              && forall site :: multiset(x.UsesOf(v).value)[site] == Occurrences(f.blocks, v, site)
  {
    UsesOfIsFilter(f, x, v);
    CapacityIs(f.variables, v);
    hide IsIndex, Capacity, Visits, Row, InSiteOrder, Occurrences;
    VisitsAre(f.blocks, v, AtInstruction(0, 0));
    RowInOrder(Visits(f.blocks), v);
    forall site
      ensures multiset(Row(Visits(f.blocks), v))[site] == Occurrences(f.blocks, v, site)
    {
      VisitsAre(f.blocks, v, site);
      RowCount(Visits(f.blocks), v, site);
    }
  }

  lemma CapacityIs(variables: seq<nat>, v: nat)
    ensures v < Capacity(variables) <==> v < |variables| || exists u :: u in variables && v <= u
  {
    AboveAllIs(variables, v);
  }

  lemma {:induction false} AboveAllIs(ids: seq<nat>, v: nat)
    ensures v < AboveAll(ids) <==> exists u :: u in ids && v <= u
  {
    if ids != [] {
      var front, last := ids[..|ids| - 1], ids[|ids| - 1];
      AboveAllIs(front, v);
      assert ids == front + [last];
      assert v < AboveAll(ids) <==> v < AboveAll(front) || v <= last;
      if v <= last {
        assert last in ids;
      }
      if v < AboveAll(front) {
        var u :| u in front && v <= u;
        assert u in ids;
      }
    }
  }

  lemma LocationRowsAre(f: Function, x: DefUseIndex, b: nat, i: nat)
    requires IsIndex(f, x)
    ensures x.UsesAt(b, i) == if b < |f.blocks| then At(PhiLists(f.blocks[b]), i) + At(UseLists(f.blocks[b]), i) else []
    ensures x.DefsAt(b, i) == if b < |f.blocks| then At(DefLists(f.blocks[b]), i) else []
  {
    hide IsTable, LocationUses, LocationDefs, Visits, Capacity;
    var n := |f.blocks|;
    if b < n {
      assert x.blockRowBase[b + 1] == Base(f.blocks, b + 1);
      if i < Max(|f.blocks[b].phis|, |f.blocks[b].instructions|) {
        var row := Base(f.blocks, b) + i;
        BaseOrdered(f.blocks, b + 1, n);
        UsesOfLocation(f.blocks, n, b, i);
        DefsOfLocation(f.blocks, n, b, i);
        CsrRowIsRow(LocationUses(f.blocks, n), Base(f.blocks, n), x.locUsesOffsets, x.locUsesValues, row);
        CsrRowIsRow(LocationDefs(f.blocks, n), Base(f.blocks, n), x.locDefsOffsets, x.locDefsValues, row);
      }
    }
  }

  /** The uses at a location are the operands of the phi with that index, then the uses of
      the instruction with that index; the definitions are the instruction's alone. */
  lemma UsesAtIsNaive(f: Function, x: DefUseIndex, b: nat, i: nat)
    requires IsIndex(f, x)
    ensures x.UsesAt(b, i) ==
            (if b < |f.blocks| && i < |f.blocks[b].phis| then f.blocks[b].phis[i].operands else [])
            + if b < |f.blocks| && i < |f.blocks[b].instructions| then f.blocks[b].instructions[i].uses else []
    ensures x.DefsAt(b, i) ==
            if b < |f.blocks| && i < |f.blocks[b].instructions| then f.blocks[b].instructions[i].defs else []
  {
    LocationRowsAre(f, x, b, i);
    hide IsIndex;
  }

  lemma {:induction false} RowEmptyIff<T>(items: seq<(nat, T)>, r: nat)
    ensures Row(items, r) == [] <==> forall i :: 0 <= i < |items| ==> items[i].0 != r
  {
    if items != [] {
      RowEmptyIff(items[..|items| - 1], r);
    }
  }

  predicate Occurring(block: Block, v: nat) {
    || (exists i :: 0 <= i < |block.phis| && v in block.phis[i].operands)
    || exists i :: 0 <= i < |block.instructions| && v in block.instructions[i].uses
  }

  predicate Among(items: seq<(nat, UseSite)>, v: nat) {
    exists i :: 0 <= i < |items| && items[i].0 == v
  }

  lemma AmongConcat(a: seq<(nat, UseSite)>, b: seq<(nat, UseSite)>, v: nat)
    ensures Among(a + b, v) <==> Among(a, v) || Among(b, v)
  {
    if Among(a, v) {
      var i :| 0 <= i < |a| && a[i].0 == v;
      assert (a + b)[i].0 == v;
    }
    if Among(b, v) {
      var i :| 0 <= i < |b| && b[i].0 == v;
      assert (a + b)[|a| + i].0 == v;
    }
  }

  lemma AmongTagged(xs: seq<nat>, site: UseSite, v: nat)
    ensures Among(Tagged(xs, site), v) <==> v in xs
  {
    if v in xs {
      var i :| 0 <= i < |xs| && xs[i] == v;
      assert Tagged(xs, site)[i].0 == v;
    }
  }

  lemma {:induction false} PhiVisitsHold(b: nat, phis: seq<Phi>, v: nat)
    ensures Among(PhiVisits(b, phis), v) <==> exists i :: 0 <= i < |phis| && v in phis[i].operands
  {
    if phis != [] {
      var front, last := phis[..|phis| - 1], phis[|phis| - 1];
      PhiVisitsHold(b, front, v);
      AmongConcat(PhiVisits(b, front), Tagged(last.operands, PhiOperand(b, |front|)), v);
      AmongTagged(last.operands, PhiOperand(b, |front|), v);
      assert phis == front + [last];
    }
  }

  lemma {:induction false} InstructionVisitsHold(b: nat, instructions: seq<Instruction>, v: nat)
    ensures Among(InstructionVisits(b, instructions), v) <==>
            exists i :: 0 <= i < |instructions| && v in instructions[i].uses
  {
    if instructions != [] {
      var front, last := instructions[..|instructions| - 1], instructions[|instructions| - 1];
      InstructionVisitsHold(b, front, v);
      AmongConcat(InstructionVisits(b, front), Tagged(last.uses, AtInstruction(b, |front|)), v);
      AmongTagged(last.uses, AtInstruction(b, |front|), v);
      assert instructions == front + [last];
    }
  }

  lemma {:induction false} VisitsHold(blocks: seq<Block>, v: nat)
    ensures Among(Visits(blocks), v) <==> exists b :: 0 <= b < |blocks| && Occurring(blocks[b], v)
  {
    hide Among, Occurring;
    if blocks == [] {
      NoneAmong(v);
    } else {
      var front, last := blocks[..|blocks| - 1], blocks[|blocks| - 1];
      VisitsHold(front, v);
      BlockVisitsHold(|front|, last, v);
      AmongConcat(Visits(front), PhiVisits(|front|, last.phis), v);
      AmongConcat(Visits(front) + PhiVisits(|front|, last.phis), InstructionVisits(|front|, last.instructions), v);
      assert blocks == front + [last];
      if Occurring(last, v) {
        assert Occurring(blocks[|front|], v);
      }
    }
  }

  lemma NoneAmong(v: nat)
    ensures !Among([], v)
  {
  }

  lemma BlockVisitsHold(b: nat, block: Block, v: nat)
    ensures Among(PhiVisits(b, block.phis), v) || Among(InstructionVisits(b, block.instructions), v) <==>
            Occurring(block, v)
  {
    PhiVisitsHold(b, block.phis, v);
    InstructionVisitsHold(b, block.instructions, v);
  }

  /** A registered variable is reported unused exactly when it occurs nowhere. */
  lemma UnusedIsExact(f: Function, x: DefUseIndex, v: nat)
    requires IsIndex(f, x)
    ensures x.IsUnused(v) <==> v in f.variables && !exists b :: 0 <= b < |f.blocks| && Occurring(f.blocks[b], v)
  {
    RowEmptyIff(Visits(f.blocks), v);
    VisitsHold(f.blocks, v);
    hide Visits, Row, IsTable, LocationUses, LocationDefs, Occurring;
  }
}
