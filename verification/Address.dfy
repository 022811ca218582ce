/** Address normalization and aliasing of decoded accesses: src/analysis/address.rs,
    the indirect locations of src/analysis/memory.rs, and the pointer-width masking of
    src/pointer.rs.

    Values are integers, compared by their low bits at the pointer width `w`.
  */
module Address {
  import opened Bits
  import opened Options

  // ----- 64-bit signed arithmetic

  const MIN_I64: int := -0x8000_0000_0000_0000
  const MAX_I64: int := 0x7fff_ffff_ffff_ffff
  const MAX_U64: int := 0xffff_ffff_ffff_ffff

  predicate IsI64(x: int) {
    MIN_I64 <= x <= MAX_I64
  }

  function Checked(x: int): Option<int> {
    if IsI64(x) then Some(x) else None
  }

  function Saturating(x: int): int {
    if x < MIN_I64 then MIN_I64 else if x > MAX_I64 then MAX_I64 else x
  }

  /** Pointer widths in bits. */
  predicate IsPointerWidth(w: nat) {
    w in {8, 16, 32, 64, 128}
  }

  function MaskSigned(x: int, w: nat): int {
    if w < 64 then Signed(Low(x, w), w) else x
  }

  // ----- definitions

  /** `Pass` is a copy or a bitcast; `Conv` converts a value of `from` bits to `to`
      bits, as integer conversions and those between integers and pointers do. */
  datatype Op =
    | Pass(src: nat)
    | Conv(src: nat, from: nat, to: nat, unsigned: bool)
    | PtrAdd(base: nat, index: Option<nat>, stride: nat, offset: int)
    | Add(left: nat, right: nat)
    | Sub(left: nat, right: nat)
    | Mul(left: nat, right: nat)
    | Shl(value: nat, amount: nat)
    | Const(payload: Option<int>)
    | Other

  /** The defining operation of each value, if an instruction defines it. */
  type Function = seq<Option<Op>>

  function Definition(f: Function, v: nat): Option<Op> {
    if v < |f| then f[v] else None
  }

  function ConstI64(f: Function, v: nat): Option<int> {
    var d := Definition(f, v);
    if d.Some? && d.value.Const? then d.value.payload else None
  }

  function ConstU64(f: Function, v: nat): Option<nat> {
    var c := ConstI64(f, v);
    if c.Some? && c.value >= 0 then Some(c.value) else None
  }

  // ----- normalization

  const MAX_ADDRESS_DEPTH: nat := 8

  datatype AddressExpr = AddressExpr(base: nat, index: Option<nat>, strideBytes: nat, offsetBits: int)

  function Identity(v: nat): AddressExpr {
    AddressExpr(v, None, 0, 0)
  }

  function ByteOf(bits: int): int {
    bits / 8
  }

  function BitInByte(bits: int): int {
    bits % 8
  }

  function CanonicalOffsetBits(offsetBits: int, w: nat): int {
    Saturating(Saturating(MaskSigned(ByteOf(offsetBits), w) * 8) + BitInByte(offsetBits))
  }

  function FoldOffset(base: AddressExpr, offset: int, v: nat, w: nat): AddressExpr {
    var folded := Checked(base.offsetBits + offset);
    if folded.Some? then base.(offsetBits := CanonicalOffsetBits(folded.value, w)) else Identity(v)
  }

  /** An index and its stride, when `v` scales a value by a constant. */
  function ScaledIndex(f: Function, v: nat): Option<(nat, nat)> {
    match Definition(f, v)
    case Some(Mul(left, right)) =>
      if ConstU64(f, right).Some? then Some((left, ConstU64(f, right).value))
      else if ConstU64(f, left).Some? then Some((right, ConstU64(f, left).value))
      else None
    case Some(Shl(value, amount)) =>
      var k := ConstU64(f, amount);
      if k.Some? && k.value < 64 then Some((value, Pow2(k.value))) else None
    case _ => None
  }

  function CheckedBits(bytes: Option<int>): Option<int> {
    if bytes.Some? then Checked(bytes.value * 8) else None
  }

  function Normalize(f: Function, v: nat, w: nat): AddressExpr {
    NormalizeInner(f, v, MAX_ADDRESS_DEPTH, w)
  }

  function NormalizeInner(f: Function, v: nat, depth: nat, w: nat): AddressExpr
    decreases depth, 1
  {
    if depth == 0 then Identity(v)
    else match Definition(f, v)
      case Some(Pass(src)) => NormalizeInner(f, src, depth - 1, w)
      case Some(Conv(src, _, _, _)) => NormalizeInner(f, src, depth - 1, w)
      case Some(PtrAdd(base, index, stride, offset)) =>
        var baseExpr := NormalizeInner(f, base, depth - 1, w);
        var bits := Checked(offset * 8);
        if bits.None? then Identity(v)
        else
          var expr := FoldOffset(baseExpr, bits.value, v, w);
          if expr.base == v || index.None? then expr
          else if expr.index.Some? then Identity(v)
          else expr.(index := index, strideBytes := stride)
      case Some(Add(left, right)) => NormalizeAdd(f, v, left, right, depth, w)
      case Some(Sub(left, right)) =>
        var offset := CheckedBits(ConstI64(f, right));
        if offset.None? then Identity(v)
        else
          var base := NormalizeInner(f, left, depth - 1, w);
          var negated := Checked(0 - offset.value);
          if negated.None? then Identity(v) else FoldOffset(base, negated.value, v, w)
      case _ => Identity(v)
  }

  function NormalizeAdd(f: Function, v: nat, left: nat, right: nat, depth: nat, w: nat): AddressExpr
    requires depth > 0
    decreases depth, 0
  {
    var rightBits, leftBits := CheckedBits(ConstI64(f, right)), CheckedBits(ConstI64(f, left));
    if rightBits.Some? then FoldOffset(NormalizeInner(f, left, depth - 1, w), rightBits.value, v, w)
    else if leftBits.Some? then FoldOffset(NormalizeInner(f, right, depth - 1, w), leftBits.value, v, w)
    else
      var rightIndex, leftIndex := ScaledIndex(f, right), ScaledIndex(f, left);
      var leftBase, rightBase := NormalizeInner(f, left, depth - 1, w), NormalizeInner(f, right, depth - 1, w);
      if rightIndex.Some? && leftBase.index.None? then
        leftBase.(index := Some(rightIndex.value.0), strideBytes := rightIndex.value.1)
      else if leftIndex.Some? && rightBase.index.None? then
        rightBase.(index := Some(leftIndex.value.0), strideBytes := leftIndex.value.1)
      else Identity(v)
  }

  // ----- offsets stay in the signed pointer range

  /** Half the address space, in bits of memory. */
  function HalfSpan(w: nat): nat
    requires w > 0
  {
    8 * Pow2(w - 1)
  }

  /** The offsets normalization produces: whole bytes, inside the signed pointer range
      where that is narrower than the 64-bit accumulator. */
  predicate IsCanonical(offsetBits: int, w: nat)
    requires w > 0
  {
    IsI64(offsetBits) && (w < 64 ==> 0 - HalfSpan(w) <= offsetBits < HalfSpan(w))
  }

  lemma NarrowSpan(w: nat)
    requires IsPointerWidth(w) && w < 64
    ensures 0 - HalfSpan(w) >= MIN_I64 && HalfSpan(w) <= MAX_I64
  {
    Pow2Grows(w - 1, 31);
    TwoToThe31();
    hide Pow2;
  }

  lemma TwoToThe31()
    ensures Pow2(31) == 0x8000_0000
  {
    Pow2Split(8, 7);
    Pow2Split(8, 8);
    Pow2Split(16, 15);
    SmallPowers();
    hide Pow2;
  }

  lemma SmallPowers()
    ensures Pow2(3) == 8 && Pow2(4) == 16 && Pow2(7) == 0x80 && Pow2(8) == 0x100
  {
  }

  lemma ByteSplit(bytes: int, bit: int)
    requires 0 <= bit < 8
    ensures ByteOf(bytes * 8 + bit) == bytes && BitInByte(bytes * 8 + bit) == bit
  {
  }

  lemma ByteJoin(bits: int)
    ensures bits == ByteOf(bits) * 8 + BitInByte(bits) && 0 <= BitInByte(bits) < 8
  {
  }

  lemma ByteSum(bits: int, bytes: int)
    ensures ByteOf(bits + bytes * 8) == ByteOf(bits) + bytes && BitInByte(bits + bytes * 8) == BitInByte(bits)
  {
  }

  lemma SaturatingIsIdentity(x: int)
    requires IsI64(x)
    ensures Saturating(x) == x
  {
  }

  lemma CanonicalRange(bytes: int, bit: int, w: nat)
    requires IsPointerWidth(w) && w < 64 && 0 - Pow2(w - 1) <= bytes < Pow2(w - 1) && 0 <= bit < 8
    ensures IsI64(bytes * 8) && IsCanonical(bytes * 8 + bit, w)
  {
    NarrowSpan(w);
    hide Pow2;
  }

  /** Reducing an offset changes neither its low bits nor its place inside the byte,
      brings it into range, and never has to saturate. */
  lemma CanonicalOffset(o: int, w: nat)
    requires IsPointerWidth(w) && IsI64(o)
    ensures var c := CanonicalOffsetBits(o, w);
      && IsCanonical(c, w) && BitInByte(c) == BitInByte(o)
      && Congruent(ByteOf(c), ByteOf(o), w)
      && (w >= 64 ==> c == o)
  {
    hide Low, Pow2, Signed, ByteOf, BitInByte, Saturating, IsPointerWidth, IsI64;
    var bytes, bit := MaskSigned(ByteOf(o), w), BitInByte(o);
    ByteJoin(o);
    WidthIsPositive(w);
    if w < 64 {
      SignedOfLow(ByteOf(o), w);
      CanonicalRange(bytes, bit, w);
    } else {
      WholeBytesFit(o);
    }
    SaturatingIsIdentity(bytes * 8);
    SaturatingIsIdentity(bytes * 8 + bit);
    ByteSplit(bytes, bit);
  }

  lemma WidthIsPositive(w: nat)
    requires IsPointerWidth(w)
    ensures w > 0
  {
  }

  lemma WholeBytesFit(o: int)
    requires IsI64(o)
    ensures IsI64(ByteOf(o) * 8)
  {
  }

  /** An expression with a canonical offset of whole bytes. */
  predicate IsTidy(e: AddressExpr, w: nat)
    requires w > 0
  {
    IsCanonical(e.offsetBits, w) && BitInByte(e.offsetBits) == 0
  }

  lemma IdentityIsTidy(v: nat, w: nat)
    requires IsPointerWidth(w)
    ensures IsTidy(Identity(v), w)
  {
  }

  lemma FoldIsTidy(e: AddressExpr, bytes: int, v: nat, w: nat)
    requires IsPointerWidth(w) && IsTidy(e, w)
    ensures IsTidy(FoldOffset(e, bytes * 8, v, w), w)
  {
    hide CanonicalOffsetBits, IsCanonical, ByteOf, BitInByte, IsI64, IsPointerWidth;
    WidthIsPositive(w);
    IdentityIsTidy(v, w);
    ByteSum(e.offsetBits, bytes);
    if IsI64(e.offsetBits + bytes * 8) {
      CanonicalOffset(e.offsetBits + bytes * 8, w);
    }
  }

  lemma {:induction false} NormalizeIsCanonical(f: Function, v: nat, depth: nat, w: nat)
    requires IsPointerWidth(w)
    ensures IsTidy(NormalizeInner(f, v, depth, w), w)
    decreases depth
  {
    hide FoldOffset, IsCanonical, BitInByte, ScaledIndex, ConstI64, IsI64, IsPointerWidth;
    WidthIsPositive(w);
    IdentityIsTidy(v, w);
    if depth > 0 {
      match Definition(f, v)
      case Some(Pass(src)) =>
        NormalizeIsCanonical(f, src, depth - 1, w);
      case Some(Conv(src, _, _, _)) =>
        NormalizeIsCanonical(f, src, depth - 1, w);
      case Some(PtrAdd(base, index, stride, offset)) =>
        NormalizeIsCanonical(f, base, depth - 1, w);
        FoldIsTidy(NormalizeInner(f, base, depth - 1, w), offset, v, w);
      case Some(Add(left, right)) =>
        NormalizeIsCanonical(f, left, depth - 1, w);
        NormalizeIsCanonical(f, right, depth - 1, w);
        if ConstI64(f, right).Some? {
          FoldIsTidy(NormalizeInner(f, left, depth - 1, w), ConstI64(f, right).value, v, w);
        }
        if ConstI64(f, left).Some? {
          FoldIsTidy(NormalizeInner(f, right, depth - 1, w), ConstI64(f, left).value, v, w);
        }
      case Some(Sub(left, right)) =>
        NormalizeIsCanonical(f, left, depth - 1, w);
        if ConstI64(f, right).Some? {
          FoldIsTidy(NormalizeInner(f, left, depth - 1, w), 0 - ConstI64(f, right).value, v, w);
        }
      case _ =>
    }
  }

  // ----- normalization keeps the address

  /** Operands come before the values defined from them. */
  ghost predicate Ordered(f: Function, rank: nat -> nat) {
    forall v: nat :: match Definition(f, v)
      case Some(Pass(src)) => rank(src) < rank(v)
      case Some(Conv(src, _, _, _)) => rank(src) < rank(v)
      case Some(PtrAdd(base, _, _, _)) => rank(base) < rank(v)
      case Some(Add(left, right)) => rank(left) < rank(v) && rank(right) < rank(v)
      case Some(Sub(left, _)) => rank(left) < rank(v)
      case _ => true
  }

  function Scaled(env: nat -> int, index: Option<nat>, stride: nat): int {
    if index.Some? then env(index.value) * stride else 0
  }

  /** What a conversion makes of the pattern `x` of `from` bits. */
  function Extended(x: int, from: nat, unsigned: bool): int {
    if unsigned then Low(x, from) else Signed(Low(x, from), from)
  }

  /** One value obeys its definition.  Addresses are computed modulo the pointer width;
      a conversion reads its operand as a pattern of `from` bits and fixes `to` bits of
      its result; a shift by a constant below the width multiplies, and one past it is
      left to the machine. */
  ghost predicate ObeysAt(f: Function, env: nat -> int, v: nat, w: nat) {
    match Definition(f, v)
    case Some(Pass(src)) => Congruent(env(v), env(src), w)
    case Some(Conv(src, from, to, unsigned)) =>
      0 <= env(src) < Pow2(from) && Congruent(env(v), Extended(env(src), from, unsigned), to)
    case Some(PtrAdd(base, index, stride, offset)) =>
      Congruent(env(v), env(base) + Scaled(env, index, stride) + offset, w)
    case Some(Add(left, right)) => Congruent(env(v), env(left) + env(right), w)
    case Some(Sub(left, right)) => Congruent(env(v), env(left) - env(right), w)
    case Some(Mul(left, right)) => Congruent(env(v), env(left) * env(right), w)
    case Some(Shl(value, amount)) =>
      var k := ConstU64(f, amount);
      k.Some? && k.value < w ==> Congruent(env(v), env(value) * Pow2(k.value), w)
    case Some(Const(payload)) => payload.Some? ==> Congruent(env(v), payload.value, w)
    case _ => true
  }

  ghost predicate Obeys(f: Function, env: nat -> int, w: nat) {
    forall v: nat :: ObeysAt(f, env, v, w)
  }

  /** The definition is one normalization may read through: a conversion that keeps
      the operand's value at pointer width, or a shift by less than that width. */
  predicate FitsAt(f: Function, v: nat, w: nat) {
    match Definition(f, v)
    case Some(Conv(_, from, to, unsigned)) => to >= w && (from >= w || unsigned)
    case Some(Shl(_, amount)) => var k := ConstU64(f, amount); k.Some? && k.value < 64 ==> k.value < w
    case _ => true
  }

  predicate Fits(f: Function, w: nat) {
    forall v: nat :: v < |f| ==> FitsAt(f, v, w)
  }

  lemma CongruentBelow(a: int, b: int, m: nat, w: nat)
    requires Congruent(a, b, m) && w <= m
    ensures Congruent(a, b, w)
  {
    LowOfLow(a, w, m);
    LowOfLow(b, w, m);
    hide Low;
  }

  lemma ConversionKeeps(x: int, y: int, from: nat, to: nat, unsigned: bool, w: nat)
    requires 0 <= x < Pow2(from) && Congruent(y, Extended(x, from, unsigned), to)
    requires w > 0 && to >= w && (from >= w || unsigned)
    ensures Congruent(y, x, w)
  {
    CongruentBelow(y, Extended(x, from, unsigned), to, w);
    LowOfSmall(x, from);
    if !unsigned {
      SignedOfLow(x, from);
      hide Low, Signed;
      CongruentBelow(Extended(x, from, unsigned), x, from, w);
    }
  }

  lemma ConversionLoses(from: nat, to: nat, unsigned: bool, w: nat) returns (x: int, y: int)
    requires from > 0 && w > 0 && !(to >= w && (from >= w || unsigned))
    ensures 0 <= x < Pow2(from) && Congruent(y, Extended(x, from, unsigned), to) && !Congruent(y, x, w)
  {
    hide Low;
    if to < w {
      x, y := 0, Pow2(to);
      LowOfSmall(0, from);
      LowShift(0, 1, to);
      assert 0 + 1 * Pow2(to) == Pow2(to);
      StrictPow2(to, w);
      LowOfSmall(Pow2(to), w);
      LowOfSmall(0, w);
    } else {
      x, y := Pow2(from - 1), Pow2(from - 1) - Pow2(from);
      StrictPow2(from - 1, from);
      LowOfSmall(x, from);
      StrictPow2(from, w);
      if Congruent(y, x, w) {
        var k := Quotient(y, x, w);
        SmallMultiple(k, Pow2(w));
      }
    }
  }

  lemma StrictPow2(a: nat, b: nat)
    requires a < b
    ensures Pow2(a) < Pow2(b)
  {
    Pow2Grows(a + 1, b);
  }

  /** Reading through a conversion is right for every operand exactly when the result
      has the pointer width and the operand has it too or is zero-extended. */
  lemma ConversionFitsIff(from: nat, to: nat, unsigned: bool, w: nat)
    requires from > 0 && w > 0
    ensures (forall x: int, y: int ::
               0 <= x < Pow2(from) && Congruent(y, Extended(x, from, unsigned), to) ==> Congruent(y, x, w)) <==>
            to >= w && (from >= w || unsigned)
  {
    hide Low, Pow2, Extended, Congruent;
    if to >= w && (from >= w || unsigned) {
      forall x: int, y: int | 0 <= x < Pow2(from) && Congruent(y, Extended(x, from, unsigned), to)
        ensures Congruent(y, x, w)
      {
        ConversionKeeps(x, y, from, to, unsigned, w);
      }
    } else {
      var x, y := ConversionLoses(from, to, unsigned, w);
    }
  }

  /** What a function must not contain: a conversion that changes some operand's value at
      pointer width, and a shift by a constant from that width to 63. */
  lemma FitsAtIff(f: Function, v: nat, w: nat)
    requires w > 0 && v < |f| && f[v].Some? && (f[v].value.Conv? ==> f[v].value.from > 0)
    ensures f[v].value.Conv? ==>
              var op := f[v].value;
              FitsAt(f, v, w) <==>
              forall x: int, y: int ::
                0 <= x < Pow2(op.from) && Congruent(y, Extended(x, op.from, op.unsigned), op.to) ==> Congruent(y, x, w)
    ensures f[v].value.Shl? ==>
              (FitsAt(f, v, w) <==> forall k: nat :: w <= k < 64 ==> ConstI64(f, f[v].value.amount) != Some(k))
    ensures !f[v].value.Conv? && !f[v].value.Shl? ==> FitsAt(f, v, w)
  {
    if f[v].value.Conv? {
      var op := f[v].value;
      ConversionFitsIff(op.from, op.to, op.unsigned, w);
    }
    hide Low, Pow2, Extended, Congruent;
  }

  /** The byte address an expression denotes. */
  function Denotes(e: AddressExpr, env: nat -> int): int {
    env(e.base) + Scaled(env, e.index, e.strideBytes) + ByteOf(e.offsetBits)
  }

  lemma FoldKeepsBase(v: nat, w: nat)
    ensures forall e, offset :: FoldOffset(e, offset, v, w).base in {e.base, v}
    ensures forall e, offset :: FoldOffset(e, offset, v, w).base == v || FoldOffset(e, offset, v, w).index == e.index
  {
    hide CanonicalOffsetBits;
  }

  lemma {:induction false} BaseComesFirst(f: Function, rank: nat -> nat, v: nat, depth: nat, w: nat)
    requires Ordered(f, rank)
    ensures rank(NormalizeInner(f, v, depth, w).base) <= rank(v)
    decreases depth
  {
    hide FoldOffset, ScaledIndex, ConstI64, IsI64;
    FoldKeepsBase(v, w);
    if depth > 0 {
      match Definition(f, v)
      case Some(Pass(src)) =>
        BaseComesFirst(f, rank, src, depth - 1, w);
      case Some(Conv(src, _, _, _)) =>
        BaseComesFirst(f, rank, src, depth - 1, w);
      case Some(PtrAdd(base, _, _, _)) =>
        BaseComesFirst(f, rank, base, depth - 1, w);
      case Some(Add(left, right)) =>
        BaseComesFirst(f, rank, left, depth - 1, w);
        BaseComesFirst(f, rank, right, depth - 1, w);
      case Some(Sub(left, _)) =>
        BaseComesFirst(f, rank, left, depth - 1, w);
      case _ =>
    }
  }

  /** A canonical displacement is added to what the expression denotes. */
  lemma OffsetKeeps(e: AddressExpr, env: nat -> int, bytes: int, w: nat)
    requires IsPointerWidth(w) && IsI64(e.offsetBits + bytes * 8)
    ensures var e' := e.(offsetBits := CanonicalOffsetBits(e.offsetBits + bytes * 8, w));
      Congruent(Denotes(e', env), Denotes(e, env) + bytes, w)
  {
    hide Low, Pow2, CanonicalOffsetBits, ByteOf, BitInByte, IsI64, IsPointerWidth, IsCanonical;
    var folded := e.offsetBits + bytes * 8;
    WidthIsPositive(w);
    CanonicalOffset(folded, w);
    ByteSum(e.offsetBits, bytes);
    var rest := env(e.base) + Scaled(env, e.index, e.strideBytes);
    CongruentSum(rest, rest, ByteOf(CanonicalOffsetBits(folded, w)), ByteOf(folded), w);
  }

  lemma FoldKeeps(e: AddressExpr, env: nat -> int, bytes: int, v: nat, w: nat)
    requires IsPointerWidth(w) && Congruent(env(v), Denotes(e, env) + bytes, w)
    ensures Congruent(env(v), Denotes(FoldOffset(e, bytes * 8, v, w), env), w)
  {
    hide Low, CanonicalOffsetBits, IsI64, IsPointerWidth;
    if IsI64(e.offsetBits + bytes * 8) {
      OffsetKeeps(e, env, bytes, w);
    } else {
      IdentityKeeps(env, v);
    }
  }

  lemma IdentityKeeps(env: nat -> int, v: nat)
    ensures Denotes(Identity(v), env) == env(v)
  {
  }

  lemma ScaledIndexKeeps(f: Function, env: nat -> int, v: nat, w: nat)
    requires Obeys(f, env, w) && Fits(f, w) && ScaledIndex(f, v).Some?
    ensures var (i, stride) := ScaledIndex(f, v).value; Congruent(env(v), env(i) * stride, w)
  {
    hide Low, Pow2;
    assert ObeysAt(f, env, v, w) && FitsAt(f, v, w);
    match Definition(f, v)
    case Some(Mul(left, right)) =>
      assert ObeysAt(f, env, right, w) && ObeysAt(f, env, left, w);
      if ConstU64(f, right).Some? {
        CongruentProduct(env(left), env(left), env(right), ConstU64(f, right).value, w);
      } else {
        CongruentProduct(env(right), env(right), env(left), ConstU64(f, left).value, w);
        assert env(left) * env(right) == env(right) * env(left);
      }
    case _ =>
  }

  lemma BaseIsEarlier(f: Function, rank: nat -> nat, v: nat, base: nat, depth: nat, w: nat)
    requires Ordered(f, rank)
    requires Definition(f, v).Some? && Definition(f, v).value.PtrAdd? && Definition(f, v).value.base == base
    ensures NormalizeInner(f, base, depth, w).base != v
  {
    hide NormalizeInner;
    BaseComesFirst(f, rank, base, depth, w);
  }

  lemma ConvKeeps(f: Function, env: nat -> int, v: nat, src: nat, w: nat)
    requires IsPointerWidth(w) && Obeys(f, env, w) && Fits(f, w)
    requires Definition(f, v).Some? && Definition(f, v).value.Conv? && Definition(f, v).value.src == src
    ensures Congruent(env(v), env(src), w)
  {
    hide Low, Pow2, Extended;
    assert ObeysAt(f, env, v, w) && FitsAt(f, v, w);
    WidthIsPositive(w);
    var op := Definition(f, v).value;
    ConversionKeeps(env(src), env(v), op.from, op.to, op.unsigned, w);
  }

  lemma SubKeeps(f: Function, env: nat -> int, v: nat, left: nat, right: nat, depth: nat, w: nat)
    requires IsPointerWidth(w) && Obeys(f, env, w) && depth > 0 && Definition(f, v) == Some(Sub(left, right))
    requires Congruent(env(left), Denotes(NormalizeInner(f, left, depth - 1, w), env), w)
    ensures Congruent(env(v), Denotes(NormalizeInner(f, v, depth, w), env), w)
  {
    hide Low, FoldOffset, Denotes, IsI64, Pow2, IsPointerWidth;
    IdentityKeeps(env, v);
    assert ObeysAt(f, env, v, w) && ObeysAt(f, env, right, w);
    if CheckedBits(ConstI64(f, right)).Some? {
      var c, e := ConstI64(f, right).value, NormalizeInner(f, left, depth - 1, w);
      hide NormalizeInner;
      CongruentSum(env(left), Denotes(e, env), env(right), c, w);
      FoldKeeps(e, env, 0 - c, v, w);
    }
  }

  /** The normalized form of a value denotes the value, modulo the pointer width. */
  lemma {:induction false} NormalizeKeepsValue(f: Function, env: nat -> int, rank: nat -> nat, v: nat, depth: nat,
                                               w: nat)
    requires IsPointerWidth(w) && Ordered(f, rank) && Obeys(f, env, w) && Fits(f, w)
    ensures Congruent(env(v), Denotes(NormalizeInner(f, v, depth, w), env), w)
    decreases depth
  {
    hide NormalizeInner, Low, Denotes, IsPointerWidth, Congruent, Ordered, Obeys, Fits;
    if Stops(f, v, depth) {
      StopKeeps(f, env, v, depth, w);
    } else {
      match Definition(f, v).value
      case Pass(src) =>
        NormalizeKeepsValue(f, env, rank, src, depth - 1, w);
        PassKeeps(f, env, v, src, depth, w);
      case Conv(src, _, _, _) =>
        NormalizeKeepsValue(f, env, rank, src, depth - 1, w);
        PassKeeps(f, env, v, src, depth, w);
      case PtrAdd(base, index, stride, offset) =>
        NormalizeKeepsValue(f, env, rank, base, depth - 1, w);
        PtrAddKeepsValue(f, env, rank, v, base, index, stride, offset, depth, w);
      case Add(left, right) =>
        NormalizeKeepsValue(f, env, rank, left, depth - 1, w);
        NormalizeKeepsValue(f, env, rank, right, depth - 1, w);
        AddKeepsValue(f, env, v, left, right, depth, w);
      case Sub(left, right) =>
        NormalizeKeepsValue(f, env, rank, left, depth - 1, w);
        SubKeeps(f, env, v, left, right, depth, w);
    }
  }

  /** The walk takes `v` itself as the base. */
  predicate Stops(f: Function, v: nat, depth: nat) {
    || depth == 0 || Definition(f, v).None?
    || var op := Definition(f, v).value; op.Mul? || op.Shl? || op.Const? || op.Other?
  }

  lemma StopKeeps(f: Function, env: nat -> int, v: nat, depth: nat, w: nat)
    requires Stops(f, v, depth)
    ensures Congruent(env(v), Denotes(NormalizeInner(f, v, depth, w), env), w)
  {
    IdentityKeeps(env, v);
  }

  lemma PassKeeps(f: Function, env: nat -> int, v: nat, src: nat, depth: nat, w: nat)
    requires IsPointerWidth(w) && Obeys(f, env, w) && Fits(f, w) && depth > 0 && Definition(f, v).Some?
    requires var op := Definition(f, v).value; (op.Pass? || op.Conv?) && op.src == src
    requires Congruent(env(src), Denotes(NormalizeInner(f, src, depth - 1, w), env), w)
    ensures Congruent(env(v), Denotes(NormalizeInner(f, v, depth, w), env), w)
  {
    assert ObeysAt(f, env, v, w);
    if Definition(f, v).value.Conv? {
      ConvKeeps(f, env, v, src, w);
    }
  }

  lemma PtrAddKeepsValue(f: Function, env: nat -> int, rank: nat -> nat, v: nat, base: nat, index: Option<nat>,
                         stride: nat, offset: int, depth: nat, w: nat)
    requires IsPointerWidth(w) && Ordered(f, rank) && Obeys(f, env, w) && depth > 0
    requires Definition(f, v) == Some(PtrAdd(base, index, stride, offset))
    requires Congruent(env(base), Denotes(NormalizeInner(f, base, depth - 1, w), env), w)
    ensures Congruent(env(v), Denotes(NormalizeInner(f, v, depth, w), env), w)
  {
    hide Low, FoldOffset, Denotes, IsI64, IsPointerWidth, Scaled;
    IdentityKeeps(env, v);
    assert ObeysAt(f, env, v, w);
    BaseIsEarlier(f, rank, v, base, depth - 1, w);
    PtrAddKeeps(env, v, base, NormalizeInner(f, base, depth - 1, w), index, stride, offset, w);
  }

  lemma PtrAddKeeps(env: nat -> int, v: nat, base: nat, e: AddressExpr, index: Option<nat>, stride: nat, offset: int,
                    w: nat)
    requires IsPointerWidth(w) && e.base != v
    requires Congruent(env(v), env(base) + Scaled(env, index, stride) + offset, w)
    requires Congruent(env(base), Denotes(e, env), w)
    ensures var r := FoldOffset(e, offset * 8, v, w);
      Congruent(env(v),
                if r.base == v then Denotes(r, env)
                else if index.None? then Denotes(r, env)
                else if r.index.Some? then env(v)
                else Denotes(r.(index := index, strideBytes := stride), env), w)
  {
    hide Low, CanonicalOffsetBits, ByteOf, IsI64, IsPointerWidth;
    IdentityKeeps(env, v);
    var scaled := Scaled(env, index, stride);
    if IsI64(e.offsetBits + offset * 8) {
      OffsetKeeps(e, env, offset, w);
      var r := FoldOffset(e, offset * 8, v, w);
      CongruentSum(env(base), Denotes(e, env), scaled + offset, scaled + offset, w);
      CongruentSum(Denotes(r, env), Denotes(e, env) + offset, scaled, scaled, w);
    }
  }

  lemma AddKeeps(f: Function, env: nat -> int, v: nat, left: nat, right: nat, depth: nat, w: nat)
    requires IsPointerWidth(w) && Obeys(f, env, w) && Fits(f, w) && depth > 0
    requires Congruent(env(v), env(left) + env(right), w)
    requires Congruent(env(left), Denotes(NormalizeInner(f, left, depth - 1, w), env), w)
    requires Congruent(env(right), Denotes(NormalizeInner(f, right, depth - 1, w), env), w)
    ensures Congruent(env(v), Denotes(NormalizeAdd(f, v, left, right, depth, w), env), w)
  {
    hide Low, ScaledIndex, FoldOffset, NormalizeInner, IsPointerWidth, IsI64, ByteOf;
    IdentityKeeps(env, v);
    assert ObeysAt(f, env, left, w) && ObeysAt(f, env, right, w);
    var l, r := NormalizeInner(f, left, depth - 1, w), NormalizeInner(f, right, depth - 1, w);
    if CheckedBits(ConstI64(f, right)).Some? {
      var c := ConstI64(f, right).value;
      CongruentSum(env(left), Denotes(l, env), env(right), c, w);
      FoldKeeps(l, env, c, v, w);
    } else if CheckedBits(ConstI64(f, left)).Some? {
      var c := ConstI64(f, left).value;
      CongruentSum(env(right), Denotes(r, env), env(left), c, w);
      FoldKeeps(r, env, c, v, w);
    } else if ScaledIndex(f, right).Some? && l.index.None? {
      ScaledIndexKeeps(f, env, right, w);
      var (i, stride) := ScaledIndex(f, right).value;
      CongruentSum(env(left), Denotes(l, env), env(right), env(i) * stride, w);
    } else if ScaledIndex(f, left).Some? && r.index.None? {
      ScaledIndexKeeps(f, env, left, w);
      var (i, stride) := ScaledIndex(f, left).value;
      CongruentSum(env(right), Denotes(r, env), env(left), env(i) * stride, w);
    }
  }

  lemma AddKeepsValue(f: Function, env: nat -> int, v: nat, left: nat, right: nat, depth: nat, w: nat)
    requires IsPointerWidth(w) && Obeys(f, env, w) && Fits(f, w) && depth > 0
    requires Definition(f, v) == Some(Add(left, right))
    requires Congruent(env(left), Denotes(NormalizeInner(f, left, depth - 1, w), env), w)
    requires Congruent(env(right), Denotes(NormalizeInner(f, right, depth - 1, w), env), w)
    ensures Congruent(env(v), Denotes(NormalizeInner(f, v, depth, w), env), w)
  {
    hide Low, NormalizeAdd, Denotes, IsPointerWidth;
    assert ObeysAt(f, env, v, w);
    AddKeeps(f, env, v, left, right, depth, w);
  }

  // ----- where the walk stops

  predicate IsByteConst(f: Function, x: nat, c: int) {
    x < |f| && f[x] == Some(Const(Some(c))) && IsI64(c * 8)
  }

  ghost predicate HasByteConst(f: Function, x: nat) {
    exists c :: IsByteConst(f, x, c)
  }

  /** Folding the constant `x`, or its negation, into `e` overflows. */
  ghost predicate FoldOverflows(f: Function, x: nat, e: AddressExpr, sign: int) {
    exists c :: IsByteConst(f, x, c) && (!IsI64(sign * (c * 8)) || !IsI64(e.offsetBits + sign * (c * 8)))
  }

  ghost predicate IsNatConst(f: Function, x: nat, bound: int) {
    x < |f| && exists c: nat :: f[x] == Some(Const(Some(c))) && (bound > 0 ==> c < bound)
  }

  /** A product with a non-negative constant, or a shift by a constant below 64. */
  ghost predicate IsScaled(f: Function, x: nat) {
    && x < |f| && f[x].Some?
    && match f[x].value
       case Mul(left, right) => IsNatConst(f, right, 0) || IsNatConst(f, left, 0)
       case Shl(_, amount) => IsNatConst(f, amount, 64)
       case _ => false
  }

  /** The walk takes `v` for the base: depth is spent, `v` is not computed by an address
      operation, a displacement overflows, or there would be two index terms. */
  ghost predicate IsStuck(f: Function, v: nat, depth: nat, w: nat) {
    || depth == 0 || v >= |f| || f[v].None?
    || match f[v].value
       case Pass(_) => false
       case Conv(_, _, _, _) => false
       case PtrAdd(base, index, _, offset) =>
         var e := NormalizeInner(f, base, depth - 1, w);
         !IsI64(offset * 8) || !IsI64(e.offsetBits + offset * 8) || (index.Some? && e.index.Some?)
       case Add(left, right) =>
         var l, r := NormalizeInner(f, left, depth - 1, w), NormalizeInner(f, right, depth - 1, w);
         if HasByteConst(f, right) then FoldOverflows(f, right, l, 1)
         else if HasByteConst(f, left) then FoldOverflows(f, left, r, 1)
         else !(IsScaled(f, right) && l.index.None?) && !(IsScaled(f, left) && r.index.None?)
       case Sub(left, right) =>
         !HasByteConst(f, right) || FoldOverflows(f, right, NormalizeInner(f, left, depth - 1, w), -1)
       case _ => true
  }

  lemma ByteConstIs(f: Function, x: nat)
    ensures CheckedBits(ConstI64(f, x)).Some? <==> HasByteConst(f, x)
    ensures HasByteConst(f, x) ==> ConstI64(f, x).Some? && IsByteConst(f, x, ConstI64(f, x).value)
    ensures HasByteConst(f, x) ==> CheckedBits(ConstI64(f, x)) == Some(ConstI64(f, x).value * 8)
    ensures forall c :: IsByteConst(f, x, c) ==> ConstI64(f, x) == Some(c)
  {
    if CheckedBits(ConstI64(f, x)).Some? {
      assert IsByteConst(f, x, ConstI64(f, x).value);
    }
  }

  lemma ScaledIs(f: Function, x: nat)
    ensures ScaledIndex(f, x).Some? <==> IsScaled(f, x)
  {
    if x < |f| && f[x].Some? {
      match f[x].value
      case Mul(left, right) =>
        NatConstIs(f, left, 0);
        NatConstIs(f, right, 0);
      case Shl(_, amount) =>
        NatConstIs(f, amount, 64);
      case _ =>
    }
  }

  lemma NatConstIs(f: Function, x: nat, bound: int)
    ensures IsNatConst(f, x, bound) <==> ConstU64(f, x).Some? && (bound > 0 ==> ConstU64(f, x).value < bound)
  {
  }

  lemma FoldStops(e: AddressExpr, offset: int, v: nat, w: nat)
    requires e.base != v
    ensures FoldOffset(e, offset, v, w).base == v <==> !IsI64(e.offsetBits + offset)
    ensures IsI64(e.offsetBits + offset) ==> FoldOffset(e, offset, v, w).index == e.index
  {
    hide CanonicalOffsetBits;
  }

  lemma OverflowIs(f: Function, x: nat, e: AddressExpr, sign: int)
    requires HasByteConst(f, x)
    ensures var bits := sign * (ConstI64(f, x).value * 8);
      FoldOverflows(f, x, e, sign) <==> !IsI64(bits) || !IsI64(e.offsetBits + bits)
  {
    ByteConstIs(f, x);
    hide ConstI64, IsByteConst, IsI64;
    assert IsByteConst(f, x, ConstI64(f, x).value);
  }

  lemma AddStopsIff(f: Function, v: nat, left: nat, right: nat, depth: nat, w: nat)
    requires depth > 0 && v < |f| && f[v] == Some(Add(left, right))
    requires NormalizeInner(f, left, depth - 1, w).base != v && NormalizeInner(f, right, depth - 1, w).base != v
    ensures NormalizeInner(f, v, depth, w).base == v <==> IsStuck(f, v, depth, w)
  {
    var l, r := NormalizeInner(f, left, depth - 1, w), NormalizeInner(f, right, depth - 1, w);
    assert NormalizeInner(f, v, depth, w) == NormalizeAdd(f, v, left, right, depth, w);
    hide NormalizeInner, FoldOffset, ScaledIndex, ConstI64, IsI64, IsScaled, HasByteConst, FoldOverflows;
    ByteConstIs(f, left);
    ByteConstIs(f, right);
    ScaledIs(f, left);
    ScaledIs(f, right);
    if HasByteConst(f, right) {
      OverflowIs(f, right, l, 1);
      FoldStops(l, ConstI64(f, right).value * 8, v, w);
    } else if HasByteConst(f, left) {
      OverflowIs(f, left, r, 1);
      FoldStops(r, ConstI64(f, left).value * 8, v, w);
    }
  }

  lemma SubStopsIff(f: Function, v: nat, left: nat, right: nat, depth: nat, w: nat)
    requires depth > 0 && v < |f| && f[v] == Some(Sub(left, right))
    requires NormalizeInner(f, left, depth - 1, w).base != v
    ensures NormalizeInner(f, v, depth, w).base == v <==> IsStuck(f, v, depth, w)
  {
    var l := NormalizeInner(f, left, depth - 1, w);
    hide FoldOffset, ConstI64, HasByteConst, FoldOverflows;
    ByteConstIs(f, right);
    if HasByteConst(f, right) {
      OverflowIs(f, right, l, -1);
      FoldStops(l, 0 - ConstI64(f, right).value * 8, v, w);
    }
  }

  lemma PtrAddStopsIff(f: Function, v: nat, base: nat, index: Option<nat>, stride: nat, offset: int, depth: nat, w: nat)
    requires depth > 0 && v < |f| && f[v] == Some(PtrAdd(base, index, stride, offset))
    requires NormalizeInner(f, base, depth - 1, w).base != v
    ensures NormalizeInner(f, v, depth, w).base == v <==> IsStuck(f, v, depth, w)
  {
    hide FoldOffset;
    if IsI64(offset * 8) {
      FoldStops(NormalizeInner(f, base, depth - 1, w), offset * 8, v, w);
    }
  }

  /** Normalization stops at a value exactly where it is stuck; everywhere else it goes
      on to an earlier one. */
  lemma NormalizeStopsIff(f: Function, rank: nat -> nat, v: nat, depth: nat, w: nat)
    requires Ordered(f, rank)
    ensures NormalizeInner(f, v, depth, w).base == v <==> IsStuck(f, v, depth, w)
  {
    if depth > 0 && v < |f| && f[v].Some? {
      OperandsComeFirst(f, rank, v, depth - 1, w);
      match f[v].value
      case PtrAdd(base, index, stride, offset) => PtrAddStopsIff(f, v, base, index, stride, offset, depth, w);
      case Add(left, right) => AddStopsIff(f, v, left, right, depth, w);
      case Sub(left, right) => SubStopsIff(f, v, left, right, depth, w);
      case _ =>
    }
  }

  /** Walking on from the operands does not come back to `v`. */
  predicate OperandsLeave(f: Function, op: Op, v: nat, depth: nat, w: nat) {
    match op
    case Pass(src) => NormalizeInner(f, src, depth, w).base != v
    case Conv(src, _, _, _) => NormalizeInner(f, src, depth, w).base != v
    case PtrAdd(base, _, _, _) => NormalizeInner(f, base, depth, w).base != v
    case Add(left, right) =>
      NormalizeInner(f, left, depth, w).base != v && NormalizeInner(f, right, depth, w).base != v
    case Sub(left, _) => NormalizeInner(f, left, depth, w).base != v
    case _ => true
  }

  lemma OperandsComeFirst(f: Function, rank: nat -> nat, v: nat, depth: nat, w: nat)
    requires Ordered(f, rank) && v < |f| && f[v].Some?
    ensures OperandsLeave(f, f[v].value, v, depth, w)
  {
    hide NormalizeInner;
    assert Definition(f, v) == f[v];
    match f[v].value
    case Pass(src) => BaseComesFirst(f, rank, src, depth, w);
    case Conv(src, _, _, _) => BaseComesFirst(f, rank, src, depth, w);
    case PtrAdd(base, _, _, _) => BaseComesFirst(f, rank, base, depth, w);
    case Add(left, right) =>
      BaseComesFirst(f, rank, left, depth, w);
      BaseComesFirst(f, rank, right, depth, w);
    case Sub(left, _) => BaseComesFirst(f, rank, left, depth, w);
    case _ =>
  }

  // ----- different lowerings of one address

  /** Below 64 bits, displacements that agree modulo the pointer width fold to one
      offset, whether sign-extended or zero-extended. */
  lemma DisplacementsAgree(e: AddressExpr, a: int, b: int, v: nat, w: nat)
    requires IsPointerWidth(w) && w < 64 && Congruent(a, b, w)
    requires IsI64(e.offsetBits + a * 8) && IsI64(e.offsetBits + b * 8)
    ensures FoldOffset(e, a * 8, v, w) == FoldOffset(e, b * 8, v, w)
  {
    hide Low, Pow2, ByteOf, BitInByte, Signed, Saturating, IsI64;
    ByteSum(e.offsetBits, a);
    ByteSum(e.offsetBits, b);
    CongruentSum(ByteOf(e.offsetBits), ByteOf(e.offsetBits), a, b, w);
  }

  /** A conversion to fewer bits is read through all the same: with 64-bit pointers, the
      low half of a value is given the value's own address. */
  lemma NarrowingMisleads(env: nat -> int)
    requires env(0) == Pow2(32) && env(1) == 0
    ensures var f: Function := [None, Some(Conv(0, 64, 32, true))];
      && Obeys(f, env, 64) && Normalize(f, 1, 64) == Identity(0)
      && !Congruent(env(1), Denotes(Normalize(f, 1, 64), env), 64)
  {
    hide Low, Pow2;
    var f: Function := [None, Some(Conv(0, 64, 32, true))];
    StrictPow2(32, 64);
    LowOfSmall(Pow2(32), 64);
    LowOfSmall(0, 64);
    LowShift(0, 1, 32);
    assert 0 + 1 * Pow2(32) == Pow2(32);
    assert NormalizeInner(f, 0, 7, 64) == Identity(0);
    forall v: nat
      ensures ObeysAt(f, env, v, 64)
    {
    }
  }

  /** A shift past the pointer width is read as a stride all the same: with 32-bit
      pointers, a machine that shifts by the amount modulo 32 does not multiply. */
  lemma WideShiftMisleads(env: nat -> int)
    requires env(0) == 1 && env(1) == 40 && env(2) == 0x100 && env(3) == 0 && env(4) == 0x100
    ensures var f: Function := [None, Some(Const(Some(40))), Some(Shl(0, 1)), None, Some(Add(3, 2))];
      && Obeys(f, env, 32) && Normalize(f, 4, 32) == AddressExpr(3, Some(0), Pow2(40), 0)
      && !Congruent(env(4), Denotes(Normalize(f, 4, 32), env), 32)
  {
    hide Low, Pow2;
    var f: Function := [None, Some(Const(Some(40))), Some(Shl(0, 1)), None, Some(Add(3, 2))];
    assert ScaledIndex(f, 2) == Some((0, Pow2(40)));
    assert NormalizeInner(f, 3, 7, 32) == Identity(3);
    forall v: nat
      ensures ObeysAt(f, env, v, 32)
    {
    }
    Pow2Split(8, 32);
    LowShift(0, Pow2(8), 32);
    LowOfSmall(0, 32);
    SmallPowers();
    StrictPow2(8, 32);
    LowOfSmall(0x100, 32);
  }

  /** An address emitted as one operation and the same address shredded into a scaled
      index, by a product or a shift, and two additions, with the operands in any order,
      normalize to one expression, if neither runs out of depth. */
  lemma LoweringsAgree(f: Function, one: nat, shredded: nat, sum: nat, base: nat, scaled: nat, index: nat, stride: nat,
                       displacement: nat, offset: int, depth: nat, w: nat)
    requires depth >= 3
    requires Definition(f, one) == Some(PtrAdd(base, Some(index), stride, offset))
    requires Definition(f, shredded) in {Some(Add(sum, displacement)), Some(Add(displacement, sum))}
    requires || Definition(f, sum) == Some(Add(base, scaled))
             || (Definition(f, sum) == Some(Add(scaled, base)) && ScaledIndex(f, base).None?)
    requires ScaledIndex(f, scaled) == Some((index, stride)) && ConstI64(f, base).None?
    requires ConstI64(f, displacement) == Some(offset) && IsI64(offset * 8)
    requires var e := NormalizeInner(f, base, depth - 1, w);
      && e == NormalizeInner(f, base, depth - 2, w) && e.index.None? && e.base != one
      && IsI64(e.offsetBits + offset * 8)
    ensures NormalizeInner(f, one, depth, w) == NormalizeInner(f, shredded, depth, w)
  {
    hide CanonicalOffsetBits, IsI64, Pow2;
    var e := NormalizeInner(f, base, depth - 1, w);
    assert NormalizeInner(f, sum, depth - 1, w) == e.(index := Some(index), strideBytes := stride);
  }
}
