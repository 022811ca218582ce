/** Aliasing of decoded pointer accesses: `IndirectLocation` in src/analysis/memory.rs.

    An access touches bits of memory.  The address space of a `w`-bit pointer holds two
    to the power `w` bytes, so bit positions are taken modulo two to the power `w + 3`.
  */
module Aliasing {
  import opened Address
  import opened Bits
  import opened Options

  datatype Location = Location(
    base: nat,
    index: Option<nat>,
    strideBytes: nat,
    offsetBits: int,
    sizeBits: Option<nat>,
    space: Option<nat>,
    w: nat)

  /** The stride is zero when there is no index. */
  function New(base: nat, index: Option<nat>, stride: nat, offset: int, size: Option<nat>, space: Option<nat>,
               w: nat): (l: Location)
    ensures HasStride(l)
  {
    Location(base, index, if index.Some? then stride else 0, offset, size, space, w)
  }

  predicate HasStride(l: Location) {
    l.index.None? ==> l.strideBytes == 0
  }

  // ----- the alias rules

  /** One shifted left by `amount`, in 64-bit signed arithmetic: only an amount of 64 or
      more is refused, so the top bit comes out negative. */
  function CheckedShlOne(amount: nat): Option<int> {
    if amount >= 64 then None else if amount == 63 then Some(MIN_I64) else Some(Pow2(amount))
  }

  function MaxBits(w: nat): Option<int>
    requires w > 0
  {
    CheckedBits(CheckedShlOne(w - 1))
  }

  predicate CrossesWrapBoundary(l: Location)
    requires l.w > 0
  {
    && l.sizeBits.Some? && MaxBits(l.w).Some?
    && var end := Checked(l.offsetBits + l.sizeBits.value);
      end.None? || end.value > MaxBits(l.w).value
  }

  predicate IndexMatches(a: Location, b: Location) {
    (a.index.None? && b.index.None?) || (a.index.Some? && a.index == b.index && a.strideBytes == b.strideBytes)
  }

  predicate ExtentsOverlap(a: Location, b: Location)
    requires a.w > 0 && b.w > 0
  {
    || a.sizeBits.None? || b.sizeBits.None?
    || CrossesWrapBoundary(a) || CrossesWrapBoundary(b)
    || var aEnd, bEnd := Checked(a.offsetBits + a.sizeBits.value), Checked(b.offsetBits + b.sizeBits.value);
      aEnd.None? || bEnd.None? || (a.offsetBits < bEnd.value && b.offsetBits < aEnd.value)
  }

  predicate MayAlias(a: Location, b: Location)
    requires a.w > 0 && b.w > 0
  {
    if a.space != b.space then false
    else if a.base != b.base then true
    else if !IndexMatches(a, b) then true
    else ExtentsOverlap(a, b)
  }

  predicate MustAlias(a: Location, b: Location) {
    && a.space == b.space && a.base == b.base && IndexMatches(a, b) && a.offsetBits == b.offsetBits
    && a.sizeBits.Some? && a.sizeBits == b.sizeBits
  }

  // ----- the memory an access touches

  /** Bit `k` of the access, at one valuation of the values. */
  function BitAt(l: Location, env: nat -> int, k: int): nat {
    Low(8 * (env(l.base) + Scaled(env, l.index, l.strideBytes)) + l.offsetBits + k, l.w + 3)
  }

  predicate ShareBit(a: Location, b: Location, env: nat -> int, j: int, k: int)
    requires a.sizeBits.Some? && b.sizeBits.Some?
  {
    0 <= j < a.sizeBits.value && 0 <= k < b.sizeBits.value && BitAt(a, env, j) == BitAt(b, env, k)
  }

  /** The boundary test compares against half the space below 64 bits, and is off from
      there on: at 64 bits the boundary itself overflows. */
  lemma MaxBitsIsExact(w: nat)
    requires IsPointerWidth(w)
    ensures MaxBits(w) == if w < 64 then Some(HalfSpan(w)) else None
  {
    if w < 64 {
      NarrowSpan(w);
    }
  }

  /** From 64 bits on, the 64-bit accumulator is narrower than the space. */
  lemma CanonicalSpan(x: int, w: nat)
    requires IsPointerWidth(w) && IsCanonical(x, w)
    ensures 0 - HalfSpan(w) <= x < HalfSpan(w)
  {
    hide Pow2;
    if w >= 64 {
      Pow2Grows(63, w - 1);
      TwoToThe63();
    }
  }

  lemma TwoToThe63()
    ensures Pow2(63) == 0x8000_0000_0000_0000
  {
    TwoToThe31();
    SmallPowers();
    Pow2Split(8, 8);
    Pow2Split(16, 16);
    Pow2Split(32, 31);
    hide Pow2;
  }

  /** Bits of two accesses that run inside the signed pointer range are told apart by
      their offsets. */
  lemma OffsetsTellApart(x: int, y: int, rest: int, w: nat)
    requires IsPointerWidth(w) && IsCanonical(x, w) && IsCanonical(y, w)
    requires Low(rest + x, w + 3) == Low(rest + y, w + 3)
    ensures x == y
  {
    hide Low, Pow2, IsCanonical;
    CanonicalSpan(x, w);
    CanonicalSpan(y, w);
    SpanIsSpace(w);
    var k := Quotient(rest + x, rest + y, w + 3);
    SmallMultiple(k, Pow2(w + 3));
  }

  lemma SpanIsSpace(w: nat)
    requires w > 0
    ensures 2 * HalfSpan(w) == Pow2(w + 3)
  {
    Pow2Split(4, w - 1);
    assert Pow2(4) == 16;
  }

  /** Accesses in one space that are said not to alias share no bit, whatever the values
      at run time and wherever the address space wraps. */
  lemma NoAliasIsDisjoint(a: Location, b: Location, env: nat -> int, j: int, k: int)
    requires IsPointerWidth(a.w) && a.w == b.w && IsCanonical(a.offsetBits, a.w) && IsCanonical(b.offsetBits, b.w)
    requires a.space == b.space && !MayAlias(a, b)
    ensures a.sizeBits.Some? && b.sizeBits.Some?
    ensures !ShareBit(a, b, env, j, k)
  {
    hide Low, Pow2;
    MaxBitsIsExact(a.w);
    if ShareBit(a, b, env, j, k) {
      var rest := 8 * (env(a.base) + Scaled(env, a.index, a.strideBytes));
      assert rest + (a.offsetBits + j) == rest + a.offsetBits + j;
      assert rest + (b.offsetBits + k) == rest + b.offsetBits + k;
      OffsetsTellApart(a.offsetBits + j, b.offsetBits + k, rest, a.w);
    }
  }

  /** An access of known size crosses the boundary exactly when its last bit lies beyond
      half of an address space narrower than 64 bits. */
  lemma CrossesIff(l: Location)
    requires IsPointerWidth(l.w) && IsI64(l.offsetBits)
    ensures CrossesWrapBoundary(l) <==>
            l.sizeBits.Some? && l.w < 64 && l.offsetBits + l.sizeBits.value > 8 * Pow2(l.w - 1)
  {
    MaxBitsIsExact(l.w);
    if l.w < 64 {
      NarrowSpan(l.w);
    }
    hide Pow2;
  }

  /** Two accesses name one symbolic address up to their offsets. */
  predicate Comparable(a: Location, b: Location) {
    a.base == b.base && a.index == b.index && (a.index.Some? ==> a.strideBytes == b.strideBytes)
  }

  /** The last bit of the access is past what can be compared. */
  predicate EndsOutside(l: Location)
    requires l.w > 0 && l.sizeBits.Some?
  {
    var end := l.offsetBits + l.sizeBits.value;
    end > MAX_I64 || (l.w < 64 && end > 8 * Pow2(l.w - 1))
  }

  /** The answer in every case: no across address spaces; yes for accesses that cannot
      be compared, of unknown size, or running past what can be; and otherwise whether
      the two runs of bits overlap. */
  lemma MayAliasCases(a: Location, b: Location)
    requires IsPointerWidth(a.w) && a.w == b.w && IsI64(a.offsetBits) && IsI64(b.offsetBits)
    ensures MayAlias(a, b) <==>
            && a.space == b.space
            && (|| !Comparable(a, b) || a.sizeBits.None? || b.sizeBits.None?
                || EndsOutside(a) || EndsOutside(b)
                || (a.offsetBits < b.offsetBits + b.sizeBits.value && b.offsetBits < a.offsetBits + a.sizeBits.value))
  {
    CrossesIff(a);
    CrossesIff(b);
    hide Pow2, CrossesWrapBoundary;
  }

  /** Accesses of unknown size are never said to be one cell. */
  lemma MustAliasCases(a: Location, b: Location)
    ensures MustAlias(a, b) <==>
            && a.space == b.space && Comparable(a, b) && a.offsetBits == b.offsetBits
            && a.sizeBits.Some? && a.sizeBits == b.sizeBits
  {
  }

  /** For comparable accesses inside the space the answer is exact: they are said to alias
      just when they share a bit. */
  lemma MayAliasIsExact(a: Location, b: Location, env: nat -> int)
    requires IsPointerWidth(a.w) && a.w == b.w && IsCanonical(a.offsetBits, a.w) && IsCanonical(b.offsetBits, b.w)
    requires a.space == b.space && Comparable(a, b)
    requires a.sizeBits.Some? && b.sizeBits.Some? && a.sizeBits.value > 0 && b.sizeBits.value > 0
    requires !EndsOutside(a) && !EndsOutside(b)
    ensures MayAlias(a, b) <==> exists j, k :: ShareBit(a, b, env, j, k)
  {
    MayAliasCases(a, b);
    hide Low, Pow2, CrossesWrapBoundary, MayAlias;
    if MayAlias(a, b) {
      var at := if a.offsetBits < b.offsetBits then b.offsetBits else a.offsetBits;
      assert ShareBit(a, b, env, at - a.offsetBits, at - b.offsetBits);
    }
    if j, k :| ShareBit(a, b, env, j, k) {
      if !MayAlias(a, b) {
        NoAliasIsDisjoint(a, b, env, j, k);
      }
    }
  }

  /** Accesses said to be one cell touch the same bits in the same order. */
  lemma MustAliasIsSameCell(a: Location, b: Location, env: nat -> int, k: int)
    requires MustAlias(a, b) && a.w == b.w
    ensures a.sizeBits == b.sizeBits && BitAt(a, env, k) == BitAt(b, env, k)
  {
  }

  /** One cell may alias itself, unless it is empty and inside the space. */
  lemma MustAliasMayAlias(a: Location, b: Location)
    requires IsPointerWidth(a.w) && a.w == b.w && IsI64(a.offsetBits) && MustAlias(a, b)
    ensures MayAlias(a, b) <==> a.sizeBits.value > 0 || CrossesWrapBoundary(a)
  {
  }

  /** Locations of known width denote one cell exactly when they are equal, which is what
      lets them key a map. */
  lemma EqualityIsMustAlias(a: Location, b: Location)
    requires HasStride(a) && HasStride(b) && a.w == b.w && a.sizeBits.Some?
    ensures MustAlias(a, b) <==> a == b
  {
  }

  // ----- accesses through the values of a function

  /** The location decoded for an access of `size` bits through the pointer `v`. */
  function Locate(f: Function, v: nat, size: Option<nat>, space: Option<nat>, w: nat): Location {
    var e := Normalize(f, v, w);
    New(e.base, e.index, e.strideBytes, e.offsetBits, size, space, w)
  }

  /** The decoded location touches the bits the pointer's own value names. */
  lemma LocateKeepsBits(f: Function, env: nat -> int, rank: nat -> nat, v: nat, size: Option<nat>, space: Option<nat>,
                        w: nat, k: int)
    requires IsPointerWidth(w) && Ordered(f, rank) && Obeys(f, env, w) && Fits(f, w)
    ensures BitAt(Locate(f, v, size, space, w), env, k) == Low(8 * env(v) + k, w + 3)
    ensures IsCanonical(Locate(f, v, size, space, w).offsetBits, w)
  {
    hide Low, Pow2, NormalizeInner, IsCanonical, Obeys, Ordered, Fits;
    NormalizeKeepsValue(f, env, rank, v, MAX_ADDRESS_DEPTH, w);
    NormalizeIsCanonical(f, v, MAX_ADDRESS_DEPTH, w);
    var e := Normalize(f, v, w);
    var rest := env(e.base) + Scaled(env, e.index, e.strideBytes);
    var q := Quotient(env(v), Denotes(e, env), w);
    BytesToBits(q, w);
    assert 8 * Denotes(e, env) == 8 * rest + e.offsetBits;
    assert 8 * env(v) + k == 8 * rest + e.offsetBits + k + q * Pow2(w + 3);
    LowShift(8 * rest + e.offsetBits + k, q, w + 3);
  }

  lemma BytesToBits(q: int, w: nat)
    ensures 8 * (q * Pow2(w)) == q * Pow2(w + 3)
  {
    Pow2Split(3, w);
    assert Pow2(3) == 8;
    assert q * Pow2(w + 3) == q * (8 * Pow2(w)) == 8 * (q * Pow2(w));
  }

  /** Two accesses of a function that are said not to alias touch disjoint memory at
      every valuation that obeys the function's definitions. */
  lemma SeparateAccesses(f: Function, env: nat -> int, rank: nat -> nat, p: nat, pSize: nat, q: nat, qSize: nat,
                         space: Option<nat>, w: nat, j: nat, k: nat)
    requires IsPointerWidth(w) && Ordered(f, rank) && Obeys(f, env, w) && Fits(f, w)
    requires !MayAlias(Locate(f, p, Some(pSize), space, w), Locate(f, q, Some(qSize), space, w))
    requires j < pSize && k < qSize
    ensures Low(8 * env(p) + j, w + 3) != Low(8 * env(q) + k, w + 3)
  {
    hide Low, Pow2, Normalize, Obeys, Ordered, Fits, IsCanonical, MayAlias, BitAt;
    LocateKeepsBits(f, env, rank, p, Some(pSize), space, w, j);
    LocateKeepsBits(f, env, rank, q, Some(qSize), space, w, k);
    NoAliasIsDisjoint(Locate(f, p, Some(pSize), space, w), Locate(f, q, Some(qSize), space, w), env, j, k);
  }

  /** Two accesses said to be one cell start at one address. */
  lemma SameAccess(f: Function, env: nat -> int, rank: nat -> nat, p: nat, q: nat, size: nat, space: Option<nat>,
                   w: nat)
    requires IsPointerWidth(w) && Ordered(f, rank) && Obeys(f, env, w) && Fits(f, w)
    requires MustAlias(Locate(f, p, Some(size), space, w), Locate(f, q, Some(size), space, w))
    ensures Low(8 * env(p), w + 3) == Low(8 * env(q), w + 3)
  {
    hide Low, Pow2, Normalize, Obeys, Ordered, Fits;
    LocateKeepsBits(f, env, rank, p, Some(size), space, w, 0);
    LocateKeepsBits(f, env, rank, q, Some(size), space, w, 0);
  }

  // ----- what the theorems rest on

  /** Out of range, the test is not sound: on an 8-bit machine a byte at offset -256
      is the byte at offset 0, and the two are said not to alias. */
  lemma UncanonicalOffsetsMislead(env: nat -> int)
    ensures var a := New(0, None, 0, -2048, Some(8), None, 8);
      var b := New(0, None, 0, 0, Some(8), None, 8);
      !MayAlias(a, b) && BitAt(a, env, 0) == BitAt(b, env, 0)
  {
    hide Low;
    MaxBitsIsExact(8);
    assert Pow2(11) == 2048 && Pow2(7) == 128;
    LowShift(8 * env(0), -1, 11);
    assert 8 * env(0) + -1 * Pow2(11) == 8 * env(0) - 2048;
  }

  /** A value defined from itself plus eight and an index. */
  function SelfReference(): Function {
    [Some(PtrAdd(0, Some(1), 4, 8)), None]
  }

  lemma {:induction false} SelfReferenceUnrolls(depth: nat, w: nat)
    requires w >= 64 && depth <= 8
    ensures NormalizeInner(SelfReference(), 0, depth, w) == AddressExpr(0, None, 0, 64 * depth)
  {
    if depth > 0 {
      SelfReferenceUnrolls(depth - 1, w);
    }
  }

  /** The order of definitions is needed too: in a cyclic definition chain the index is
      dropped, and the form no longer denotes the value. */
  lemma SelfReferenceMisleads(env: nat -> int)
    requires env(0) == 0 && env(1) == -2
    ensures Obeys(SelfReference(), env, 64)
    ensures !Congruent(env(0), Denotes(Normalize(SelfReference(), 0, 64), env), 64)
  {
    hide Low, Pow2, NormalizeInner;
    SelfReferenceUnrolls(8, 64);
    forall v: nat
      ensures ObeysAt(SelfReference(), env, v, 64)
    {
      assert env(0) == env(0) + env(1) * 4 + 8;
    }
    SixtyFourShows();
  }

  lemma SixtyFourShows()
    ensures !Congruent(0, 64, 64)
  {
  }
}
