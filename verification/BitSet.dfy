/** The lazy word-packed bit set: src/bitset.rs.

    A 64-bit word is given by its bits, lowest first.
  */
module BitSet {
  import opened Bits
  import opened Options
  import opened Sequences

  const WORD: nat := 64
  const MAX_USIZE: nat := 0xffff_ffff_ffff_ffff

  // ----- words

  type Word = w: seq<bool> | |w| == WORD witness seq(WORD, _ => false)

  function Zero(): Word { seq(WORD, _ => false) }

  function Ones(): Word { seq(WORD, _ => true) }

  /** One shifted left, minus one. */
  function LowMask(n: nat): Word { seq(WORD, (i: nat) => i < n) }

  /** All ones shifted left. */
  function HighMask(n: nat): Word { seq(WORD, (i: nat) => i >= n) }

  function And(a: Word, b: Word): Word { seq(WORD, i requires 0 <= i < WORD => a[i] && b[i]) }

  function Or(a: Word, b: Word): Word { seq(WORD, i requires 0 <= i < WORD => a[i] || b[i]) }

  function AndNot(a: Word, b: Word): Word { seq(WORD, i requires 0 <= i < WORD => a[i] && !b[i]) }

  function TrailingZeros(w: seq<bool>): (n: nat)
    ensures n <= |w| && (forall i :: 0 <= i < n ==> !w[i]) && (n < |w| ==> w[n])
  {
    if w == [] || w[0] then 0 else 1 + TrailingZeros(w[1..])
  }

  function CountOnes(w: seq<bool>): nat {
    if w == [] then 0 else CountOnes(w[..|w| - 1]) + if w[|w| - 1] then 1 else 0
  }

  /** The number a word stands for. */
  function Number(w: seq<bool>): nat {
    if w == [] then 0 else Number(w[..|w| - 1]) + if w[|w| - 1] then Pow2(|w| - 1) else 0
  }

  /** The masks are the numbers the program computes. */
  lemma {:induction false} MaskNumber(n: nat, k: nat)
    requires k <= WORD
    ensures Number(LowMask(n)[..k]) == Pow2(if n < k then n else k) - 1
    ensures Number(Ones()[..k]) == Pow2(k) - 1
  {
    if k > 0 {
      MaskNumber(n, k - 1);
      assert LowMask(n)[..k][..k - 1] == LowMask(n)[..k - 1];
      assert Ones()[..k][..k - 1] == Ones()[..k - 1];
    }
  }

  // ----- packed words

  /** How many words hold `len` bits. */
  function WordsFor(len: nat): nat {
    (len + 63) / WORD
  }

  predicate BitOf(words: seq<Word>, i: nat) {
    i / WORD < |words| && words[i / WORD][i % WORD]
  }

  /** The positions of the set bits, counted from `base`. */
  function Placed(w: seq<bool>, base: nat): set<nat> {
    if w == [] then {} else Placed(w[..|w| - 1], base) + if w[|w| - 1] then {base + |w| - 1} else {}
  }

  lemma {:induction false} PlacedIs(w: seq<bool>, base: nat, i: nat)
    ensures i in Placed(w, base) <==> base <= i < base + |w| && w[i - base]
  {
    if w != [] {
      PlacedIs(w[..|w| - 1], base, i);
    }
  }

  /** The members a list of words stands for. */
  function Members(words: seq<Word>): (s: set<nat>)
    ensures forall i: nat :: i in s <==> BitOf(words, i)
  {
    if words == [] then {}
    else
      var last := |words| - 1;
      MembersStep(words);
      Members(words[..last]) + Placed(words[last], WORD * last)
  }

  lemma MembersStep(words: seq<Word>)
    requires words != []
    ensures var last := |words| - 1;
      forall i: nat :: BitOf(words, i) <==> BitOf(words[..last], i) || i in Placed(words[last], WORD * last)
  {
    hide Placed;
    var last := |words| - 1;
    forall i: nat
      ensures BitOf(words, i) <==> BitOf(words[..last], i) || i in Placed(words[last], WORD * last)
    {
      Split(i);
      PlacedIs(words[last], WORD * last, i);
      if WORD * last <= i < WORD * last + WORD {
        Join(last, i - WORD * last);
      }
    }
  }

  lemma Split(i: nat)
    ensures i == WORD * (i / WORD) + i % WORD && i % WORD < WORD
  {
  }

  lemma Join(word: nat, bit: nat)
    requires bit < WORD
    ensures (WORD * word + bit) / WORD == word && (WORD * word + bit) % WORD == bit
  {
  }

  /** A representation: no words yet, or all of them, and nothing set from `len` on. */
  ghost predicate IsPacked(words: seq<Word>, len: nat) {
    && (words == [] || |words| == WordsFor(len))
    && forall i: nat :: BitOf(words, i) ==> i < len
  }

  // ----- pointwise operations

  /** The bits of `r` are an operation on the bits of `a` and `b`. */
  ghost predicate Pointwise(a: seq<Word>, b: seq<Word>, r: seq<Word>, op: (bool, bool) -> bool) {
    |a| == |b| == |r| && forall k, i :: 0 <= k < |r| && 0 <= i < WORD ==> r[k][i] == op(a[k][i], b[k][i])
  }

  lemma PointwiseMembers(a: seq<Word>, b: seq<Word>, r: seq<Word>, op: (bool, bool) -> bool, i: nat)
    requires Pointwise(a, b, r, op) && !op(false, false)
    ensures BitOf(r, i) <==> op(BitOf(a, i), BitOf(b, i))
  {
  }

  /** Lists of one length hold the same members only when they are equal. */
  lemma EqualWords(a: seq<Word>, b: seq<Word>)
    requires |a| == |b| && forall i: nat :: BitOf(a, i) <==> BitOf(b, i)
    ensures a == b
  {
    forall k | 0 <= k < |a|
      ensures a[k] == b[k]
    {
      forall i | 0 <= i < WORD
        ensures a[k][i] == b[k][i]
      {
        Join(k, i);
        assert BitOf(a, WORD * k + i) <==> BitOf(b, WORD * k + i);
      }
    }
  }

  /** One word replaced. */
  lemma UpdatedMembers(words: seq<Word>, at: nat, bit: bool, i: nat)
    requires at / WORD < |words|
    ensures BitOf(words[at / WORD := words[at / WORD][at % WORD := bit]], i) <==>
               if i == at then bit else BitOf(words, i)
  {
  }

  /** All ones, with the excess of the last word cleared. */
  function FullWords(len: nat): seq<Word> {
    var words := seq(WordsFor(len), _ => Ones());
    if len % WORD != 0 && words != [] then words[|words| - 1 := LowMask(len % WORD)] else words
  }

  lemma FullWordsMembers(len: nat, i: nat)
    ensures |FullWords(len)| == WordsFor(len)
    ensures BitOf(FullWords(len), i) <==> i < len
  {
  }

  // ----- counting

  function Total(words: seq<Word>): nat {
    if words == [] then 0 else Total(words[..|words| - 1]) + CountOnes(words[|words| - 1])
  }

  lemma {:induction false} CountIsSize(words: seq<Word>)
    ensures |Members(words)| == Total(words)
  {
    if words != [] {
      hide Placed, CountOnes;
      var last := |words| - 1;
      var front := words[..last];
      CountIsSize(front);
      PlacedSize(words[last], WORD * last);
      forall i: nat | BitOf(front, i)
        ensures i !in Placed(words[last], WORD * last)
      {
        Split(i);
        PlacedIs(words[last], WORD * last, i);
      }
      assert Members(front) !! Placed(words[last], WORD * last);
    }
  }

  lemma {:induction false} PlacedSize(w: seq<bool>, base: nat)
    ensures |Placed(w, base)| == CountOnes(w)
  {
    if w != [] {
      PlacedSize(w[..|w| - 1], base);
      PlacedIs(w[..|w| - 1], base, base + |w| - 1);
    }
  }

  // ----- facts about representations

  lemma PackedBounds(words: seq<Word>, len: nat, i: nat)
    requires IsPacked(words, len)
    ensures i < len && words != [] ==> i / WORD < |words|
    ensures i in Members(words) ==> i < len
  {
  }

  lemma SameAllocation(a: seq<Word>, b: seq<Word>, len: nat)
    requires IsPacked(a, len) && IsPacked(b, len)
    ensures len == 0 ==> b == []
    ensures a != [] && b != [] ==> |a| == |b|
  {
  }

  lemma AllocatedIsEmpty(len: nat)
    ensures var words := seq(WordsFor(len), _ => Zero());
      IsPacked(words, len) && Members(words) == {} && (len > 0 ==> words != [])
  {
  }

  lemma Updated(words: seq<Word>, len: nat, at: nat, bit: bool)
    requires IsPacked(words, len) && at < len && words != []
    ensures at / WORD < |words|
    ensures var words' := words[at / WORD := words[at / WORD][at % WORD := bit]];
      IsPacked(words', len) && Members(words') == if bit then Members(words) + {at} else Members(words) - {at}
  {
    PackedBounds(words, len, at);
    var words' := words[at / WORD := words[at / WORD][at % WORD := bit]];
    forall i: nat
      ensures BitOf(words', i) <==> if i == at then bit else BitOf(words, i)
    {
      UpdatedMembers(words, at, bit, i);
    }
  }

  /** The two lists agree on every bit that counts. */
  lemma SameContents(a: seq<Word>, b: seq<Word>, len: nat)
    requires IsPacked(a, len) && IsPacked(b, len)
    ensures (forall k: nat :: k < WordsFor(len) ==> WordAt(a, k) == WordAt(b, k)) <==> Members(a) == Members(b)
  {
    var x, y := Widened(a, len), Widened(b, len);
    WidenedMembers(a, len);
    WidenedMembers(b, len);
    if Members(a) == Members(b) {
      forall i: nat
        ensures BitOf(x, i) <==> BitOf(y, i)
      {
        assert i in Members(a) <==> i in Members(b);
      }
      EqualWords(x, y);
      forall k: nat | k < WordsFor(len)
        ensures WordAt(a, k) == WordAt(b, k)
      {
        assert x[k] == y[k];
      }
    }
    if forall k: nat :: k < WordsFor(len) ==> WordAt(a, k) == WordAt(b, k) {
      assert x == y;
      assert Members(a) == Members(b);
    }
  }

  /** An absent word reads as zero. */
  function WordAt(words: seq<Word>, k: nat): Word {
    if k < |words| then words[k] else Zero()
  }

  function Widened(words: seq<Word>, len: nat): (r: seq<Word>)
    ensures |r| == WordsFor(len)
  {
    seq(WordsFor(len), (k: nat) => WordAt(words, k))
  }

  lemma WidenedMembers(words: seq<Word>, len: nat)
    requires IsPacked(words, len)
    ensures forall i: nat :: BitOf(Widened(words, len), i) <==> BitOf(words, i)
  {
  }

  // ----- the set

  class BitSet {
    var words: seq<Word>
    var len: nat

    ghost predicate Valid()
      reads this
    {
      IsPacked(words, len)
    }

    /** The set this stands for. */
    function Contents(): set<nat>
      reads this
    {
      Members(words)
    }

    constructor New(capacity: nat)
      ensures Valid() && len == capacity && Contents() == {}
    {
      words, len := seq(WordsFor(capacity), _ => Zero()), capacity;
      AllocatedIsEmpty(capacity);
    }

    constructor Lazy(capacity: nat)
      ensures Valid() && len == capacity && Contents() == {}
    {
      words, len := [], capacity;
    }

    constructor Full(capacity: nat)
      ensures Valid() && len == capacity && Contents() == Below(capacity)
    {
      words, len := FullWords(capacity), capacity;
      forall i: nat
        ensures BitOf(FullWords(capacity), i) <==> i < capacity
      {
        FullWordsMembers(capacity, i);
      }
      FullWordsMembers(capacity, 0);
    }

    /** Grows the set so that `index` is representable, when an index can be. */
    method EnsureCapacity(index: nat)
      requires Valid() && index <= MAX_USIZE
      modifies this
      ensures Valid() && Contents() == old(Contents())
      ensures len == if index < MAX_USIZE && old(len) < index + 1 then index + 1 else old(len)
    {
      hide IsPacked, Members;
      if index == MAX_USIZE || index + 1 <= len {
        return;
      }
      var grown := Resized(words, WordsFor(index + 1));
      ResizedKeeps(words, len, index + 1);
      words, len := grown, index + 1;
    }

    method Materialize()
      requires Valid()
      modifies this`words
      ensures Valid() && Contents() == old(Contents()) && (len > 0 ==> words != [])
      ensures old(words) != [] ==> words == old(words)
    {
      if words == [] && len > 0 {
        words := seq(WordsFor(len), _ => Zero());
        AllocatedIsEmpty(len);
      }
    }

    method Insert(index: nat) returns (added: bool)
      requires Valid() && index < len
      modifies this`words
      ensures Valid() && Contents() == old(Contents()) + {index}
      ensures added == (index !in old(Contents()))
    {
      Materialize();
      Updated(words, len, index, true);
      var wasSet := words[index / WORD][index % WORD];
      words := words[index / WORD := words[index / WORD][index % WORD := true]];
      added := !wasSet;
    }

    method Remove(index: nat)
      requires Valid() && index < len
      modifies this`words
      ensures Valid() && Contents() == old(Contents()) - {index}
    {
      if index / WORD < |words| {
        Updated(words, len, index, false);
        words := words[index / WORD := words[index / WORD][index % WORD := false]];
      }
    }

    function Contains(index: nat): (r: bool)
      requires index < len
      reads this
      ensures r <==> index in Contents()
    {
      index / WORD < |words| && words[index / WORD][index % WORD]
    }

    function ContainsChecked(index: nat): (r: bool)
      requires Valid()
      reads this
      ensures r <==> index in Contents()
    {
      PackedBounds(words, len, index);
      index < len && Contains(index)
    }

    method InsertChecked(index: nat) returns (added: bool)
      requires Valid()
      modifies this`words
      ensures Valid() && Contents() == if index < len then old(Contents()) + {index} else old(Contents())
      ensures added == (index < len && index !in old(Contents()))
    {
      if index < len {
        added := Insert(index);
      } else {
        added := false;
      }
    }

    method IsEmpty() returns (empty: bool)
      ensures empty <==> Contents() == {}
    {
      empty := true;
      for k := 0 to |words|
        invariant empty ==> forall j :: 0 <= j < k ==> words[j] == Zero()
        invariant !empty ==> exists j :: 0 <= j < |words| && words[j] != Zero()
      {
        if words[k] != Zero() {
          empty := false;
        }
      }
      ZeroIsEmpty(words);
    }

    method Count() returns (n: nat)
      ensures n == |Contents()|
    {
      n := 0;
      for k := 0 to |words|
        invariant n == Total(words[..k])
      {
        assert words[..k + 1][..k] == words[..k];
        n := n + CountOnes(words[k]);
      }
      assert words[..|words|] == words;
      CountIsSize(words);
    }

    method IsFull() returns (full: bool)
      requires Valid()
      ensures full <==> Contents() == Below(len)
    {
      hide IsPacked, Members, And, LowMask, Ones;
      var fullWords, rem := len / WORD, len % WORD;
      FullByWords(words, len);
      for i := 0 to fullWords
        invariant forall k: nat :: k < i ==> WordAt(words, k) == Ones()
      {
        ZeroIsNotOnes();
        if i >= |words| || words[i] != Ones() {
          assert WordAt(words, i) != Ones();
          return false;
        }
      }
      if rem != 0 {
        MaskCovers(WordAt(words, fullWords), rem);
        if fullWords >= |words| || And(words[fullWords], LowMask(rem)) != LowMask(rem) {
          assert fullWords >= |words| ==> !WordAt(words, fullWords)[0];
          return false;
        }
      }
      return true;
    }

    method Clear()
      requires Valid()
      modifies this`words
      ensures Valid() && Contents() == {}
    {
      ZeroIsEmpty(seq(|words|, _ => Zero()));
      words := seq(|words|, _ => Zero());
    }

    method Fill()
      requires Valid()
      modifies this`words
      ensures Valid() && Contents() == Below(len)
    {
      Materialize();
      ghost var n := |words|;
      words := seq(|words|, _ => Ones());
      if len % WORD != 0 && words != [] {
        words := words[|words| - 1 := LowMask(len % WORD)];
      }
      FullWordsMembers(len, 0);
      assert words == FullWords(len);
      forall i: nat
        ensures BitOf(FullWords(len), i) <==> i < len
      {
        FullWordsMembers(len, i);
      }
    }

    method Equals(other: BitSet) returns (same: bool)
      requires Valid() && other.Valid()
      ensures same <==> len == other.len && Contents() == other.Contents()
    {
      if len != other.len {
        return false;
      }
      SameContents(words, other.words, len);
      for k := 0 to WordsFor(len)
        invariant forall j: nat :: j < k ==> WordAt(words, j) == WordAt(other.words, j)
      {
        if WordAt(words, k) != WordAt(other.words, k) {
          return false;
        }
      }
      return true;
    }

    method UnionWith(other: BitSet) returns (changed: bool)
      requires Valid() && other.Valid() && len == other.len && this != other
      modifies this`words
      ensures Valid() && Contents() == old(Contents()) + other.Contents()
      ensures changed <==> Contents() != old(Contents())
    {
      hide IsPacked, Members;
      SameAllocation(words, other.words, len);
      if other.words == [] {
        return false;
      }
      Materialize();
      SameAllocation(words, other.words, len);
      ghost var was := words;
      changed := false;
      for k := 0 to |words|
        invariant |words| == |was| && forall j :: k <= j < |words| ==> words[j] == was[j]
        invariant forall j :: 0 <= j < k ==> words[j] == Or(was[j], other.words[j])
        invariant changed <==> words != was
      {
        var word := Or(words[k], other.words[k]);
        changed := changed || word != words[k];
        words := words[k := word];
      }
      Combined(was, other.words, words, len, (x, y) => x || y);
    }

    method IntersectWith(other: BitSet) returns (changed: bool)
      requires Valid() && other.Valid() && len == other.len && this != other
      modifies this`words
      ensures Valid() && Contents() == old(Contents()) * other.Contents()
      ensures changed <==> Contents() != old(Contents())
    {
      if other.words == [] {
        var empty := IsEmpty();
        Clear();
        return !empty;
      }
      ghost var was := words;
      changed := false;
      for k := 0 to |words|
        invariant |words| == |was| && forall j :: k <= j < |words| ==> words[j] == was[j]
        invariant forall j :: 0 <= j < k ==> words[j] == And(was[j], other.words[j])
        invariant changed <==> words != was
      {
        var word := And(words[k], other.words[k]);
        changed := changed || word != words[k];
        words := words[k := word];
      }
      Combined(was, if was == [] then [] else other.words, words, len, (x, y) => x && y);
    }

    method DifferenceWith(other: BitSet) returns (changed: bool)
      requires Valid() && other.Valid() && len == other.len && this != other
      modifies this`words
      ensures Valid() && Contents() == old(Contents()) - other.Contents()
      ensures changed <==> Contents() != old(Contents())
    {
      ghost var was := words;
      changed := false;
      if other.words != [] {
        for k := 0 to |words|
          invariant |words| == |was| && forall j :: k <= j < |words| ==> words[j] == was[j]
          invariant forall j :: 0 <= j < k ==> words[j] == AndNot(was[j], other.words[j])
          invariant changed <==> words != was
        {
          var word := AndNot(words[k], other.words[k]);
          changed := changed || word != words[k];
          words := words[k := word];
        }
        Combined(was, if was == [] then [] else other.words, words, len, (x, y) => x && !y);
      }
    }
  }

  // ----- more facts about representations

  function Resized(words: seq<Word>, n: nat): (r: seq<Word>)
    ensures |r| == n
  {
    seq(n, (k: nat) => WordAt(words, k))
  }

  lemma ResizedKeeps(words: seq<Word>, len: nat, required: nat)
    requires IsPacked(words, len) && len < required
    ensures var r := Resized(words, WordsFor(required)); IsPacked(r, required) && Members(r) == Members(words)
  {
    assert WordsFor(len) <= WordsFor(required);
    forall i: nat
      ensures BitOf(Resized(words, WordsFor(required)), i) <==> BitOf(words, i)
    {
    }
  }

  lemma ZeroIsEmpty(words: seq<Word>)
    ensures (forall j :: 0 <= j < |words| ==> words[j] == Zero()) <==> Members(words) == {}
  {
    if j :| 0 <= j < |words| && words[j] != Zero() {
      var i :| 0 <= i < WORD && words[j][i];
      Join(j, i);
      assert WORD * j + i in Members(words);
    } else {
      assert forall i: nat :: !BitOf(words, i);
    }
  }

  lemma ZeroIsNotOnes()
    ensures Zero() != Ones()
  {
    assert !Zero()[0] && Ones()[0];
  }

  lemma MaskCovers(w: Word, n: nat)
    ensures And(w, LowMask(n)) == LowMask(n) <==> forall i :: 0 <= i < WORD && i < n ==> w[i]
  {
    if And(w, LowMask(n)) == LowMask(n) {
      forall i | 0 <= i < WORD && i < n
        ensures w[i]
      {
        assert LowMask(n)[i];
        assert And(w, LowMask(n))[i];
      }
    }
  }

  /** All full words are ones, and the rest of the last word is. */
  ghost predicate WordsFull(words: seq<Word>, len: nat) {
    && (forall k: nat :: k < len / WORD ==> WordAt(words, k) == Ones())
    && (len % WORD != 0 ==> forall i :: 0 <= i < len % WORD ==> WordAt(words, len / WORD)[i])
  }

  lemma FullByWords(words: seq<Word>, len: nat)
    requires IsPacked(words, len)
    ensures Members(words) == Below(len) <==> WordsFull(words, len)
  {
    hide IsPacked, Members, WordsFull;
    if Members(words) == Below(len) {
      FullHasFullWords(words, len);
    }
    if WordsFull(words, len) {
      FullWordsFill(words, len);
    }
  }

  lemma FullHasFullWords(words: seq<Word>, len: nat)
    requires Members(words) == Below(len)
    ensures WordsFull(words, len)
  {
    hide Members, Ones, WordAt;
    var n, rem := len / WORD, len % WORD;
    Split(len);
    forall k: nat | k < n
      ensures WordAt(words, k) == Ones()
    {
      FullWord(words, len, k, WORD);
    }
    FullWord(words, len, n, rem);
  }

  lemma FullWordsFill(words: seq<Word>, len: nat)
    requires IsPacked(words, len) && WordsFull(words, len)
    ensures Members(words) == Below(len)
  {
    hide Members, WordAt, BitOf;
    var n, rem := len / WORD, len % WORD;
    Split(len);
    forall i: nat | i < len
      ensures BitOf(words, i)
    {
      Split(i);
      BitOfWordAt(words, i);
      if i / WORD < n {
        assert WordAt(words, i / WORD) == Ones();
      }
    }
    PackedBelow(words, len);
  }

  lemma PackedBelow(words: seq<Word>, len: nat)
    requires IsPacked(words, len) && forall i: nat :: i < len ==> BitOf(words, i)
    ensures Members(words) == Below(len)
  {
  }

  lemma BitOfWordAt(words: seq<Word>, i: nat)
    ensures BitOf(words, i) <==> WordAt(words, i / WORD)[i % WORD]
  {
  }

  lemma FullWord(words: seq<Word>, len: nat, k: nat, n: nat)
    requires Members(words) == Below(len) && n <= WORD && WORD * k + n <= len
    ensures forall i :: 0 <= i < n ==> WordAt(words, k)[i]
    ensures n == WORD ==> WordAt(words, k) == Ones()
  {
    forall i | 0 <= i < n
      ensures WordAt(words, k)[i]
    {
      Join(k, i);
      assert WORD * k + i in Members(words);
    }
  }

  /** A pointwise operation on representations is the operation on the sets. */
  lemma Combined(a: seq<Word>, b: seq<Word>, r: seq<Word>, len: nat, op: (bool, bool) -> bool)
    requires IsPacked(a, len) && IsPacked(b, len) && Pointwise(a, b, r, op) && !op(false, false)
    ensures IsPacked(r, len)
    ensures forall i: nat :: i in Members(r) <==> op(i in Members(a), i in Members(b))
    ensures r == a <==> Members(r) == Members(a)
  {
    forall i: nat
      ensures BitOf(r, i) <==> op(BitOf(a, i), BitOf(b, i))
    {
      PointwiseMembers(a, b, r, op, i);
    }
    if Members(r) == Members(a) {
      forall i: nat
        ensures BitOf(r, i) <==> BitOf(a, i)
      {
        assert i in Members(r) <==> i in Members(a);
      }
      EqualWords(r, a);
    }
  }

  // ----- iteration

  class BitSetIter {
    const set_: BitSet
    var wordIdx: nat
    var bitIdx: nat

    constructor (s: BitSet)
      ensures set_ == s && Position() == 0 && bitIdx <= WORD
    {
      set_, wordIdx, bitIdx := s, 0, 0;
    }

    /** Members below the position were passed. */
    function Position(): nat
      reads this`wordIdx, this`bitIdx
    {
      WORD * wordIdx + bitIdx
    }

    /** The next member, if there is one left. */
    method Next() returns (r: Option<nat>)
      requires set_.Valid() && bitIdx <= WORD
      modifies this
      ensures bitIdx <= WORD
      ensures r.None? ==> forall i :: i in set_.Contents() ==> i < old(Position())
      ensures r.Some? ==> IsNext(set_.Contents(), old(Position()), r.value) && Position() == r.value + 1
    {
      hide IsPacked, Members, TrailingZeros, And, HighMask;
      while wordIdx < |set_.words|
        invariant bitIdx <= WORD && Position() >= old(Position())
        invariant forall i :: i in set_.Contents() && old(Position()) <= i ==> Position() <= i
        decreases |set_.words| - wordIdx
      {
        var word := set_.words[wordIdx];
        var masked := if bitIdx >= WORD then Zero() else And(word, HighMask(bitIdx));
        NextInWord(set_.words, wordIdx, bitIdx, masked);
        if masked == Zero() {
          wordIdx := wordIdx + 1;
          bitIdx := 0;
          continue;
        }
        var bit := TrailingZeros(masked);
        var idx := wordIdx * WORD + bit;
        PackedBounds(set_.words, set_.len, idx);
        if idx >= set_.len {
          return None;
        }
        bitIdx := bit + 1;
        return Some(idx);
      }
      PastTheEnd(set_.words, wordIdx);
      return None;
    }
  }

  /** The smallest member from a position on. */
  ghost predicate IsNext(s: set<nat>, from: nat, x: nat) {
    x in s && from <= x && forall i :: i in s && from <= i ==> x <= i
  }

  lemma PastTheEnd(words: seq<Word>, word: nat)
    requires word >= |words|
    ensures forall i :: i in Members(words) ==> i < WORD * word
  {
  }

  /** What the masked word says about the next member. */
  lemma NextInWord(words: seq<Word>, word: nat, bit: nat, masked: Word)
    requires word < |words| && bit <= WORD
    requires masked == if bit >= WORD then Zero() else And(words[word], HighMask(bit))
    ensures masked == Zero() ==> forall i :: i in Members(words) && WORD * word + bit <= i ==> WORD * (word + 1) <= i
    ensures masked != Zero() ==>
              && TrailingZeros(masked) < WORD
              && IsNext(Members(words), WORD * word + bit, WORD * word + TrailingZeros(masked))
  {
    hide Members, And, HighMask, TrailingZeros;
    MaskedBits(words[word], bit, masked);
    ZeroHasNone();
    forall i: nat | i in Members(words) && WORD * word + bit <= i < WORD * (word + 1)
      ensures masked[i - WORD * word]
    {
      MemberOfWord(words, word, i - WORD * word);
    }
    if masked != Zero() {
      HasSetBit(masked);
      MemberOfWord(words, word, TrailingZeros(masked));
    }
  }

  lemma MemberOfWord(words: seq<Word>, word: nat, bit: nat)
    requires word < |words| && bit < WORD
    ensures WORD * word + bit in Members(words) <==> words[word][bit]
  {
  }

  lemma ZeroHasNone()
    ensures forall i :: 0 <= i < WORD ==> !Zero()[i]
  {
  }

  lemma MaskedBits(w: Word, bit: nat, masked: Word)
    requires bit <= WORD && masked == if bit >= WORD then Zero() else And(w, HighMask(bit))
    ensures forall i :: 0 <= i < WORD ==> masked[i] == (w[i] && bit <= i)
  {
  }

  lemma HasSetBit(w: Word)
    ensures w == Zero() || TrailingZeros(w) < WORD
  {
  }

  /** Running the iterator to its end lists the members, ascending. */
  method Listed(s: BitSet) returns (r: seq<nat>)
    requires s.Valid()
    ensures r == Ascending(s.Contents())
  {
    hide IsPacked, Members;
    r := [];
    var iter := new BitSetIter(s);
    var next := iter.Next();
    MembersBelow(s.words, s.len);
    while next.Some?
      invariant iter.set_ == s && iter.bitIdx <= WORD
      invariant next.Some? ==> next.value in s.Contents() && iter.Position() == next.value + 1
      invariant forall k :: 0 <= k < |r| ==> r[k] in s.Contents() && (next.Some? ==> r[k] < next.value)
      invariant forall i, j :: 0 <= i < j < |r| ==> r[i] < r[j]
      invariant forall i :: i in s.Contents() ==> i in r || (next.Some? && next.value <= i)
      decreases if next.Some? then s.len + 1 - next.value else 0
    {
      r := r + [next.value];
      next := iter.Next();
    }
    AscendingIsUnique(r, Ascending(s.Contents()));
  }

  lemma MembersBelow(words: seq<Word>, len: nat)
    requires IsPacked(words, len)
    ensures forall i :: i in Members(words) ==> i < len
  {
  }
}
