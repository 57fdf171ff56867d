/**
 * The CPU-set macros of sched.h over arrays of 64-bit words, against finite
 * sets of CPU numbers. Sizes are in bytes, as in the macros.
 */
module CpuSet {
  const WORD_BYTES := 8
  const WORD_BITS := 64

  // The word operations have names so that proofs can leave their bits alone.

  function Both(x: bv64, y: bv64): bv64 { x & y }

  function Either(x: bv64, y: bv64): bv64 { x | y }

  function Unequal(x: bv64, y: bv64): bv64 { x ^ y }

  function Minus(x: bv64, y: bv64): bv64 { x & !y }

  function Amount(k: nat): bv6
    requires k < WORD_BITS
  {
    k as bv6
  }

  /** The word with the one bit `k`. */
  function Mask(k: nat): bv64
    requires k < WORD_BITS
  {
    1 << Amount(k)
  }

  predicate Bit(w: bv64, k: nat)
    requires k < WORD_BITS
  {
    Both(w, Mask(k)) != 0
  }

  /** The CPUs that the first `size` bytes of the words stand for. */
  function Members(words: seq<bv64>, size: nat): set<nat> {
    set i: nat | i < 8 * size && i < WORD_BITS * |words| && Bit(words[i / WORD_BITS], i % WORD_BITS)
  }

  datatype Op = And | Or | Xor

  function Combine(op: Op, x: bv64, y: bv64): bv64 {
    match op
    case And => Both(x, y)
    case Or => Either(x, y)
    case Xor => Unequal(x, y)
  }

  predicate Choose(op: Op, p: bool, q: bool) {
    match op
    case And => p && q
    case Or => p || q
    case Xor => p != q
  }

  function Combined(op: Op, a: set<nat>, b: set<nat>): set<nat> {
    match op
    case And => a * b
    case Or => a + b
    case Xor => (a - b) + (b - a)
  }

  // ----- One bit

  lemma SixBits(k: nat)
    requires k < 64
    ensures (k as bv6) as nat == k
  {
  }

  lemma AmountIsItself(k: nat)
    requires k < WORD_BITS
    ensures Amount(k) as nat == k
  {
    SixBits(k);
  }

  lemma ShiftsAreDisjoint(a: bv6, b: bv6)
    ensures ((1 as bv64) << a) & (1 << b) != 0 <==> a == b
  {
  }

  lemma ShiftIsNotZero(a: bv6)
    ensures (1 as bv64) << a != 0
  {
  }

  lemma ShiftIsOneBit(x: bv64, a: bv6)
    ensures x & (1 << a) == 0 || x & (1 << a) == 1 << a
  {
  }

  lemma AndBits(x: bv64, y: bv64, m: bv64)
    ensures (x & y) & m == (x & m) & (y & m)
  {
  }

  lemma OrBits(x: bv64, y: bv64, m: bv64)
    ensures (x | y) & m == (x & m) | (y & m)
  {
  }

  lemma XorBits(x: bv64, y: bv64, m: bv64)
    ensures (x ^ y) & m == (x & m) ^ (y & m)
  {
  }

  lemma MinusBits(x: bv64, y: bv64, m: bv64)
    ensures (x & !y) & m == (x & m) & !(y & m)
  {
  }

  lemma BothIs(x: bv64, y: bv64)
    ensures Both(x, y) == x & y
  {
  }

  lemma EitherIs(x: bv64, y: bv64)
    ensures Either(x, y) == x | y
  {
  }

  lemma UnequalIs(x: bv64, y: bv64)
    ensures Unequal(x, y) == x ^ y
  {
  }

  lemma MinusIs(x: bv64, y: bv64)
    ensures Minus(x, y) == x & !y
  {
  }

  lemma MaskIs(k: nat)
    requires k < WORD_BITS
    ensures Mask(k) == 1 << Amount(k)
  {
    hide Amount;
  }

  lemma MaskIsNotZero(k: nat)
    requires k < WORD_BITS
    ensures Mask(k) != 0
  {
    hide Amount, Mask;
    MaskIs(k);
    ShiftIsNotZero(Amount(k));
  }

  lemma MaskIsOneBit(x: bv64, k: nat)
    requires k < WORD_BITS
    ensures Both(x, Mask(k)) == 0 || Both(x, Mask(k)) == Mask(k)
  {
    hide Amount, Both, Mask;
    MaskIs(k);
    BothIs(x, 1 << Amount(k));
    ShiftIsOneBit(x, Amount(k));
  }

  lemma BitOfMask(k: nat, j: nat)
    requires k < WORD_BITS && j < WORD_BITS
    ensures Bit(Mask(k), j) <==> j == k
  {
    hide Amount;
    AmountIsItself(k);
    AmountIsItself(j);
    ShiftsAreDisjoint(Amount(k), Amount(j));
  }

  // The operations on words that hold at most the bits `m`.

  lemma BothOfOneBit(m: bv64)
    ensures Both(0, 0) == Both(0, m) == Both(m, 0) == 0 && Both(m, m) == m
  {
  }

  lemma EitherOfOneBit(m: bv64)
    ensures Either(0, 0) == 0 && Either(0, m) == Either(m, 0) == Either(m, m) == m
  {
  }

  lemma UnequalOfOneBit(m: bv64)
    ensures Unequal(0, 0) == Unequal(m, m) == 0 && Unequal(0, m) == Unequal(m, 0) == m
  {
  }

  lemma MinusOfOneBit(m: bv64)
    ensures Minus(0, 0) == Minus(m, m) == Minus(0, m) == 0 && Minus(m, 0) == m
  {
  }

  lemma BothDistributes(x: bv64, y: bv64, m: bv64)
    ensures Both(Both(x, y), m) == Both(Both(x, m), Both(y, m))
  {
    hide Both;
    BothIs(x, y);
    BothIs(x & y, m);
    BothIs(x, m);
    BothIs(y, m);
    BothIs(x & m, y & m);
    AndBits(x, y, m);
  }

  lemma BitOfBoth(x: bv64, y: bv64, k: nat)
    requires k < WORD_BITS
    ensures Bit(Both(x, y), k) <==> Bit(x, k) && Bit(y, k)
  {
    hide Mask, Both;
    var m := Mask(k);
    MaskIsOneBit(x, k);
    MaskIsOneBit(y, k);
    MaskIsNotZero(k);
    BothDistributes(x, y, m);
    BothOfOneBit(m);
  }

  lemma EitherDistributes(x: bv64, y: bv64, m: bv64)
    ensures Both(Either(x, y), m) == Either(Both(x, m), Both(y, m))
  {
    hide Both, Either;
    EitherIs(x, y);
    BothIs(x | y, m);
    BothIs(x, m);
    BothIs(y, m);
    EitherIs(x & m, y & m);
    OrBits(x, y, m);
  }

  lemma BitOfEither(x: bv64, y: bv64, k: nat)
    requires k < WORD_BITS
    ensures Bit(Either(x, y), k) <==> Bit(x, k) || Bit(y, k)
  {
    hide Mask, Both, Either;
    var m := Mask(k);
    MaskIsOneBit(x, k);
    MaskIsOneBit(y, k);
    MaskIsNotZero(k);
    EitherDistributes(x, y, m);
    EitherOfOneBit(m);
  }

  lemma UnequalDistributes(x: bv64, y: bv64, m: bv64)
    ensures Both(Unequal(x, y), m) == Unequal(Both(x, m), Both(y, m))
  {
    hide Both, Unequal;
    UnequalIs(x, y);
    BothIs(x ^ y, m);
    BothIs(x, m);
    BothIs(y, m);
    UnequalIs(x & m, y & m);
    XorBits(x, y, m);
  }

  lemma BitOfUnequal(x: bv64, y: bv64, k: nat)
    requires k < WORD_BITS
    ensures Bit(Unequal(x, y), k) <==> Bit(x, k) != Bit(y, k)
  {
    hide Mask, Both, Unequal;
    var m := Mask(k);
    MaskIsOneBit(x, k);
    MaskIsOneBit(y, k);
    MaskIsNotZero(k);
    UnequalDistributes(x, y, m);
    UnequalOfOneBit(m);
  }

  lemma MinusDistributes(x: bv64, y: bv64, m: bv64)
    ensures Both(Minus(x, y), m) == Minus(Both(x, m), Both(y, m))
  {
    hide Both, Minus;
    MinusIs(x, y);
    BothIs(x & !y, m);
    BothIs(x, m);
    BothIs(y, m);
    MinusIs(x & m, y & m);
    MinusBits(x, y, m);
  }

  lemma BitOfMinus(x: bv64, y: bv64, k: nat)
    requires k < WORD_BITS
    ensures Bit(Minus(x, y), k) <==> Bit(x, k) && !Bit(y, k)
  {
    hide Mask, Both, Minus;
    var m := Mask(k);
    MaskIsOneBit(x, k);
    MaskIsOneBit(y, k);
    MaskIsNotZero(k);
    MinusDistributes(x, y, m);
    MinusOfOneBit(m);
  }

  lemma BitOfCombine(op: Op, x: bv64, y: bv64, k: nat)
    requires k < WORD_BITS
    ensures Bit(Combine(op, x, y), k) <==> Choose(op, Bit(x, k), Bit(y, k))
  {
    hide Both, Either, Unequal, Bit;
    match op
    case And => BitOfBoth(x, y, k);
    case Or => BitOfEither(x, y, k);
    case Xor => BitOfUnequal(x, y, k);
  }

  /** CPU `i` is the bit that a one has when shifted left by `i % 64`, in word `i / 64`, if the size covers it. */
  lemma MembersAre(words: seq<bv64>, size: nat, i: nat, shift: bv6)
    requires shift as nat == i % 64
    ensures i in Members(words, size) <==> i < 8 * size && i < 64 * |words| && Both(words[i / 64], 1 << shift) != 0
    ensures forall x, y :: Both(x, y) == x & y
  {
    hide Bit, Both, Amount;
    if i < 64 * |words| {
      AmountOf(i % 64, shift);
      BitIs(words[i / 64], i % 64, shift);
    }
    forall x, y
      ensures Both(x, y) == x & y
    {
      BothIs(x, y);
    }
  }

  lemma BitIs(w: bv64, k: nat, shift: bv6)
    requires k < WORD_BITS && Amount(k) == shift
    ensures Bit(w, k) <==> Both(w, 1 << shift) != 0
  {
    hide Amount, Both, Mask;
    MaskIs(k);
  }

  lemma AmountOf(k: nat, shift: bv6)
    requires k < WORD_BITS && shift as nat == k
    ensures Amount(k) == shift
  {
    hide Amount;
    AmountIsItself(k);
    SameAmount(Amount(k), shift);
  }

  lemma SameAmount(a: bv6, b: bv6)
    requires a as nat == b as nat
    ensures a == b
  {
  }

  // ----- Set, clear, test

  /** `CPU_SET_S`: insertion, and nothing at an index the size does not cover. */
  method Insert(i: nat, size: nat, words: array<bv64>)
    requires size <= WORD_BYTES * words.Length
    modifies words
    ensures forall n: nat ::
              Members(words[..], n) == Members(old(words[..]), n) + if i < 8 * size && i < 8 * n then {i} else {}
  {
    hide Either, Minus, Mask, Bit, Members;
    if i / 8 < size {
      var k := i % WORD_BITS;
      words[i / 8 / WORD_BYTES] := Either(words[i / 8 / WORD_BYTES], Mask(k));
      assert i / 8 / WORD_BYTES == i / WORD_BITS;
      forall n: nat
        ensures Members(words[..], n) == Members(old(words[..]), n) + if i < 8 * n then {i} else {}
      {
        InsertedMembers(old(words[..]), words[..], n, i);
      }
    } else {
      assert words[..] == old(words[..]);
    }
  }

  lemma InsertedMembers(before: seq<bv64>, after: seq<bv64>, n: nat, i: nat)
    requires i < WORD_BITS * |before|
    requires after == before[i / WORD_BITS := Either(before[i / WORD_BITS], Mask(i % WORD_BITS))]
    ensures Members(after, n) == Members(before, n) + if i < 8 * n then {i} else {}
  {
    hide Bit, Either, Minus, Mask;
    forall j: nat | j < WORD_BITS * |before|
      ensures Bit(after[j / WORD_BITS], j % WORD_BITS) <==> j == i || Bit(before[j / WORD_BITS], j % WORD_BITS)
    {
      if j / WORD_BITS == i / WORD_BITS {
        BitOfMask(i % WORD_BITS, j % WORD_BITS);
        BitOfEither(before[i / WORD_BITS], Mask(i % WORD_BITS), j % WORD_BITS);
      }
    }
  }

  /** `CPU_CLR_S`: removal, and nothing at an index the size does not cover. */
  method Remove(i: nat, size: nat, words: array<bv64>)
    requires size <= WORD_BYTES * words.Length
    modifies words
    ensures forall n: nat ::
              Members(words[..], n) == Members(old(words[..]), n) - if i < 8 * size then {i} else {}
  {
    hide Either, Minus, Mask, Bit, Members;
    if i / 8 < size {
      var k := i % WORD_BITS;
      words[i / 8 / WORD_BYTES] := Minus(words[i / 8 / WORD_BYTES], Mask(k));
      assert i / 8 / WORD_BYTES == i / WORD_BITS;
      forall n: nat
        ensures Members(words[..], n) == Members(old(words[..]), n) - {i}
      {
        RemovedMembers(old(words[..]), words[..], n, i);
      }
    } else {
      assert words[..] == old(words[..]);
    }
  }

  lemma RemovedMembers(before: seq<bv64>, after: seq<bv64>, n: nat, i: nat)
    requires i < WORD_BITS * |before|
    requires after == before[i / WORD_BITS := Minus(before[i / WORD_BITS], Mask(i % WORD_BITS))]
    ensures Members(after, n) == Members(before, n) - {i}
  {
    hide Bit, Either, Minus, Mask;
    forall j: nat | j < WORD_BITS * |before|
      ensures Bit(after[j / WORD_BITS], j % WORD_BITS) <==> j != i && Bit(before[j / WORD_BITS], j % WORD_BITS)
    {
      if j / WORD_BITS == i / WORD_BITS {
        BitOfMask(i % WORD_BITS, j % WORD_BITS);
        BitOfMinus(before[i / WORD_BITS], Mask(i % WORD_BITS), j % WORD_BITS);
      }
    }
  }

  /** `CPU_ISSET_S`: membership, false at an index the size does not cover. */
  method Contains(i: nat, size: nat, words: array<bv64>) returns (found: bool)
    requires size <= WORD_BYTES * words.Length
    ensures found <==> i in Members(words[..], size)
  {
    found := i / 8 < size && Both(words[i / 8 / WORD_BYTES], Mask(i % WORD_BITS)) != 0;
    assert i / 8 / WORD_BYTES == i / WORD_BITS;
  }

  // ----- Whole sets

  /** The set operation on the whole words of the size, beside what the destination held after them. */
  function Outcome(op: Op, size: nat, first: seq<bv64>, second: seq<bv64>, before: seq<bv64>): set<nat> {
    var whole := WORD_BYTES * (size / WORD_BYTES);
    Combined(op, Members(first, whole), Members(second, whole)) + (Members(before, size) - Members(before, whole))
  }

  /**
   * `CPU_AND_S`, `CPU_OR_S` and `CPU_XOR_S`: every whole word of the size is
   * combined, whether or not the destination is one of the sources, and the
   * bytes of a last partial word keep what the destination held.
   */
  method CombineSets(op: Op, size: nat, dest: array<bv64>, first: array<bv64>, second: array<bv64>)
    requires forall words :: words in {dest, first, second} ==> size <= WORD_BYTES * words.Length
    modifies dest
    ensures Members(dest[..], size) == Outcome(op, size, old(first[..]), old(second[..]), old(dest[..]))
    ensures forall k :: size / WORD_BYTES <= k < dest.Length ==> dest[k] == old(dest[k])
  {
    hide Combine, Members, Outcome;
    var n := size / WORD_BYTES;
    for i := 0 to n
      invariant forall k :: 0 <= k < i ==> dest[k] == Combine(op, old(first[k]), old(second[k]))
      invariant forall k :: i <= k < dest.Length ==> dest[k] == old(dest[k])
      invariant forall k :: i <= k < first.Length ==> first[k] == old(first[k])
      invariant forall k :: i <= k < second.Length ==> second[k] == old(second[k])
    {
      dest[i] := Combine(op, first[i], second[i]);
    }
    CombinedMembers(op, size, old(first[..]), old(second[..]), old(dest[..]), dest[..]);
  }

  lemma CombinedMembers(op: Op, size: nat, first: seq<bv64>, second: seq<bv64>, before: seq<bv64>, after: seq<bv64>)
    requires size <= WORD_BYTES * |first| && size <= WORD_BYTES * |second|
    requires size <= WORD_BYTES * |before| && |after| == |before|
    requires forall k :: 0 <= k < size / WORD_BYTES ==> after[k] == Combine(op, first[k], second[k])
    requires forall k :: size / WORD_BYTES <= k < |after| ==> after[k] == before[k]
    ensures Members(after, size) == Outcome(op, size, first, second, before)
  {
    hide Bit, Combine;
    var whole := WORD_BYTES * (size / WORD_BYTES);
    forall j: nat | j < 8 * size
      ensures Bit(after[j / WORD_BITS], j % WORD_BITS) <==>
                if j < 8 * whole then Choose(op, Bit(first[j / WORD_BITS], j % WORD_BITS),
                                             Bit(second[j / WORD_BITS], j % WORD_BITS))
                else Bit(before[j / WORD_BITS], j % WORD_BITS)
    {
      if j < 8 * whole {
        BitOfCombine(op, first[j / WORD_BITS], second[j / WORD_BITS], j % WORD_BITS);
      }
    }
  }

  /** Whether the loops compute the set operation at this size, whatever the words hold. */
  ghost predicate CombinesSets(op: Op, size: nat) {
    forall first: seq<bv64>, second: seq<bv64>, before: seq<bv64> ::
      size <= WORD_BYTES * |before| && size <= WORD_BYTES * |first| && size <= WORD_BYTES * |second| ==>
        Outcome(op, size, first, second, before) == Combined(op, Members(first, size), Members(second, size))
  }

  lemma ZeroIsEmpty(n: nat, size: nat)
    ensures Members(seq(n, _ => 0), size) == {}
  {
    forall i: nat | i < WORD_BITS * n
      ensures !Bit(0, i % WORD_BITS)
    {
      hide Both, Mask;
      BothOfOneBit(Mask(i % WORD_BITS));
    }
  }

  /** A partial last word is never combined, so the sizes that work are the whole words. */
  lemma WholeWordsExactly(op: Op, size: nat)
    ensures CombinesSets(op, size) <==> size % WORD_BYTES == 0
  {
    hide Bit, Mask;
    if size % WORD_BYTES != 0 {
      var n := size / WORD_BYTES;
      var zeros: seq<bv64> := seq(n + 1, _ => 0);
      var before := zeros[n := Mask(0)];
      BitOfMask(0, 0);
      assert WORD_BITS * n in Members(before, size);
      assert WORD_BITS * n !in Members(before, WORD_BYTES * n);
      ZeroIsEmpty(n + 1, size);
      assert WORD_BITS * n in Outcome(op, size, zeros, zeros, before);
      assert Outcome(op, size, zeros, zeros, before) != Combined(op, Members(zeros, size), Members(zeros, size));
    }
  }

  // ----- Allocation size

  function AllocSize(n: nat): nat {
    WORD_BYTES * (n / WORD_BITS + (n % WORD_BITS + WORD_BITS - 1) / WORD_BITS)
  }

  /** The smallest whole number of words that covers every CPU below `n`. */
  lemma AllocSizeIsExact(n: nat, size: nat)
    ensures AllocSize(n) % WORD_BYTES == 0 && forall i: nat :: i < n ==> i / 8 < AllocSize(n)
    ensures size % WORD_BYTES == 0 && n <= 8 * size ==> AllocSize(n) <= size
  {
  }
}
