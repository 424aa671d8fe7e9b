/** The end marks of drivers/i2c_sw.cpp: one bit a byte, in 32-bit words. */
module I2cMarks {

  const BUF_SIZE := 128
  const SEPARATORS := 4

  /** What the compiled program makes of a shift by 32 or more, which C leaves open. */
  type Beyond = nat -> bv32

  /** `1 << n` in 32 bits. */
  function OneShifted(n: nat, beyond: Beyond): bv32 {
    if n < 32 then 1 << n else beyond(n)
  }

  /** A mask picks out a bit that is set. */
  predicate Tests(word: bv32, mask: bv32) {
    word & mask != 0
  }

  /** A word with the bits of a mask set. */
  function With(word: bv32, mask: bv32): bv32 {
    word | mask
  }

  /** The end mark of byte `i`: its word, masked with a shift by the whole position. */
  predicate MarkedAt(words: seq<bv32>, i: nat, beyond: Beyond) {
    i / 32 < |words| && Tests(words[i / 32], OneShifted(i, beyond))
  }

  function MarkBits(words: seq<bv32>, beyond: Beyond): (s: seq<bool>)
    ensures |s| == BUF_SIZE && forall i :: 0 <= i < BUF_SIZE ==> s[i] == MarkedAt(words, i, beyond)
  {
    seq(BUF_SIZE, i requires 0 <= i => MarkedAt(words, i, beyond))
  }

  function Unmarked(): (s: seq<bool>)
    ensures |s| == BUF_SIZE && forall i :: 0 <= i < BUF_SIZE ==> !s[i]
  {
    seq(BUF_SIZE, i => false)
  }

  lemma NothingTested(m: bv32)
    ensures !Tests(0, m)
  {
  }

  lemma NoMarks(words: seq<bv32>, beyond: Beyond)
    requires |words| == SEPARATORS && forall k :: 0 <= k < SEPARATORS ==> words[k] == 0
    ensures MarkBits(words, beyond) == Unmarked()
  {
    hide OneShifted, Tests;
    forall i | 0 <= i < BUF_SIZE
      ensures !MarkBits(words, beyond)[i]
    {
      NothingTested(OneShifted(i, beyond));
    }
  }

  // ---- a position below 32 as a shift amount --------------------------------------------------

  function AsShift(n: nat): bv5
    requires n < 32
  {
    n as bv5
  }

  function AsNumber(b: bv5): nat {
    b as nat
  }

  function Shifted(b: bv5): bv32 {
    1 << b
  }

  lemma ShiftBack(n: nat)
    requires n < 32
    ensures AsNumber(AsShift(n)) == n
  {
    match n / 4 {
      case 0 => case 1 => case 2 => case 3 => case 4 => case 5 => case 6 => case _ =>
    }
  }

  lemma ShiftedIs(n: nat, beyond: Beyond)
    requires n < 32
    ensures OneShifted(n, beyond) == Shifted(AsShift(n))
  {
  }

  lemma ShiftedApart(w: bv32, m: bv5, j: bv5)
    ensures (w | (1 << m)) & (1 << j) != 0 <==> m == j || w & (1 << j) != 0
  {
  }

  lemma TestsIs(w: bv32, m: bv32)
    ensures Tests(w, m) == (w & m != 0)
  {
  }

  lemma WithIs(w: bv32, m: bv32)
    ensures With(w, m) == w | m
  {
  }

  lemma TestsWith(w: bv32, x: bv32, y: bv32)
    ensures Tests(With(w, x), y) == ((w | x) & y != 0)
  {
    hide Tests, With;
    WithIs(w, x);
    TestsIs(w | x, y);
  }

  lemma BitsApart(w: bv32, m: bv5, j: bv5)
    ensures Tests(With(w, Shifted(m)), Shifted(j)) <==> m == j || Tests(w, Shifted(j))
  {
    hide Tests, With;
    ShiftedApart(w, m, j);
    TestsWith(w, 1 << m, 1 << j);
    TestsIs(w, 1 << j);
  }

  lemma MarksApart(w: bv32, n: nat, i: nat, beyond: Beyond)
    requires n < 32 && i < 32
    ensures Tests(With(w, OneShifted(n, beyond)), OneShifted(i, beyond)) <==>
      n == i || Tests(w, OneShifted(i, beyond))
  {
    hide Tests, With, OneShifted, AsShift, AsNumber, Shifted;
    ShiftBack(n);
    ShiftBack(i);
    ShiftedIs(n, beyond);
    ShiftedIs(i, beyond);
    BitsApart(w, AsShift(n), AsShift(i));
  }

  function Masked(w: bv32, m: bv32): bv32 {
    w & m
  }

  predicate AnySet(w: bv32) {
    w != 0
  }

  lemma TestsMasked(w: bv32, m: bv32)
    ensures Tests(w, m) <==> AnySet(Masked(w, m))
  {
  }

  lemma MaskedOver(w: bv32, x: bv32, y: bv32)
    ensures Masked(With(w, x), y) == With(Masked(w, y), Masked(x, y))
  {
  }

  lemma AnyOfBoth(a: bv32, b: bv32)
    ensures AnySet(With(a, b)) <==> AnySet(a) || AnySet(b)
  {
  }

  lemma TestsEither(w: bv32, x: bv32, y: bv32)
    ensures Tests(With(w, x), y) <==> Tests(w, y) || Tests(x, y)
  {
    hide Tests, With, Masked, AnySet;
    TestsMasked(With(w, x), y);
    TestsMasked(w, y);
    TestsMasked(x, y);
    MaskedOver(w, x, y);
    AnyOfBoth(Masked(w, y), Masked(x, y));
  }

  /** Marking byte `n` marks byte `i` too. */
  predicate Meets(n: nat, i: nat, beyond: Beyond) {
    i / 32 == n / 32 && Tests(OneShifted(n, beyond), OneShifted(i, beyond))
  }

  /** Below 32 the marks do not touch one another, whatever longer shifts make. */
  lemma MeetsBelow(n: nat, i: nat, beyond: Beyond)
    requires n < 32
    ensures Meets(n, i, beyond) <==> n == i
  {
    hide OneShifted, Tests, With;
    if i < 32 {
      MarksApart(0, n, i, beyond);
      TestsEither(0, OneShifted(n, beyond), OneShifted(i, beyond));
      NothingTested(OneShifted(i, beyond));
    }
  }

  /** The marks once byte `n` was marked. */
  function Marking(marks: seq<bool>, n: nat, beyond: Beyond): (s: seq<bool>)
    requires |marks| == BUF_SIZE
    ensures |s| == BUF_SIZE && forall i :: 0 <= i < BUF_SIZE ==> s[i] == (marks[i] || Meets(n, i, beyond))
  {
    seq(BUF_SIZE, i requires 0 <= i < BUF_SIZE => marks[i] || Meets(n, i, beyond))
  }

  /** Setting the bit of any byte in its word marks the bytes it meets and no other. */
  lemma MarkSets(words: seq<bv32>, n: nat, beyond: Beyond)
    requires |words| == SEPARATORS && n < BUF_SIZE
    ensures MarkBits(words[n / 32 := With(words[n / 32], OneShifted(n, beyond))], beyond)
      == Marking(MarkBits(words, beyond), n, beyond)
  {
    hide OneShifted, With, Tests;
    var more := words[n / 32 := With(words[n / 32], OneShifted(n, beyond))];
    forall i | 0 <= i < BUF_SIZE
      ensures MarkBits(more, beyond)[i] == Marking(MarkBits(words, beyond), n, beyond)[i]
    {
      TestsEither(words[n / 32], OneShifted(n, beyond), OneShifted(i, beyond));
    }
  }
}
