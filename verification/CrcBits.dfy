/** Division by the reflected polynomial 0xA001 bit by bit, and its linearity. */
module CrcBits {

  /** One bit of division. */
  function BitStep(c: bv16): bv16 {
    if c & 1 != 0 then (c >> 1) ^ 0xA001 else c >> 1
  }

  function EightSteps(c: bv16): bv16 {
    BitStep(BitStep(BitStep(BitStep(BitStep(BitStep(BitStep(BitStep(c))))))))
  }

  // The operations by name, so that proofs need not look at single bits.

  function Xor(c: bv16, d: bv16): bv16 {
    c ^ d
  }

  predicate Odd(c: bv16) {
    c & 1 != 0
  }

  function Half(c: bv16): bv16 {
    c >> 1
  }

  function Wide(b: bv8): bv16 {
    b as bv16
  }

  function Bottom(c: bv16): bv16 {
    c & 0xFF
  }

  function Top(c: bv16): bv16 {
    c >> 8
  }

  function Upper(c: bv16): bv16 {
    c & 0xFF00
  }

  lemma XorCommutes(a: bv16, b: bv16)
    ensures Xor(a, b) == Xor(b, a)
  {
  }

  lemma XorAssociates(a: bv16, b: bv16, c: bv16)
    ensures Xor(Xor(a, b), c) == Xor(a, Xor(b, c))
  {
  }

  lemma XorCancels(a: bv16, p: bv16)
    ensures Xor(Xor(a, p), p) == a
  {
  }

  lemma OddXor(a: bv16, b: bv16)
    ensures Odd(Xor(a, b)) <==> Odd(a) != Odd(b)
  {
  }

  lemma HalfXor(a: bv16, b: bv16)
    ensures Half(Xor(a, b)) == Xor(Half(a), Half(b))
  {
  }

  lemma StepIs(c: bv16)
    ensures BitStep(c) == if Odd(c) then Xor(Half(c), 0xA001) else Half(c)
  {
  }

  /** Division of a sum is the sum of the divisions. */
  lemma StepLinear(a: bv16, b: bv16)
    ensures BitStep(Xor(a, b)) == Xor(BitStep(a), BitStep(b))
  {
    hide BitStep, Xor, Odd, Half;
    StepIs(a);
    StepIs(b);
    StepIs(Xor(a, b));
    OddXor(a, b);
    HalfXor(a, b);
    var h, k, p := Half(a), Half(b), 0xA001;
    XorAssociates(h, k, p);
    if Odd(a) && Odd(b) {
      XorCommutes(h, p);
      XorAssociates(h, p, Xor(k, p));
      XorCommutes(p, Xor(k, p));
      XorCancels(k, p);
    } else if Odd(a) {
      XorCommutes(k, p);
      XorAssociates(h, p, k);
    }
  }

  lemma EightLinear(a: bv16, b: bv16)
    ensures EightSteps(Xor(a, b)) == Xor(EightSteps(a), EightSteps(b))
  {
    hide BitStep, Xor;
    var a1, b1 := BitStep(a), BitStep(b);
    var a2, b2 := BitStep(a1), BitStep(b1);
    var a3, b3 := BitStep(a2), BitStep(b2);
    var a4, b4 := BitStep(a3), BitStep(b3);
    var a5, b5 := BitStep(a4), BitStep(b4);
    var a6, b6 := BitStep(a5), BitStep(b5);
    StepLinear(a, b);
    StepLinear(a1, b1);
    StepLinear(a2, b2);
    StepLinear(a3, b3);
    StepLinear(a4, b4);
    StepLinear(a5, b5);
    StepLinear(a6, b6);
    StepLinear(BitStep(a6), BitStep(b6));
  }

  lemma EightUpper(c: bv16)
    ensures EightSteps(Upper(c)) == Top(c)
  {
  }

  lemma TwoParts(c: bv16)
    ensures c == Xor(Bottom(c), Upper(c))
  {
  }

  /** Eight bits of division use up the lower byte and move the upper one down. */
  lemma EightStepsSplit(c: bv16)
    ensures EightSteps(c) == Xor(EightSteps(Bottom(c)), Top(c))
  {
    hide EightSteps, Xor, Bottom, Upper, Top;
    TwoParts(c);
    EightLinear(Bottom(c), Upper(c));
    EightUpper(c);
  }

  lemma StepInjective(a: bv16, b: bv16)
    requires BitStep(a) == BitStep(b)
    ensures a == b
  {
  }

  lemma EightStepsInjective(a: bv16, b: bv16)
    requires EightSteps(a) == EightSteps(b)
    ensures a == b
  {
    hide BitStep;
    var a1, b1 := BitStep(a), BitStep(b);
    var a2, b2 := BitStep(a1), BitStep(b1);
    var a3, b3 := BitStep(a2), BitStep(b2);
    var a4, b4 := BitStep(a3), BitStep(b3);
    var a5, b5 := BitStep(a4), BitStep(b4);
    var a6, b6 := BitStep(a5), BitStep(b5);
    StepInjective(BitStep(a6), BitStep(b6));
    StepInjective(a6, b6);
    StepInjective(a5, b5);
    StepInjective(a4, b4);
    StepInjective(a3, b3);
    StepInjective(a2, b2);
    StepInjective(a1, b1);
    StepInjective(a, b);
  }

  /** The upper byte of a remainder names the byte it came from. */
  lemma TopByteTells(u: bv16, v: bv16)
    requires u < 256 && v < 256 && Top(EightSteps(u)) == Top(EightSteps(v))
    ensures u == v
  {
  }
}
