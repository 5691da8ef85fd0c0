/** The CRC-32 shift register over GF(2): one shift is linear and invertible, and a byte can be shifted in at once.
    The 32-bit operations are wrapped in small functions, so that proofs above this file need not look at bits. */
module CrcRegister {

  type Word = bv32

  const POLY: Word := 0x04c1_1db7
  const TOP: Word := 0x8000_0000
  const ONES: Word := 0xffff_ffff

  function Xor(a: Word, b: Word): Word { a ^ b }

  predicate TopBit(c: Word) { c & TOP != 0 }

  /** One shift of the register: reduce by the polynomial if a one leaves at the top. */
  function Step(c: Word): Word {
    if c & TOP != 0 then (c << 1) ^ POLY else c << 1
  }

  function Steps(c: Word, n: nat): Word
    decreases n
  {
    if n == 0 then c else Steps(Step(c), n - 1)
  }

  lemma {:induction false} StepsAdd(c: Word, m: nat, n: nat)
    ensures Steps(c, m + n) == Steps(Steps(c, m), n)
    decreases m
  {
    hide Step;
    if m > 0 { StepsAdd(Step(c), m - 1, n); }
  }

  // ---------------------------------------------------------------- exclusive or

  lemma XorCommutes(a: Word, b: Word)
    ensures Xor(a, b) == Xor(b, a)
  {
  }

  lemma XorAssociates(a: Word, b: Word, c: Word)
    ensures Xor(Xor(a, b), c) == Xor(a, Xor(b, c))
  {
  }

  lemma XorSelf(a: Word, b: Word)
    ensures Xor(a, b) == 0 <==> a == b
  {
  }

  lemma XorZero(a: Word)
    ensures Xor(0, a) == a && Xor(a, 0) == a
  {
  }

  // ---------------------------------------------------------------- the step is linear and invertible

  lemma TopTop(a: Word, b: Word)
    requires a & TOP != 0 && b & TOP != 0
    ensures Step(a ^ b) == Step(a) ^ Step(b)
  {
  }

  lemma TopLow(a: Word, b: Word)
    requires a & TOP != 0 && b & TOP == 0
    ensures Step(a ^ b) == Step(a) ^ Step(b)
  {
  }

  lemma LowLow(a: Word, b: Word)
    requires a & TOP == 0 && b & TOP == 0
    ensures Step(a ^ b) == Step(a) ^ Step(b)
  {
  }

  lemma StepLinearTopTop(a: Word, b: Word)
    requires TopBit(a) && TopBit(b)
    ensures Step(Xor(a, b)) == Xor(Step(a), Step(b))
  {
    hide Step;
    TopTop(a, b);
  }

  lemma StepLinearTopLow(a: Word, b: Word)
    requires TopBit(a) && !TopBit(b)
    ensures Step(Xor(a, b)) == Xor(Step(a), Step(b))
  {
    hide Step;
    TopLow(a, b);
  }

  lemma StepLinearLowLow(a: Word, b: Word)
    requires !TopBit(a) && !TopBit(b)
    ensures Step(Xor(a, b)) == Xor(Step(a), Step(b))
  {
    hide Step;
    LowLow(a, b);
  }

  lemma StepLinear(a: Word, b: Word)
    ensures Step(Xor(a, b)) == Xor(Step(a), Step(b))
  {
    hide Step, Xor, TopBit;
    if TopBit(a) {
      if TopBit(b) { StepLinearTopTop(a, b); } else { StepLinearTopLow(a, b); }
    } else if TopBit(b) {
      StepLinearTopLow(b, a);
      XorCommutes(a, b);
      XorCommutes(Step(a), Step(b));
    } else {
      StepLinearLowLow(a, b);
    }
  }

  lemma StepKernel(c: Word)
    ensures Step(c) == 0 <==> c == 0
  {
  }

  /** Any number of shifts is a linear map. */
  lemma {:induction false} StepsLinear(a: Word, b: Word, n: nat)
    ensures Steps(Xor(a, b), n) == Xor(Steps(a, n), Steps(b, n))
    decreases n
  {
    hide Step, Xor;
    if n > 0 {
      StepLinear(a, b);
      StepsLinear(Step(a), Step(b), n - 1);
    }
  }

  lemma {:induction false} StepsKernel(c: Word, n: nat)
    ensures Steps(c, n) == 0 <==> c == 0
    decreases n
  {
    hide Step;
    if n > 0 {
      StepKernel(c);
      StepsKernel(Step(c), n - 1);
    }
  }

  /** And an injective one: no two registers meet. */
  lemma StepsInjective(a: Word, b: Word, n: nat)
    ensures Steps(a, n) == Steps(b, n) <==> a == b
  {
    hide Step, Steps, Xor;
    StepsLinear(a, b, n);
    StepsKernel(Xor(a, b), n);
    XorSelf(a, b);
    XorSelf(Steps(a, n), Steps(b, n));
  }

  // ---------------------------------------------------------------- a byte at a time

  function AtTop(b: bv8): Word { (b as Word) << 24 }

  /** The table entry for byte i: byte i alone, shifted through. */
  function Entry(i: Word): Word {
    Steps(i << 24, 8)
  }

  /** A byte added at the top of the register and shifted through. */
  function ByteStep(c: Word, b: bv8): Word {
    Steps(Xor(c, AtTop(b)), 8)
  }

  function Index(c: Word, b: bv8): (i: Word)
    ensures i < 256
  {
    (c >> 24) ^ (b as Word)
  }

  function ShiftByte(c: Word): Word { c << 8 }

  predicate LowThree(c: Word) { c & 0xff00_0000 == 0 }

  function Low(c: Word): Word { c & 0x00ff_ffff }

  lemma LowBytes(c: Word)
    ensures (c & 0x00ff_ffff) & 0xff00_0000 == 0
    ensures (c & 0x00ff_ffff) << 8 == c << 8
  {
  }

  lemma LowIsLow(c: Word)
    ensures LowThree(Low(c)) && ShiftByte(Low(c)) == ShiftByte(c)
  {
    LowBytes(c);
  }

  lemma LowSteps(c: Word)
    requires LowThree(c)
    ensures Steps(c, 8) == ShiftByte(c)
  {
    assert Steps(c, 8) == Step(Step(Step(Step(Step(Step(Step(Step(c))))))));
  }

  lemma SplitBits(c: Word, b: Word)
    ensures Xor(c, b << 24) == Xor(((c >> 24) ^ b) << 24, c & 0x00ff_ffff)
  {
  }

  lemma SplitWord(c: Word, b: bv8)
    ensures Xor(c, AtTop(b)) == Xor(Index(c, b) << 24, Low(c))
  {
    SplitBits(c, b as Word);
    hide Xor;
  }

  /** Looking a byte up in the table is shifting it through the register. */
  lemma TableStep(c: Word, b: bv8)
    ensures Xor(ShiftByte(c), Entry(Index(c, b))) == ByteStep(c, b)
  {
    hide Step, Steps, Xor, ShiftByte, Index, AtTop, Low, LowThree;
    SplitWord(c, b);
    LowIsLow(c);
    StepsLinear(Index(c, b) << 24, Low(c), 8);
    LowSteps(Low(c));
    XorCommutes(ShiftByte(c), Entry(Index(c, b)));
  }

  // ---------------------------------------------------------------- bit by bit

  /** Bit-serial: one message bit meets the bit leaving at the top. */
  function BitStep(c: Word, bit: bool): Word {
    Step(Xor(c, if bit then TOP else 0))
  }

  /** The n most significant bits of a byte, most significant first. */
  function BitSteps(c: Word, b: bv8, n: nat): Word
    decreases n
  {
    if n == 0 then c else BitSteps(BitStep(c, b & 0x80 != 0), b << 1, n - 1)
  }

  lemma BitOfByte(c: Word, b: bv8)
    ensures Step(Xor(c, AtTop(b))) == Xor(BitStep(c, b & 0x80 != 0), AtTop(b << 1))
  {
    hide Step, Xor;
    var top := if b & 0x80 != 0 then TOP else 0;
    var rest := AtTop(b & 0x7f);
    assert Xor(c, AtTop(b)) == Xor(Xor(c, top), rest) by { SplitByte(c, b); }
    StepLinear(Xor(c, top), rest);
    assert Step(rest) == AtTop(b << 1) by { RestOfByte(b); }
  }

  lemma SplitByte(c: Word, b: bv8)
    ensures Xor(c, AtTop(b)) == Xor(Xor(c, if b & 0x80 != 0 then TOP else 0), AtTop(b & 0x7f))
  {
  }

  lemma RestOfByte(b: bv8)
    ensures Step(AtTop(b & 0x7f)) == AtTop(b << 1)
  {
  }

  lemma {:induction false} BitsAhead(c: Word, b: bv8, n: nat)
    requires n <= 8
    ensures Steps(Xor(c, AtTop(b)), n) == Xor(BitSteps(c, b, n), AtTop(b << n))
    decreases n
  {
    hide Step, Xor, AtTop, BitStep;
    if n > 0 {
      BitOfByte(c, b);
      BitsAhead(BitStep(c, b & 0x80 != 0), b << 1, n - 1);
      ShiftAgain(b, n);
    } else {
      assert b << 0 == b;
    }
  }

  lemma ShiftAgain(b: bv8, n: nat)
    requires 1 <= n <= 8
    ensures (b << 1) << (n - 1) == b << n
  {
  }

  /** Shifting a byte through at once is shifting in its bits one by one, most significant first. */
  lemma ByteStepIsBitSerial(c: Word, b: bv8)
    ensures ByteStep(c, b) == BitSteps(c, b, 8)
  {
    hide Steps, Xor, AtTop, BitSteps;
    BitsAhead(c, b, 8);
    assert b << 8 == 0;
    assert AtTop(0) == 0 by { NoByte(); }
    XorZero(BitSteps(c, b, 8));
  }

  lemma NoByte()
    ensures AtTop(0) == 0
  {
  }
}
