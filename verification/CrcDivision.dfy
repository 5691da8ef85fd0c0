/** What the register holds, in terms of polynomials over GF(2): the remainder of the preloaded message, times
    x^32, divided by the generator. Polynomials are coefficient lists, leading coefficient first. */
module CrcDivision {
  import opened CrcRegister
  import opened Crc

  type Poly = seq<bool>

  function Zeros(n: nat): (p: Poly)
    ensures |p| == n && forall i :: 0 <= i < n ==> !p[i]
  {
    seq(n, _ => false)
  }

  function Add(p: Poly, q: Poly): (r: Poly)
    requires |p| == |q|
    ensures |r| == |p| && forall i :: 0 <= i < |p| ==> r[i] == (p[i] != q[i])
  {
    seq(|p|, i requires 0 <= i < |p| == |q| => p[i] != q[i])
  }

  // ---------------------------------------------------------------- words as polynomials

  function ShiftOne(w: Word): Word { w << 1 }

  /** The n most significant bits of a word. */
  function Bits(w: Word, n: nat): (p: Poly)
    ensures |p| == n
    decreases n
  {
    if n == 0 then [] else [TopBit(w)] + Bits(ShiftOne(w), n - 1)
  }

  function Shl(w: Word, n: nat): Word
    decreases n
  {
    if n == 0 then w else Shl(ShiftOne(w), n - 1)
  }

  lemma {:induction false} BitsExtend(w: Word, n: nat)
    ensures Bits(w, n + 1) == Bits(w, n) + [TopBit(Shl(w, n))]
    decreases n
  {
    hide TopBit;
    if n > 0 { BitsExtend(ShiftOne(w), n - 1); }
  }

  lemma Shl8(w: Word)
    ensures Shl(w, 8) == ShiftByte(w)
  {
    assert Shl(w, 8) == (((((((w << 1) << 1) << 1) << 1) << 1) << 1) << 1) << 1;
  }

  lemma {:induction false} ShlAdd(w: Word, m: nat, n: nat)
    ensures Shl(w, m + n) == Shl(Shl(w, m), n)
    decreases m
  {
    if m > 0 { ShlAdd(ShiftOne(w), m - 1, n); }
  }

  lemma Shl32(w: Word)
    ensures Shl(w, 32) == 0
  {
    hide Shl, ShiftByte;
    var w1 := ShiftByte(w);
    var w2 := ShiftByte(w1);
    ShlAdd(w, 8, 24);
    ShlAdd(w1, 8, 16);
    ShlAdd(w2, 8, 8);
    Shl8(w);
    Shl8(w1);
    Shl8(w2);
    Shl8(ShiftByte(w2));
    FourShifts(w);
  }

  lemma FourShifts(w: Word)
    ensures ShiftByte(ShiftByte(ShiftByte(ShiftByte(w)))) == 0
  {
  }

  lemma TopOfXor(a: Word, b: Word)
    ensures TopBit(Xor(a, b)) == (TopBit(a) != TopBit(b))
  {
  }

  lemma ShiftOfXorBits(a: Word, b: Word)
    ensures ShiftOne(a ^ b) == ShiftOne(a) ^ ShiftOne(b)
  {
  }

  lemma ShiftOfXor(a: Word, b: Word)
    ensures ShiftOne(Xor(a, b)) == Xor(ShiftOne(a), ShiftOne(b))
  {
    ShiftOfXorBits(a, b);
    hide ShiftOne;
  }

  lemma {:induction false} BitsXor(a: Word, b: Word, n: nat)
    ensures Bits(Xor(a, b), n) == Add(Bits(a, n), Bits(b, n))
    decreases n
  {
    hide TopBit, Xor, ShiftOne;
    if n > 0 {
      TopOfXor(a, b);
      ShiftOfXor(a, b);
      BitsXor(ShiftOne(a), ShiftOne(b), n - 1);
    }
  }

  lemma {:induction false} BitsZero(n: nat)
    ensures Bits(0, n) == Zeros(n)
    decreases n
  {
    if n > 0 {
      assert ShiftOne(0) == 0;
      BitsZero(n - 1);
    }
  }

  /** The 33 coefficients of the generator. */
  function Generator(): (g: Poly)
    ensures |g| == 33 && g[0]
  {
    [true] + Bits(POLY, 32)
  }

  /** The generator of Ethernet: x^32 + x^26 + x^23 + x^22 + x^16 + x^12 + x^11 + x^10 + x^8 + x^7 + x^5 + x^4 + x^2
      + x + 1. */
  lemma GeneratorTerms(e: nat)
    requires e <= 32
    ensures Generator()[32 - e] <==> e in {32, 26, 23, 22, 16, 12, 11, 10, 8, 7, 5, 4, 2, 1, 0}
  {
    hide Bits, Shl, TopBit;
    if e < 32 {
      BitAt(POLY, 32, 31 - e);
      ShiftedPoly(31 - e);
      if e < 16 { LowTerms(e); } else { HighTerms(e); }
    }
  }

  lemma LowTerms(e: nat)
    requires e < 16
    ensures TopBit(POLY << (31 - e)) <==> e in {12, 11, 10, 8, 7, 5, 4, 2, 1, 0}
  {
  }

  lemma HighTerms(e: nat)
    requires 16 <= e < 32
    ensures TopBit(POLY << (31 - e)) <==> e in {26, 23, 22, 16}
  {
  }

  lemma {:induction false} BitAt(w: Word, n: nat, i: nat)
    requires i < n
    ensures Bits(w, n)[i] == TopBit(Shl(w, i))
    decreases n
  {
    hide TopBit, ShiftOne;
    if i > 0 { BitAt(ShiftOne(w), n - 1, i - 1); }
  }

  lemma {:induction false} ShiftedPoly(i: nat)
    requires i < 32
    ensures Shl(POLY, i) == POLY << i
    decreases i
  {
    if i > 0 {
      ShiftedPoly(i - 1);
      ShlAdd(POLY, i - 1, 1);
    }
  }

  function Scaled(b: bool, p: Poly): (r: Poly)
    ensures |r| == |p|
  {
    if b then p else Zeros(|p|)
  }

  lemma StepTop(c: Word)
    requires TopBit(c)
    ensures Step(c) == Xor(ShiftOne(c), POLY)
  {
  }

  lemma StepLow(c: Word)
    requires !TopBit(c)
    ensures Step(c) == ShiftOne(c)
  {
  }

  lemma BitsShift(c: Word)
    ensures Bits(c, 32) + [false] == [TopBit(c)] + Bits(ShiftOne(c), 32)
  {
    assert Bits(c, 33) == [TopBit(c)] + Bits(ShiftOne(c), 32);
    assert !TopBit(0);
    hide Bits, TopBit, Shl, ShiftOne;
    BitsExtend(c, 32);
    Shl32(c);
  }

  /** One shift of the register is one step of long division. */
  lemma StepDivides(c: Word)
    ensures Bits(c, 32) + [false] == Add(Scaled(TopBit(c), Generator()), [false] + Bits(Step(c), 32))
  {
    hide Bits, TopBit, Step, Xor, ShiftOne;
    BitsShift(c);
    if TopBit(c) {
      StepTop(c);
      BitsXor(ShiftOne(c), POLY, 32);
    } else {
      StepLow(c);
    }
  }

  // ---------------------------------------------------------------- multiples of the generator

  /** The product of a polynomial with the generator, by Horner's rule. */
  function Times(q: Poly): (r: Poly)
    ensures |r| == |q| + 32
  {
    if q == [] then Zeros(32)
    else
      var n := |q| - 1;
      Add(Times(q[..n]) + [false], Zeros(n) + Scaled(q[n], Generator()))
  }

  lemma {:induction false} TimesZero(q: Poly)
    requires forall i :: 0 <= i < |q| ==> !q[i]
    ensures Times(q) == Zeros(|q| + 32)
  {
    if q != [] { TimesZero(q[..|q| - 1]); }
  }

  /** The first coefficient of a product is the first coefficient of the factor. */
  lemma {:induction false} TimesLeads(q: Poly, k: nat)
    requires k < |q| && q[k] && forall i :: 0 <= i < k ==> !q[i]
    ensures Times(q)[k]
  {
    var n := |q| - 1;
    if k < n { TimesLeads(q[..n], k); } else { TimesZero(q[..n]); }
  }

  lemma {:induction false} TimesAdd(p: Poly, q: Poly)
    requires |p| == |q|
    ensures Times(Add(p, q)) == Add(Times(p), Times(q))
  {
    hide Generator;
    if p != [] {
      var n := |p| - 1;
      TimesAdd(p[..n], q[..n]);
      assert Add(p, q)[..n] == Add(p[..n], q[..n]);
      hide Times, Scaled;
      AddHorner(Times(p[..n]), Times(q[..n]), n, p[n], q[n], Generator());
    }
  }

  lemma AddHorner(s: Poly, t: Poly, n: nat, a: bool, b: bool, g: Poly)
    requires |s| == |t| == n + 32 && |g| == 33
    ensures Add(Add(s, t) + [false], Zeros(n) + Scaled(a != b, g))
         == Add(Add(s + [false], Zeros(n) + Scaled(a, g)), Add(t + [false], Zeros(n) + Scaled(b, g)))
  {
  }

  /** r is the remainder, and q the quotient, of m divided by the generator. */
  predicate Divides(m: Poly, q: Poly, r: Poly) {
    |m| == |q| + 32 && |r| == 32 && m == Add(Times(q), Zeros(|q|) + r)
  }

  lemma FirstTrue(q: Poly) returns (k: nat)
    requires exists i :: 0 <= i < |q| && q[i]
    ensures k < |q| && q[k] && forall i :: 0 <= i < k ==> !q[i]
  {
    k := 0;
    while !q[k]
      invariant k < |q| && (exists i :: k <= i < |q| && q[i]) && forall i :: 0 <= i < k ==> !q[i]
      decreases |q| - k
    {
      k := k + 1;
    }
  }

  lemma NoLead(d: Poly)
    requires forall k :: 0 <= k < |d| ==> !Times(d)[k]
    ensures forall k :: 0 <= k < |d| ==> !d[k]
  {
    if exists i :: 0 <= i < |d| && d[i] {
      var k := FirstTrue(d);
      TimesLeads(d, k);
      assert false;
    }
  }

  /** Quotient and remainder are unique. */
  lemma DivisionUnique(m: Poly, q: Poly, r: Poly, q': Poly, r': Poly)
    requires Divides(m, q, r) && Divides(m, q', r')
    ensures q == q' && r == r'
  {
    var n, d := |q|, Add(q, q');
    TimesAdd(q, q');
    hide Times;
    var p, p' := Zeros(n) + r, Zeros(n) + r';
    forall i | 0 <= i < |m| ensures (Times(q)[i] != p[i]) == (Times(q')[i] != p'[i]) {
      assert m[i] == (Times(q)[i] != p[i]);
    }
    NoLead(d);
    assert q == q' by { assert forall i :: 0 <= i < n ==> !d[i]; }
    assert forall i :: 0 <= i < 32 ==> r[i] == p[n + i] && r'[i] == p'[n + i];
  }

  // ---------------------------------------------------------------- the register is the remainder

  /** A message of bits shifted through the register. */
  function FeedBits(c: Word, bits: Poly): Word {
    if bits == [] then c else BitStep(FeedBits(c, bits[..|bits| - 1]), bits[|bits| - 1])
  }

  /** The message times x^32, with the preload added to its leading 32 coefficients. */
  function Dividend(c: Word, bits: Poly): (p: Poly)
    ensures |p| == |bits| + 32
  {
    Add(Bits(c, 32) + Zeros(|bits|), bits + Zeros(32))
  }

  /** The quotient the shift register never stores: the bits that leave at the top. */
  function Quotient(c: Word, bits: Poly): (q: Poly)
    ensures |q| == |bits|
  {
    if bits == [] then []
    else
      var n := |bits| - 1;
      Quotient(c, bits[..n]) + [TopBit(Xor(FeedBits(c, bits[..n]), if bits[n] then TOP else 0))]
  }

  lemma MessageBit(c: Word, bit: bool)
    ensures Bits(Xor(c, if bit then TOP else 0), 32) == Add(Bits(c, 32), [bit] + Zeros(31))
  {
    hide Xor;
    BitsXor(c, if bit then TOP else 0, 32);
    BitsZero(32);
    assert ShiftOne(TOP) == 0 && TopBit(TOP);
    BitsZero(31);
    assert Bits(TOP, 32) == [true] + Bits(0, 31);
  }

  lemma DividendExtend(c: Word, bits: Poly, bit: bool)
    ensures Dividend(c, bits + [bit]) == Add(Dividend(c, bits) + [false], Zeros(|bits|) + ([bit] + Zeros(32)))
  {
    hide Bits;
  }

  /** After any preload and any message, the register is the remainder of the dividend by the generator. */
  lemma {:induction false} RegisterIsRemainder(c: Word, bits: Poly)
    ensures Divides(Dividend(c, bits), Quotient(c, bits), Bits(FeedBits(c, bits), 32))
  {
    hide Bits, Xor, TopBit, Step;
    if bits == [] {
    } else {
      var n := |bits| - 1;
      var init, bit := bits[..n], bits[n];
      var r := FeedBits(c, init);
      RegisterIsRemainder(c, init);
      assert bits == init + [bit];
      DividendExtend(c, init, bit);
      var x := Xor(r, if bit then TOP else 0);
      MessageBit(r, bit);
      StepDivides(x);
      Combine(Dividend(c, init), Times(Quotient(c, init)), n, Bits(r, 32), bit, Bits(x, 32),
              Scaled(TopBit(x), Generator()), Bits(Step(x), 32));
      assert Quotient(c, bits)[..n] == Quotient(c, init);
    }
  }

  /** One step of the long division, on coefficient lists. */
  lemma Combine(m: Poly, t: Poly, n: nat, r: Poly, bit: bool, x: Poly, g: Poly, s: Poly)
    requires |m| == |t| == n + 32 && |r| == |x| == |s| == 32 && |g| == 33
    requires m == Add(t, Zeros(n) + r)
    requires x == Add(r, [bit] + Zeros(31))
    requires x + [false] == Add(g, [false] + s)
    ensures Add(m + [false], Zeros(n) + ([bit] + Zeros(32))) == Add(Add(t + [false], Zeros(n) + g), Zeros(n + 1) + s)
  {
  }

  // ---------------------------------------------------------------- bytes

  /** The n most significant bits of a byte, most significant first. */
  function ByteBits(b: bv8, n: nat): (p: Poly)
    ensures |p| == n
    decreases n
  {
    if n == 0 then [] else [b & 0x80 != 0] + ByteBits(b << 1, n - 1)
  }

  function MessageBits(m: Message): (p: Poly)
    ensures |p| == 8 * |m|
    decreases m
  {
    if m == [] then [] else ByteBits(m[0], 8) + MessageBits(m[1..])
  }

  lemma {:induction false} FeedAppend(c: Word, a: Poly, b: Poly)
    ensures FeedBits(c, a + b) == FeedBits(FeedBits(c, a), b)
    decreases b
  {
    hide BitStep;
    if b == [] {
      assert a + b == a;
    } else {
      var n := |b| - 1;
      FeedAppend(c, a, b[..n]);
      assert (a + b)[..|a| + n] == a + b[..n];
    }
  }

  lemma FeedFirst(c: Word, bit: bool, rest: Poly)
    ensures FeedBits(c, [bit] + rest) == FeedBits(BitStep(c, bit), rest)
  {
    hide BitStep;
    FeedAppend(c, [bit], rest);
    assert [bit][..0] == [];
  }

  lemma {:induction false} FeedByte(c: Word, b: bv8, n: nat)
    ensures FeedBits(c, ByteBits(b, n)) == BitSteps(c, b, n)
    decreases n
  {
    hide BitStep;
    if n > 0 {
      FeedFirst(c, b & 0x80 != 0, ByteBits(b << 1, n - 1));
      FeedByte(BitStep(c, b & 0x80 != 0), b << 1, n - 1);
    }
  }

  /** The byte-at-a-time register is the bit-serial one over the message's bits, most significant first. */
  lemma {:induction false} FoldIsBitSerial(c: Word, m: Message)
    ensures Fold(c, m) == FeedBits(c, MessageBits(m))
    decreases m
  {
    hide ByteStep, BitSteps, ByteBits;
    if m != [] {
      ByteStepIsBitSerial(c, m[0]);
      FeedByte(c, m[0], 8);
      FeedAppend(c, ByteBits(m[0], 8), MessageBits(m[1..]));
      FoldIsBitSerial(ByteStep(c, m[0]), m[1..]);
    }
  }

  /** crc32 is the complement of a remainder: of the message times x^32, its first 32 coefficients inverted by
      the preload of ones, divided by the generator. Nothing else is a remainder. */
  lemma CrcIsRemainder(m: Message, q: Poly, r: Poly)
    ensures Divides(Dividend(ONES, MessageBits(m)), q, r) <==>
              q == Quotient(ONES, MessageBits(m)) && r == Bits(Complement(CrcOf(m)), 32)
  {
    hide Bits, Fold, MessageBits, Dividend, Quotient, Divides;
    FoldIsBitSerial(ONES, m);
    RegisterIsRemainder(ONES, MessageBits(m));
    assert Complement(CrcOf(m)) == Fold(ONES, m) by { ComplementTwice(Fold(ONES, m)); }
    hide FeedBits, CrcOf, Complement;
    if Divides(Dividend(ONES, MessageBits(m)), q, r) {
      DivisionUnique(Dividend(ONES, MessageBits(m)), q, r,
                     Quotient(ONES, MessageBits(m)), Bits(FeedBits(ONES, MessageBits(m)), 32));
    }
  }

  lemma ComplementTwice(c: Word)
    ensures Complement(Complement(c)) == c
  {
  }
}
