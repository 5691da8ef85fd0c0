/** Bursts at any bit position: a change inside 32 consecutive bits, which may touch five bytes, is always seen. */
module CrcBursts {
  import opened CrcRegister
  import opened Crc
  import opened CrcDivision

  /** The generator has a constant term, so the last coefficient of a product is that of the factor. */
  lemma {:induction false} TimesTrails(q: Poly, k: nat)
    requires k < |q| && q[k] && forall i :: k < i < |q| ==> !q[i]
    ensures Times(q)[k + 32]
  {
    var n := |q| - 1;
    ConstantTerm();
    hide Generator;
    if k < n { TimesTrails(q[..n], k); }
  }

  lemma ConstantTerm()
    ensures Generator()[32]
  {
    hide Bits;
    assert Shl(POLY, 31) == 0x8000_0000 by { PolyShifted(); }
    BitsExtend(POLY, 31);
  }

  lemma PolyShifted()
    ensures Shl(POLY, 31) == 0x8000_0000
  {
    ShlAdd(POLY, 24, 7);
    ShlAdd(POLY, 16, 8);
    ShlAdd(POLY, 8, 8);
    Shl8(POLY);
    Shl8(0xc11d_b700);
    Shl8(0x1db7_0000);
    assert Shl(0xb700_0000, 7) == 0x8000_0000;
  }

  lemma LastTrue(q: Poly) returns (k: nat)
    requires exists i :: 0 <= i < |q| && q[i]
    ensures k < |q| && q[k] && forall i :: k < i < |q| ==> !q[i]
  {
    k := |q| - 1;
    while !q[k]
      invariant k < |q| && (exists i :: 0 <= i <= k && q[i]) && forall i :: k < i < |q| ==> !q[i]
      decreases k
    {
      k := k - 1;
    }
  }

  /** A multiple of the generator with nothing behind its first n <= 32 places is zero. */
  lemma ShortMultiple(d: Poly)
    requires |d| <= 32 && forall i :: |d| <= i < |d| + 32 ==> !Times(d)[i]
    ensures Times(d) == Zeros(|d| + 32)
  {
    if exists i :: 0 <= i < |d| && d[i] {
      var k := LastTrue(d);
      TimesTrails(d, k);
      assert false;
    }
    TimesZero(d);
  }

  /** Up to 32 bits take a register to different places. */
  lemma BitsInjective(c: Word, x: Poly, y: Poly)
    requires |x| == |y| <= 32
    ensures FeedBits(c, x) == FeedBits(c, y) <==> x == y
  {
    hide Times, FeedBits, Quotient, Dividend, Bits, Divides;
    if FeedBits(c, x) == FeedBits(c, y) {
      var n, qx, qy := |x|, Quotient(c, x), Quotient(c, y);
      RegisterIsRemainder(c, x);
      RegisterIsRemainder(c, y);
      SumOfMultiples(Dividend(c, x), Dividend(c, y), qx, qy, Bits(FeedBits(c, x), 32));
      SumOfDividends(c, x, y);
      ShortMultiple(Add(qx, qy));
      assert forall i :: 0 <= i < n ==> x[i] == y[i];
    }
  }

  /** Two dividends with the same remainder differ by a multiple of the generator. */
  lemma SumOfMultiples(m: Poly, m': Poly, q: Poly, q': Poly, r: Poly)
    requires Divides(m, q, r) && Divides(m', q', r) && |q| == |q'|
    ensures |m| == |m'| == |q| + 32
    ensures forall i :: 0 <= i < |m| ==> Times(Add(q, q'))[i] == (m[i] != m'[i])
  {
    TimesAdd(q, q');
    hide Times;
    var p := Zeros(|q|) + r;
    assert forall i :: 0 <= i < |m| ==> m[i] == (Times(q)[i] != p[i]) && m'[i] == (Times(q')[i] != p[i]);
  }

  lemma SumOfDividends(c: Word, x: Poly, y: Poly)
    requires |x| == |y|
    ensures forall i :: 0 <= i < |x| + 32 ==>
      (Dividend(c, x)[i] != Dividend(c, y)[i]) == (i < |x| && x[i] != y[i])
  {
    hide Bits;
  }

  /** The rest of the bits never makes two different registers meet. */
  lemma {:induction false} FeedInjective(c: Word, d: Word, bits: Poly)
    ensures FeedBits(c, bits) == FeedBits(d, bits) <==> c == d
  {
    hide Step, Xor;
    if bits != [] {
      var n := |bits| - 1;
      FeedInjective(c, d, bits[..n]);
      var c', d', bit := FeedBits(c, bits[..n]), FeedBits(d, bits[..n]), if bits[n] then TOP else 0;
      OneStep(Xor(c', bit), Xor(d', bit));
      XorInjective(c', d', bit);
    }
  }

  lemma OneStep(a: Word, b: Word)
    ensures Step(a) == Step(b) <==> a == b
  {
    StepsInjective(a, b, 1);
    assert Steps(a, 0) == a && Steps(b, 0) == b;
    assert Steps(a, 1) == Steps(Step(a), 0) && Steps(b, 1) == Steps(Step(b), 0);
    hide Step;
  }

  /** Two messages that differ only within 32 consecutive bits, wherever these start, have the same CRC if and
      only if they are the same. */
  lemma BitBurstDetected(m: Message, m': Message, head: Poly, x: Poly, y: Poly, tail: Poly)
    requires MessageBits(m) == head + x + tail && MessageBits(m') == head + y + tail
    requires |x| == |y| <= 32
    ensures CrcOf(m) == CrcOf(m') <==> x == y
  {
    hide Fold, FeedBits, MessageBits;
    FoldIsBitSerial(ONES, m);
    FoldIsBitSerial(ONES, m');
    FeedAppend(ONES, head + x, tail);
    FeedAppend(ONES, head + y, tail);
    FeedAppend(ONES, head, x);
    FeedAppend(ONES, head, y);
    var c := FeedBits(ONES, head);
    BitsInjective(c, x, y);
    FeedInjective(FeedBits(c, x), FeedBits(c, y), tail);
    ComplementInjective(Fold(ONES, m), Fold(ONES, m'));
  }
}
