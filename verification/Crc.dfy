/** crc32 on whole messages: what its value is, and which changes of a message it must notice. */
module Crc {
  import opened CrcRegister

  type Message = seq<bv8>

  /** The register after a message. */
  function Fold(c: Word, m: Message): Word
    decreases m
  {
    if m == [] then c else Fold(ByteStep(c, m[0]), m[1..])
  }

  function Complement(c: Word): Word { !c }

  /** The value of crc32: all ones preloaded, the register complemented. */
  function CrcOf(m: Message): Word {
    Complement(Fold(ONES, m))
  }

  lemma {:induction false} FoldAppend(c: Word, a: Message, b: Message)
    ensures Fold(c, a + b) == Fold(Fold(c, a), b)
    decreases a
  {
    hide ByteStep;
    if a == [] {
      assert a + b == b;
    } else {
      assert (a + b)[1..] == a[1..] + b;
      FoldAppend(ByteStep(c, a[0]), a[1..], b);
    }
  }

  lemma ComplementInjective(a: Word, b: Word)
    ensures Complement(a) == Complement(b) <==> a == b
  {
  }

  // ---------------------------------------------------------------- up to four bytes are one word

  function ShiftDown(w: Word): Word { w >> 8 }

  /** Up to four bytes as one register, the first at the top. */
  function WordOf(m: Message): Word
    requires |m| <= 4
  {
    if m == [] then 0 else Xor(AtTop(m[0]), ShiftDown(WordOf(m[1..])))
  }

  /** The lowest 4 - n bytes are zero. */
  predicate Fits(w: Word, n: nat) {
    (n <= 3 ==> w & 0xff == 0) && (n <= 2 ==> w & 0xffff == 0) && (n <= 1 ==> w & 0xff_ffff == 0) && (n == 0 ==> w == 0)
  }

  lemma FitsNext(b: bv8, w: Word, n: nat)
    requires Fits(w, n) && n <= 3
    ensures Fits(Xor(AtTop(b), ShiftDown(w)), n + 1)
    ensures LowThree(ShiftDown(w)) && ShiftByte(ShiftDown(w)) == w
  {
  }

  lemma {:induction false} WordFits(m: Message)
    requires |m| <= 4
    ensures Fits(WordOf(m), |m|)
  {
    hide Fits, AtTop, ShiftDown, Xor;
    if m == [] {
      assert Fits(0, 0) by { FitsNone(); }
    } else {
      WordFits(m[1..]);
      FitsNext(m[0], WordOf(m[1..]), |m| - 1);
    }
  }

  lemma FitsNone()
    ensures Fits(0, 0)
  {
  }

  /** Shifting in up to four bytes is adding them all first and then shifting. */
  lemma {:induction false} FoldIsSteps(c: Word, m: Message)
    requires |m| <= 4
    ensures Fold(c, m) == Steps(Xor(c, WordOf(m)), 8 * |m|)
    decreases m
  {
    hide Steps, Xor, AtTop, ShiftDown, ShiftByte, LowThree, Fits;
    if m == [] {
      XorZero(c);
      NoSteps(c);
    } else {
      var rest, n := m[1..], |m| - 1;
      var w := WordOf(rest);
      WordFits(rest);
      FitsNext(m[0], w, n);
      FoldIsSteps(ByteStep(c, m[0]), rest);
      StepsLinear(Xor(c, AtTop(m[0])), ShiftDown(w), 8);
      LowSteps(ShiftDown(w));
      XorAssociates(c, AtTop(m[0]), ShiftDown(w));
      StepsAdd(Xor(c, WordOf(m)), 8, 8 * n);
    }
  }

  lemma NoSteps(c: Word)
    ensures Steps(c, 0) == c
  {
  }

  lemma HeadTail(a: bv8, v: Word, b: bv8, w: Word)
    requires v & 0xff == 0 && w & 0xff == 0
    requires Xor(AtTop(a), ShiftDown(v)) == Xor(AtTop(b), ShiftDown(w))
    ensures a == b && v == w
  {
  }

  lemma {:induction false} WordInjective(a: Message, b: Message)
    requires |a| == |b| <= 4 && WordOf(a) == WordOf(b)
    ensures a == b
    decreases a
  {
    hide AtTop, ShiftDown, Xor;
    if a != [] {
      WordFits(a[1..]);
      WordFits(b[1..]);
      HeadTail(a[0], WordOf(a[1..]), b[0], WordOf(b[1..]));
      WordInjective(a[1..], b[1..]);
    }
  }

  // ---------------------------------------------------------------- error detection

  /** The rest of a message never makes two different registers meet. */
  lemma {:induction false} FoldInjective(c: Word, d: Word, m: Message)
    ensures Fold(c, m) == Fold(d, m) <==> c == d
    decreases m
  {
    hide Steps, Xor, AtTop;
    if m != [] {
      FoldInjective(ByteStep(c, m[0]), ByteStep(d, m[0]), m[1..]);
      StepsInjective(Xor(c, AtTop(m[0])), Xor(d, AtTop(m[0])), 8);
      XorInjective(c, d, AtTop(m[0]));
    }
  }

  lemma XorInjective(c: Word, d: Word, x: Word)
    ensures Xor(c, x) == Xor(d, x) <==> c == d
    ensures Xor(x, c) == Xor(x, d) <==> c == d
  {
  }

  lemma WindowInjective(c: Word, x: Message, y: Message)
    requires |x| == |y| <= 4
    ensures Fold(c, x) == Fold(c, y) <==> x == y
  {
    hide Steps, Xor, WordOf, Fold;
    FoldIsSteps(c, x);
    FoldIsSteps(c, y);
    StepsInjective(Xor(c, WordOf(x)), Xor(c, WordOf(y)), 8 * |x|);
    XorInjective(WordOf(x), WordOf(y), c);
    if WordOf(x) == WordOf(y) { WordInjective(x, y); }
  }

  /** Two messages of the same length that differ only within four consecutive bytes never have the same CRC. */
  lemma BurstDetected(head: Message, x: Message, y: Message, tail: Message)
    requires |x| == |y| <= 4
    ensures CrcOf(head + x + tail) == CrcOf(head + y + tail) <==> x == y
  {
    hide Fold;
    FoldAppend(ONES, head + x, tail);
    FoldAppend(ONES, head + y, tail);
    FoldAppend(ONES, head, x);
    FoldAppend(ONES, head, y);
    var c := Fold(ONES, head);
    WindowInjective(c, x, y);
    FoldInjective(Fold(c, x), Fold(c, y), tail);
    ComplementInjective(Fold(ONES, head + x + tail), Fold(ONES, head + y + tail));
  }

  function XorBytes(a: Message, b: Message): Message
    requires |a| == |b|
    decreases a
  {
    if a == [] then [] else [a[0] ^ b[0]] + XorBytes(a[1..], b[1..])
  }

  lemma XorAtTop(c: Word, d: Word, a: bv8, b: bv8)
    ensures Xor(Xor(c, d), AtTop(a ^ b)) == Xor(Xor(c, AtTop(a)), Xor(d, AtTop(b)))
  {
    Interchange(c, d, AtTop(a), AtTop(b));
    TopOfXor(a, b);
    hide Xor, AtTop;
  }

  lemma TopOfXor(a: bv8, b: bv8)
    ensures AtTop(a ^ b) == Xor(AtTop(a), AtTop(b))
  {
  }

  lemma Interchange(c: Word, d: Word, x: Word, y: Word)
    ensures Xor(Xor(c, d), Xor(x, y)) == Xor(Xor(c, x), Xor(d, y))
  {
    hide Xor;
    XorAssociates(c, d, Xor(x, y));
    XorAssociates(d, x, y);
    XorCommutes(d, x);
    XorAssociates(x, d, y);
    XorAssociates(c, x, Xor(d, y));
  }

  lemma {:induction false} FoldLinear(c: Word, d: Word, a: Message, b: Message)
    requires |a| == |b|
    ensures Fold(Xor(c, d), XorBytes(a, b)) == Xor(Fold(c, a), Fold(d, b))
    decreases a
  {
    hide Steps, Xor, AtTop;
    if a != [] {
      XorAtTop(c, d, a[0], b[0]);
      StepsLinear(Xor(c, AtTop(a[0])), Xor(d, AtTop(b[0])), 8);
      FoldLinear(ByteStep(c, a[0]), ByteStep(d, b[0]), a[1..], b[1..]);
      assert XorBytes(a, b)[1..] == XorBytes(a[1..], b[1..]);
    }
  }

  /** Which changes of any kind go unnoticed: exactly those whose difference leaves a zero register zero. */
  lemma UndetectedExactly(a: Message, b: Message)
    requires |a| == |b|
    ensures CrcOf(a) == CrcOf(b) <==> Fold(0, XorBytes(a, b)) == 0
  {
    hide Fold, Xor;
    FoldLinear(ONES, ONES, a, b);
    XorSelf(ONES, ONES);
    XorSelf(Fold(ONES, a), Fold(ONES, b));
    ComplementInjective(Fold(ONES, a), Fold(ONES, b));
  }

  // ---------------------------------------------------------------- sending the CRC behind the message

  const RESIDUE: Word := 0xc704_dd7b

  /** The CRC as it is sent, most significant byte first. */
  function Trailer(c: Word): (m: Message)
    ensures |m| == 4
  {
    [(c >> 24) as bv8, ((c >> 16) & 0xff) as bv8, ((c >> 8) & 0xff) as bv8, (c & 0xff) as bv8]
  }

  lemma TrailerWord(c: Word)
    ensures WordOf(Trailer(c)) == c
  {
    hide AtTop, ShiftDown, Xor;
    var t := Trailer(c);
    assert WordOf(t[3..]) == c << 24 by { LastByte(c); }
    assert t[2..][1..] == t[3..] && t[1..][1..] == t[2..];
    assert WordOf(t[2..]) == c << 16 by { ThirdByte(c); }
    assert WordOf(t[1..]) == c << 8 by { SecondByte(c); }
    FirstByte(c);
  }

  lemma LastByte(c: Word)
    ensures Xor(AtTop((c & 0xff) as bv8), ShiftDown(0)) == c << 24
  {
  }

  lemma ThirdByte(c: Word)
    ensures Xor(AtTop(((c >> 8) & 0xff) as bv8), ShiftDown(c << 24)) == c << 16
  {
  }

  lemma SecondByte(c: Word)
    ensures Xor(AtTop(((c >> 16) & 0xff) as bv8), ShiftDown(c << 16)) == c << 8
  {
  }

  lemma FirstByte(c: Word)
    ensures Xor(AtTop((c >> 24) as bv8), ShiftDown(c << 8)) == c
  {
  }

  lemma ResidueOfOnes()
    ensures Steps(ONES, 32) == RESIDUE
  {
    StepsAdd(ONES, 8, 24);
    StepsAdd(Steps(ONES, 8), 8, 16);
    StepsAdd(Steps(Steps(ONES, 8), 8), 8, 8);
    EightSteps();
  }

  lemma EightSteps()
    ensures Steps(ONES, 8) == 0x4e08_bfb4
    ensures Steps(0x4e08_bfb4, 8) == 0x00b7_647d
    ensures Steps(0x00b7_647d, 8) == 0xb764_7d00
    ensures Steps(0xb764_7d00, 8) == RESIDUE
  {
    Unrolled(ONES);
    Unrolled(0x4e08_bfb4);
    Unrolled(0x00b7_647d);
    Unrolled(0xb764_7d00);
  }

  lemma Unrolled(c: Word)
    ensures Steps(c, 8) == Step(Step(Step(Step(Step(Step(Step(Step(c))))))))
  {
    hide Step;
  }

  lemma ComplementIsXor(c: Word)
    ensures Complement(c) == Xor(c, ONES)
  {
  }

  lemma XorOnes(c: Word, w: Word)
    ensures Xor(c, w) == ONES <==> w == Complement(c)
  {
    ComplementIsXor(c);
    XorAssociates(c, c, ONES);
    XorSelf(c, c);
    XorZero(ONES);
    XorInjective(w, Complement(c), c);
    hide Xor, Complement;
  }

  /** A receiver that runs the register over a message and its trailer sees one fixed value exactly when the
      trailer is the message's own CRC. */
  lemma ReceiverAccepts(m: Message, t: Message)
    requires |t| == 4
    ensures Fold(ONES, m + t) == RESIDUE <==> t == Trailer(CrcOf(m))
  {
    hide Fold, Steps, Xor, WordOf, Complement, Trailer;
    var c := Fold(ONES, m);
    FoldAppend(ONES, m, t);
    FoldIsSteps(c, t);
    ResidueOfOnes();
    StepsInjective(Xor(c, WordOf(t)), ONES, 32);
    XorOnes(c, WordOf(t));
    TrailerWord(Complement(c));
    if WordOf(t) == Complement(c) { WordInjective(t, Trailer(Complement(c))); }
  }

  // ---------------------------------------------------------------- the program's table

  /** The static table with the lazy initialisation: all zero until the first call. */
  class Table {
    const entries: array<Word>

    /** Either never built, or right in every entry. */
    ghost predicate Valid()
      reads this, entries
    {
      && entries.Length == 256
      && ((forall i :: 0 <= i < 256 ==> entries[i] == 0)
          || (forall i :: 0 <= i < 256 ==> entries[i] == Entry(i as Word)))
    }

    constructor ()
      ensures Valid() && fresh(entries) && forall i :: 0 <= i < 256 ==> entries[i] == 0
    {
      entries := new Word[256](_ => 0);
    }

    /** init_crc32. */
    method InitCrc32()
      requires entries.Length == 256
      modifies entries
      ensures forall i :: 0 <= i < 256 ==> entries[i] == Entry(i as Word)
    {
      var i := 0;
      while i < 256
        invariant 0 <= i <= 256
        invariant forall k :: 0 <= k < i ==> entries[k] == Entry(k as Word)
      {
        var c: Word := (i as Word) << 24;
        var j := 8;
        while j > 0
          invariant 0 <= j <= 8
          invariant Steps(c, j) == Entry(i as Word)
        {
          c := if c & 0x8000_0000 != 0 then (c << 1) ^ POLY else c << 1;
          j := j - 1;
        }
        entries[i] := c;
        i := i + 1;
      }
    }

    /** crc32, over the first len bytes of the buffer (none if len is negative). */
    method Crc32(buf: array<bv8>, len: int) returns (r: Word)
      requires Valid() && len <= buf.Length
      modifies entries
      ensures Valid()
      ensures r == CrcOf(buf[..if len > 0 then len else 0])
    {
      hide ByteStep, Entry;
      BuiltEntry();
      if entries[1] == 0 { InitCrc32(); }
      ghost var m := buf[..if len > 0 then len else 0];
      var crc: Word := 0xffff_ffff;
      var p := 0;
      while p < len
        invariant 0 <= p <= |m|
        invariant forall k :: 0 <= k < 256 ==> entries[k] == Entry(k as Word)
        invariant Fold(crc, m[p..]) == Fold(ONES, m)
      {
        assert m[p..][0] == buf[p] && m[p..][1..] == m[p + 1..];
        var i := Index(crc, buf[p]);
        TableStep(crc, buf[p]);
        crc := Xor(ShiftByte(crc), Lookup(i));
        p := p + 1;
      }
      r := Complement(crc);
    }

    /** The entry for a byte value. */
    function Lookup(i: Word): (e: Word)
      requires i < 256 && entries.Length == 256
      requires forall k :: 0 <= k < 256 ==> entries[k] == Entry(k as Word)
      reads entries
      ensures e == Entry(i)
    {
      entries[i as int]
    }
  }

  /** A built table has a nonzero entry 1, so the lazy test cannot mistake it for an unbuilt one. */
  lemma BuiltEntry()
    ensures Entry(1 as Word) != 0
  {
    hide Step;
    StepsKernel((1 as Word) << 24, 8);
  }
}
