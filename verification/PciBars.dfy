/** The default mapping loop of the BIOS: base address registers are sized by the all-ones probe (section 6.2.5.1
    of the PCI Local Bus Specification 3.0) and placed by a cursor that only moves up, one cursor for I/O and one
    for memory. Words are integers below 2^32 with their bit operations written out. */
module PciBars {
  import opened Words

  function And(x: nat, y: nat): nat
    decreases x
  {
    if x == 0 then 0 else 2 * And(x / 2, y / 2) + if x % 2 == 1 && y % 2 == 1 then 1 else 0
  }

  function Not(x: nat): nat
    requires x < TWO_TO_THE_32
  {
    TWO_TO_THE_32 - 1 - x
  }

  // ---------------------------------------------------------------- masks are remainders

  lemma {:induction false} AndOnes(x: nat, n: nat)
    requires x < Pow2(n)
    ensures And(x, Pow2(n) - 1) == x
    decreases n
  {
    if x > 0 { AndOnes(x / 2, n - 1); }
  }

  lemma HalfRemainder(x: nat, m: nat)
    requires m >= 1
    ensures x % (2 * m) == 2 * ((x / 2) % m) + x % 2
  {
    var q, r := (x / 2) / m, (x / 2) % m;
    assert x / 2 == q * m + r;
    assert x == q * (2 * m) + (2 * r + x % 2);
    DivideUnique(x, 2 * m, q, 2 * r + x % 2);
  }

  /** Clearing the k low bits of an n-bit word subtracts the remainder by 2^k. */
  lemma {:induction false} MaskClears(x: nat, k: nat, n: nat)
    requires k <= n && x < Pow2(n)
    ensures Pow2(k) <= Pow2(n) && And(x, Pow2(n) - Pow2(k)) == x - x % Pow2(k)
    decreases n
  {
    if k == 0 {
      AndOnes(x, n);
    } else {
      MaskClears(x / 2, k - 1, n - 1);
      HalfRemainder(x, Pow2(k - 1));
      var mask := Pow2(n) - Pow2(k);
      assert mask / 2 == Pow2(n - 1) - Pow2(k - 1) && mask % 2 == 0;
    }
  }

  lemma Pow2Of32()
    ensures Pow2(32) == TWO_TO_THE_32 && Pow2(4) == 16
  {
    assert Pow2(8) == 256;
    assert Pow2(16) == 65536;
    assert Pow2(24) == 65536 * 256;
  }

  lemma {:induction false} Pow2Grows(j: nat, k: nat)
    requires j <= k
    ensures Pow2(j) <= Pow2(k) && Pow2(k) % Pow2(j) == 0
    decreases k
  {
    if j < k {
      Pow2Grows(j, k - 1);
      var p, q := Pow2(j), Pow2(k - 1) / Pow2(j);
      assert Pow2(k - 1) == q * p;
      assert Pow2(k) == (2 * q) * p;
      DivideUnique(Pow2(k), p, 2 * q, 0);
    } else {
      DivideUnique(Pow2(j), Pow2(j), 1, 0);
    }
  }

  // ---------------------------------------------------------------- one register

  /** The size read back from a probed register. */
  function SizeOf(val: nat): (size: nat)
    requires val < TWO_TO_THE_32
    ensures size < TWO_TO_THE_32
  {
    Bit32(Not(Bit32(And(val, Not(0xf)))) + 1)
  }

  function Align(cursor: nat, size: nat): nat {
    And(Bit32(cursor + size - 1), Not(Bit32(size - 1)))
  }

  lemma SizeIsComplement(val: nat)
    requires val < TWO_TO_THE_32
    ensures SizeOf(val) == Bit32(TWO_TO_THE_32 - (val - val % 16))
  {
    Pow2Of32();
    MaskClears(val, 4, 32);
  }

  /** A region of 2^k bytes answers the probe with its k low bits stuck at the flags. Its size is read back
      exactly when it is at least 16 bytes; a smaller one, which only I/O space has, is taken for 16. */
  lemma ProbeDecodes(k: nat, flags: nat)
    requires 2 <= k <= 31 && flags < 16 && flags < Pow2(k)
    ensures Pow2(k) < TWO_TO_THE_32
    ensures SizeOf(TWO_TO_THE_32 - Pow2(k) + flags) == Pow2(k) <==> k >= 4
    ensures k < 4 ==> SizeOf(TWO_TO_THE_32 - Pow2(k) + flags) == 16
  {
    hide SizeOf, And;
    Pow2Of32();
    Pow2Grows(k, 31);
    assert Pow2(32) == 2 * Pow2(31);
    assert Pow2(2) == 4 && Pow2(3) == 8;
    if k >= 4 { Pow2Grows(4, k); } else { assert k == 2 || k == 3; }
    hide Pow2;
    ProbedSize(Pow2(k), flags);
  }

  lemma ProbedSize(p: nat, flags: nat)
    requires 0 < p < TWO_TO_THE_32 && flags < 16 && flags < p && (p % 16 == 0 || p == 4 || p == 8)
    ensures SizeOf(TWO_TO_THE_32 - p + flags) == if p < 16 then 16 else p
  {
    hide SizeOf;
    var val := TWO_TO_THE_32 - p + flags;
    SizeIsComplement(val);
    assert val % 16 == if p < 16 then 16 - p + flags else flags;
  }

  /** Neither the alignment nor the region runs past the top of the address space. */
  predicate NoWrap(cursor: nat, size: nat) {
    cursor + size - 1 < TWO_TO_THE_32 && Align(cursor, size) + size < TWO_TO_THE_32
  }

  lemma Floor(x: nat, p: nat)
    requires p >= 1
    ensures (x - x % p) % p == 0 && x - p < x - x % p <= x
    ensures forall m: nat :: m % p == 0 && x - p < m ==> x - x % p <= m
  {
    var a := x - x % p;
    assert a == (x / p) * p;
    DivideUnique(a, p, x / p, 0);
    forall m: nat | m % p == 0 && x - p < m ensures a <= m {
      var d := m / p - x / p;
      assert m == (m / p) * p;
      assert m - a == d * p;
      MultipleIsFar(d, p);
    }
  }

  /** The bit trick gives the least multiple of a power of two at or above the cursor. */
  lemma AlignIsLeast(cursor: nat, k: nat)
    requires k <= 31 && cursor + Pow2(k) - 1 < TWO_TO_THE_32
    ensures var a := Align(cursor, Pow2(k));
      && a % Pow2(k) == 0 && cursor <= a < cursor + Pow2(k)
      && forall m: nat :: m % Pow2(k) == 0 && cursor <= m ==> a <= m
  {
    Pow2Of32();
    hide And, Pow2;
    var x := cursor + Pow2(k) - 1;
    MaskClears(x, k, 32);
    Floor(x, Pow2(k));
  }

  /** A register whose only set bits are flags is sized 0, and then the cursor falls to 0 whatever it was. */
  lemma ZeroSizeResets(val: nat, cursor: nat)
    requires val < 16
    ensures SizeOf(val) == 0 && Align(cursor, SizeOf(val)) + SizeOf(val) == 0
  {
    SizeIsComplement(val);
    AndZero(Bit32(cursor - 1));
  }

  lemma {:induction false} AndZero(x: nat)
    ensures And(x, 0) == 0
    decreases x
  {
    if x > 0 { AndZero(x / 2); }
  }

  // ---------------------------------------------------------------- all registers, in probing order

  datatype Region = Region(io: bool, addr: nat, size: nat)

  datatype Cursors = Cursors(io: nat, mem: nat)

  /** A register as probed. */
  type Probe = v: nat | v < TWO_TO_THE_32

  predicate IsIo(val: Probe) { val % 2 == 1 }

  function CursorOf(c: Cursors, io: bool): nat {
    if io then c.io else c.mem
  }

  function Locate(c: Cursors, val: Probe): Region {
    Region(IsIo(val), Align(CursorOf(c, IsIo(val)), SizeOf(val)), SizeOf(val))
  }

  function Advance(c: Cursors, r: Region): Cursors {
    if r.io then c.(io := Bit32(r.addr + r.size)) else c.(mem := Bit32(r.addr + r.size))
  }

  /** What the loop assigns to a sequence of probed registers; a register that reads 0 is not there. */
  function MapAll(c: Cursors, vals: seq<Probe>): (r: (seq<Region>, Cursors))
    decreases vals
  {
    if vals == [] then ([], c)
    else if vals[0] == 0 then MapAll(c, vals[1..])
    else
      var r := Locate(c, vals[0]);
      var (rs, c') := MapAll(Advance(c, r), vals[1..]);
      ([r] + rs, c')
  }

  predicate PowerOfTwo(size: nat) {
    exists k :: 0 <= k <= 31 && size == Pow2(k)
  }

  /** Every probed size is a power of two, and no placement runs past the top of the address space. */
  predicate Fits(c: Cursors, vals: seq<Probe>)
    decreases vals
  {
    vals == [] ||
    if vals[0] == 0 then Fits(c, vals[1..])
    else
      && PowerOfTwo(SizeOf(vals[0])) && NoWrap(CursorOf(c, IsIo(vals[0])), SizeOf(vals[0]))
      && Fits(Advance(c, Locate(c, vals[0])), vals[1..])
  }

  /** The region is aligned to its size and lies at or above its cursor, below the top of the address space. */
  predicate Above(c: Cursors, r: Region) {
    r.size > 0 && r.addr % r.size == 0 && CursorOf(c, r.io) <= r.addr && r.addr + r.size < TWO_TO_THE_32
  }

  lemma LocateAbove(c: Cursors, val: Probe)
    requires PowerOfTwo(SizeOf(val)) && NoWrap(CursorOf(c, IsIo(val)), SizeOf(val))
    ensures Above(c, Locate(c, val))
  {
    hide SizeOf, IsIo, Align;
    var k :| 0 <= k <= 31 && SizeOf(val) == Pow2(k);
    AlignIsLeast(CursorOf(c, IsIo(val)), k);
  }

  predicate AllAbove(c: Cursors, rs: seq<Region>) {
    forall i :: 0 <= i < |rs| ==> Above(c, rs[i])
  }

  /** Of two regions from the same cursor, the later one starts at or after the end of the earlier one. */
  predicate Disjoint(rs: seq<Region>) {
    forall i, j :: 0 <= i < j < |rs| && rs[i].io == rs[j].io ==> rs[i].addr + rs[i].size <= rs[j].addr
  }

  lemma StillAbove(c: Cursors, r: Region, s: Region)
    requires Above(c, r) && Above(Advance(c, r), s)
    ensures Above(c, s) && (s.io == r.io ==> r.addr + r.size <= s.addr)
  {
  }

  /** Every address handed out is a multiple of its size, and two regions from the same cursor never overlap. */
  lemma {:induction false} RegionsDisjoint(c: Cursors, vals: seq<Probe>)
    requires Fits(c, vals)
    ensures AllAbove(c, MapAll(c, vals).0) && Disjoint(MapAll(c, vals).0)
    decreases vals
  {
    hide PowerOfTwo, NoWrap, Locate, IsIo, SizeOf, Above;
    if vals == [] {
    } else if vals[0] == 0 {
      RegionsDisjoint(c, vals[1..]);
      assert MapAll(c, vals) == MapAll(c, vals[1..]);
    } else {
      var r := Locate(c, vals[0]);
      LocateAbove(c, vals[0]);
      var c1 := Advance(c, r);
      RegionsDisjoint(c1, vals[1..]);
      var rest, rs := MapAll(c1, vals[1..]).0, MapAll(c, vals).0;
      assert rs == [r] + rest;
      forall i | 0 <= i < |rest| ensures Above(c, rest[i]) && (rest[i].io == r.io ==> r.addr + r.size <= rest[i].addr) {
        StillAbove(c, r, rest[i]);
      }
    }
  }

  // ---------------------------------------------------------------- when the cursors go up

  lemma SizeZero(val: Probe)
    ensures SizeOf(val) == 0 <==> val < 16
  {
    SizeIsComplement(val);
  }

  /** The register is sized 0, or a power of two that does not run past the top of the address space. */
  predicate Sized(c: Cursors, val: Probe) {
    SizeOf(val) == 0 || (PowerOfTwo(SizeOf(val)) && NoWrap(CursorOf(c, IsIo(val)), SizeOf(val)))
  }

  predicate AllSized(c: Cursors, vals: seq<Probe>)
    decreases vals
  {
    vals == [] ||
    if vals[0] == 0 then AllSized(c, vals[1..])
    else Sized(c, vals[0]) && AllSized(Advance(c, Locate(c, vals[0])), vals[1..])
  }

  /** A register moves its cursor strictly up exactly when it reads back more than flag bits. */
  lemma CursorGoesUp(c: Cursors, val: Probe)
    requires Sized(c, val)
    ensures var io := IsIo(val);
      CursorOf(Advance(c, Locate(c, val)), io) > CursorOf(c, io) <==> val >= 16
  {
    SizeZero(val);
    if val < 16 {
      ZeroSizeResets(val, CursorOf(c, IsIo(val)));
    } else {
      LocateAbove(c, val);
    }
  }

  /** Every region starts at or above its first cursor, and behind all earlier regions from the same cursor. */
  predicate Increasing(c: Cursors, rs: seq<Region>) {
    (forall i :: 0 <= i < |rs| ==> CursorOf(c, rs[i].io) <= rs[i].addr) && Disjoint(rs)
  }

  lemma {:induction false} NoFlagsFit(c: Cursors, vals: seq<Probe>)
    requires AllSized(c, vals) && forall i :: 0 <= i < |vals| ==> vals[i] == 0 || vals[i] >= 16
    ensures Fits(c, vals)
    decreases vals
  {
    hide PowerOfTwo, NoWrap, Locate, IsIo, SizeOf;
    if vals != [] {
      SizeZero(vals[0]);
      NoFlagsFit(if vals[0] == 0 then c else Advance(c, Locate(c, vals[0])), vals[1..]);
    }
  }

  lemma {:induction false} IncreasingNoFlags(c: Cursors, vals: seq<Probe>, i: nat)
    requires AllSized(c, vals) && c.io > 0 && c.mem > 0 && Increasing(c, MapAll(c, vals).0) && i < |vals|
    ensures vals[i] == 0 || vals[i] >= 16
    decreases vals
  {
    hide PowerOfTwo, NoWrap, IsIo, SizeOf, Align;
    if vals[0] == 0 {
      if i > 0 { IncreasingNoFlags(c, vals[1..], i - 1); }
    } else {
      var r := Locate(c, vals[0]);
      var c1 := Advance(c, r);
      var rest, rs := MapAll(c1, vals[1..]).0, MapAll(c, vals).0;
      assert rs == [r] + rest;
      assert CursorOf(c, rs[0].io) <= rs[0].addr;
      SizeZero(vals[0]);
      if vals[0] < 16 {
        ZeroSizeResets(vals[0], CursorOf(c, r.io));
        assert false;
      }
      LocateAbove(c, vals[0]);
      forall j | 0 <= j < |rest| ensures CursorOf(c1, rest[j].io) <= rest[j].addr && rest[j] == rs[j + 1] {
        assert rs[j + 1] == rest[j];
      }
      if i > 0 { IncreasingNoFlags(c1, vals[1..], i - 1); }
    }
  }

  /** Over any sequence of sized registers, the regions increase and are disjoint if and only if no register
      reads back flag bits alone. */
  lemma RegionsIncreaseExactly(c: Cursors, vals: seq<Probe>)
    requires AllSized(c, vals) && c.io > 0 && c.mem > 0
    ensures Increasing(c, MapAll(c, vals).0) <==> forall i :: 0 <= i < |vals| ==> vals[i] == 0 || vals[i] >= 16
  {
    if forall i :: 0 <= i < |vals| ==> vals[i] == 0 || vals[i] >= 16 {
      NoFlagsFit(c, vals);
      RegionsDisjoint(c, vals);
    }
    if Increasing(c, MapAll(c, vals).0) {
      forall i | 0 <= i < |vals| ensures vals[i] == 0 || vals[i] >= 16 { IncreasingNoFlags(c, vals, i); }
    }
  }

  /** From the start values, two flag-only registers put two regions of 1 GB at the same address. */
  lemma RegionsOverlap()
    ensures var c, vals: seq<Probe> := Cursors(0xc000, 0xc000_0000), [8, 0xc000_0000, 8, 0xc000_0000];
      var rs := MapAll(c, vals).0;
      AllSized(c, vals) && |rs| == 4 && rs[1] == rs[3] == Region(false, 0, 0x4000_0000)
  {
    hide Align, SizeOf;
    var c: Cursors := Cursors(0xc000, 0xc000_0000);
    var c0, c1 := c.(mem := 0), c.(mem := 0x4000_0000);
    FlagsOnly(c);
    FlagsOnly(c1);
    Gigabyte(c0);
    var big: Probe, flags: Probe := 0xc000_0000, 8;
    var r, z := Region(false, 0, 0x4000_0000), Region(false, 0, 0);
    assert MapAll(c1, []) == ([], c1) && AllSized(c1, []);
    MapCons(c0, big, []);
    MapCons(c1, flags, [big]);
    MapCons(c0, big, [flags, big]);
    MapCons(c, flags, [big, flags, big]);
    assert [flags] + [big, flags, big] == [8, 0xc000_0000, 8, 0xc000_0000];
  }

  lemma MapCons(c: Cursors, val: Probe, vals: seq<Probe>)
    requires val != 0
    ensures var r := Locate(c, val);
      var rest := MapAll(Advance(c, r), vals);
      MapAll(c, [val] + vals) == ([r] + rest.0, rest.1)
    ensures AllSized(c, [val] + vals) <==> Sized(c, val) && AllSized(Advance(c, Locate(c, val)), vals)
  {
    assert ([val] + vals)[1..] == vals;
  }

  lemma FlagsOnly(c: Cursors)
    ensures Locate(c, 8) == Region(false, 0, 0) && Sized(c, 8) && Advance(c, Locate(c, 8)) == c.(mem := 0)
  {
    ZeroSizeResets(8, c.mem);
  }

  lemma Gigabyte(c: Cursors)
    requires c.mem == 0
    ensures Locate(c, 0xc000_0000) == Region(false, 0, 0x4000_0000) && Sized(c, 0xc000_0000)
    ensures Advance(c, Locate(c, 0xc000_0000)) == c.(mem := 0x4000_0000)
  {
    hide SizeOf, Align, Pow2;
    GigabyteSize();
    Pow2Of30();
    assert PowerOfTwo(0x4000_0000);
    AlignIsLeast(0, 30);
  }

  lemma GigabyteSize()
    ensures SizeOf(0xc000_0000) == 0x4000_0000
  {
    hide SizeOf, Bit32;
    SizeIsComplement(0xc000_0000);
    Bit32Of(0x4000_0000);
  }

  lemma Bit32Of(x: nat)
    requires x < TWO_TO_THE_32
    ensures Bit32(x) == x
  {
  }

  lemma Pow2Of30()
    ensures Pow2(30) == 0x4000_0000
  {
    Pow2Of32();
    assert Pow2(32) == 2 * Pow2(31) && Pow2(31) == 2 * Pow2(30);
  }

  // ---------------------------------------------------------------- register by register

  /** A region of 2^k >= 16 bytes takes the cursor that the lowest flag names: the I/O cursor for an odd one. It is
      placed at a, the multiple of its size less than one size above the cursor; the cursor moves right behind it,
      and the other one stays. */
  lemma NextRegion(c: Cursors, k: nat, flags: nat, a: nat, vals: seq<Probe>)
    requires 4 <= k <= 31 && flags < 16 && Pow2(k) < TWO_TO_THE_32 && a % Pow2(k) == 0
    requires var cursor := if flags % 2 == 1 then c.io else c.mem;
      cursor <= a < cursor + Pow2(k) && cursor + Pow2(k) <= 0x1_0000_0000 && a + Pow2(k) < 0x1_0000_0000
    ensures 0 <= 0x1_0000_0000 - Pow2(k) + flags < TWO_TO_THE_32
    ensures var val: Probe := 0x1_0000_0000 - Pow2(k) + flags;
      var next := if flags % 2 == 1 then c.(io := a + Pow2(k)) else c.(mem := a + Pow2(k));
      var rest := MapAll(next, vals);
      MapAll(c, [val] + vals) == ([Region(flags % 2 == 1, a, Pow2(k))] + rest.0, rest.1)
  {
    hide SizeOf, Align, Pow2, Locate, Advance, MapAll, IsIo, Bit32;
    AlignedAt(if flags % 2 == 1 then c.io else c.mem, k, a);
    NextPlace(c, k, flags, a, Pow2(k));
    MapCons(c, 0x1_0000_0000 - Pow2(k) + flags, vals);
  }

  lemma NextPlace(c: Cursors, k: nat, flags: nat, a: nat, p: nat)
    requires 4 <= k <= 31 && flags < 16 && p == Pow2(k) && a + p < TWO_TO_THE_32
    requires Align(if flags % 2 == 1 then c.io else c.mem, p) == a
    ensures 16 <= p <= 0x8000_0000
    ensures var val, r := TWO_TO_THE_32 - p + flags, Region(flags % 2 == 1, a, p);
      && Locate(c, val) == r
      && Advance(c, r) == if flags % 2 == 1 then c.(io := a + p) else c.(mem := a + p)
  {
    SixteenDivides(k);
    hide SizeOf, Align, Pow2, Locate, Advance, IsIo, Bit32;
    var val: Probe := TWO_TO_THE_32 - p + flags;
    ProbeDecodes(k, flags);
    OddFlag(k, flags);
    Located(c, val, flags % 2 == 1, a, p);
  }

  lemma AlignedAt(cursor: nat, k: nat, a: nat)
    requires k <= 31 && cursor + Pow2(k) - 1 < TWO_TO_THE_32
    requires a % Pow2(k) == 0 && cursor <= a < cursor + Pow2(k)
    ensures Align(cursor, Pow2(k)) == a
  {
    hide Align, Pow2;
    AlignIsLeast(cursor, k);
    OneMultiple(cursor, Pow2(k), a, Align(cursor, Pow2(k)));
  }

  lemma Located(c: Cursors, val: Probe, io: bool, a: nat, p: nat)
    requires IsIo(val) == io && SizeOf(val) == p && Align(if io then c.io else c.mem, p) == a
    requires a + p < TWO_TO_THE_32
    ensures Locate(c, val) == Region(io, a, p)
    ensures Advance(c, Region(io, a, p)) == if io then c.(io := a + p) else c.(mem := a + p)
  {
    hide IsIo, SizeOf, Align;
  }

  lemma SixteenDivides(k: nat)
    requires 4 <= k <= 31
    ensures 16 <= Pow2(k) <= 0x8000_0000
  {
    Pow2Of32();
    Pow2Grows(4, k);
    Pow2Grows(k, 31);
    assert Pow2(32) == 2 * Pow2(31);
  }

  lemma OddFlag(k: nat, flags: nat)
    requires k >= 1 && flags < Pow2(k) < TWO_TO_THE_32
    ensures IsIo(TWO_TO_THE_32 - Pow2(k) + flags) <==> flags % 2 == 1
  {
    assert Pow2(k) == 2 * Pow2(k - 1);
  }

  lemma OneMultiple(x: nat, p: nat, a: nat, b: nat)
    requires p >= 1 && a % p == 0 && b % p == 0 && x <= a < x + p && x <= b < x + p
    ensures a == b
  {
    var d := a / p - b / p;
    assert a == (a / p) * p && b == (b / p) * p;
    assert a - b == d * p;
    MultipleIsFar(d, p);
  }

  /** A register that reads 0 is passed over. */
  lemma NoRegister(c: Cursors, vals: seq<Probe>)
    ensures MapAll(c, [0] + vals) == MapAll(c, vals) && MapAll(c, []) == ([], c)
  {
    assert ([0] + vals)[1..] == vals;
  }

  class PciBios {
    var ioAddr: nat
    var memAddr: nat

    function State(): Cursors
      reads this
    {
      Cursors(ioAddr, memAddr)
    }

    /** The start values of pci_bios_init. */
    constructor ()
      ensures State() == Cursors(0xc000, 0xc000_0000)
    {
      ioAddr, memAddr := 0xc000, 0xc000_0000;
    }

    /** One register of the default mapping loop. */
    method MapRegion(val: Probe) returns (r: Region)
      modifies this
      ensures r == Locate(old(State()), val) && State() == Advance(old(State()), r)
    {
      hide Align, SizeOf;
      var size := SizeOf(val);
      if val % 2 == 1 {
        ioAddr := Align(ioAddr, size);
        r := Region(true, ioAddr, size);
        ioAddr := Bit32(ioAddr + size);
      } else {
        memAddr := Align(memAddr, size);
        r := Region(false, memAddr, size);
        memAddr := Bit32(memAddr + size);
      }
    }

    /** The default mapping loop, over the probed values in order. */
    method MapRegions(vals: seq<Probe>) returns (regions: seq<Region>)
      modifies this
      ensures (regions, State()) == MapAll(old(State()), vals)
    {
      hide Locate, Advance;
      ghost var c := State();
      regions := [];
      var i := 0;
      assert vals[0..] == vals && [] + MapAll(c, vals).0 == MapAll(c, vals).0;
      while i < |vals|
        invariant 0 <= i <= |vals|
        invariant var rest := MapAll(State(), vals[i..]); MapAll(c, vals) == (regions + rest.0, rest.1)
      {
        assert vals[i..][1..] == vals[i + 1..];
        if vals[i] != 0 {
          var r := MapRegion(vals[i]);
          ghost var rest := MapAll(State(), vals[i + 1..]);
          assert regions + ([r] + rest.0) == (regions + [r]) + rest.0;
          regions := regions + [r];
        }
        i := i + 1;
      }
      assert regions + [] == regions;
    }
  }
}
