/** pci_bios_init_pcirom: option ROMs are copied into shadow memory page by page, each 16 KB page being made
    writable through its two-bit control field for the copy and read-only afterwards. */
module PciRom {
  import opened Words

  const SHADOW_PAGE: nat := 0x4000
  const ROM_START: nat := 0xc0000
  const ROM_END: nat := 0xe0000

  type Memory = nat -> bv8

  function At(mem: Memory, a: nat): bv8 { mem(a) }

  /** The size byte counts 512-byte blocks and is rounded up to a multiple of four. */
  function RomSize(n: nat): (size: nat)
    requires n < 256
    ensures Aligned(size) && n * 512 <= size < n * 512 + 0x800
  {
    512 * (if n % 4 != 0 then n - n % 4 + 4 else n)
  }

  /** Option ROMs start on 2 KB boundaries. */
  predicate Aligned(a: nat) { a % 0x800 == 0 }

  lemma AlignedSum(a: nat, b: nat)
    requires Aligned(a) && Aligned(b)
    ensures Aligned(a + b)
  {
  }

  // ---------------------------------------------------------------- shadow control fields

  /** The control register and the position in it for an address: two pages to a register. */
  function RegOf(addr: nat): (r: nat)
    ensures r < 256
  {
    0x5a + addr / 0x8000 % 8
  }

  predicate HighHalf(addr: nat) { addr / SHADOW_PAGE % 2 == 1 }

  function SetField(v: bv8, high: bool, x: bv8): bv8
    requires x < 4
  {
    if high then (v & 0xcf) | (x << 4) else (v & 0xfc) | x
  }

  function GetField(v: bv8, high: bool): bv8 {
    if high then (v >> 4) & 3 else v & 3
  }

  lemma SetThenGet(v: bv8, high: bool, x: bv8)
    requires x < 4
    ensures GetField(SetField(v, high, x), high) == x
    ensures GetField(SetField(v, high, x), !high) == GetField(v, !high)
    ensures forall y: bv8 :: y < 4 ==> SetField(SetField(v, high, y), high, x) == SetField(v, high, x)
  {
  }

  /** The control field of shadow page q. */
  function Field(regs: seq<bv8>, q: nat): bv8
    requires |regs| == 256
  {
    GetField(regs[RegOf(q * SHADOW_PAGE)], HighHalf(q * SHADOW_PAGE))
  }

  /** The pages of the shadow window have their own fields. */
  lemma FieldsApart(q: nat, addr: nat)
    requires ROM_START <= q * SHADOW_PAGE <= ROM_END && ROM_START <= addr <= ROM_END
    ensures q == addr / SHADOW_PAGE <==>
      RegOf(q * SHADOW_PAGE) == RegOf(addr) && HighHalf(q * SHADOW_PAGE) == HighHalf(addr)
  {
  }

  /** A register value with the low or the high field, or both, set to 1: read-only shadow. */
  function Mark(v: bv8, low: bool, high: bool): bv8 {
    var v1 := if low then SetField(v, false, 1) else v;
    if high then SetField(v1, true, 1) else v1
  }

  /** The shadow page that a field of register r controls, for the registers of the window. */
  function PageAt(r: nat, high: bool): int {
    ROM_START / SHADOW_PAGE + 2 * (r - 0x5a) + if high then 1 else 0
  }

  /** The configuration registers with the fields of these pages set to 1, and no other bit changed. */
  function Marked(regs: seq<bv8>, pages: set<int>): (r: seq<bv8>)
    requires |regs| == 256
    ensures |r| == 256
  {
    seq(256, r requires 0 <= r < 256 => Mark(regs[r], PageAt(r, false) in pages, PageAt(r, true) in pages))
  }

  lemma MarkBits(v: bv8, a: bool, b: bool, c: bool, d: bool)
    ensures Mark(Mark(v, a, b), c, d) == Mark(v, a || c, b || d)
    ensures Mark(v, a, b) & 0xcc == v & 0xcc
    ensures GetField(Mark(v, a, b), false) == if a then 1 else GetField(v, false)
    ensures GetField(Mark(v, a, b), true) == if b then 1 else GetField(v, true)
  {
  }

  /** What marking pages does, field by field: their fields read 1, every other field of the window, every other
      register, and the bits 2, 3, 6 and 7 of all registers are as before. */
  lemma MarkedFields(regs: seq<bv8>, pages: set<int>)
    requires |regs| == 256
    ensures forall q: nat :: 48 <= q < 64 ==> Field(Marked(regs, pages), q) == if q in pages then 1 else Field(regs, q)
    ensures forall r :: 0 <= r < 256 && PageAt(r, false) !in pages && PageAt(r, true) !in pages ==>
      Marked(regs, pages)[r] == regs[r]
    ensures forall r :: 0 <= r < 256 ==> Marked(regs, pages)[r] & 0xcc == regs[r] & 0xcc
  {
    forall r | 0 <= r < 256 ensures Marked(regs, pages)[r] & 0xcc == regs[r] & 0xcc {
      MarkBits(regs[r], PageAt(r, false) in pages, PageAt(r, true) in pages, false, false);
    }
    forall q: nat | 48 <= q < 64
      ensures Field(Marked(regs, pages), q) == if q in pages then 1 else Field(regs, q)
    {
      var r := RegOf(q * SHADOW_PAGE);
      assert PageAt(r, HighHalf(q * SHADOW_PAGE)) == q by { PageOfField(q); }
      MarkBits(regs[r], PageAt(r, false) in pages, PageAt(r, true) in pages, false, false);
    }
  }

  lemma PageOfField(q: nat)
    requires 48 <= q < 64
    ensures PageAt(RegOf(q * SHADOW_PAGE), HighHalf(q * SHADOW_PAGE)) == q
  {
  }

  /** Where the fields are: the pages of 16 KB from 0xc0000 on take the low and the high half of the registers from
      0x5a on in turn, two bits each. */
  lemma FieldBits(regs: seq<bv8>, pages: set<int>, q: nat)
    requires |regs| == 256 && 48 <= q < 64
    ensures var r, regs' := 0x5a + (q - 48) / 2, Marked(regs, pages);
      if q % 2 == 0 then regs'[r] & 0x03 == if q in pages then 0x01 else regs[r] & 0x03
      else regs'[r] & 0x30 == if q in pages then 0x10 else regs[r] & 0x30
  {
    var r := 0x5a + (q - 48) / 2;
    assert PageAt(r, q % 2 == 1) == q;
    RawBits(regs[r], PageAt(r, false) in pages, PageAt(r, true) in pages);
  }

  lemma RawBits(v: bv8, a: bool, b: bool)
    ensures Mark(v, a, b) & 0x03 == if a then 0x01 else v & 0x03
    ensures Mark(v, a, b) & 0x30 == if b then 0x10 else v & 0x30
  {
  }

  lemma MarkedTwice(regs: seq<bv8>, a: set<int>, b: set<int>)
    requires |regs| == 256
    ensures Marked(Marked(regs, a), b) == Marked(regs, a + b)
  {
    forall r | 0 <= r < 256 ensures Marked(Marked(regs, a), b)[r] == Marked(regs, a + b)[r] {
      MarkBits(regs[r], PageAt(r, false) in a, PageAt(r, true) in a, PageAt(r, false) in b, PageAt(r, true) in b);
    }
  }

  lemma MarkedNone(regs: seq<bv8>)
    requires |regs| == 256
    ensures Marked(regs, {}) == regs
  {
  }

  /** The registers after a chunk at addr: its page's field is 1. */
  function Opened(regs: seq<bv8>, addr: nat): (r: seq<bv8>)
    requires |regs| == 256
    ensures |r| == 256
  {
    regs[RegOf(addr) := SetField(regs[RegOf(addr)], HighHalf(addr), 1)]
  }

  lemma OpenedMarks(regs: seq<bv8>, addr: nat)
    requires |regs| == 256 && ROM_START <= addr <= ROM_END
    ensures Opened(regs, addr) == Marked(regs, {addr / SHADOW_PAGE})
  {
    hide SetField;
    forall r | 0 <= r < 256 ensures Opened(regs, addr)[r] == Marked(regs, {addr / SHADOW_PAGE})[r] {
      OwnPage(r, addr, false);
      OwnPage(r, addr, true);
    }
  }

  lemma OwnPage(r: nat, addr: nat, high: bool)
    requires r < 256 && ROM_START <= addr <= ROM_END
    ensures PageAt(r, high) == addr / SHADOW_PAGE <==> r == RegOf(addr) && high == HighHalf(addr)
  {
  }

  // ---------------------------------------------------------------- one chunk

  /** memcpy between ranges that do not overlap. */
  function Copied(mem: Memory, dst: nat, src: nat, n: nat): Memory {
    (a: nat) => if dst <= a < dst + n then mem(src + (a - dst)) else mem(a)
  }

  datatype Chunk = Chunk(addr: nat, size: nat)

  /** The chunks lie one behind the other from start on, `size` bytes in all, none crossing a page. */
  predicate Tiles(chunks: seq<Chunk>, start: nat, size: nat) {
    if chunks == [] then size == 0
    else
      var c := chunks[|chunks| - 1];
      && c.size <= size && c.addr == start + (size - c.size)
      && c.addr % SHADOW_PAGE + c.size <= SHADOW_PAGE
      && Tiles(chunks[..|chunks| - 1], start, size - c.size)
  }

  /** Each byte of the range lies in exactly one chunk. */
  lemma {:induction false} TiledOnce(chunks: seq<Chunk>, start: nat, size: nat, a: nat)
    requires Tiles(chunks, start, size) && start <= a < start + size
    ensures exists i :: 0 <= i < |chunks| && chunks[i].addr <= a < chunks[i].addr + chunks[i].size
    ensures forall i, j :: 0 <= i < j < |chunks| ==>
      !(chunks[i].addr <= a < chunks[i].addr + chunks[i].size && chunks[j].addr <= a < chunks[j].addr + chunks[j].size)
  {
    var n := |chunks| - 1;
    var c := chunks[n];
    TilesBelow(chunks[..n], start, size - c.size);
    if a < c.addr {
      TiledOnce(chunks[..n], start, size - c.size, a);
      var i :| 0 <= i < n && chunks[..n][i].addr <= a < chunks[..n][i].addr + chunks[..n][i].size;
      assert chunks[i] == chunks[..n][i];
    }
    assert forall i :: 0 <= i < n ==> chunks[i] == chunks[..n][i];
  }

  lemma {:induction false} TilesBelow(chunks: seq<Chunk>, start: nat, size: nat)
    requires Tiles(chunks, start, size)
    ensures forall i :: 0 <= i < |chunks| ==> start <= chunks[i].addr && chunks[i].addr + chunks[i].size <= start + size
  {
    if chunks != [] {
      var n := |chunks| - 1;
      TilesBelow(chunks[..n], start, size - chunks[n].size);
      assert forall i :: 0 <= i < n ==> chunks[i] == chunks[..n][i];
    }
  }

  // ---------------------------------------------------------------- the program

  /** The ROM image does not lie in the shadow window itself. */
  predicate Apart(paddr: nat) {
    paddr + (ROM_END - ROM_START) <= ROM_START || ROM_END <= paddr
  }

  /** The pages opened by a copy of `size` bytes to start. A copy of nothing still opens its first page. */
  function Pages(start: nat, size: nat): set<int> {
    set q: int | 0 <= q <= start + size && Touched(q, start, size)
  }

  predicate Touched(q: int, start: nat, size: nat) {
    start / SHADOW_PAGE <= q <= Max(start, start + size - 1) / SHADOW_PAGE
  }

  lemma PagesGrow(start: nat, done: nat, n: nat)
    requires (start + done) % SHADOW_PAGE + n <= SHADOW_PAGE
    ensures done > 0 && n > 0 ==> Pages(start, done + n) == Pages(start, done) + {(start + done) / SHADOW_PAGE}
    ensures done == 0 ==> Pages(start, n) == {start / SHADOW_PAGE}
  {
  }

  /** The page holds a byte of the copy. */
  predicate HoldsCopy(q: int, start: nat, size: nat) {
    exists a :: start <= a < start + size && a / SHADOW_PAGE == q
  }

  /** The fields set are those of the pages that hold copied bytes, exactly when the ROM is not empty. */
  lemma TouchedExactly(start: nat, size: nat)
    ensures (forall q: int :: q in Pages(start, size) <==> HoldsCopy(q, start, size)) <==> size > 0
  {
    if size > 0 {
      forall q: int ensures q in Pages(start, size) <==> HoldsCopy(q, start, size) {
        if q in Pages(start, size) {
          var a := if q == start / SHADOW_PAGE then start else q * SHADOW_PAGE;
          assert start <= a < start + size && a / SHADOW_PAGE == q;
        }
      }
    } else {
      assert start / SHADOW_PAGE in Pages(start, 0) && !HoldsCopy(start / SHADOW_PAGE, start, 0);
    }
  }

  datatype Copy = Copy(paddr: nat, start: nat, size: nat)

  /** The copy holds the image that was at its source at first. */
  ghost predicate Intact(mem: Memory, mem0: Memory, c: Copy) {
    forall a: nat {:trigger At(mem, a)} :: c.start <= a < c.start + c.size ==>
      At(mem, a) == At(mem0, c.paddr + (a - c.start))
  }

  /** Memory outside the range is as it was. */
  ghost predicate Outside(mem: Memory, mem0: Memory, lo: nat, hi: nat) {
    forall a: nat {:trigger At(mem, a)} :: !(lo <= a < hi) ==> At(mem, a) == At(mem0, a)
  }

  /** Memory is as it was, but for the first `done` bytes of the image at paddr, copied to start. */
  ghost predicate Shadows(mem: Memory, mem0: Memory, start: nat, done: nat, paddr: nat) {
    Intact(mem, mem0, Copy(paddr, start, done)) && Outside(mem, mem0, start, start + done)
  }

  /** What a shadow is, byte by byte. */
  lemma ShadowsExactly(mem: Memory, mem0: Memory, start: nat, size: nat, paddr: nat, a: nat)
    requires Shadows(mem, mem0, start, size, paddr)
    ensures mem(a) == mem0(if start <= a < start + size then paddr + (a - start) else a)
  {
    assert At(mem, a) == mem(a);
  }

  lemma CopiedShadows(mem: Memory, dst: nat, src: nat, n: nat)
    ensures Shadows(Copied(mem, dst, src, n), mem, dst, n, src)
  {
  }

  lemma CopyMore(mem': Memory, mem: Memory, mem0: Memory, start: nat, done: nat, paddr: nat, n: nat)
    requires Shadows(mem, mem0, start, done, paddr) && Apart(paddr)
    requires ROM_START <= start && start + done + n <= ROM_END
    requires Shadows(mem', mem, start + done, n, paddr + done)
    ensures Shadows(mem', mem0, start, done + n, paddr)
  {
    hide Apart, At;
    forall a: nat | start <= a < start + done + n ensures At(mem', a) == At(mem0, paddr + (a - start)) {
      CopyMoreAt(mem', mem, mem0, start, done, paddr, n, a);
    }
    forall a: nat | !(start <= a < start + done + n) ensures At(mem', a) == At(mem0, a) {
      CopyMoreAt(mem', mem, mem0, start, done, paddr, n, a);
    }
  }

  lemma CopyMoreAt(
    mem': Memory, mem: Memory, mem0: Memory, start: nat, done: nat, paddr: nat, n: nat, a: nat)
    requires Shadows(mem, mem0, start, done, paddr) && Apart(paddr)
    requires ROM_START <= start && start + done + n <= ROM_END
    requires Shadows(mem', mem, start + done, n, paddr + done)
    ensures At(mem', a) == At(mem0, if start <= a < start + done + n then paddr + (a - start) else a)
  {
    if start + done <= a < start + done + n {
      var source := paddr + (a - start);
      assert source == paddr + done + (a - (start + done));
      assert At(mem', a) == At(mem, source);
      assert At(mem, source) == At(mem0, source);
    } else {
      assert At(mem', a) == At(mem, a);
    }
  }

  /** The size of the ROM image at paddr, in bytes. */
  function SizeAt(mem: Memory, paddr: nat): nat {
    RomSize(At(mem, paddr + 2) as nat)
  }

  /** The size byte is the third one of the image; the size is the least multiple of 2 KB that holds so many blocks
      of 512 bytes. */
  lemma SizeExactly(mem: Memory, paddr: nat)
    ensures SizeAt(mem, paddr) == (512 * mem(paddr + 2) as nat + 0x7ff) / 0x800 * 0x800
  {
    hide RomSize;
    var x, size := 512 * mem(paddr + 2) as nat, SizeAt(mem, paddr);
    var k := size / 0x800;
    assert size == k * 0x800;
    DivideUnique(x + 0x7ff, 0x800, k, x + 0x7ff - size);
  }

  /** There is a ROM image at paddr, and it still fits behind the cursor. */
  predicate Copies(mem: Memory, paddr: nat, cursor: nat) {
    paddr != 0 && cursor + SizeAt(mem, paddr) <= ROM_END
  }

  /** Where a sequence of ROM images goes, and the cursor behind the last copy. */
  function Layout(mem: Memory, paddrs: seq<nat>, cursor: nat): (seq<Copy>, nat) {
    if paddrs == [] then ([], cursor)
    else
      var (copies, end) := Layout(mem, paddrs[..|paddrs| - 1], cursor);
      var paddr := paddrs[|paddrs| - 1];
      if Copies(mem, paddr, end) then (copies + [Copy(paddr, end, SizeAt(mem, paddr))], end + SizeAt(mem, paddr))
      else (copies, end)
  }

  /** The pages opened by some copy. */
  function AllPages(copies: seq<Copy>): set<int> {
    if copies == [] then {}
    else
      var c := copies[|copies| - 1];
      AllPages(copies[..|copies| - 1]) + Pages(c.start, c.size)
  }

  /** One more image: it is copied if and only if it is there and, with its size rounded up, ends at 0xe0000 or
      below; it goes where the last copy ended. */
  lemma LayoutExactly(mem: Memory, paddrs: seq<nat>, p: nat, cursor: nat)
    ensures Layout(mem, [], cursor) == ([], cursor)
    ensures var (copies, end) := Layout(mem, paddrs, cursor);
      var size := (512 * mem(p + 2) as nat + 0x7ff) / 0x800 * 0x800;
      Layout(mem, paddrs + [p], cursor) ==
        if p != 0 && end + size <= 0xe0000 then (copies + [Copy(p, end, size)], end + size) else (copies, end)
  {
    SizeExactly(mem, p);
    assert (paddrs + [p])[..|paddrs|] == paddrs;
  }

  /** The pages of a sequence of copies, one copy after the other. */
  lemma AllPagesExactly(copies: seq<Copy>, c: Copy, q: int)
    ensures AllPages([]) == {}
    ensures q in AllPages(copies + [c]) <==>
      || q in AllPages(copies)
      || c.start / 0x4000 <= q <= (if c.size > 0 then c.start + c.size - 1 else c.start) / 0x4000
  {
    assert (copies + [c])[..|copies|] == copies;
  }

  class Bios {
    var mem: Memory
    const regs: array<bv8>
    var romStart: nat

    predicate Valid()
      reads this
    {
      regs.Length == 256 && ROM_START <= romStart <= ROM_END && Aligned(romStart)
    }

    constructor (mem: Memory)
      ensures Valid() && this.mem == mem && romStart == 0xc0000
    {
      this.mem := mem;
      regs := new bv8[256](_ => 0);
      romStart := ROM_START;
    }

    /** Copy one chunk, with its page open for writing meanwhile. */
    method CopyChunk(addr: nat, src: nat, n: nat)
      requires regs.Length == 256
      modifies this`mem, regs
      ensures Shadows(mem, old(mem), addr, n, src)
      ensures regs[..] == Opened(old(regs[..]), addr)
    {
      var r, high := RegOf(addr), HighHalf(addr);
      ghost var before := regs[..];
      var v := regs[r];
      SetThenGet(v, high, 1);
      v := SetField(v, high, 2);
      regs[r] := v;
      CopiedShadows(mem, addr, src, n);
      mem := Copied(mem, addr, src, n);
      v := SetField(v, high, 1);
      regs[r] := v;
      assert regs[..] == before[r := v];
    }

    /** The loop body of pci_bios_init_pcirom: copy up to the end of the page or of the image. */
    method CopyPage(
      chunks: seq<Chunk>, start: nat, done: nat, size: nat, paddr: nat, ghost mem0: Memory, ghost regs0: seq<bv8>)
      returns (n: nat, chunks': seq<Chunk>)
      requires regs.Length == 256 && Apart(paddr) && ROM_START <= start && start + size <= ROM_END
      requires if chunks == [] then done == 0 else 0 < done < size
      requires Progress(mem, mem0, regs[..], regs0, chunks, start, done, paddr)
      modifies this`mem, regs
      ensures n <= size - done && (done < size ==> n > 0) && chunks' != []
      ensures Progress(mem, mem0, regs[..], regs0, chunks', start, done + n, paddr)
    {
      hide Progress, Shadows, RegOf, HighHalf, SetField;
      var addr := start + done;
      n := SHADOW_PAGE - addr % SHADOW_PAGE;
      if size - done < n { n := size - done; }
      ghost var was, before := mem, regs[..];
      CopyChunk(addr, paddr + done, n);
      chunks' := chunks + [Chunk(addr, n)];
      MoreProgress(mem, was, mem0, before, regs0, chunks, start, done, paddr, n);
    }

    /** The do-while loop of pci_bios_init_pcirom. */
    method CopyImage(paddr: nat, size: nat) returns (chunks: seq<Chunk>)
      requires regs.Length == 256 && Apart(paddr) && ROM_START <= romStart && romStart + size <= ROM_END
      modifies this`mem, regs
      ensures chunks != [] && Tiles(chunks, romStart, size)
      ensures Shadows(mem, old(mem), romStart, size, paddr)
      ensures regs[..] == Marked(old(regs[..]), Pages(romStart, size))
    {
      hide Progress, Shadows, Marked, Pages, Tiles, Apart;
      ghost var mem0, regs0 := mem, regs[..];
      NothingYet(mem, regs0, romStart, paddr);
      chunks := [];
      var done := 0;
      while true
        invariant if chunks == [] then done == 0 else 0 < done < size
        invariant Progress(mem, mem0, regs[..], regs0, chunks, romStart, done, paddr)
        decreases size - done
      {
        var n;
        n, chunks := CopyPage(chunks, romStart, done, size, paddr, mem0, regs0);
        done := done + n;
        if !(done < size) { break; }
      }
      Progressed(mem, mem0, regs[..], regs0, chunks, romStart, size, paddr);
    }

    /** pci_bios_init_pcirom. The image lands byte for byte at the cursor; exactly the touched pages end up
        read-only shadow (field 1); everything else in memory and in the registers stays as it was. */
    method InitPcirom(paddr: nat) returns (copied: bool, chunks: seq<Chunk>)
      requires Valid() && (paddr != 0 ==> Apart(paddr))
      modifies this, regs
      ensures Valid()
      ensures copied <==>
        paddr != 0 && old(romStart) + (512 * old(mem)(paddr + 2) as nat + 0x7ff) / 0x800 * 0x800 <= 0xe0000
      ensures copied ==>
        romStart == old(romStart) + (512 * old(mem)(paddr + 2) as nat + 0x7ff) / 0x800 * 0x800
      ensures copied <==> Copies(old(mem), paddr, old(romStart))
      ensures !copied ==> mem == old(mem) && regs[..] == old(regs[..]) && romStart == old(romStart) && chunks == []
      ensures copied ==>
        var start, size := old(romStart), SizeAt(old(mem), paddr);
        && romStart == start + size
        && chunks != [] && Tiles(chunks, start, size)
        && Shadows(mem, old(mem), start, size, paddr)
        && regs[..] == Marked(old(regs[..]), Pages(start, size))
    {
      SizeExactly(mem, paddr);
      if paddr == 0 { return false, []; }
      var size, start := SizeAt(mem, paddr), romStart;
      if start + size > ROM_END { return false, []; }
      hide Shadows, Marked, Pages, Tiles, RomSize, Aligned;
      AlignedSum(start, size);
      chunks := CopyImage(paddr, size);
      romStart := romStart + size;
      copied := true;
    }

    /** A sequence of ROM images, as the devices are visited: every one that is there and fits is copied behind
        the one before. The copies never overlap or leave the window, each is still intact after all the others,
        and exactly the pages of some copy end up read-only shadow. */
    method InitRoms(paddrs: seq<nat>) returns (copies: seq<Copy>)
      requires Valid() && forall k :: 0 <= k < |paddrs| ==> paddrs[k] != 0 ==> Apart(paddrs[k])
      modifies this, regs
      ensures Valid() && (copies, romStart) == Layout(old(mem), paddrs, old(romStart))
      ensures Record(mem, old(mem), copies, old(romStart), romStart)
      ensures regs[..] == Marked(old(regs[..]), AllPages(copies))
    {
      hide Tiles, Shadows, Marked, Pages, AllPages, Aligned, Record, Layout, Apart, SizeAt;
      ghost var mem0, regs0, start0 := mem, regs[..], romStart;
      copies := [];
      NoCopies(mem, regs[..], paddrs, romStart);
      var k := 0;
      while k < |paddrs|
        invariant k <= |paddrs| && Valid() && start0 <= romStart
        invariant Record(mem, mem0, copies, start0, romStart)
        invariant (copies, romStart) == Layout(mem0, paddrs[..k], start0)
        invariant regs[..] == Marked(regs0, AllPages(copies))
      {
        var c := Copy(paddrs[k], romStart, SizeAt(mem, paddrs[k]));
        ghost var before, was, earlier := mem, regs[..], copies;
        LayoutStep(mem, mem0, paddrs, k, start0, copies, romStart);
        var copied, chunks := InitPcirom(paddrs[k]);
        if copied {
          copies := copies + [c];
          OneMoreCopy(before, mem0, mem, earlier, start0, c);
          MorePages(was, regs0, earlier, c);
        }
        k := k + 1;
      }
      assert paddrs[..k] == paddrs;
    }
  }

  /** The copies lie one behind the other from lo to hi. */
  predicate InOrder(copies: seq<Copy>, lo: nat, hi: nat) {
    && lo <= hi
    && (forall i :: 0 <= i < |copies| ==> lo <= copies[i].start && copies[i].start + copies[i].size <= hi)
    && (forall i, j :: 0 <= i < j < |copies| ==> copies[i].start + copies[i].size <= copies[j].start)
  }

  /** What a sequence of copies leaves: in order, between lo and hi, all intact, and nothing else changed. */
  ghost predicate Record(mem: Memory, mem0: Memory, copies: seq<Copy>, lo: nat, hi: nat) {
    && InOrder(copies, lo, hi)
    && (forall i :: 0 <= i < |copies| ==> Intact(mem, mem0, copies[i]))
    && Outside(mem, mem0, lo, hi)
  }

  lemma NoCopies(mem: Memory, regs: seq<bv8>, paddrs: seq<nat>, lo: nat)
    requires |regs| == 256
    ensures Record(mem, mem, [], lo, lo) && Layout(mem, paddrs[..0], lo) == ([], lo)
    ensures Marked(regs, AllPages([])) == regs
  {
    MarkedNone(regs);
  }

  lemma MorePages(regs: seq<bv8>, regs0: seq<bv8>, copies: seq<Copy>, c: Copy)
    requires |regs0| == 256 && regs == Marked(regs0, AllPages(copies))
    ensures Marked(regs, Pages(c.start, c.size)) == Marked(regs0, AllPages(copies + [c]))
  {
    hide Marked, Pages;
    assert (copies + [c])[..|copies|] == copies;
    MarkedTwice(regs0, AllPages(copies), Pages(c.start, c.size));
  }

  /** The next step of the layout may look at memory as it is now: no image lies in the shadow window. */
  lemma LayoutStep(
    mem: Memory, mem0: Memory, paddrs: seq<nat>, k: nat, start0: nat, copies: seq<Copy>, cursor: nat)
    requires k < |paddrs| && (paddrs[k] != 0 ==> Apart(paddrs[k]))
    requires ROM_START <= start0 && cursor <= ROM_END && Record(mem, mem0, copies, start0, cursor)
    requires (copies, cursor) == Layout(mem0, paddrs[..k], start0)
    ensures var p := paddrs[k];
      var size := SizeAt(mem, p);
      Layout(mem0, paddrs[..k + 1], start0) ==
        if Copies(mem, p, cursor) then (copies + [Copy(p, cursor, size)], cursor + size) else (copies, cursor)
  {
    assert paddrs[..k + 1][..k] == paddrs[..k];
    if paddrs[k] != 0 { assert At(mem, paddrs[k] + 2) == At(mem0, paddrs[k] + 2); }
    hide RomSize, At, Intact, InOrder, Outside;
  }

  lemma OneMoreCopy(before: Memory, mem0: Memory, mem: Memory, copies: seq<Copy>, lo: nat, c: Copy)
    requires Record(before, mem0, copies, lo, c.start)
    requires Shadows(mem, before, c.start, c.size, c.paddr) && Apart(c.paddr)
    requires ROM_START <= lo && c.start + c.size <= ROM_END
    ensures Record(mem, mem0, copies + [c], lo, c.start + c.size)
  {
    hide At, Shadows, Outside, Intact, Apart;
    NewIntact(before, mem0, mem, lo, c);
    forall i | 0 <= i < |copies| ensures Intact(mem, mem0, copies[i]) {
      StillIntact(before, mem0, mem, copies[i], c);
    }
  }

  lemma NewIntact(before: Memory, mem0: Memory, mem: Memory, lo: nat, c: Copy)
    requires Outside(before, mem0, lo, c.start)
    requires Shadows(mem, before, c.start, c.size, c.paddr) && Apart(c.paddr)
    requires ROM_START <= lo <= c.start && c.start + c.size <= ROM_END
    ensures Intact(mem, mem0, c) && Outside(mem, mem0, lo, c.start + c.size)
  {
    forall a: nat | c.start <= a < c.start + c.size ensures At(mem, a) == At(mem0, c.paddr + (a - c.start)) {
      var source := c.paddr + (a - c.start);
      assert At(mem, a) == At(before, source) == At(mem0, source);
    }
    forall a: nat | !(lo <= a < c.start + c.size) ensures At(mem, a) == At(mem0, a) {
      assert At(mem, a) == At(before, a);
    }
  }

  lemma StillIntact(before: Memory, mem0: Memory, mem: Memory, d: Copy, c: Copy)
    requires Intact(before, mem0, d) && Shadows(mem, before, c.start, c.size, c.paddr)
    requires d.start + d.size <= c.start
    ensures Intact(mem, mem0, d)
  {
    forall a: nat | d.start <= a < d.start + d.size ensures At(mem, a) == At(mem0, d.paddr + (a - d.start)) {
      assert At(mem, a) == At(before, a);
    }
  }

  /** The pages opened by the chunks so far. */
  function PagesSoFar(chunks: seq<Chunk>, start: nat, done: nat): set<int> {
    if chunks == [] then {} else Pages(start, done)
  }

  /** Where the copy stands after `done` bytes. */
  ghost predicate Progress(
    mem: Memory, mem0: Memory, regs: seq<bv8>, regs0: seq<bv8>, chunks: seq<Chunk>, start: nat, done: nat, paddr: nat)
  {
    && Shadows(mem, mem0, start, done, paddr)
    && |regs0| == 256 && regs == Marked(regs0, PagesSoFar(chunks, start, done))
    && Tiles(chunks, start, done)
  }

  lemma NothingYet(mem: Memory, regs: seq<bv8>, start: nat, paddr: nat)
    requires |regs| == 256
    ensures Progress(mem, mem, regs, regs, [], start, 0, paddr)
  {
    MarkedNone(regs);
  }

  lemma MoreProgress(
    mem: Memory, was: Memory, mem0: Memory, regs: seq<bv8>, regs0: seq<bv8>, chunks: seq<Chunk>,
    start: nat, done: nat, paddr: nat, n: nat)
    requires Progress(was, mem0, regs, regs0, chunks, start, done, paddr)
    requires |regs| == 256 && Apart(paddr) && ROM_START <= start && start + done + n <= ROM_END
    requires (start + done) % SHADOW_PAGE + n <= SHADOW_PAGE
    requires if chunks == [] then done == 0 else done > 0 && n > 0
    requires Shadows(mem, was, start + done, n, paddr + done)
    ensures
      var chunks' := chunks + [Chunk(start + done, n)];
      Progress(mem, mem0, Opened(regs, start + done), regs0, chunks', start, done + n, paddr)
  {
    hide Shadows, Tiles, Opened, Marked, Pages;
    CopyMore(mem, was, mem0, start, done, paddr, n);
    OpenedMarks(regs, start + done);
    MarkedTwice(regs0, PagesSoFar(chunks, start, done), {(start + done) / SHADOW_PAGE});
    PagesGrow(start, done, n);
    assert Pages(start, done + n) == PagesSoFar(chunks, start, done) + {(start + done) / SHADOW_PAGE};
    TileMore(chunks, start, done, Chunk(start + done, n));
  }

  lemma Progressed(
    mem: Memory, mem0: Memory, regs: seq<bv8>, regs0: seq<bv8>, chunks: seq<Chunk>, start: nat, done: nat, paddr: nat)
    requires Progress(mem, mem0, regs, regs0, chunks, start, done, paddr) && chunks != []
    ensures |regs0| == 256 && regs == Marked(regs0, Pages(start, done))
    ensures Shadows(mem, mem0, start, done, paddr) && Tiles(chunks, start, done)
  {
  }

  lemma TileMore(chunks: seq<Chunk>, start: nat, done: nat, c: Chunk)
    requires Tiles(chunks, start, done) && c.addr == start + done && c.addr % SHADOW_PAGE + c.size <= SHADOW_PAGE
    ensures Tiles(chunks + [c], start, done + c.size)
  {
    assert (chunks + [c])[..|chunks|] == chunks;
  }

}
