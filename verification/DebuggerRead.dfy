/** bx_dbg_read_linear: a linear read done page by page, against the same read done byte by byte. */
module DebuggerRead {
  import opened Pages
  import opened Words
  import opened Wrappers

  /** The translation maps pages to page frames, and each physical byte is read on its own. Linear addresses
      are 32 bits wide and wrap around. */
  datatype Machine = Machine(frame: nat -> Option<nat>, byteAt: nat -> Option<bv8>) {

    /** dbg_xlate_linear2phy. */
    function Translate(laddr: nat): Option<nat> {
      var f := frame(laddr / 0x1000);
      if f.None? then None else Some(f.value * 0x1000 + laddr % 0x1000)
    }

    /** The k-th byte from laddr on, by its own translation. */
    function ReadByte(laddr: nat, k: nat): Option<bv8> {
      var p := Translate((laddr + k) % TWO_TO_THE_32);
      if p.None? then None else PhysByte(p.value, 0)
    }

    /** The k-th physical byte from paddr on. */
    function PhysByte(paddr: nat, k: nat): Option<bv8> {
      byteAt(paddr + k)
    }
  }

  /** Every byte of the read has a translation and a physical byte behind it. */
  predicate AllReadable(m: Machine, laddr: nat, len: nat) {
    forall k :: 0 <= k < len ==> m.ReadByte(laddr, k).Some?
  }

  /** One physical read. */
  datatype Fetch = Fetch(paddr: nat, len: nat)

  predicate InOnePage(r: Fetch) {
    r.paddr % 0x1000 + r.len <= 0x1000
  }

  function TotalFetched(fetches: seq<Fetch>): nat {
    if fetches == [] then 0 else TotalFetched(fetches[..|fetches| - 1]) + fetches[|fetches| - 1].len
  }

  lemma NoFetches()
    ensures TotalFetched([]) == 0
  {
  }

  lemma OneMoreFetch(fetches: seq<Fetch>, r: Fetch)
    ensures TotalFetched(fetches + [r]) == TotalFetched(fetches) + r.len
  {
    assert (fetches + [r])[..|fetches|] == fetches;
  }

  /** A page frame is aligned, so a read that stays in a linear page stays in its frame. */
  lemma InFrame(m: Machine, a: nat, n: nat)
    requires m.Translate(a).Some? && a % PAGE + n <= PAGE
    ensures InOnePage(Fetch(m.Translate(a).value, n))
  {
  }

  /** Inside one page the translation of the first byte gives those of all. */
  lemma SamePage(m: Machine, a: nat, j: nat)
    requires a < TWO_TO_THE_32 && a % PAGE + j < PAGE
    ensures (a + j) % TWO_TO_THE_32 == a + j
    ensures m.Translate(a).Some? <==> m.Translate(a + j).Some?
    ensures m.Translate(a).Some? ==> m.Translate(a + j).value == m.Translate(a).value + j
  {
    assert (a + j) / PAGE == a / PAGE;
    assert (a + j) % PAGE == a % PAGE + j;
  }

  /** The bytes from position `at` on, up to the end of the page of their first address a, lie side by side. */
  lemma ChunkBytes(m: Machine, laddr: nat, at: nat, a: nat, n: nat)
    requires a == (laddr + at) % TWO_TO_THE_32 && a % PAGE + n <= PAGE
    ensures forall k :: at <= k < at + n ==>
      m.ReadByte(laddr, k) ==
        if m.Translate(a).None? then None else m.PhysByte(m.Translate(a).value, k - at)
  {
    forall k | at <= k < at + n
      ensures m.ReadByte(laddr, k) ==
        if m.Translate(a).None? then None else m.PhysByte(m.Translate(a).value, k - at)
    {
      SamePage(m, a, k - at);
      assert (laddr + k) % TWO_TO_THE_32 == (a + (k - at)) % TWO_TO_THE_32;
    }
  }

  /** dbg_fetch_mem: every byte is stored, bad ones as 0xff; the result says whether all were good. */
  method FetchMem(m: Machine, paddr: nat, len: nat, buf: array<bv8>, at: nat) returns (ok: bool)
    requires at + len <= buf.Length
    modifies buf
    ensures ok <==> forall k :: 0 <= k < len ==> m.PhysByte(paddr, k).Some?
    ensures forall i :: at <= i < at + len ==>
      var b := m.PhysByte(paddr, i - at); buf[i] == if b.Some? then b.value else 0xff
    ensures forall i :: 0 <= i < buf.Length && !(at <= i < at + len) ==> buf[i] == old(buf[i])
  {
    ok := true;
    var n := 0;
    while n < len
      invariant 0 <= n <= len
      invariant ok <==> forall k :: 0 <= k < n ==> m.PhysByte(paddr, k).Some?
      invariant forall i :: at <= i < at + n ==> buf[i] == Stored(m.PhysByte(paddr, i - at))
      invariant forall i :: 0 <= i < buf.Length && !(at <= i < at + n) ==> buf[i] == old(buf[i])
    {
      var b := m.PhysByte(paddr, n);
      buf[at + n] := Stored(b);
      if b.None? { ok := false; }
      n := n + 1;
    }
  }

  function Stored(b: Option<bv8>): bv8 {
    if b.Some? then b.value else 0xff
  }

  /** A read succeeds exactly when every byte could be read on its own and the page of the first address is
      mapped. */
  predicate Succeeds(m: Machine, laddr: nat, len: nat) {
    m.Translate(laddr).Some? && AllReadable(m, laddr, len)
  }

  /** bx_dbg_read_linear. On success the buffer holds what the byte-by-byte read gives. Every physical read
      stays inside one page frame, on failure too. */
  method ReadLinear(m: Machine, laddr: nat, len: nat, buf: array<bv8>) returns (ok: bool, fetches: seq<Fetch>)
    requires laddr < TWO_TO_THE_32 && len <= buf.Length
    modifies buf
    ensures ok <==> Succeeds(m, laddr, len)
    ensures ok ==> forall k :: 0 <= k < len ==> Some(buf[k]) == m.ReadByte(laddr, k)
    ensures forall i :: len <= i < buf.Length ==> buf[i] == old(buf[i])
    ensures forall i :: 0 <= i < |fetches| ==> InOnePage(fetches[i])
    ensures ok ==> TotalFetched(fetches) == len
  {
    hide Machine.ReadByte, Machine.PhysByte, Machine.Translate, TotalFetched, InOnePage;
    fetches := [];
    NoFetches();
    var a, left, at := laddr, len, 0;
    while true
      invariant at + left == len && a == (laddr + at) % TWO_TO_THE_32
      invariant at > 0 ==> left > 0 && m.Translate(laddr).Some?
      invariant forall k :: 0 <= k < at ==> Some(buf[k]) == m.ReadByte(laddr, k)
      invariant forall i :: len <= i < buf.Length ==> buf[i] == old(buf[i])
      invariant TotalFetched(fetches) == at && forall i :: 0 <= i < |fetches| ==> InOnePage(fetches[i])
      decreases left
    {
      var remainsInPage := PAGE - a % PAGE;
      var readLen := if remainsInPage < left then remainsInPage else left;
      ChunkBytes(m, laddr, at, a, readLen);
      var paddr := m.Translate(a);
      if paddr.None? {
        if left > 0 { assert m.ReadByte(laddr, at).None?; }
        return false, fetches;
      }
      InFrame(m, a, readLen);
      OneMoreFetch(fetches, Fetch(paddr.value, readLen));
      fetches := fetches + [Fetch(paddr.value, readLen)];
      ok := FetchMem(m, paddr.value, readLen, buf, at);
      if !ok {
        ghost var k :| 0 <= k < readLen && m.PhysByte(paddr.value, k).None?;
        assert m.ReadByte(laddr, at + k).None?;
        return;
      }
      if !(remainsInPage < left) { return; }
      a := (a + readLen) % TWO_TO_THE_32;
      left := left - readLen;
      at := at + readLen;
    }
  }

  /** The page-by-page read succeeds just when the byte-by-byte one does, if and only if there is a byte to read
      or the first page is mapped. */
  lemma ReadExactly(m: Machine, laddr: nat, len: nat)
    requires laddr < TWO_TO_THE_32
    ensures (Succeeds(m, laddr, len) <==> AllReadable(m, laddr, len)) <==> len > 0 || m.Translate(laddr).Some?
  {
    if len > 0 && AllReadable(m, laddr, len) { assert m.ReadByte(laddr, 0).Some?; }
  }

  /** A read of no bytes from an unmapped page is refused. */
  lemma EmptyReadRefused()
    ensures var m := Machine(_ => None, _ => None); AllReadable(m, 0, 0) && !Succeeds(m, 0, 0)
  {
  }
}
