/** bx_dbg_dump_table: the page mapping of a 4 GB linear address space, printed as runs of pages that are
    contiguous on both sides. */
module DebuggerDump {
  import opened Pages
  import opened Words
  import opened Wrappers

  const LAST_PAGE: nat := 0xffff_f000
  const PHYS_LIMIT: nat := 0x100_0000_0000   // 40 address bits

  /** dbg_xlate_linear2phy, asked about the first byte of a page. */
  type Mapping = int -> Option<nat>

  ghost predicate PageMapping(xlate: Mapping) {
    forall lin :: xlate(lin).Some? ==> xlate(lin).value % PAGE == 0 && xlate(lin).value < PHYS_LIMIT
  }

  /** One printed line: linear and physical bounds, both inclusive. */
  datatype Range = Range(lin: nat, linEnd: nat, phy: nat, phyEnd: nat)

  predicate IsPage(p: int) {
    0 <= p < 0x1_0000_0000 && p % 0x1000 == 0
  }

  /** All pages from lin up to end are mapped, contiguously from phy on. */
  ghost predicate Mapped(xlate: Mapping, lin: int, end: int, phy: int) {
    forall p :: IsPage(p) && lin <= p < end ==> xlate(p).Some? && xlate(p).value == phy + (p - lin)
  }

  ghost predicate Unmapped(xlate: Mapping, lin: int, end: int) {
    forall p :: IsPage(p) && lin <= p < end ==> xlate(p).None?
  }

  /** The page before lin does not continue to (lin, phy). */
  predicate Starts(xlate: Mapping, lin: int, phy: int) {
    lin == 0 || xlate(lin - PAGE).None? || xlate(lin - PAGE).value != phy - PAGE
  }

  /** A whole run of pages, as long to the left as it can be. */
  ghost predicate Run(xlate: Mapping, r: Range) {
    && IsPage(r.lin) && r.lin <= r.linEnd < TWO_TO_THE_32 && (r.linEnd + 1) % PAGE == 0
    && r.phyEnd - r.phy == r.linEnd - r.lin
    && Mapped(xlate, r.lin, r.linEnd + 1, r.phy)
    && Starts(xlate, r.lin, r.phy)
  }

  /** The lines describe the mapping below `bound`: the last line is the last run, nothing is mapped behind it,
      and the lines before it describe what is below it. */
  ghost predicate Describes(xlate: Mapping, out: seq<Range>, bound: int) {
    if out == [] then Unmapped(xlate, 0, bound)
    else
      var r := out[|out| - 1];
      && Run(xlate, r) && r.linEnd < bound
      && Unmapped(xlate, r.linEnd + 1, bound)
      && Describes(xlate, out[..|out| - 1], r.lin)
  }

  // ---------------------------------------------------------------- what a description is worth

  /** Reading the lines back: the physical address of a page. */
  function Decode(out: seq<Range>, p: int): Option<int> {
    if out == [] then None
    else
      var r := out[|out| - 1];
      if r.lin <= p <= r.linEnd then Some(r.phy + (p - r.lin)) else Decode(out[..|out| - 1], p)
  }

  function Widen(o: Option<nat>): Option<int> {
    if o.None? then None else Some(o.value)
  }

  lemma {:induction false} NothingAbove(xlate: Mapping, out: seq<Range>, bound: int, p: int)
    requires Describes(xlate, out, bound) && p >= bound
    ensures Decode(out, p) == None
  {
    if out != [] {
      NothingAbove(xlate, out[..|out| - 1], out[|out| - 1].lin, p);
    }
  }

  /** The lines expand back to exactly the mapping they were made from. */
  lemma {:induction false} DecodesBack(xlate: Mapping, out: seq<Range>, bound: int, p: int)
    requires Describes(xlate, out, bound) && IsPage(p) && p < bound
    ensures Decode(out, p) == Widen(xlate(p))
  {
    if out != [] {
      var r := out[|out| - 1];
      if p < r.lin {
        DecodesBack(xlate, out[..|out| - 1], r.lin, p);
      } else {
        NothingAbove(xlate, out[..|out| - 1], r.lin, p);
      }
    }
  }

  /** The lines are disjoint and increasing. */
  lemma {:induction false} Increasing(xlate: Mapping, out: seq<Range>, bound: int)
    requires Describes(xlate, out, bound)
    ensures forall i :: 0 <= i < |out| ==> out[i].lin <= out[i].linEnd < bound
    ensures forall i, j :: 0 <= i < j < |out| ==> out[i].linEnd < out[j].lin
  {
    if out != [] {
      var n := |out| - 1;
      Increasing(xlate, out[..n], out[n].lin);
      assert forall i :: 0 <= i < n ==> out[i] == out[..n][i];
    }
  }

  /** No two neighbouring lines could be one. */
  lemma {:induction false} NotMergeable(xlate: Mapping, out: seq<Range>, bound: int, i: nat)
    requires Describes(xlate, out, bound) && i + 1 < |out|
    ensures !(out[i].linEnd + 1 == out[i + 1].lin && out[i].phyEnd + 1 == out[i + 1].phy)
  {
    var n := |out| - 1;
    if i + 1 < n {
      NotMergeable(xlate, out[..n], out[n].lin, i);
    } else {
      var r, s := out[..n][n - 1], out[n];
      assert r == out[i] && s == out[i + 1];
      assert Run(xlate, r);
      assert IsPage(r.linEnd + 1 - PAGE);
    }
  }

  /** The last mapped page below the bound. */
  lemma LastMapped(xlate: Mapping, out: seq<Range>, bound: int)
    requires Describes(xlate, out, bound) && out != []
    ensures var r := out[|out| - 1];
      var p := r.linEnd + 1 - PAGE;
      IsPage(p) && p < bound && r.lin <= p && xlate(p).Some? && xlate(p).value == r.phyEnd + 1 - PAGE
      && Unmapped(xlate, p + 1, bound)
  {
    var r := out[|out| - 1];
    var p := r.linEnd + 1 - PAGE;
    assert IsPage(p);
  }

  lemma SameLast(xlate: Mapping, a: seq<Range>, b: seq<Range>, bound: int)
    requires Describes(xlate, a, bound) && Describes(xlate, b, bound) && a != [] && b != []
    ensures a[|a| - 1] == b[|b| - 1]
  {
    LastMapped(xlate, a, bound);
    LastMapped(xlate, b, bound);
    var r, s := a[|a| - 1], b[|b| - 1];
    assert Run(xlate, r) && Run(xlate, s);
    hide Describes;
    assert r.linEnd + 1 - PAGE == s.linEnd + 1 - PAGE;
    SameStart(xlate, r, s);
    SameStart(xlate, s, r);
  }

  /** There is only one such description: the lines are the canonical form of the mapping. */
  lemma {:induction false} Canonical(xlate: Mapping, a: seq<Range>, b: seq<Range>, bound: int)
    requires Describes(xlate, a, bound) && Describes(xlate, b, bound)
    ensures a == b
    decreases |a| + |b|
  {
    if a != [] && b != [] {
      var r := a[|a| - 1];
      SameLast(xlate, a, b, bound);
      Canonical(xlate, a[..|a| - 1], b[..|b| - 1], r.lin);
      assert a == a[..|a| - 1] + [r] && b == b[..|b| - 1] + [r];
    } else if a != [] {
      LastMapped(xlate, a, bound);
    } else if b != [] {
      LastMapped(xlate, b, bound);
    }
  }

  lemma SameStart(xlate: Mapping, r: Range, s: Range)
    requires Run(xlate, r) && Run(xlate, s) && r.linEnd == s.linEnd && r.phyEnd == s.phyEnd
    ensures r.lin >= s.lin
  {
    assert s.lin > 0 ==> IsPage(s.lin - PAGE);
  }

  // ---------------------------------------------------------------- bx_dbg_dump_table

  /** With the sentinels 1 and 2 the difference test never takes a page for a continuation. */
  lemma SentinelDiffers(lin: nat, phy: nat)
    requires lin < TWO_TO_THE_32 && phy < PHYS_LIMIT && lin % PAGE == 0 && phy % PAGE == 0
    ensures Bit32(lin - 1) != Bit64(phy - 2)
  {
    assert Bit32(lin - 1) == if lin == 0 then TWO_TO_THE_32 - 1 else lin - 1;
    assert Bit64(phy - 2) == if phy == 0 then 0xffff_ffff_ffff_fffe else phy - 2;
    hide Bit32, Bit64;
    assert (lin + 1) % PAGE == 1;
  }

  /** The 32-bit and the 64-bit difference agree exactly when the page continues the run. */
  lemma DifferenceTest(lin: int, startLin: int, phy: int, startPhy: int)
    requires 0 <= startLin <= lin < TWO_TO_THE_32 && 0 <= phy < PHYS_LIMIT && 0 <= startPhy < PHYS_LIMIT
    ensures Bit32(lin - startLin) == Bit64(phy - startPhy) <==> lin - startLin == phy - startPhy
  {
  }

  function Line(startLin: nat, end: nat, startPhy: nat): (r: Range)
    requires startLin < end
  {
    Range(startLin, end - 1, startPhy, startPhy + (end - 1 - startLin))
  }

  /** The open run from startLin up to lin; or none (startLin is 1), and then the page before lin is unmapped. */
  ghost predicate Open(xlate: Mapping, startLin: int, startPhy: int, lin: int) {
    if startLin == 1 then lin == 0 || xlate(lin - PAGE).None?
    else
      && IsPage(startLin) && startLin < lin && 0 <= startPhy < PHYS_LIMIT
      && Mapped(xlate, startLin, lin, startPhy) && Starts(xlate, startLin, startPhy)
  }

  /** What is known before page lin: a description up to the open run, or up to lin. */
  ghost predicate State(xlate: Mapping, out: seq<Range>, startLin: int, startPhy: int, lin: int) {
    && lin % PAGE == 0 && Open(xlate, startLin, startPhy, lin)
    && Describes(xlate, out, if startLin != 1 then startLin else lin)
  }

  lemma CloseRun(xlate: Mapping, out: seq<Range>, startLin: nat, startPhy: nat, lin: int)
    requires State(xlate, out, startLin, startPhy, lin) && startLin != 1 && lin <= TWO_TO_THE_32
    ensures Describes(xlate, out + [Line(startLin, lin, startPhy)], lin)
  {
    hide Starts;
    assert (out + [Line(startLin, lin, startPhy)])[..|out|] == out;
  }

  lemma {:induction false} SkipPage(xlate: Mapping, out: seq<Range>, lin: int)
    requires Describes(xlate, out, lin) && IsPage(lin) && xlate(lin).None?
    ensures Describes(xlate, out, lin + PAGE)
  {
    NextPage(lin);
  }

  /** The only page from lin up to the next one is lin. */
  lemma NextPage(lin: int)
    requires IsPage(lin)
    ensures forall p :: IsPage(p) && lin <= p < lin + PAGE ==> p == lin
  {
  }

  lemma GrowRun(xlate: Mapping, startLin: int, startPhy: int, lin: int)
    requires startLin != 1 && Open(xlate, startLin, startPhy, lin) && IsPage(lin)
    requires xlate(lin).Some? && xlate(lin).value - startPhy == lin - startLin
    ensures Open(xlate, startLin, startPhy, lin + PAGE)
  {
    hide Starts;
    NextPage(lin);
  }

  lemma StartRun(xlate: Mapping, lin: int, phy: int)
    requires IsPage(lin) && xlate(lin).Some? && xlate(lin).value == phy < PHYS_LIMIT && Starts(xlate, lin, phy)
    ensures Open(xlate, lin, phy, lin + PAGE)
  {
    hide Starts;
    NextPage(lin);
  }

  /** The body of the loop: page lin extends the open run, ends it, or starts another. */
  method VisitPage(xlate: Mapping, lin: nat, out: seq<Range>, startLin: nat, startPhy: nat)
    returns (out': seq<Range>, startLin': nat, startPhy': nat)
    requires PageMapping(xlate) && IsPage(lin) && State(xlate, out, startLin, startPhy, lin)
    requires startLin == 1 ==> startPhy == 2
    ensures State(xlate, out', startLin', startPhy', lin + PAGE)
    ensures startLin' == 1 ==> startPhy' == 2
  {
    hide Describes, Bit32, Bit64;
    out', startLin', startPhy' := out, startLin, startPhy;
    var phy := xlate(lin);
    if phy.Some? {
      if startLin != 1 { DifferenceTest(lin, startLin, phy.value, startPhy); } else { SentinelDiffers(lin, phy.value); }
      if Bit32(lin - startLin) != Bit64(phy.value - startPhy) {
        if startLin != 1 {
          CloseRun(xlate, out, startLin, startPhy, lin);
          out' := out' + [Line(startLin, lin, startPhy)];
        }
        assert Starts(xlate, lin, phy.value) by { StartsHere(xlate, out, startLin, startPhy, lin, phy.value); }
        StartRun(xlate, lin, phy.value);
        startLin', startPhy' := lin, phy.value;
      } else {
        GrowRun(xlate, startLin, startPhy, lin);
      }
    } else {
      if startLin != 1 {
        CloseRun(xlate, out, startLin, startPhy, lin);
        out' := out' + [Line(startLin, lin, startPhy)];
      }
      SkipPage(xlate, out', lin);
      startLin', startPhy' := 1, 2;
    }
  }

  /** A mapped page that does not continue the open run continues nothing. */
  lemma StartsHere(xlate: Mapping, out: seq<Range>, startLin: int, startPhy: int, lin: int, phy: int)
    requires State(xlate, out, startLin, startPhy, lin) && IsPage(lin)
    requires startLin != 1 ==> phy - startPhy != lin - startLin
    ensures Starts(xlate, lin, phy)
  {
    hide Describes;
    assert lin > 0 ==> IsPage(lin - PAGE);
  }

  method DumpTable(xlate: Mapping) returns (out: seq<Range>)
    requires PageMapping(xlate)
    ensures Describes(xlate, out, TWO_TO_THE_32)
  {
    hide Mapped, Starts;
    out := [];
    var lin: nat := 0;
    var startLin: nat, startPhy: nat := 1, 2;
    while true
      invariant IsPage(lin) && State(xlate, out, startLin, startPhy, lin) && (startLin == 1 ==> startPhy == 2)
      decreases LAST_PAGE - lin
    {
      out, startLin, startPhy := VisitPage(xlate, lin, out, startLin, startPhy);
      if lin == LAST_PAGE { break; }
      lin := lin + PAGE;
    }
    if startLin != 1 {
      CloseRun(xlate, out, startLin, startPhy, TWO_TO_THE_32);
      out := out + [Line(startLin, TWO_TO_THE_32, startPhy)];
    }
  }
}
