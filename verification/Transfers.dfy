/**
  What a descriptor chain means: the byte moves the hardware makes for it, and that for the chain of a
  mapped buffer they are one plain copy.
 */
module Transfers {
  import opened Words
  import opened Descriptors
  import opened Coalesce
  import opened Chain
  import opened SgMapper

  // ----- what a chain does -----

  /** One byte moved from a source address to a destination address. */
  datatype Move = Move(src: nat, dst: nat)

  /** The end-point address of byte k of a piece that starts at ep. */
  function EpByte(ep: nat, k: nat, incr: bool): nat {
    if incr then ep + k else ep
  }

  function ByteMove(host: nat, ep: nat, toDev: bool): Move {
    if toDev then Move(host, ep) else Move(ep, host)
  }

  /** The hardware's byte moves for one descriptor: the host side always advances. */
  function MovesOf(d: Desc, incr: bool, toDev: bool): (ms: seq<Move>)
    ensures |ms| == d.bytes
  {
    var (host, ep) := if toDev then (d.src, d.dst) else (d.dst, d.src);
    seq(d.bytes, k requires 0 <= k < d.bytes => ByteMove(host + k, EpByte(ep, k, incr), toDev))
  }

  function TraceMoves(trace: seq<Desc>, n: nat, incr: bool, toDev: bool): seq<Move>
    requires n <= |trace|
  {
    if n == 0 then [] else TraceMoves(trace, n - 1, incr, toDev) + MovesOf(trace[n - 1], incr, toDev)
  }

  /** One plain copy between the host bytes and the end-point addresses from ep on. */
  function Copy(host: seq<nat>, ep: nat, incr: bool, toDev: bool): (ms: seq<Move>)
    ensures |ms| == |host|
  {
    seq(|host|, k requires 0 <= k < |host| => ByteMove(host[k], EpByte(ep, k, incr), toDev))
  }

  lemma CopyAppend(a: seq<nat>, b: seq<nat>, ep: nat, incr: bool, toDev: bool)
    ensures Copy(a + b, ep, incr, toDev)
            == Copy(a, ep, incr, toDev) + Copy(b, EpByte(ep, |a|, incr), incr, toDev)
  {
  }

  /** Descriptors that are placed block by block perform one copy of all the bytes. */
  lemma {:induction false} TraceCopies(descs: seq<Desc>, blocks: seq<Seg>, n: nat, ep: nat, incr: bool, toDev: bool)
    requires PlacedTo(descs, blocks, n, ep, incr, toDev)
    ensures TraceMoves(descs, n, incr, toDev) == Copy(Expand(blocks, n), ep, incr, toDev)
  {
    hide MovesOf, Copy, Moves;
    if n > 0 {
      TraceCopies(descs, blocks, n - 1, ep, incr, toDev);
      var (d, b, at) := (descs[n - 1], blocks[n - 1], EpAt(blocks, n - 1, ep, incr));
      assert Moves(d, b, at, toDev);
      DescCopies(d, b, at, incr, toDev);
      CopyAppend(Expand(blocks, n - 1), Run(b.addr, b.len), ep, incr, toDev);
    } else {
      CopyNothing(ep, incr, toDev);
    }
  }

  lemma DescCopies(d: Desc, b: Seg, ep: nat, incr: bool, toDev: bool)
    requires Moves(d, b, ep, toDev)
    ensures MovesOf(d, incr, toDev) == Copy(Run(b.addr, b.len), ep, incr, toDev)
  {
  }

  lemma CopyNothing(ep: nat, incr: bool, toDev: bool)
    ensures Copy([], ep, incr, toDev) == []
  {
  }

  // ----- the DMA mapping -----

  /** busOf: the bus address of a page frame. merge: pci_map_sg may join entries, in order. */
  datatype Dma = Dma(busOf: nat -> nat, merge: seq<Seg> -> seq<Seg>)

  predicate NonEmpty(segs: seq<Seg>) {
    segs != [] && forall i :: 0 <= i < |segs| ==> segs[i].len >= 1
  }

  /** The contract of the DMA API: bus addresses fit 64 bits, joining entries loses no byte. */
  ghost predicate ValidDma(dma: Dma) {
    && (forall f :: dma.busOf(f) + 4096 <= 0x1_0000_0000_0000_0000)
    && forall segs :: NonEmpty(segs) ==>
         var m := dma.merge(segs);
         NonEmpty(m) && |m| <= |segs| && Expand(m, |m|) == Expand(segs, |segs|)
  }

  function Direct(dma: Dma, es: seq<SgEntry>): (segs: seq<Seg>)
    requires forall i :: 0 <= i < |es| ==> es[i].page.Page?
    ensures |segs| == |es|
  {
    seq(|es|, i requires 0 <= i < |es| => Seg(dma.busOf(es[i].page.frame) + es[i].offset, es[i].length))
  }

  /** The bus address of the byte at a virtual address. */
  function BusByte(frame: PageTable, dma: Dma, a: nat): nat {
    dma.busOf(frame(PageOf(a))) + a % 4096
  }

  function BusBytes(frame: PageTable, dma: Dma, start: nat, count: nat): (bytes: seq<nat>)
    ensures |bytes| == count
  {
    seq<nat>(count, k requires 0 <= k < count => BusByte(frame, dma, start + k))
  }

  /** The page fragments, mapped, are the buffer's bytes in order. */
  lemma {:induction false} FragmentsExpand(frame: PageTable, dma: Dma, start: u64, count: nat, n: nat)
    requires count >= 1 && n <= PageCount(start, count)
    ensures Expand(Direct(dma, Fragments(frame, start, count)), n)
            == BusBytes(frame, dma, start, Before(start, count, n))
  {
    hide PageOf, PageCount, Fragment, Before, BusBytes, Run;
    if n > 0 {
      FragmentsExpand(frame, dma, start, count, n - 1);
      FragmentBounds(frame, start, count, n - 1);
      var (e, was) := (Fragment(frame, start, count, n - 1), Before(start, count, n - 1));
      BytesInPage(frame, dma, PageOf(start) + n - 1, e.offset, e.length);
      BusBytesSplit(frame, dma, start, was, e.length);
    }
  }

  lemma BytesInPage(frame: PageTable, dma: Dma, page: nat, offset: nat, n: nat)
    requires offset + n <= 4096
    ensures BusBytes(frame, dma, page * 4096 + offset, n) == Run(dma.busOf(frame(page)) + offset, n)
  {
    var a := page * 4096 + offset;
    forall k | 0 <= k < n
      ensures BusBytes(frame, dma, a, n)[k] == Run(dma.busOf(frame(page)) + offset, n)[k]
    {
      ByteInPage(frame, dma, a + k, page, offset + k);
    }
  }

  lemma ByteInPage(frame: PageTable, dma: Dma, a: nat, page: nat, offset: nat)
    requires offset < 4096 && a == page * 4096 + offset
    ensures BusByte(frame, dma, a) == dma.busOf(frame(page)) + offset
  {
    assert PageOf(a) == page && a % 4096 == offset;
  }

  lemma BusBytesSplit(frame: PageTable, dma: Dma, start: nat, m: nat, n: nat)
    ensures BusBytes(frame, dma, start, m + n) == BusBytes(frame, dma, start, m) + BusBytes(frame, dma, start + m, n)
  {
    hide BusByte;
  }

  // ----- one transfer -----

  function MappedSegs(frame: PageTable, dma: Dma, start: u64, count: nat): seq<Seg>
    requires count >= 1
  {
    dma.merge(Direct(dma, Fragments(frame, start, count)))
  }

  lemma MappedBytes(frame: PageTable, dma: Dma, start: u64, count: nat)
    requires count >= 1 && ValidDma(dma)
    ensures var segs := MappedSegs(frame, dma, start, count);
            && NonEmpty(segs) && |segs| <= PageCount(start, count)
            && Expand(segs, |segs|) == BusBytes(frame, dma, start, count)
  {
    var direct := Direct(dma, Fragments(frame, start, count));
    forall i | 0 <= i < |direct|
      ensures direct[i].len >= 1
    {
      FragmentBounds(frame, start, count, i);
    }
    assert NonEmpty(direct);
    FragmentsExpand(frame, dma, start, count, |direct|);
  }

  /** The chain of num descriptors moves the buffer's bytes to or from ep on. */
  ghost predicate Carries(descs: seq<Desc>, num: nat, segs: seq<Seg>, ep: nat, incr: bool, toDev: bool, force: bool) {
    && NonEmpty(segs) && num == |AllBlocks(segs, force)|
    && Placed(descs, AllBlocks(segs, force), ep, incr, toDev)
  }

  /** Executing the chain is one copy between the bytes of the mapped buffer and the end point. */
  lemma {:induction false} ChainCopies(mem: Memory, bus: nat, descs: seq<Desc>, num: nat, trace: seq<Desc>,
                    frame: PageTable, dma: Dma, start: u64, count: nat, ep: nat, incr: bool, toDev: bool, force: bool)
    requires count >= 1 && ValidDma(dma)
    requires Shape(descs, bus, num) && Fetched(mem, bus, descs)
    requires Carries(descs, num, MappedSegs(frame, dma, start, count), ep, incr, toDev, force)
    requires Runs(mem, bus, trace)
    ensures TraceMoves(trace, |trace|, incr, toDev) == Copy(BusBytes(frame, dma, start, count), ep, incr, toDev)
  {
    hide Runs, Copy, BusBytes, Blocks, Shape, ShapeAt, Fetched, Expand, TraceMoves, MappedSegs;
    var segs := MappedSegs(frame, dma, start, count);
    MappedBytes(frame, dma, start, count);
    ChainRuns(mem, bus, descs, num, 0);
    RunsDeterministic(mem, bus, trace, descs[0..num]);
    BlocksExpand(segs, |segs|, force);
    TraceCopies(descs, AllBlocks(segs, force), num, ep, incr, toDev);
    TracePrefix(descs, trace, num, incr, toDev);
  }

  /** The same for an engine that prefetches blocks of descriptors, as engine_start starts it. */
  lemma PrefetchCopies(mem: Memory, bus: nat, descs: seq<Desc>, num: nat, blocks: seq<seq<Desc>>,
                       frame: PageTable, dma: Dma, start: u64, count: nat,
                       ep: nat, incr: bool, toDev: bool, force: bool)
    requires count >= 1 && ValidDma(dma) && bus % 4096 == 0
    requires Shape(descs, bus, num) && Fetched(mem, bus, descs)
    requires Carries(descs, num, MappedSegs(frame, dma, start, count), ep, incr, toDev, force)
    requires Fetches(mem, bus, FirstExtra(num), blocks)
    ensures var trace := Concat(blocks);
            TraceMoves(trace, |trace|, incr, toDev) == Copy(BusBytes(frame, dma, start, count), ep, incr, toDev)
  {
    hide Runs, Fetches, Concat, Copy, BusBytes, Carries, Shape, Fetched, TraceMoves, MappedSegs, ValidDma, FitPages;
    PrefetchEqualsPointers(mem, bus, descs, num, blocks);
    ChainCopies(mem, bus, descs, num, Concat(blocks), frame, dma, start, count, ep, incr, toDev, force);
  }

  lemma {:induction false} TracePrefix(a: seq<Desc>, b: seq<Desc>, n: nat, incr: bool, toDev: bool)
    requires n <= |a| && n <= |b| && forall i :: 0 <= i < n ==> a[i] == b[i]
    ensures TraceMoves(a, n, incr, toDev) == TraceMoves(b, n, incr, toDev)
  {
    if n > 0 {
      TracePrefix(a, b, n - 1, incr, toDev);
    }
  }
}
