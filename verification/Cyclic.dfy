/**
  cyclic_transfer_setup: the chain of a kernel buffer becomes a ring, descriptor i of which moves page i
  and reports in result slot i.
 */
module Cyclic {
  import opened Words
  import opened Descriptors
  import opened Coalesce
  import opened Chain
  import opened SgMapper
  import opened Transfers
  import opened Sgdma

  /** DESC_EOP | DESC_COMPLETED. */
  const RING_FLAGS: bv8 := 0x12

  /** Page i of a page-aligned buffer, as the device sees it. */
  function PageBus(frame: PageTable, dma: Dma, start: nat, i: nat): nat {
    dma.busOf(frame(PageOf(start) + i))
  }

  /** Descriptor i writes page i, reports to result slot i and leads to descriptor i + 1, going round. */
  ghost predicate RingDesc(d: Desc, n: nat, i: nat, bus: nat, resultBus: nat, page: nat) {
    && d.bytes == 4096 && d.dst == page && d.src == resultBus + 32 * i
    && d.control.flags == RING_FLAGS && d.control.magic == MAGIC
    && d.next == bus + 32 * (if i + 1 < n then i + 1 else 0)
    && d.control.extraAdj == if i + 1 < n then ExtraFor(AddrLow(bus + 32 * (i + 1)), n - i - 1) else 0
  }

  ghost predicate IsRing(descs: seq<Desc>, n: nat, bus: nat, resultBus: nat, frame: PageTable, dma: Dma, start: nat) {
    && 1 <= n <= |descs|
    && forall i :: 0 <= i < n ==> RingDesc(descs[i], n, i, bus, resultBus, PageBus(frame, dma, start, i))
  }

  // ----- the buffer: one descriptor a page -----

  lemma AlignedFragment(frame: PageTable, start: u64, n: nat, i: nat)
    requires n >= 1 && start % 4096 == 0 && i < n
    ensures PageCount(start, 4096 * n) == n
    ensures Fragment(frame, start, 4096 * n, i) == SgEntry(Page(frame(PageOf(start) + i)), 0, 4096)
  {
    assert start == 4096 * PageOf(start);
  }

  /** A mapping that joins nothing, with a new descriptor forced for every entry, gives page i to block i. */
  lemma PagePerBlock(frame: PageTable, dma: Dma, start: u64, n: nat)
    requires n >= 1 && start % 4096 == 0 && ValidDma(dma) && forall segs :: dma.merge(segs) == segs
    ensures var segs := MappedSegs(frame, dma, start, 4096 * n);
            && |segs| == n && AllBlocks(segs, true) == segs
            && forall i :: 0 <= i < n ==> segs[i] == Seg(PageBus(frame, dma, start, i), 4096)
  {
    hide Blocks, Fragment, ValidDma;
    var segs := MappedSegs(frame, dma, start, 4096 * n);
    AlignedFragment(frame, start, n, 0);
    forall i | 0 <= i < n
      ensures segs[i] == Seg(PageBus(frame, dma, start, i), 4096)
    {
      AlignedFragment(frame, start, n, i);
    }
    BlocksForced(segs, n);
    assert segs[..n] == segs;
  }

  // ----- closing the ring -----

  /** transfer_set_result_addresses. */
  method TransferSetResultAddresses(descs: array<Desc>, descNum: nat, resultBus: nat)
    requires descNum <= descs.Length
    modifies descs
    ensures forall i :: 0 <= i < descs.Length ==>
              descs[i] == if i < descNum then SetSource(old(descs[i]), resultBus + 32 * i) else old(descs[i])
  {
    var bus, i := resultBus, 0;
    while i < descNum
      invariant 0 <= i <= descNum && bus == resultBus + 32 * i
      invariant forall k :: 0 <= k < descs.Length ==>
                  descs[k] == if k < i then SetSource(old(descs[k]), resultBus + 32 * k) else old(descs[k])
    {
      descs[i] := SetSource(descs[i], bus);
      bus := bus + 32;
      i := i + 1;
    }
  }

  /** transfer_set_all_control: the whole control byte of every descriptor becomes control. */
  method TransferSetAllControl(descs: array<Desc>, descNum: nat, control: bv8)
    requires descNum <= descs.Length
    modifies descs
    ensures forall i :: 0 <= i < descs.Length ==>
              descs[i] == if i < descNum then SetControl(old(descs[i]), control) else old(descs[i])
  {
    var i := 0;
    while i < descNum
      invariant 0 <= i <= descNum
      invariant forall k :: 0 <= k < descs.Length ==>
                  descs[k] == if k < i then SetControl(old(descs[k]), control) else old(descs[k])
    {
      ClearThenOr(descs[i].control.flags, control);
      descs[i] := ClearControl(descs[i], 0xFF);
      descs[i] := OrControl(descs[i], control);
      i := i + 1;
    }
  }

  lemma ClearThenOr(flags: bv8, control: bv8)
    ensures (flags & !0xFF) | control == control
  {
  }

  /** xdma_transfer_cyclic. */
  method TransferCyclic(descs: array<Desc>, descNum: nat, bus: nat)
    requires 1 <= descNum <= descs.Length
    modifies descs
    ensures forall i :: 0 <= i < descs.Length ==>
              descs[i] == if i == descNum - 1 then Link(old(descs[i]), Some(bus)) else old(descs[i])
  {
    descs[descNum - 1] := Link(descs[descNum - 1], Some(bus));
  }

  lemma BecomesRing(was: seq<Desc>, now: seq<Desc>, n: nat, i: nat, bus: nat, resultBus: nat, block: Seg, ep: nat)
    requires Shape(was, bus, n) && |now| == |was| && i < n
    requires Moves(was[i], block, ep, false) && block.len == 4096
    requires var d := SetControl(SetSource(was[i], resultBus + 32 * i), RING_FLAGS);
             now[i] == if i == n - 1 then Link(d, Some(bus)) else d
    ensures RingDesc(now[i], n, i, bus, resultBus, block.addr)
  {
    assert ShapeAt(was[i], bus, n, i);
  }

  /** The descriptors of cyclic_transfer_setup for a page-aligned buffer of n pages. */
  method TransferSetup(pt: PinTable, frame: PageTable, resident: nat -> PageRef, highMem: nat -> bool, dma: Dma,
                       descBus: nat, resultBus: nat, start: u64, n: nat) returns (t: XdmaTransfer)
    requires 1 <= 4096 * n <= MAX_COUNT && start % 4096 == 0
    requires ValidDma(dma) && forall segs :: dma.merge(segs) == segs
    requires Obtainable(false, start, 4096 * n, 0, resident)                                          // BUG_ON(rc < 0)
    requires NoHighMem(resident, highMem, PageOf(start), PageCount(start, 4096 * n))                  // BUG_ON
    requires forall p :: resident(p).Page? ==> resident(p).frame == frame(p)
    modifies pt`pins
    ensures fresh(t) && fresh(t.desc) && t.descNum == n && t.descBus == descBus
    ensures IsRing(t.desc[..], n, descBus, resultBus, frame, dma, start)
    ensures pt.pins == old(pt.pins)
  {
    hide Shape, ValidDma, MappedSegs, Blocks, EpAt, RingDesc, Frames, Fragments, PageBus, Obtainable, NoHighMem;
    t := TransferCreate(pt, frame, resident, highMem, 0, dma, descBus, start, 4096 * n, 0, false, false, true, false);
    ghost var built, blocks := t.desc[..], AllBlocks(MappedSegs(frame, dma, start, 4096 * n), true);
    PagePerBlock(frame, dma, start, n);
    TransferSetResultAddresses(t.desc, t.descNum, resultBus);
    TransferSetAllControl(t.desc, t.descNum, DESC_EOP | DESC_COMPLETED);
    TransferCyclic(t.desc, t.descNum, descBus);
    forall i | 0 <= i < n
      ensures RingDesc(t.desc[i], n, i, descBus, resultBus, PageBus(frame, dma, start, i))
    {
      assert Moves(built[i], blocks[i], EpAt(blocks, i, 0, true), false);
      BecomesRing(built, t.desc[..], n, i, descBus, resultBus, blocks[i], EpAt(blocks, i, 0, true));
    }
  }

  // ----- walking the ring -----

  /** The address after k steps along the next pointers. */
  ghost predicate Walks(mem: Memory, addr: nat, k: nat, to: nat)
    decreases k
  {
    if k == 0 then to == addr
    else addr in mem && !mem[addr].Stops() && Walks(mem, mem[addr].next, k - 1, to)
  }

  /** Slot a of a ring of n, counted on for up to one round. */
  function Turn(n: nat, a: nat): nat {
    if a < n then a else a - n
  }

  /** From descriptor i, k steps along the next pointers lead k slots on, and n steps lead back: the hardware
      never stops and meets slots and pages in ring order. */
  lemma {:induction false} RingOrder(mem: Memory, descs: seq<Desc>, n: nat, bus: nat, resultBus: nat,
                                     frame: PageTable, dma: Dma, start: nat, i: nat, k: nat)
    requires IsRing(descs, n, bus, resultBus, frame, dma, start) && Fetched(mem, bus, descs) && i < n && k <= n
    ensures Walks(mem, bus + 32 * i, k, bus + 32 * Turn(n, i + k))
    decreases k
  {
    if k > 0 {
      assert RingDesc(descs[i], n, i, bus, resultBus, PageBus(frame, dma, start, i));
      assert Holds(mem, bus + 32 * i, descs[i]);
      RingOrder(mem, descs, n, bus, resultBus, frame, dma, start, Turn(n, i + 1), k - 1);
    }
  }

  function Distance(n: nat, i: nat, j: nat): (k: nat)
    requires i < n && j < n
    ensures k < n
  {
    if j >= i then j - i else j - i + n
  }

  /** Among n steps in a row from any descriptor exactly one meets descriptor j. */
  lemma RingCovers(mem: Memory, descs: seq<Desc>, n: nat, bus: nat, resultBus: nat,
                   frame: PageTable, dma: Dma, start: nat, i: nat, j: nat, k: nat)
    requires IsRing(descs, n, bus, resultBus, frame, dma, start) && Fetched(mem, bus, descs) && i < n && j < n && k < n
    ensures Walks(mem, bus + 32 * i, k, bus + 32 * j) <==> k == Distance(n, i, j)
  {
    RingOrder(mem, descs, n, bus, resultBus, frame, dma, start, i, k);
    if Walks(mem, bus + 32 * i, k, bus + 32 * j) {
      WalksOnce(mem, bus + 32 * i, k, bus + 32 * j, bus + 32 * Turn(n, i + k));
    }
  }

  lemma {:induction false} WalksOnce(mem: Memory, addr: nat, k: nat, a: nat, b: nat)
    requires Walks(mem, addr, k, a) && Walks(mem, addr, k, b)
    ensures a == b
    decreases k
  {
    if k > 0 {
      WalksOnce(mem, mem[addr].next, k - 1, a, b);
    }
  }

  /** The prefetch count in force after descriptor i never runs past the ring's last descriptor, a 4 KB
      page or the limit of sixteen. */
  lemma RingPrefetch(descs: seq<Desc>, n: nat, bus: nat, resultBus: nat, frame: PageTable, dma: Dma, start: nat, i: nat)
    requires IsRing(descs, n, bus, resultBus, frame, dma, start) && i < n && bus % 4096 == 0
    ensures var (next, extra) := (if i + 1 < n then i + 1 else 0, descs[i].control.extraAdj);
      && descs[i].next == bus + 32 * next && next + extra < n && extra <= 15 && InPage(bus + 32 * next, extra + 1)
  {
    assert RingDesc(descs[i], n, i, bus, resultBus, PageBus(frame, dma, start, i));
    if i + 1 < n {
      ExtraAtBounds(bus, n, i + 1);
    }
  }
}
