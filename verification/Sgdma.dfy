/**
  The methods around one request: transfer_create, transfer_destroy and the loop of transfer_data,
  with the hardware as the interpreter of the chains.
 */
module Sgdma {
  import opened Errno
  import opened Words
  import opened Descriptors
  import opened Coalesce
  import opened Chain
  import opened SgMapper
  import opened Transfers

  // ----- registers are wide enough -----

  /** Every value stored in the first num descriptors fits its field. */
  ghost predicate AllFit(descs: seq<Desc>, num: nat) {
    num <= |descs| && forall i :: 0 <= i < num ==> descs[i].Fits()
  }

  lemma {:induction false} BlockByte(blocks: seq<Seg>, j: nat, n: nat)
    requires j < n <= |blocks| && blocks[j].len >= 1
    ensures Sum(blocks, j) + blocks[j].len <= Sum(blocks, n) && Expand(blocks, n)[Sum(blocks, j)] == blocks[j].addr
  {
    if j + 1 < n {
      BlockByte(blocks, j, n - 1);
    }
  }

  /** No address or length is cut off in its register. */
  lemma ChainFits(bus: nat, descs: seq<Desc>, num: nat, frame: PageTable, dma: Dma, start: u64, count: nat,
                  ep: nat, incr: bool, toDev: bool, force: bool)
    requires 1 <= count < 0x1_0000_0000 && ValidDma(dma)
    requires ep + count <= 0x1_0000_0000_0000_0000 && bus + 32 * num <= 0x1_0000_0000_0000_0000
    requires Shape(descs, bus, num)
    requires Carries(descs, num, MappedSegs(frame, dma, start, count), ep, incr, toDev, force)
    ensures AllFit(descs, num)
  {
    hide Blocks, Expand, Sum, MappedSegs, ShapeAt, Placed, BusByte;
    var segs := MappedSegs(frame, dma, start, count);
    var blocks := AllBlocks(segs, force);
    MappedBytes(frame, dma, start, count);
    BlocksExpand(segs, |segs|, force);
    BlocksBound(segs, |segs|, force, LongestEntry(segs, |segs|));
    forall i | 0 <= i < num
      ensures descs[i].Fits()
    {
      BlockByte(blocks, i, num);
      BusByteFits(frame, dma, start + Sum(blocks, i));
      DescFits(descs, bus, num, blocks, ep, incr, toDev, i);
    }
  }

  lemma BusByteFits(frame: PageTable, dma: Dma, a: nat)
    requires ValidDma(dma)
    ensures BusByte(frame, dma, a) < 0x1_0000_0000_0000_0000
  {
  }

  lemma DescFits(descs: seq<Desc>, bus: nat, num: nat, blocks: seq<Seg>, ep: nat, incr: bool, toDev: bool, i: nat)
    requires Shape(descs, bus, num) && Placed(descs, blocks, ep, incr, toDev) && i < num == |blocks|
    requires bus + 32 * num <= 0x1_0000_0000_0000_0000 && ep + Sum(blocks, i) < 0x1_0000_0000_0000_0000
    requires blocks[i].addr < 0x1_0000_0000_0000_0000 && blocks[i].len < 0x1_0000_0000
    ensures descs[i].Fits()
  {
    assert Moves(descs[i], blocks[i], EpAt(blocks, i, ep, incr), toDev);
    assert ShapeAt(descs[i], bus, num, i);
  }

  function LongestEntry(segs: seq<Seg>, n: nat): (longest: nat)
    requires n <= |segs|
    ensures forall i :: 0 <= i < n ==> segs[i].len <= longest
  {
    if n == 0 then 0
    else
      var rest := LongestEntry(segs, n - 1);
      if segs[n - 1].len > rest then segs[n - 1].len else rest
  }

  // ----- transfer_create and transfer_destroy -----

  class XdmaTransfer {
    const sgm: Mapper
    const desc: array<Desc>
    const descBus: nat
    const descNum: nat
    const toDev: bool
    const userspace: bool
    var state: XferState

    constructor (sgm: Mapper, desc: array<Desc>, descBus: nat, descNum: nat, toDev: bool, userspace: bool)
      ensures this.sgm == sgm && this.desc == desc && this.descBus == descBus && this.descNum == descNum
      ensures this.toDev == toDev && this.userspace == userspace && state == NEW
    {
      this.sgm, this.desc, this.descBus, this.descNum := sgm, desc, descBus, descNum;
      this.toDev, this.userspace, this.state := toDev, userspace, NEW;
    }

    /** The transfer holds its pages and a finished chain for the buffer. */
    ghost predicate Ready(frame: PageTable, dma: Dma, start: u64, count: nat, ep: nat, incr: bool, force: bool)
      requires count >= 1
      reads sgm, sgm.pages, sgm.sgl, desc
    {
      && sgm.Maps(frame, start, count)
      && ChainFor(desc[..], descBus, descNum, frame, dma, start, count, ep, incr, toDev, force)
    }
  }

  /** Every page of the buffer can be had: user pages are all pinned, kernel pages all have a frame. */
  predicate Obtainable(userspace: bool, start: u64, count: nat, granted: int, resident: nat -> PageRef)
    requires count >= 1
  {
    && start + count < 0x1_0000_0000_0000_0000
    && if userspace then granted >= PageCount(start, count)
       else AllResident(resident, PageOf(start), PageCount(start, count))
  }

  /** The part of transfer_create that obtains the pages. A new mapper has room for them, so it fails exactly
      if they cannot be had; transfer_create's BUG_ON(rc < 0) then fires. granted: how many pages
      get_user_pages_fast pins. */
  method MapBuffer(pt: PinTable, sgm: Mapper, frame: PageTable, resident: nat -> PageRef, highMem: nat -> bool,
                   granted: int, start: u64, count: nat, userspace: bool) returns (rc: int)
    requires sgm.Valid() && sgm.mappedPages == 0 && sgm.maxPages == count / 4096 + 2
    requires 1 <= count <= MAX_COUNT && granted <= PageCount(start, count)
    requires !userspace ==> NoHighMem(resident, highMem, PageOf(start), PageCount(start, count))    // BUG_ON
    requires forall p :: resident(p).Page? ==> resident(p).frame == frame(p)
    modifies sgm, sgm.pages, sgm.sgl, pt`pins
    ensures rc < 0 <==> !Obtainable(userspace, start, count, granted, resident)
    ensures rc < 0 ==> sgm.Valid() && sgm.mappedPages == 0 && pt.pins == old(pt.pins)
    ensures rc >= 0 ==> sgm.Maps(frame, start, count)
    ensures rc >= 0 ==>
              pt.pins == if userspace then old(pt.pins) + multiset(Frames(frame, start, PageCount(start, count)))
                         else old(pt.pins)
  {
    hide PageOf, PageCount, Fragments, Frames, AllResident, NoHighMem;
    PageBound(start, count, count);
    if userspace {
      rc := sgm.GetUserPages(pt, frame, start, count, granted);
    } else {
      rc := sgm.KernelPages(resident, highMem, frame, start, count);
    }
  }

  /** The values of a finished chain fit their registers, if buffer, end point and descriptors lie in 64 bits. */
  ghost predicate InRange(count: nat, ep: nat, bus: nat, num: nat) {
    && count < 0x1_0000_0000 && ep + count <= 0x1_0000_0000_0000_0000
    && bus + 32 * num <= 0x1_0000_0000_0000_0000
  }

  method TransferCreate(pt: PinTable, frame: PageTable, resident: nat -> PageRef, highMem: nat -> bool, granted: int,
                        dma: Dma, descBus: nat, start: u64, count: nat, epAddr: nat, toDev: bool, nonIncr: bool,
                        forceNewDesc: bool, userspace: bool) returns (t: XdmaTransfer)
    requires 1 <= count <= MAX_COUNT && ValidDma(dma) && granted <= PageCount(start, count)
    requires Obtainable(userspace, start, count, granted, resident)                                 // BUG_ON(rc < 0)
    requires !userspace ==> NoHighMem(resident, highMem, PageOf(start), PageCount(start, count))    // BUG_ON
    requires forall p :: resident(p).Page? ==> resident(p).frame == frame(p)
    modifies pt`pins
    ensures fresh(t) && fresh(t.sgm) && fresh(t.sgm.pages) && fresh(t.sgm.sgl) && fresh(t.desc)
    ensures t.Ready(frame, dma, start, count, epAddr, !(userspace && nonIncr), forceNewDesc && !userspace)
    ensures t.descBus == descBus && t.toDev == toDev && t.userspace == userspace && t.state == NEW
    ensures InRange(count, epAddr, descBus, t.descNum) ==> AllFit(t.desc[..], t.descNum)
    ensures pt.pins == if userspace then old(pt.pins) + multiset(Frames(frame, start, PageCount(start, count)))
                       else old(pt.pins)
  {
    hide PageOf, PageCount, Fragments, Frames, Obtainable, NoHighMem, AllFit, InRange, ChainFor, ValidDma, MappedSegs;
    var sgm := new Mapper(count);
    var rc := MapBuffer(pt, sgm, frame, resident, highMem, granted, start, count, userspace);
    assert !(rc < 0);                                    // BUG_ON
    var desc, num := BuildChain(frame, dma, descBus, start, count, epAddr, toDev, nonIncr, forceNewDesc, userspace);
    t := new XdmaTransfer(sgm, desc, descBus, num, toDev, userspace);
    CarriedFits(descBus, desc[..], num, frame, dma, start, count, epAddr, !(userspace && nonIncr), toDev,
                forceNewDesc && !userspace);
  }

  /** A finished chain for the buffer. */
  ghost predicate ChainFor(descs: seq<Desc>, bus: nat, num: nat, frame: PageTable, dma: Dma, start: u64, count: nat,
                           ep: nat, incr: bool, toDev: bool, force: bool)
    requires count >= 1
  {
    Shape(descs, bus, num) && Carries(descs, num, MappedSegs(frame, dma, start, count), ep, incr, toDev, force)
  }

  /** The part of transfer_create that maps the pages and lays out their chain. */
  method BuildChain(frame: PageTable, dma: Dma, descBus: nat, start: u64, count: nat, epAddr: nat, toDev: bool,
                    nonIncr: bool, forceNewDesc: bool, userspace: bool) returns (desc: array<Desc>, num: nat)
    requires count >= 1 && ValidDma(dma)
    ensures fresh(desc)
    ensures ChainFor(desc[..], descBus, num, frame, dma, start, count, epAddr, !(userspace && nonIncr), toDev,
                     forceNewDesc && !userspace)
  {
    hide Shape, Placed, Allocated, MappedSegs, Blocks, ValidDma, Expand, BusBytes;
    var sgl := MappedSegs(frame, dma, start, count);     // pci_map_sg
    MappedBytes(frame, dma, start, count);
    desc := DescAlloc(|sgl|, descBus);
    ghost var blank := desc[..];
    var last := TransferBuild(desc, sgl, epAddr, toDev, nonIncr, forceNewDesc, userspace);
    ghost var built := desc[..];
    StillAllocated(built, blank, descBus, last + 1);
    CloseChain(desc, last, descBus);
    StillPlaced(desc[..], built, AllBlocks(sgl, forceNewDesc && !userspace), epAddr, !(userspace && nonIncr), toDev);
    num := last + 1;
  }

  lemma CarriedFits(bus: nat, descs: seq<Desc>, num: nat, frame: PageTable, dma: Dma, start: u64, count: nat,
                    ep: nat, incr: bool, toDev: bool, force: bool)
    requires count >= 1 && ValidDma(dma) && ChainFor(descs, bus, num, frame, dma, start, count, ep, incr, toDev, force)
    ensures InRange(count, ep, bus, num) ==> AllFit(descs, num)
  {
    hide Shape, Carries, MappedSegs, ValidDma, AllFit;
    if InRange(count, ep, bus, num) {
      ChainFits(bus, descs, num, frame, dma, start, count, ep, incr, toDev, force);
    }
  }

  lemma StillAllocated(now: seq<Desc>, was: seq<Desc>, bus: nat, n: nat)
    requires Allocated(was, bus) && LinksKept(now, was, n) && n <= |was|
    ensures Allocated(now, bus)
  {
  }

  lemma StillPlaced(now: seq<Desc>, was: seq<Desc>, blocks: seq<Seg>, ep: nat, incr: bool, toDev: bool)
    requires Placed(was, blocks, ep, incr, toDev) && SamePayloads(now, was)
    ensures Placed(now, blocks, ep, incr, toDev)
  {
    hide EpAt;
  }

  /** Releases what transfer_create took, the pages that the device has written dirty; the BUG_ON of
      sg_destroy_mapper is never reached. */
  method TransferDestroy(pt: PinTable, t: XdmaTransfer, frame: PageTable, start: u64, ghost count: nat)
    requires count >= 1 && t.sgm.Maps(frame, start, count)
    requires t.userspace ==> multiset(Frames(frame, start, PageCount(start, count))) <= pt.pins
    modifies pt, t.sgm
    ensures pt.pins == if t.userspace then old(pt.pins) - multiset(Frames(frame, start, PageCount(start, count)))
                       else old(pt.pins)
    ensures pt.dirty == if t.userspace && !t.toDev then old(pt.dirty) + Touched(frame, start, count)
                        else old(pt.dirty)
    ensures t.sgm.mappedPages == 0
  {
    hide Touched;
    FramesTouched(frame, start, count);
    if t.userspace {
      t.sgm.PutUserPages(pt, !t.toDev, Frames(frame, start, PageCount(start, count)));
    }
    t.sgm.mappedPages := 0;
    t.sgm.Destroy();
  }

  // ----- the hardware -----

  /** What the device has moved so far. */
  class Device {
    var log: seq<Move>

    constructor ()
      ensures log == []
    {
      log := [];
    }

    /** Runs the chain at addr, to its end or only for its first byte moves. */
    method RunChain(mem: Memory, addr: nat, incr: bool, toDev: bool, toEnd: bool, moved: nat, ghost trace: seq<Desc>)
      requires Runs(mem, addr, trace)
      modifies this
      ensures var moves := TraceMoves(trace, |trace|, incr, toDev);
              log == old(log) + if toEnd || moved >= |moves| then moves else moves[..moved]
    {
      var executed := Execute(mem, addr, trace);
      var moves := TraceMoves(executed, |executed|, incr, toDev);
      log := log + if toEnd || moved >= |moves| then moves else moves[..moved];
    }
  }

  /** Host memory as the device sees it: the descriptors at their bus addresses. */
  function MemoryOf(descs: seq<Desc>, bus: nat, n: nat): (mem: Memory)
    requires n <= |descs|
    ensures FetchedTo(mem, bus, descs, n)
  {
    if n == 0 then map[]
    else
      var before := MemoryOf(descs, bus, n - 1);
      assert forall k :: 0 <= k < n - 1 ==> Holds(before, bus + 32 * k, descs[k]);
      before[bus + 32 * (n - 1) := descs[n - 1]]
  }

  // ----- transfer_data -----

  const CHUNK: nat := 8388608

  /** How a transfer comes back from transfer_monitor; moved: the bytes a transfer that is not completed has
      moved. */
  datatype Outcome = Outcome(state: XferState, rc: int, moved: nat)

  /** The environment of one request, piece by piece of at most 8 MB. */
  datatype Env = Env(frame: nat -> PageTable, granted: nat -> int, dma: nat -> Dma, descBus: nat -> nat,
                     outcome: nat -> Outcome)

  predicate Proceeds(o: Outcome) {
    o.state == COMPLETED || (o.state == SUBMITTED && o.rc == 0)
  }

  function Pieces(count: nat): nat {
    (count + 8388607) / 8388608
  }

  /** The first of n pieces that does not proceed, n if there is none. */
  function FirstStop(env: Env, n: nat): (c: nat)
    ensures c <= n && (forall i :: 0 <= i < c ==> Proceeds(env.outcome(i)))
    ensures c < n ==> !Proceeds(env.outcome(c))
  {
    if n == 0 then 0
    else
      var c := FirstStop(env, n - 1);
      if c < n - 1 || !Proceeds(env.outcome(n - 1)) then c else n
  }

  /** The byte moves of a whole request. In fixed-address mode the end-point address is constant
      inside a piece and steps by 8 MB from piece to piece. */
  function RequestCopy(env: Env, addr: nat, n: nat, pos: nat, incr: bool, toDev: bool): (ms: seq<Move>)
    ensures |ms| == n
  {
    seq(n, k requires 0 <= k < n => RequestByte(env, addr, k, pos, incr, toDev))
  }

  function RequestByte(env: Env, addr: nat, k: nat, pos: nat, incr: bool, toDev: bool): Move {
    ByteMove(BusByte(env.frame(k / 8388608), env.dma(k / 8388608), addr + k),
             if incr then pos + k else pos + k / 8388608 * 8388608, toDev)
  }

  lemma RequestStep(env: Env, addr: nat, c: nat, m: nat, pos: nat, incr: bool, toDev: bool)
    requires m <= 8388608
    ensures var done := c * 8388608;
            RequestCopy(env, addr, done + m, pos, incr, toDev)
            == RequestCopy(env, addr, done, pos, incr, toDev)
               + Copy(BusBytes(env.frame(c), env.dma(c), addr + done, m), pos + done, incr, toDev)
  {
    hide RequestByte, ByteMove, BusByte, EpByte;
    var done := c * 8388608;
    var (host, at) := (BusBytes(env.frame(c), env.dma(c), addr + done, m), pos + done);
    var (whole, piece) := (RequestCopy(env, addr, done + m, pos, incr, toDev), Copy(host, at, incr, toDev));
    forall k | 0 <= k < m
      ensures whole[done..][k] == piece[k]
    {
      PieceByte(env, addr, c, k, pos, incr, toDev);
    }
    assert whole[..done] == RequestCopy(env, addr, done, pos, incr, toDev) && whole[done..] == piece;
  }

  lemma PieceByte(env: Env, addr: nat, c: nat, k: nat, pos: nat, incr: bool, toDev: bool)
    requires k < 8388608
    ensures var done := c * 8388608;
            RequestByte(env, addr, done + k, pos, incr, toDev)
            == ByteMove(BusByte(env.frame(c), env.dma(c), addr + done + k), EpByte(pos + done, k, incr), toDev)
  {
    assert (c * 8388608 + k) / 8388608 == c;
  }

  /** How many of the len bytes of a piece are moved. */
  function MovedOf(o: Outcome, len: nat): (n: nat)
    ensures n <= len && (o.state == COMPLETED ==> n == len)
  {
    if o.state == COMPLETED || o.moved >= len then len else o.moved
  }

  lemma CopyPrefix(frame: PageTable, dma: Dma, start: nat, len: nat, n: nat, ep: nat, incr: bool, toDev: bool)
    requires n <= len
    ensures Copy(BusBytes(frame, dma, start, len), ep, incr, toDev)[..n]
         == Copy(BusBytes(frame, dma, start, n), ep, incr, toDev)
  {
    hide BusByte, EpByte, ByteMove;
  }

  /** One turn of the loop: create, queue, wait, look at the state, destroy. */
  method RunPiece(pt: PinTable, dev: Device, frame: PageTable, granted: int, dma: Dma, descBus: nat, outcome: Outcome,
                  start: u64, len: nat, ep: nat, toDev: bool, nonIncr: bool) returns (res: int)
    requires 1 <= len <= 8388608 && ValidDma(dma) && granted <= PageCount(start, len)
    requires start + len < 0x1_0000_0000_0000_0000 && granted == PageCount(start, len)       // BUG_ON(rc < 0)
    modifies pt, dev
    ensures res == ErrorOf(outcome)
    ensures dev.log == old(dev.log) + Copy(BusBytes(frame, dma, start, MovedOf(outcome, len)), ep, !nonIncr, toDev)
    ensures pt.pins == if outcome.state != SUBMITTED then old(pt.pins)
                       else old(pt.pins) + multiset(Frames(frame, start, PageCount(start, len)))
    ensures pt.dirty == if outcome.state != SUBMITTED && !toDev then old(pt.dirty) + Touched(frame, start, len)
                        else old(pt.dirty)
  {
    hide ValidDma, BusBytes, Copy, Runs, ShapeAt, Carries, PageCount, Frames, MappedSegs, TraceMoves, Fragments,
      Touched;
    res := 0;
    var t := TransferCreate(pt, frame, _ => Null, _ => false, granted, dma, descBus, start, len, ep, toDev, nonIncr,
                            false, true);
    t.state := SUBMITTED;                                // transfer_queue
    Execution(dev, t, frame, dma, descBus, outcome, start, len, ep, toDev, nonIncr);
    t.state := outcome.state;                            // transfer_monitor
    if t.state != SUBMITTED {
      if t.state != COMPLETED {
        res := -EIO;
      }
      TransferDestroy(pt, t, frame, start, len);
    } else if outcome.rc != 0 {
      res := -ERESTARTSYS;
    }
  }

  /** What the device does with the queued chain. */
  method Execution(dev: Device, t: XdmaTransfer, frame: PageTable, dma: Dma, descBus: nat, outcome: Outcome,
                   start: u64, len: nat, ep: nat, toDev: bool, nonIncr: bool)
    requires len >= 1 && ValidDma(dma)
    requires ChainFor(t.desc[..], descBus, t.descNum, frame, dma, start, len, ep, !nonIncr, toDev, false)
    modifies dev
    ensures dev.log == old(dev.log) + Copy(BusBytes(frame, dma, start, MovedOf(outcome, len)), ep, !nonIncr, toDev)
  {
    hide ValidDma, BusBytes, Copy, Runs, ShapeAt, Carries, MappedSegs, TraceMoves;
    var mem := MemoryOf(t.desc[..], descBus, t.desc.Length);
    ghost var trace := t.desc[..][..t.descNum];
    ChainExecutes(mem, descBus, t.desc[..], t.descNum, frame, dma, start, len, ep, !nonIncr, toDev);
    CopyPrefix(frame, dma, start, len, MovedOf(outcome, len), ep, !nonIncr, toDev);
    ghost var all := Copy(BusBytes(frame, dma, start, len), ep, !nonIncr, toDev);
    assert all[..|all|] == all;
    dev.RunChain(mem, descBus, !nonIncr, toDev, outcome.state == COMPLETED, outcome.moved, trace);
  }

  lemma ChainExecutes(mem: Memory, bus: nat, descs: seq<Desc>, num: nat, frame: PageTable, dma: Dma, start: u64,
                      count: nat, ep: nat, incr: bool, toDev: bool)
    requires count >= 1 && ValidDma(dma) && Shape(descs, bus, num)
    requires Fetched(mem, bus, descs)
    requires Carries(descs, num, MappedSegs(frame, dma, start, count), ep, incr, toDev, false)
    ensures var trace := descs[..num];
            && Runs(mem, bus, trace)
            && TraceMoves(trace, |trace|, incr, toDev) == Copy(BusBytes(frame, dma, start, count), ep, incr, toDev)
  {
    hide Runs, Copy, BusBytes, ShapeAt, MappedSegs, Carries, TraceMoves, Fetched;
    ChainRuns(mem, bus, descs, num, 0);
    assert descs[0..num] == descs[..num];
    ChainCopies(mem, bus, descs, num, descs[..num], frame, dma, start, count, ep, incr, toDev, false);
  }

  /** Piece c of a request, and whether its pages can all be pinned. */
  function PieceLen(count: nat, c: nat): nat
    requires c * 8388608 < count
  {
    if count - c * 8388608 > 8388608 then 8388608 else count - c * 8388608
  }

  predicate PiecePinned(env: Env, addr: nat, count: nat, c: nat) {
    && c * 8388608 < count
    && var (start, len) := (addr + c * 8388608, PieceLen(count, c));
    && start + len < 0x1_0000_0000_0000_0000 && env.granted(c) == PageCount(start, len)
  }

  /** No piece that the loop reaches fails to be pinned: the BUG_ON of transfer_create is never met. */
  ghost predicate ReachedPinned(env: Env, addr: nat, count: nat) {
    forall c :: 0 <= c < Pieces(count) && c <= FirstStop(env, Pieces(count)) ==> PiecePinned(env, addr, count, c)
  }

  /** The bytes a request has moved when it ends at its first stop. */
  function Progress(env: Env, count: nat): nat {
    var c := FirstStop(env, Pieces(count));
    if c == Pieces(count) then count
    else
      PieceBounds(count, c);
      c * 8388608 + MovedOf(env.outcome(c), PieceLen(count, c))
  }

  /** The bytes of the pieces that a request reaches. */
  function Reached(env: Env, count: nat): (n: nat)
    ensures n <= count
  {
    var c := FirstStop(env, Pieces(count));
    if c == Pieces(count) then count
    else
      PieceBounds(count, c);
      c * 8388608 + PieceLen(count, c)
  }

  function RequestFrame(env: Env, addr: nat, k: nat): nat {
    FrameAt(env.frame(k / 8388608), addr + k)
  }

  /** The frames under the first n bytes of a request, except in pieces that are left submitted. */
  function Released(env: Env, addr: nat, n: nat): set<nat> {
    set k | 0 <= k < n && env.outcome(k / 8388608).state != SUBMITTED :: RequestFrame(env, addr, k)
  }

  lemma ReleasedStep(env: Env, addr: nat, c: nat, m: nat)
    requires m <= 8388608
    ensures var done := c * 8388608;
      Released(env, addr, done + m) == Released(env, addr, done)
                                       + if env.outcome(c).state != SUBMITTED
                                         then Touched(env.frame(c), addr + done, m) else {}
  {
    hide FrameAt;
    var done, settled := c * 8388608, env.outcome(c).state != SUBMITTED;
    forall k | done <= k < done + m
      ensures k / 8388608 == c && RequestFrame(env, addr, k) == FrameAt(env.frame(c), addr + k)
    {
    }
    forall a | addr + done <= a < addr + done + m
      ensures settled ==> FrameAt(env.frame(c), a) in Released(env, addr, done + m)
    {
      assert RequestFrame(env, addr, a - addr) == FrameAt(env.frame(c), a);
    }
  }

  /** The dirty pages of a request in the loop: pages that the device writes become dirty when they are released. */
  ghost predicate Dirtying(env: Env, addr: nat, count: nat, toDev: bool, done: nat, res: int,
                           was: set<nat>, now: set<nat>) {
    now == if toDev then was else was + Released(env, addr, if res == 0 then done else Reached(env, count))
  }

  lemma DirtyStarts(env: Env, addr: nat, count: nat, toDev: bool, was: set<nat>)
    ensures Dirtying(env, addr, count, toDev, 0, 0, was, was)
  {
  }

  lemma DirtyStep(env: Env, addr: nat, count: nat, toDev: bool, c: nat, len: nat, res: int,
                  was: set<nat>, now: set<nat>, next: set<nat>)
    requires Dirtying(env, addr, count, toDev, c * 8388608, 0, was, now) && len <= 8388608
    requires next == if env.outcome(c).state != SUBMITTED && !toDev
                     then now + Touched(env.frame(c), addr + c * 8388608, len) else now
    requires res != 0 ==> Reached(env, count) == c * 8388608 + len
    ensures Dirtying(env, addr, count, toDev, c * 8388608 + if res == 0 then len else 0, res, was, next)
  {
    hide Released, Touched, Reached;
    ReleasedStep(env, addr, c, len);
  }

  /** The device's log in the loop, as long as every piece completes. */
  ghost predicate Logging(env: Env, addr: nat, count: nat, pos: nat, incr: bool, toDev: bool, done: nat, res: int,
                          was: seq<Move>, now: seq<Move>) {
    now == was + RequestCopy(env, addr, if res == 0 then done else Progress(env, count), pos, incr, toDev)
  }

  lemma LogStarts(env: Env, addr: nat, count: nat, pos: nat, incr: bool, toDev: bool, was: seq<Move>)
    ensures Logging(env, addr, count, pos, incr, toDev, 0, 0, was, was)
  {
    assert RequestCopy(env, addr, 0, pos, incr, toDev) == [];
  }

  lemma LogStep(env: Env, addr: nat, count: nat, pos: nat, incr: bool, toDev: bool, c: nat, len: nat,
                res: int, was: seq<Move>, now: seq<Move>, next: seq<Move>)
    requires Logging(env, addr, count, pos, incr, toDev, c * 8388608, 0, was, now) && len <= 8388608
    requires var (at, ep) := (addr + c * 8388608, pos + c * 8388608);
             next == now + Copy(BusBytes(env.frame(c), env.dma(c), at, MovedOf(env.outcome(c), len)), ep, incr, toDev)
    requires if res == 0 then env.outcome(c).state == COMPLETED
             else Progress(env, count) == c * 8388608 + MovedOf(env.outcome(c), len)
    ensures Logging(env, addr, count, pos, incr, toDev, c * 8388608 + if res == 0 then len else 0, res, was, next)
  {
    hide RequestCopy, Copy, BusBytes, MovedOf, Progress;
    RequestStep(env, addr, c, MovedOf(env.outcome(c), len), pos, incr, toDev);
  }

  /** What transfer_data returns for the outcome of a piece. */
  function ErrorOf(o: Outcome): int {
    if o.state == COMPLETED then 0 else if o.state != SUBMITTED then -EIO else if o.rc != 0 then -ERESTARTSYS else 0
  }

  /** The loop before piece c, or after the error of piece c. */
  ghost predicate Looping(env: Env, addr: nat, count: nat, pos: nat, c: nat, done: nat, remaining: nat, at: nat, p: nat,
                          res: int) {
    var stop := FirstStop(env, Pieces(count));
    if res == 0 then
      && c <= stop && done == (if c < Pieces(count) then c * 8388608 else count)
      && done + remaining == count && at == addr + done && p == pos + done
    else
      remaining == 0 && c == stop < Pieces(count) && p == pos + c * 8388608 && res == ErrorOf(env.outcome(c))
  }

  lemma LoopStarts(env: Env, addr: nat, count: nat, pos: nat)
    ensures Looping(env, addr, count, pos, 0, 0, count, addr, pos, 0)
  {
    PieceBounds(count, 0);
  }

  /** One turn: the piece can be pinned, and its outcome decides how the loop goes on. */
  lemma LoopStep(env: Env, addr: nat, count: nat, pos: nat, c: nat, done: nat, remaining: nat, at: nat, p: nat)
    requires ReachedPinned(env, addr, count)
    requires Looping(env, addr, count, pos, c, done, remaining, at, p, 0) && remaining > 0
    ensures done == c * 8388608 && at == addr + done && p == pos + done && c <= FirstStop(env, Pieces(count))
    ensures PiecePinned(env, addr, count, c)
    ensures var len := PieceLen(count, c);
      && len == (if remaining > CHUNK then CHUNK else remaining)
      && (ErrorOf(env.outcome(c)) == 0 ==>
            Looping(env, addr, count, pos, c + 1, done + len, remaining - len, at + len, p + len, 0))
      && (ErrorOf(env.outcome(c)) != 0 ==>
            && Looping(env, addr, count, pos, c, done, 0, at, p, ErrorOf(env.outcome(c)))
            && c == FirstStop(env, Pieces(count))
            && Progress(env, count) == done + MovedOf(env.outcome(c), len) && Reached(env, count) == done + len)
  {
    hide FirstStop, MovedOf, PageCount;
    StopMeans(env, Pieces(count));
    PieceBounds(count, c);
  }

  lemma LoopEnds(env: Env, addr: nat, count: nat, pos: nat, c: nat, done: nat, remaining: nat, at: nat, p: nat,
                 res: int)
    requires Looping(env, addr, count, pos, c, done, remaining, at, p, res) && (res != 0 || remaining == 0)
    ensures var stop := FirstStop(env, Pieces(count));
      if res == 0 then stop == Pieces(count) && done == count && p == pos + count
                       && Progress(env, count) == Reached(env, count) == count
      else stop < Pieces(count) && p == pos + stop * 8388608
           && res == if env.outcome(stop).state == SUBMITTED then -ERESTARTSYS else -EIO
  {
    hide FirstStop, MovedOf;
    StopMeans(env, Pieces(count));
    PieceBounds(count, c);
  }

  /** What a request leaves besides its result: the device's log, the dirty frames, the pins. */
  datatype Books = Books(log: seq<Move>, dirty: set<nat>, pins: multiset<nat>)

  ghost predicate Booked(env: Env, addr: nat, count: nat, pos: nat, incr: bool, toDev: bool, done: nat, res: int,
                         was: Books, now: Books) {
    && (AllCompleted(env, count) ==> Logging(env, addr, count, pos, incr, toDev, done, res, was.log, now.log))
    && Dirtying(env, addr, count, toDev, done, res, was.dirty, now.dirty)
    && (NoneSubmitted(env, count) ==> now.pins == was.pins)
  }

  lemma BookStarts(env: Env, addr: nat, count: nat, pos: nat, incr: bool, toDev: bool, was: Books)
    ensures Booked(env, addr, count, pos, incr, toDev, 0, 0, was, was)
  {
    LogStarts(env, addr, count, pos, incr, toDev, was.log);
    DirtyStarts(env, addr, count, toDev, was.dirty);
  }

  lemma BookStep(env: Env, addr: nat, count: nat, pos: nat, incr: bool, toDev: bool, c: nat, len: nat, res: int,
                 was: Books, now: Books, next: Books)
    requires Booked(env, addr, count, pos, incr, toDev, c * 8388608, 0, was, now) && len <= 8388608
    requires c * 8388608 < count && c <= FirstStop(env, Pieces(count)) && res == ErrorOf(env.outcome(c))
    requires var (at, ep, o) := (addr + c * 8388608, pos + c * 8388608, env.outcome(c));
      && next.log == now.log + Copy(BusBytes(env.frame(c), env.dma(c), at, MovedOf(o, len)), ep, incr, toDev)
      && next.dirty == (if o.state != SUBMITTED && !toDev then now.dirty + Touched(env.frame(c), at, len)
                        else now.dirty)
      && (o.state != SUBMITTED ==> next.pins == now.pins)
      && (res != 0 ==> && Progress(env, count) == c * 8388608 + MovedOf(o, len)
                       && Reached(env, count) == c * 8388608 + len)
    ensures Booked(env, addr, count, pos, incr, toDev, c * 8388608 + if res == 0 then len else 0, res, was, next)
  {
    hide Logging, Dirtying, AllCompleted, NoneSubmitted, FirstStop, Progress, Reached, MovedOf, Copy, BusBytes, Touched,
      ErrorOf;
    OutcomeOf(env, count, c);
    if AllCompleted(env, count) {
      LogStep(env, addr, count, pos, incr, toDev, c, len, res, was.log, now.log, next.log);
    }
    DirtyStep(env, addr, count, toDev, c, len, res, was.dirty, now.dirty, next.dirty);
  }

  lemma BookEnds(env: Env, addr: nat, count: nat, pos: nat, incr: bool, toDev: bool, done: nat, res: int,
                 was: Books, now: Books)
    requires Booked(env, addr, count, pos, incr, toDev, done, res, was, now)
    requires res == 0 ==> done == Progress(env, count) == Reached(env, count)
    ensures AllCompleted(env, count) ==>
              now.log == was.log + RequestCopy(env, addr, Progress(env, count), pos, incr, toDev)
    ensures NoneSubmitted(env, count) ==> now.pins == was.pins
    ensures now.dirty == if toDev then was.dirty else was.dirty + Released(env, addr, Reached(env, count))
  {
    hide AllCompleted, NoneSubmitted, Progress, Reached, RequestCopy, Released;
  }

  /** One iteration of the loop, for a piece that remains. */
  method Turn(env: Env, pt: PinTable, dev: Device, ghost addr: u64, ghost count: nat, ghost pos: nat, toDev: bool,
              nonIncr: bool, c: nat, done: nat, remaining: nat, at: u64, p: nat, ghost was: Books)
    returns (res: int, len: nat, left: nat)
    requires ReachedPinned(env, addr, count) && ValidDma(env.dma(c))
    requires Looping(env, addr, count, pos, c, done, remaining, at, p, 0) && remaining > 0
    requires Booked(env, addr, count, pos, !nonIncr, toDev, done, 0, was, Books(dev.log, pt.dirty, pt.pins))
    modifies pt, dev
    ensures Looping(env, addr, count, pos, if res == 0 then c + 1 else c, done + len, left, at + len, p + len, res)
    ensures Booked(env, addr, count, pos, !nonIncr, toDev, done + len, res, was, Books(dev.log, pt.dirty, pt.pins))
    ensures res == 0 ==> left < remaining
  {
    hide ValidDma, BusBytes, Copy, PageCount, FirstStop, Looping, Progress, MovedOf, Pieces, ReachedPinned, Reached,
      Touched, Booked, Frames, ErrorOf;
    LoopStep(env, addr, count, pos, c, done, remaining, at, p);
    len := if remaining > CHUNK then CHUNK else remaining;
    left := remaining;
    ghost var books := Books(dev.log, pt.dirty, pt.pins);
    res := RunPiece(pt, dev, env.frame(c), env.granted(c), env.dma(c), env.descBus(c), env.outcome(c), at, len, p,
                    toDev, nonIncr);
    BookStep(env, addr, count, pos, !nonIncr, toDev, c, len, res, was, books, Books(dev.log, pt.dirty, pt.pins));
    if res != 0 {
      len := 0;
      left := 0;
    }
    left := left - len;
  }

  method TransferData(env: Env, pt: PinTable, dev: Device, addr: u64, count: nat, pos: nat, toDev: bool,
                      nonIncr: bool) returns (res: int, newPos: nat)
    requires ReachedPinned(env, addr, count) && forall c :: ValidDma(env.dma(c))
    modifies pt, dev
    ensures var c := FirstStop(env, Pieces(count));
            if c == Pieces(count) then res == count && newPos == pos + count
            else res == (if env.outcome(c).state == SUBMITTED then -ERESTARTSYS else -EIO)
                 && newPos == pos + c * 8388608
    ensures AllCompleted(env, count) ==>
              dev.log == old(dev.log) + RequestCopy(env, addr, Progress(env, count), pos, !nonIncr, toDev)
    ensures NoneSubmitted(env, count) ==> pt.pins == old(pt.pins)
    ensures pt.dirty == if toDev then old(pt.dirty) else old(pt.dirty) + Released(env, addr, Reached(env, count))
  {
    hide ValidDma, RequestCopy, FirstStop, Looping, Progress, Pieces, AllCompleted, NoneSubmitted, ReachedPinned,
      Released, Reached, Booked;
    res := 0;
    var done: nat, remaining: nat, transferAddr: nat, p: nat := 0, count, addr, pos;
    var c := 0;                                          // names the piece to the environment
    ghost var was := Books(dev.log, pt.dirty, pt.pins);
    LoopStarts(env, addr, count, pos);
    BookStarts(env, addr, count, pos, !nonIncr, toDev, was);
    while res == 0 && remaining > 0
      invariant Looping(env, addr, count, pos, c, done, remaining, transferAddr, p, res)
      invariant Booked(env, addr, count, pos, !nonIncr, toDev, done, res, was, Books(dev.log, pt.dirty, pt.pins))
      decreases if res == 0 then remaining else 0
    {
      InRange64(env, addr, count, pos, c, done, remaining, transferAddr, p);
      var len;
      res, len, remaining := Turn(env, pt, dev, addr, count, pos, toDev, nonIncr, c, done, remaining, transferAddr, p,
                                  was);
      if res == 0 {
        c := c + 1;
      }
      transferAddr := transferAddr + len;
      done := done + len;
      p := p + len;
    }
    LoopEnds(env, addr, count, pos, c, done, remaining, transferAddr, p, res);
    BookEnds(env, addr, count, pos, !nonIncr, toDev, done, res, was, Books(dev.log, pt.dirty, pt.pins));
    res := if res != 0 then res else done;
    newPos := p;
  }

  lemma InRange64(env: Env, addr: nat, count: nat, pos: nat, c: nat, done: nat, remaining: nat, at: nat, p: nat)
    requires ReachedPinned(env, addr, count)
    requires Looping(env, addr, count, pos, c, done, remaining, at, p, 0) && remaining > 0
    ensures at < 0x1_0000_0000_0000_0000
  {
    hide Looping, ReachedPinned, PageCount;
    LoopStep(env, addr, count, pos, c, done, remaining, at, p);
  }

  lemma NothingCopied(env: Env, addr: nat, pos: nat, incr: bool, toDev: bool)
    ensures RequestCopy(env, addr, 0, pos, incr, toDev) == []
  {
  }

  /** Every piece before the first stop has completed. */
  ghost predicate AllCompleted(env: Env, count: nat) {
    forall c :: 0 <= c < FirstStop(env, Pieces(count)) ==> env.outcome(c).state == COMPLETED
  }

  ghost predicate NoneSubmitted(env: Env, count: nat) {
    forall c :: 0 <= c < Pieces(count) ==> env.outcome(c).state != SUBMITTED
  }

  lemma OutcomeOf(env: Env, count: nat, c: nat)
    requires c * 8388608 < count && c <= FirstStop(env, Pieces(count))
    ensures AllCompleted(env, count) && ErrorOf(env.outcome(c)) == 0 ==> env.outcome(c).state == COMPLETED
    ensures NoneSubmitted(env, count) ==> env.outcome(c).state != SUBMITTED
  {
    hide FirstStop;
    StopMeans(env, Pieces(count));
    PieceBounds(count, c);
  }

  lemma StopMeans(env: Env, n: nat)
    ensures var c := FirstStop(env, n);
            c <= n && (forall i :: 0 <= i < c ==> Proceeds(env.outcome(i))) && (c < n ==> !Proceeds(env.outcome(c)))
  {
  }

  lemma PieceBounds(count: nat, c: nat)
    ensures c < Pieces(count) <==> c * 8388608 < count
    ensures c + 1 < Pieces(count) <==> (c + 1) * 8388608 < count
  {
  }
}
