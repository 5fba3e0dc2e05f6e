/**
  What a whole request amounts to: one plain copy of the buffer, and the bytes that end up in memory.
 */
module Whole {
  import opened Errno
  import opened Words
  import opened SgMapper
  import opened Transfers
  import opened Sgdma

  /** Page table and DMA mapping do not change while the request is served. */
  ghost predicate Steady(env: Env, frame: PageTable, dma: Dma) {
    forall c {:trigger env.frame(c)} {:trigger env.dma(c)} :: env.frame(c) == frame && env.dma(c) == dma
  }

  lemma PlainByte(env: Env, frame: PageTable, dma: Dma, addr: nat, count: nat, k: nat, pos: nat,
                  incr: bool, toDev: bool)
    requires Steady(env, frame, dma) && k < count
    ensures RequestCopy(env, addr, count, pos, incr, toDev)[k]
         == ByteMove(BusByte(frame, dma, addr + k), if incr then pos + k else pos + k / 8388608 * 8388608, toDev)
    ensures Copy(BusBytes(frame, dma, addr, count), pos, incr, toDev)[k]
         == ByteMove(BusByte(frame, dma, addr + k), if incr then pos + k else pos, toDev)
  {
    hide BusByte;
  }

  /** The pieces, fragments and descriptors leave no trace: the request is one copy of count bytes. */
  lemma RequestIsOneCopy(env: Env, frame: PageTable, dma: Dma, addr: nat, count: nat, pos: nat, toDev: bool)
    requires Steady(env, frame, dma)
    ensures RequestCopy(env, addr, count, pos, true, toDev) == Copy(BusBytes(frame, dma, addr, count), pos, true, toDev)
  {
    hide RequestCopy, Copy, BusBytes, BusByte, Steady;
    var a := RequestCopy(env, addr, count, pos, true, toDev);
    var b := Copy(BusBytes(frame, dma, addr, count), pos, true, toDev);
    forall k | 0 <= k < count
      ensures a[k] == b[k]
    {
      PlainByte(env, frame, dma, addr, count, k, pos, true, toDev);
    }
  }

  /** Fixed-address mode keeps the end-point address for the whole request exactly when the request is one
      piece: beyond 8 MB the loop steps the address all the same. */
  lemma FixedAddressIff(env: Env, frame: PageTable, dma: Dma, addr: nat, count: nat, pos: nat, toDev: bool)
    requires Steady(env, frame, dma)
    ensures RequestCopy(env, addr, count, pos, false, toDev)
         == Copy(BusBytes(frame, dma, addr, count), pos, false, toDev)
        <==> count <= 8388608
  {
    hide RequestCopy, Copy, BusBytes, BusByte, Steady;
    var a := RequestCopy(env, addr, count, pos, false, toDev);
    var b := Copy(BusBytes(frame, dma, addr, count), pos, false, toDev);
    if count <= 8388608 {
      forall k | 0 <= k < count
        ensures a[k] == b[k]
      {
        PlainByte(env, frame, dma, addr, count, k, pos, false, toDev);
      }
    } else {
      PlainByte(env, frame, dma, addr, count, 8388608, pos, false, toDev);
      assert a[8388608] != b[8388608];
    }
  }

  // ----- memory -----

  type Bytes = map<nat, bv8>

  /** The destination memory after the first n moves from a memory that does not change meanwhile. */
  function Perform(to: Bytes, from: nat -> bv8, moves: seq<Move>, n: nat): Bytes
    requires n <= |moves|
  {
    if n == 0 then to else Perform(to, from, moves, n - 1)[moves[n - 1].dst := from(moves[n - 1].src)]
  }

  /** Where the destinations differ, each holds what its source held. */
  lemma {:induction false} PerformAt(to: Bytes, from: nat -> bv8, moves: seq<Move>, n: nat)
    requires n <= |moves| && forall i, j :: 0 <= i < j < n ==> moves[i].dst != moves[j].dst
    ensures var m := Perform(to, from, moves, n);
      forall k :: 0 <= k < n ==> Stores(m, moves[k].dst, from(moves[k].src))
  {
    if n > 0 {
      PerformAt(to, from, moves, n - 1);
    }
  }

  predicate Stores(m: Bytes, a: nat, v: bv8) {
    a in m && m[a] == v
  }

  /** What is no destination keeps its value. */
  lemma {:induction false} PerformOther(to: Bytes, from: nat -> bv8, moves: seq<Move>, n: nat, a: nat)
    requires n <= |moves| && forall k :: 0 <= k < n ==> moves[k].dst != a
    ensures Same(Perform(to, from, moves, n), to, a)
  {
    if n > 0 {
      PerformOther(to, from, moves, n - 1, a);
    }
  }

  predicate Same(m: Bytes, to: Bytes, a: nat) {
    (a in m <==> a in to) && (a in m && a in to ==> m[a] == to[a])
  }

  /** m is the device memory before, with the bytes of the bus addresses bus at pos. */
  ghost predicate DeviceHas(m: Bytes, before: Bytes, host: nat -> bv8, bus: seq<nat>, pos: nat) {
    && (forall k {:trigger bus[k]} :: 0 <= k < |bus| ==> Stores(m, pos + k, host(bus[k])))
    && (forall a: nat :: !(pos <= a < pos + |bus|) ==> Same(m, before, a))
  }

  /** m is the host memory before, with the device bytes from pos on at the bus addresses bus. */
  ghost predicate BufferHas(m: Bytes, before: Bytes, device: nat -> bv8, bus: seq<nat>, pos: nat) {
    && (forall k :: 0 <= k < |bus| ==> Stores(m, bus[k], device(pos + k)))
    && (forall a: nat :: a !in bus ==> Same(m, before, a))
  }

  /** Host to device: device byte pos + k becomes host byte k, all others keep their value. */
  lemma DeviceHoldsBuffer(env: Env, frame: PageTable, dma: Dma, addr: nat, count: nat, pos: nat,
                          device: Bytes, host: nat -> bv8)
    requires Steady(env, frame, dma)
    ensures
      var m := Perform(device, host, RequestCopy(env, addr, count, pos, true, true), count);
      DeviceHas(m, device, host, BusBytes(frame, dma, addr, count), pos)
  {
    hide RequestCopy, BusBytes, BusByte, Steady, Same, Stores, Perform;
    var moves, bus := RequestCopy(env, addr, count, pos, true, true), BusBytes(frame, dma, addr, count);
    RequestIsOneCopy(env, frame, dma, addr, count, pos, true);
    assert forall k :: 0 <= k < count ==> moves[k] == Move(bus[k], pos + k);
    PerformAt(device, host, moves, count);
    var m := Perform(device, host, moves, count);
    forall k {:trigger bus[k]} | 0 <= k < count
      ensures Stores(m, pos + k, host(bus[k]))
    {
      assert moves[k] == Move(bus[k], pos + k);
    }
    forall a: nat | !(pos <= a < pos + count)
      ensures Same(m, device, a)
    {
      PerformOther(device, host, moves, count, a);
    }
  }

  /** The bytes of the buffer have different bus addresses. */
  ghost predicate Apart(bus: seq<nat>) {
    forall i, j :: 0 <= i < j < |bus| ==> bus[i] != bus[j]
  }

  /** Device to host: the buffer's byte k becomes device byte pos + k, for a buffer whose bytes have
      different bus addresses; no other host byte changes. */
  lemma BufferHoldsDevice(env: Env, frame: PageTable, dma: Dma, addr: nat, count: nat, pos: nat,
                          host: Bytes, device: nat -> bv8)
    requires Steady(env, frame, dma) && Apart(BusBytes(frame, dma, addr, count))
    ensures
      var m := Perform(host, device, RequestCopy(env, addr, count, pos, true, false), count);
      BufferHas(m, host, device, BusBytes(frame, dma, addr, count), pos)
  {
    hide RequestCopy, BusBytes, BusByte, Steady, Same, Stores, Perform;
    var moves, bus := RequestCopy(env, addr, count, pos, true, false), BusBytes(frame, dma, addr, count);
    RequestIsOneCopy(env, frame, dma, addr, count, pos, false);
    assert forall k :: 0 <= k < count ==> moves[k] == Move(pos + k, bus[k]);
    PerformAt(host, device, moves, count);
    var m := Perform(host, device, moves, count);
    forall k | 0 <= k < count
      ensures Stores(m, bus[k], device(pos + k))
    {
      assert moves[k] == Move(pos + k, bus[k]);
    }
    forall a: nat | a !in bus
      ensures Same(m, host, a)
    {
      PerformOther(host, device, moves, count, a);
    }
  }

  // ----- the read and write calls -----

  /** What an engine supports. The alignments are powers of two, so the C code's masks are remainders. */
  datatype Settings = Settings(toDev: bool, streaming: bool, nonIncr: bool, addrAlign: nat, lenGranularity: nat)

  /** Byte k of the buffer and byte k of the device range lie at the same offset modulo align. */
  predicate Abreast(align: nat, buf: nat, pos: nat, k: nat)
    requires align >= 1
  {
    (buf + k) % align == (pos + k) % align
  }

  lemma RemainderIs(x: int, align: nat, q: int, r: int)
    requires 0 <= r < align && x == align * q + r
    ensures x % align == r
  {
    var d := x / align - q;
    assert align * d == r - x % align by {
      assert x == align * (x / align) + x % align;
    }
    assert d >= 1 ==> align * d >= align;
  }

  /** One byte decides for all. */
  lemma AbreastIff(align: nat, buf: nat, pos: nat, k: nat)
    requires align >= 1
    ensures Abreast(align, buf, pos, k) <==> (buf - pos) % align == 0
  {
    var (p, q, d) := ((buf + k) / align, (pos + k) / align, (buf + k) % align - (pos + k) % align);
    assert buf - pos == align * (p - q) + d;
    if d >= 0 {
      RemainderIs(buf - pos, align, p - q, d);
    } else {
      assert align * (p - q - 1) == align * (p - q) - align;
      RemainderIs(buf - pos, align, p - q - 1, d + align);
    }
  }

  /** What an engine asks of a call: with fixed addresses or a stream, whole granules; else host and device address
      that agree modulo the alignment. */
  predicate Aligned(s: Settings, buf: nat, count: nat, pos: nat)
    requires s.addrAlign >= 1 && s.lenGranularity >= 1
  {
    if s.streaming || s.nonIncr then
      && buf % s.addrAlign == 0 && (s.streaming || pos % s.addrAlign == 0) && count % s.lenGranularity == 0
    else
      (buf - pos) % s.addrAlign == 0
  }

  /** check_transfer_align for a synchronous call. */
  method CheckTransferAlign(s: Settings, buf: nat, count: nat, pos: nat) returns (rc: int)
    requires s.addrAlign >= 1 && s.lenGranularity >= 1
    ensures rc == if Aligned(s, buf, count, pos) then 0 else -EINVAL
  {
    var bufLsb, posLsb := buf % s.addrAlign, pos % s.addrAlign;
    if s.streaming || s.nonIncr {
      if bufLsb != 0 {
        return -EINVAL;
      }
      if !s.streaming && posLsb != 0 {
        return -EINVAL;
      }
      if count % s.lenGranularity != 0 {
        return -EINVAL;
      }
    } else if bufLsb != posLsb {
      AbreastIff(s.addrAlign, buf, pos, 0);
      return -EINVAL;
    }
    AbreastIff(s.addrAlign, buf, pos, 0);
    return 0;
  }

  /** The call is for the engine's direction, and aligned. */
  predicate Served(s: Settings, buf: nat, count: nat, pos: nat, dirToDev: bool)
    requires s.addrAlign >= 1 && s.lenGranularity >= 1
  {
    dirToDev == s.toDev && Aligned(s, buf, count, pos)
  }

  /** char_sgdma_read_write: a call that is refused moves nothing. A call for the engine's direction is refused, with
      fixed addresses or a stream, exactly if buffer, position (no matter in a stream) or length is no multiple of its
      granule; with incremental addresses, exactly if some byte of the buffer and the device byte it goes with are at
      different offsets. */
  method ReadWrite(s: Settings, env: Env, pt: PinTable, dev: Device, buf: u64, count: nat, pos: nat, dirToDev: bool)
    returns (res: int, newPos: nat)
    requires s.addrAlign >= 1 && s.lenGranularity >= 1 && forall c :: ValidDma(env.dma(c))
    requires Served(s, buf, count, pos, dirToDev) ==> ReachedPinned(env, buf, count)                  // BUG_ON
    modifies pt, dev
    ensures res == -EINVAL <==> !Served(s, buf, count, pos, dirToDev)
    ensures dirToDev != s.toDev ==> res == -EINVAL
    ensures dirToDev == s.toDev && (s.streaming || s.nonIncr) ==>
              (res == -EINVAL <==>
                 || buf % s.addrAlign != 0 || (!s.streaming && pos % s.addrAlign != 0)
                 || count % s.lenGranularity != 0)
    ensures dirToDev == s.toDev && !s.streaming && !s.nonIncr ==>
              && (res == -EINVAL <==> (buf - pos) % s.addrAlign != 0)
              && (count > 0 ==> (res == -EINVAL <==> exists k: nat :: k < count && !Abreast(s.addrAlign, buf, pos, k)))
    ensures res == -EINVAL ==>
              newPos == pos && dev.log == old(dev.log) && pt.pins == old(pt.pins) && pt.dirty == old(pt.dirty)
    ensures res != -EINVAL ==>
              var c := FirstStop(env, Pieces(count));
              if c == Pieces(count) then res == count && newPos == pos + count
              else res == (if env.outcome(c).state == SUBMITTED then -ERESTARTSYS else -EIO)
                   && newPos == pos + c * 8388608
    ensures res != -EINVAL && AllCompleted(env, count) ==>
              dev.log == old(dev.log) + RequestCopy(env, buf, Progress(env, count), pos, !s.nonIncr, dirToDev)
    ensures NoneSubmitted(env, count) ==> pt.pins == old(pt.pins)
    ensures pt.dirty == if dirToDev || res == -EINVAL then old(pt.dirty)
                        else old(pt.dirty) + Released(env, buf, Reached(env, count))
  {
    hide ValidDma, FirstStop, RequestCopy, Progress, ReachedPinned, AllCompleted, NoneSubmitted, Released, Reached,
      Abreast;
    if dirToDev != s.toDev {
      return -EINVAL, pos;
    }
    if count > 0 {
      SomeByteIff(s.addrAlign, buf, pos, count);
    }
    res := CheckTransferAlign(s, buf, count, pos);
    if res != 0 {
      return res, pos;
    }
    res, newPos := TransferData(env, pt, dev, buf, count, pos, s.toDev, s.nonIncr);
  }

  lemma SomeByteIff(align: nat, buf: nat, pos: nat, count: nat)
    requires align >= 1 && count > 0
    ensures (buf - pos) % align != 0 <==> exists k: nat :: k < count && !Abreast(align, buf, pos, k)
  {
    hide Abreast;
    AbreastIff(align, buf, pos, 0);
    forall k: nat | k < count
      ensures Abreast(align, buf, pos, k) <==> Abreast(align, buf, pos, 0)
    {
      AbreastIff(align, buf, pos, k);
    }
  }

  /** Main result, char_sgdma_write with incremental addressing: the device holds the first Progress bytes of
      the buffer from pos on - all count of them if every piece completed - and nothing else has changed. */
  method Write(s: Settings, env: Env, pt: PinTable, dev: Device, buf: u64, count: nat, pos: nat,
               ghost frame: PageTable, ghost dma: Dma, ghost device: Bytes, ghost host: nat -> bv8)
    returns (res: int, newPos: nat)
    requires s.addrAlign >= 1 && s.lenGranularity >= 1 && !s.nonIncr && forall c :: ValidDma(env.dma(c))
    requires Served(s, buf, count, pos, true) ==> ReachedPinned(env, buf, count)                      // BUG_ON
    requires Steady(env, frame, dma) && AllCompleted(env, count)
    modifies pt, dev
    ensures old(dev.log) <= dev.log
    ensures var n := if Served(s, buf, count, pos, true) then Progress(env, count) else 0;
      && |dev.log| == |old(dev.log)| + n
      && DeviceHas(Perform(device, host, dev.log[|old(dev.log)|..], n), device, host, BusBytes(frame, dma, buf, n), pos)
    ensures res == -EINVAL <==> !Served(s, buf, count, pos, true)
    ensures if res >= 0 then res == count && newPos == pos + count && Progress(env, count) == count
            else newPos == pos + if res == -EINVAL then 0 else FirstStop(env, Pieces(count)) * 8388608
    ensures res >= 0 || NoneSubmitted(env, count) ==> pt.pins == old(pt.pins)
    ensures pt.dirty == old(pt.dirty)
  {
    hide ValidDma, FirstStop, Progress, ReachedPinned, AllCompleted, Steady, RequestCopy, DeviceHas, Perform, Served,
      Pieces, Abreast, Released, Reached;
    res, newPos := ReadWrite(s, env, pt, dev, buf, count, pos, true);
    ghost var n := if Served(s, buf, count, pos, true) then Progress(env, count) else 0;
    NothingCopied(env, buf, pos, true, true);
    DeviceHoldsBuffer(env, frame, dma, buf, n, pos, device, host);
    ProgressWhenDone(env, count);
    assert dev.log[|old(dev.log)|..] == RequestCopy(env, buf, n, pos, true, true);
  }

  /** Main result, char_sgdma_read with incremental addressing: the first Progress bytes of the buffer are the
      device's from pos on, and no other host byte has changed. */
  method Read(s: Settings, env: Env, pt: PinTable, dev: Device, buf: u64, count: nat, pos: nat,
              ghost frame: PageTable, ghost dma: Dma, ghost host: Bytes, ghost device: nat -> bv8)
    returns (res: int, newPos: nat)
    requires s.addrAlign >= 1 && s.lenGranularity >= 1 && !s.nonIncr && forall c :: ValidDma(env.dma(c))
    requires Served(s, buf, count, pos, false) ==> ReachedPinned(env, buf, count)                     // BUG_ON
    requires Steady(env, frame, dma) && AllCompleted(env, count) && Apart(BusBytes(frame, dma, buf, count))
    modifies pt, dev
    ensures old(dev.log) <= dev.log
    ensures var n := if Served(s, buf, count, pos, false) then Progress(env, count) else 0;
      && |dev.log| == |old(dev.log)| + n
      && BufferHas(Perform(host, device, dev.log[|old(dev.log)|..], n), host, device, BusBytes(frame, dma, buf, n), pos)
    ensures res == -EINVAL <==> !Served(s, buf, count, pos, false)
    ensures if res >= 0 then res == count && newPos == pos + count && Progress(env, count) == count
            else newPos == pos + if res == -EINVAL then 0 else FirstStop(env, Pieces(count)) * 8388608
    ensures res >= 0 || NoneSubmitted(env, count) ==> pt.pins == old(pt.pins)
    ensures pt.dirty == old(pt.dirty) + if res == -EINVAL then {} else Released(env, buf, Reached(env, count))
    ensures res >= 0 ==> pt.dirty == old(pt.dirty) + Touched(frame, buf, count)
  {
    hide ValidDma, FirstStop, Progress, ReachedPinned, AllCompleted, Steady, RequestCopy, BufferHas, Perform, Served,
      Pieces, Abreast, Released, Reached, Touched;
    res, newPos := ReadWrite(s, env, pt, dev, buf, count, pos, false);
    ghost var n := if Served(s, buf, count, pos, false) then Progress(env, count) else 0;
    NothingCopied(env, buf, pos, true, false);
    ProgressWhenDone(env, count);
    ApartPrefix(frame, dma, buf, count, n);
    BufferHoldsDevice(env, frame, dma, buf, n, pos, host, device);
    if res >= 0 {
      AllReleased(env, frame, dma, buf, count);
    }
    assert dev.log[|old(dev.log)|..] == RequestCopy(env, buf, n, pos, true, false);
  }

  /** Once every piece has completed, all frames of the buffer are released. */
  lemma AllReleased(env: Env, frame: PageTable, dma: Dma, addr: nat, count: nat)
    requires Steady(env, frame, dma) && AllCompleted(env, count) && FirstStop(env, Pieces(count)) == Pieces(count)
    ensures Released(env, addr, Reached(env, count)) == Touched(frame, addr, count)
  {
    hide FirstStop, FrameAt;
    var (a, b) := (Released(env, addr, count), Touched(frame, addr, count));
    forall k | 0 <= k < count
      ensures env.outcome(k / 8388608).state == COMPLETED && RequestFrame(env, addr, k) == FrameAt(frame, addr + k)
    {
      PieceBounds(count, k / 8388608);
    }
    forall x | addr <= x < addr + count
      ensures FrameAt(frame, x) in a
    {
      assert RequestFrame(env, addr, x - addr) == FrameAt(frame, x);
    }
  }

  lemma ProgressWhenDone(env: Env, count: nat)
    ensures AllCompleted(env, count) && FirstStop(env, Pieces(count)) == Pieces(count) ==> NoneSubmitted(env, count)
    ensures Progress(env, count) <= count
    ensures FirstStop(env, Pieces(count)) == Pieces(count) ==> Progress(env, count) == count
  {
    hide FirstStop;
    PieceBounds(count, FirstStop(env, Pieces(count)));
  }

  lemma ApartPrefix(frame: PageTable, dma: Dma, addr: nat, count: nat, n: nat)
    requires n <= count && Apart(BusBytes(frame, dma, addr, count))
    ensures Apart(BusBytes(frame, dma, addr, n))
  {
    hide BusByte;
    var (bus, part) := (BusBytes(frame, dma, addr, count), BusBytes(frame, dma, addr, n));
    forall i, j | 0 <= i < j < n
      ensures part[i] != part[j]
    {
      assert part[i] == bus[i] && part[j] == bus[j];
    }
  }
}
