/**
  The fields of struct xdma_engine that belong to the C2H ring, and the functions that update them:
  engine_ring_process, copy_cyclic_to_user and complete_cyclic.
 */
module Ring {
  import opened Delivery
  import opened Errno
  import opened RingModel

  /** Where byte k of a delivery that starts at page from lies in the 256-page receive buffer. */
  function Src(from: nat, k: nat): (p: nat)
    ensures p < 0x10_0000
  {
    4096 * Ix(from + k / 4096) + k % 4096
  }

  /** The user buffer u after n bytes from page from on were put at start, where it was u0. */
  ghost predicate Copied(rx: seq<bv8>, u0: seq<bv8>, u: seq<bv8>, start: nat, from: nat, n: nat)
    requires |rx| == 0x10_0000
  {
    && |u| == |u0| && start + n <= |u|
    && (forall k :: 0 <= k < n ==> u[start + k] == rx[Src(from, k)])
    && (forall i :: 0 <= i < |u| && !(start <= i < start + n) ==> u[i] == u0[i])
  }

  /** The receive buffer as 256 pages. */
  function PagesOf(rx: seq<bv8>): (pages: seq<Page>)
    requires |rx| == 0x10_0000
    ensures |pages| == 256
  {
    seq(256, i requires 0 <= i < 256 => rx[4096 * i..4096 * i + 4096])
  }

  /** What was copied is the delivery, at the offset reached so far. */
  lemma CopiedIsDelivered(rx: seq<bv8>, u0: seq<bv8>, u: seq<bv8>, start: nat, from: nat, n: nat)
    requires |rx| == 0x10_0000 && Copied(rx, u0, u, start, from, n)
    ensures u == u0[..start] + Delivered(PagesOf(rx), from, n) + u0[start + n..]
  {
    var d := Delivered(PagesOf(rx), from, n);
    forall k | 0 <= k < n
      ensures u[start + k] == d[k]
    {
      assert u[start + k] == rx[Src(from, k)];
    }
  }

  /** u after n bytes at to were overwritten with those of rx from src on. */
  ghost predicate Put(rx: seq<bv8>, u0: seq<bv8>, u: seq<bv8>, to: nat, src: nat, n: nat) {
    && |u| == |u0| && to + n <= |u| && src + n <= |rx|
    && (forall i :: to <= i < to + n ==> u[i] == rx[src + (i - to)])
    && (forall i :: 0 <= i < |u| && !(to <= i < to + n) ==> u[i] == u0[i])
  }

  lemma CopiedBlock(rx: seq<bv8>, u0: seq<bv8>, u1: seq<bv8>, u2: seq<bv8>, start: nat, from: nat, block: nat, n: nat)
    requires |rx| == 0x10_0000 && n <= 4096
    requires Copied(rx, u0, u1, start, from, 4096 * block)
    requires Put(rx, u1, u2, start + 4096 * block, 4096 * Ix(from + block), n)
    ensures Copied(rx, u0, u2, start, from, 4096 * block + n)
  {
    forall k | 0 <= k < 4096 * block + n
      ensures u2[start + k] == rx[Src(from, k)]
    {
      if k >= 4096 * block {
        SrcBlock(from, block, k - 4096 * block);
      }
    }
  }

  lemma SrcBlock(from: nat, block: nat, c: nat)
    requires c < 4096
    ensures Src(from, 4096 * block + c) == 4096 * Ix(from + block) + c
  {
    assert (4096 * block + c) / 4096 == block;
  }

  lemma CopiedNone(rx: seq<bv8>, u: seq<bv8>, start: nat, from: nat)
    requires |rx| == 0x10_0000 && start <= |u|
    ensures Copied(rx, u, u, start, from, 0)
  {
  }

  function Min(a: nat, b: nat): nat { if a < b then a else b }

  /** The first of n pages that copy_to_user does not copy wholly, n if there is none. */
  function FirstLeft(left: nat -> nat, n: nat): (f: nat)
    ensures f <= n && (forall i :: 0 <= i < f ==> left(i) == 0) && (f < n ==> left(f) > 0)
  {
    if n == 0 then 0
    else
      var f := FirstLeft(left, n - 1);
      if f < n - 1 || left(n - 1) > 0 then f else n
  }

  /** How a delivery of len bytes ends: what is returned, by how much the offset moves, what is written. */
  datatype CopyEnd = CopyEnd(rc: nat, counted: nat, written: nat)

  function Copying(len: nat, left: nat -> nat): CopyEnd {
    var f := FirstLeft(left, (len + 4095) / 4096);
    if 4096 * f >= len then CopyEnd(len, len, len)
    else
      var copy := Min(4096, len - 4096 * f);
      var lack := Min(left(f), copy);
      CopyEnd(lack, 4096 * f, 4096 * f + copy - lack)
  }

  /** A delivery of something returns something positive, even if it fails: so credits are always returned. */
  lemma CopyingPositive(len: nat, left: nat -> nat)
    ensures Copying(len, left).rc > 0 <==> len > 0
    ensures Copying(len, left).counted == len <==> FirstLeft(left, (len + 4095) / 4096) == (len + 4095) / 4096
  {
  }

  /** The copy loop after blocks whole pages. */
  ghost predicate CopyState(len: nat, from: nat, left: nat -> nat, blocks: nat, remaining: nat, page: nat) {
    && remaining <= len && blocks <= FirstLeft(left, (len + 4095) / 4096)
    && (remaining > 0 ==> len - remaining == 4096 * blocks && page == Ix(from + blocks))
    && (remaining == 0 ==> Copying(len, left) == CopyEnd(len, len, len))
  }

  lemma CopyStarts(len: nat, from: nat, left: nat -> nat)
    requires from < 256
    ensures CopyState(len, from, left, 0, len, from)
  {
  }

  lemma CopyEnds(len: nat, from: nat, left: nat -> nat, blocks: nat, remaining: nat, page: nat)
    requires CopyState(len, from, left, blocks, remaining, page)
    ensures remaining <= len
    ensures remaining > 0 ==> len - remaining == 4096 * blocks && page == Ix(from + blocks)
    ensures remaining == 0 ==> Copying(len, left) == CopyEnd(len, len, len)
  {
    hide Ix, FirstLeft, Copying;
  }

  lemma CopyBlock(len: nat, from: nat, left: nat -> nat, blocks: nat, remaining: nat, page: nat)
    requires CopyState(len, from, left, blocks, remaining, page) && remaining > 0
    ensures blocks < (len + 4095) / 4096
    ensures var copy := if remaining > 4096 then 4096 else remaining;
      && (left(blocks) == 0 ==> CopyState(len, from, left, blocks + 1, remaining - copy, Ix(page + 1)))
      && copy <= 4096 && copy <= remaining && (left(blocks) > 0 ==>
           var lack := if left(blocks) < copy then left(blocks) else copy;
           Copying(len, left) == CopyEnd(lack, 4096 * blocks, 4096 * blocks + copy - lack))
  {
    hide Ix;
    IxStep(from + blocks);
  }

  class RxRing {
    const results: array<Slot>
    const rxBuffer: array<bv8>
    var head: nat
    var tail: nat
    var overrun: bool
    var eopFound: bool
    var userIndex: nat
    var credits: nat                 // all that was written to the credit register

    /** The ring as cyclic_transfer_setup leaves it; creditMode: enable_credit_mp. */
    constructor (results: array<Slot>, rxBuffer: array<bv8>, creditMode: bool)
      requires results.Length == 256 && rxBuffer.Length == 0x10_0000
      ensures Valid() && this.results == results && this.rxBuffer == rxBuffer
      ensures Model() == Rx(results[..], 0, 0, false) && !eopFound && userIndex == 0
      ensures credits == if creditMode then 128 else 0
    {
      this.results, this.rxBuffer := results, rxBuffer;
      head, tail, overrun, eopFound, userIndex := 0, 0, false, false, 0;
      credits := if creditMode then 128 else 0;
    }

    ghost predicate Valid()
      reads `head, `tail
    {
      results.Length == 256 && rxBuffer.Length == 0x10_0000 && head < 256 && tail < 256
    }

    ghost function Model(): Rx
      reads this, results
    {
      Rx(results[..], head, tail, overrun)
    }

    /** Iterates at most 256 - Occupied times: the measure is how far the tail is from the head. */
    method RingProcess() returns (eops: nat)
      requires Valid()
      modifies `tail, `overrun
      ensures Valid() && Model() == Scan(old(Model()))
      ensures eops == Eops(old(Model()), ScanLength(old(Model())))
    {
      hide Scanning, Scan, ScanLength, Eops;
      ghost var r, n := Model(), 0;
      eops := 0;
      ScanStarts(r);
      while results[tail].status != 0 && !overrun
        invariant Valid() && Scanning(r, n, Model(), eops)
        decreases 256 - Occupied(r) - n
      {
        ScanStep(r, n, Model(), eops);
        if results[tail].status % 2 == 1 {
          eops := eops + 1;
        }
        tail := (tail + 1) % 256;
        if tail == head {
          overrun := true;
        }
        n := n + 1;
      }
      ScanEnds(r, n, Model(), eops);
    }

    /** copy_to_user: it returns how many of the n bytes it could not copy, the last ones. */
    method CopyToUser(user: array<bv8>, to: nat, src: nat, n: nat, left: nat) returns (rc: nat)
      requires user != rxBuffer && to + n <= user.Length && src + n <= rxBuffer.Length && left <= n
      modifies user
      ensures rc == left && Put(rxBuffer[..], old(user[..]), user[..], to, src, n - left)
    {
      forall i | to <= i < to + (n - left) {
        user[i] := rxBuffer[src + (i - to)];
      }
      return left;
    }

    /** Delivers pktLength bytes from page from on, at the offset reached so far. left: what copy_to_user cannot
        copy of each page; the first page not wholly copied ends the delivery, and what it lacks is returned. */
    method CopyCyclicToUser(pktLength: nat, from: nat, user: array<bv8>, left: nat -> nat) returns (rc: int)
      requires Valid() && from < 256 && user != rxBuffer
      requires userIndex + pktLength <= user.Length
      modifies `userIndex, user
      ensures var c := Copying(pktLength, left);
        && rc == c.rc && userIndex == old(userIndex) + c.counted
        && Copied(rxBuffer[..], old(user[..]), user[..], old(userIndex), from, c.written)
    {
      hide Copied, Put, Ix, FirstLeft, CopyState, Copying, Min;
      var remaining: nat, page: nat := pktLength, from;
      var blocks := 0;                                   // names the page to the environment
      ghost var rx, u0 := rxBuffer[..], user[..];
      CopiedNone(rx, u0, userIndex, from);
      CopyStarts(pktLength, from, left);
      while remaining > 0
        invariant remaining <= pktLength && CopyState(pktLength, from, left, blocks, remaining, page)
        invariant userIndex == old(userIndex) + (pktLength - remaining)
        invariant rxBuffer[..] == rx && |rx| == 0x10_0000
        invariant Copied(rx, u0, user[..], old(userIndex), from, pktLength - remaining)
      {
        var copy := if remaining > 4096 then 4096 else remaining;
        ghost var u1 := user[..];
        CopyEnds(pktLength, from, left, blocks, remaining, page);
        CopyBlock(pktLength, from, left, blocks, remaining, page);
        var lack := if left(blocks) < copy then left(blocks) else copy;
        var failed := CopyToUser(user, userIndex, 4096 * page, copy, lack);
        CopiedBlock(rx, u0, u1, user[..], old(userIndex), from, blocks, copy - failed);
        if failed > 0 {
          return failed;
        }
        remaining := remaining - copy;
        userIndex := userIndex + copy;
        page := Ix(page + 1);
        blocks := blocks + 1;
      }
      CopyEnds(pktLength, from, left, blocks, remaining, page);
      return pktLength;
    }

    method ClearResult(i: nat)
      requires i < results.Length
      modifies results
      ensures results[..] == old(results[..])[i := EMPTY]
    {
      results[i] := EMPTY;
    }

    /** One iteration of that loop: the result under the head is judged and cleared. */
    method TakeResult(pktLength: nat, credit: nat, ghost r: Rx, ghost n: nat)
      returns (length: nat, count: nat, fault: bool, eop: bool)
      requires Valid() && Reading(r, n, Model(), false, false, pktLength, credit)
      requires head != tail || overrun
      modifies `head, results
      ensures Valid() && n <= 256 && Reading(r, n + 1, Model(), fault, eop, length, count)
    {
      hide Reading, Ix;
      length, count, fault, eop := pktLength, credit, false, false;
      ghost var t := Model();
      var result := results[head];
      if result.status / 0x1_0000 != 0x52B4 {
        fault := true;
      } else if result.length > 4096 {
        fault := true;
      } else if result.length == 0 {
        fault := true;
      } else {
        length := length + result.length;
        count := count + 1;
        eop := result.status % 2 == 1;
      }
      ReadingStep(r, n, t, pktLength, credit, fault, eop, length, count);
      ClearResult(head);
      head := Ix(head + 1);
    }

    /** The part of complete_cyclic under the lock. Iterates at most 257 times even if overrun stays set:
        each pass clears a slot, and a cleared slot is a fault. */
    method TakeResults() returns (pktLength: nat, credit: nat, fault: bool, eop: bool)
      requires Valid()
      modifies `head, results
      ensures Valid() && Took(old(Model()), Model(), fault, eop, pktLength, credit)
    {
      hide Reading, Took, Ix;
      ghost var r, n := Model(), 0;
      pktLength, credit, fault, eop := 0, 0, false, false;
      ReadingStarts(r);
      while (head != tail || overrun) && !fault && !eop
        invariant Valid() && Reading(r, n, Model(), fault, eop, pktLength, credit)
        decreases 257 - n
      {
        pktLength, credit, fault, eop := TakeResult(pktLength, credit, r, n);
        n := n + 1;
      }
      ReadingEnds(r, n, Model(), fault, eop, pktLength, credit);
    }

    /** One read. */
    method CompleteCyclic(user: array<bv8>, left: nat -> nat) returns (rc: int)
      requires Valid() && user != rxBuffer && (user as object) != results
      requires !Fault(Model()) ==> userIndex + Length(Model(), Taken(Model())) <= user.Length
      modifies this, results, user
      ensures Valid() && Model() == Consume(old(Model()))
      ensures eopFound == (old(eopFound) || Ended(old(Model())))
      ensures var r := old(Model());
        && (Fault(r) ==>
              && rc == -EIO && userIndex == old(userIndex) && credits == old(credits) && user[..] == old(user[..]))
        && (!Fault(r) ==>
              var c := Copying(Length(r, Taken(r)), left);
              && rc == c.rc && userIndex == old(userIndex) + c.counted
              && credits == old(credits) + Taken(r)
              && Copied(rxBuffer[..], old(user[..]), user[..], old(userIndex), r.head, c.written))
    {
      hide Taken, Fault, Ended, Length, Copied, Cleared, Ix, Copying;
      var from := head;
      var pktLength, credit, fault, eop := TakeResults();
      if eop {
        eopFound := true;
      }
      if fault {
        return -EIO;
      }
      ghost var slots := results[..];
      CopyingPositive(pktLength, left);
      rc := CopyCyclicToUser(pktLength, from, user, left);
      assert results[..] == slots;
      overrun := false;
      if rc > 0 {
        credits := credits + credit;
      }
    }
  }
}
