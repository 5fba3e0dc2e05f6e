/**
  The receive ring of an AXI-ST C2H engine as a value: 256 result slots, the scan of the bottom half
  (engine_ring_process) and the reader's pass (complete_cyclic). The class in Ring.dfy is proved
  against these functions; the runs in RingRuns.dfy and StreamRuns.dfy are made of them.
 */
module RingModel {

  const MAGIC := 0x52B4            // C2H_WB

  /** struct xdma_result. */
  datatype Slot = Slot(status: nat, length: nat)

  const EMPTY := Slot(0, 0)

  predicate Eop(s: Slot) { s.status % 2 == 1 }

  /** A result the reader accepts. */
  predicate Fine(s: Slot) { s.status / 0x1_0000 == MAGIC && 0 < s.length <= 4096 }

  /** In numbers: the magic over any sixteen flag bits, and a length of one byte to a page. */
  lemma FineIff(s: Slot)
    ensures Fine(s) <==> 0x52B4_0000 <= s.status <= 0x52B4_FFFF && 1 <= s.length <= 4096
  {
  }

  /** Of the flags, only the lowest matters: it ends a packet. */
  lemma FlagsOf(flags: nat, length: nat)
    requires flags < 0x1_0000
    ensures var s := Slot(0x52B4_0000 + flags, length);
            (Fine(s) <==> 1 <= length <= 4096) && (Eop(s) <==> flags % 2 == 1)
  {
  }

  /** Positions count up for ever; slot and page of position n. */
  function Ix(n: nat): (i: nat)
    ensures i < 256
  {
    n % 256
  }

  /** How many slots i is past head, going round. */
  function Gap(head: nat, i: nat): (d: nat)
    requires head < 256 && i < 256
    ensures d < 256
  {
    if i >= head then i - head else i - head + 256
  }

  datatype Rx = Rx(slots: seq<Slot>, head: nat, tail: nat, overrun: bool)

  predicate ValidRx(r: Rx) {
    |r.slots| == 256 && r.head < 256 && r.tail < 256
  }

  /** What head and tail say is scanned and unread, short of an overrun. */
  function Occupied(r: Rx): nat
    requires ValidRx(r)
  {
    Gap(r.head, r.tail)
  }

  // ----- engine_ring_process -----

  /** The slot met at step j of the scan. */
  function Ahead(r: Rx, j: nat): Slot
    requires ValidRx(r)
  {
    r.slots[Ix(r.tail + j)]
  }

  /** The number of slots the scan passes, having passed j. */
  function ScanFrom(r: Rx, j: nat): (n: nat)
    requires ValidRx(r) && j <= 256 - Occupied(r)
    ensures j <= n <= 256 - Occupied(r)
    decreases 256 - j
  {
    if j == 256 - Occupied(r) || Ahead(r, j).status == 0 then j else ScanFrom(r, j + 1)
  }

  /** It passes written slots only, and stops at an empty one or at the head. */
  lemma {:induction false} ScanFromMeans(r: Rx, j: nat)
    requires ValidRx(r) && j <= 256 - Occupied(r)
    ensures forall i {:trigger Ahead(r, i)} :: j <= i < ScanFrom(r, j) ==> Ahead(r, i).status != 0
    ensures ScanFrom(r, j) < 256 - Occupied(r) ==> Ahead(r, ScanFrom(r, j)).status == 0
    decreases 256 - j
  {
    if j != 256 - Occupied(r) && Ahead(r, j).status != 0 {
      ScanFromMeans(r, j + 1);
    }
  }

  /** The ends of packet among the first n slots of the scan. */
  function Eops(r: Rx, n: nat): nat
    requires ValidRx(r)
  {
    if n == 0 then 0 else Eops(r, n - 1) + if Eop(Ahead(r, n - 1)) then 1 else 0
  }

  function ScanLength(r: Rx): nat
    requires ValidRx(r)
  {
    if r.overrun then 0 else ScanFrom(r, 0)
  }

  function Scan(r: Rx): Rx
    requires ValidRx(r)
  {
    var n := ScanLength(r);
    r.(tail := Ix(r.tail + n), overrun := r.overrun || n == 256 - Occupied(r))
  }

  // ----- complete_cyclic -----

  /** The slot met at step j of the reader's pass, which has cleared the j before it. */
  function At(r: Rx, j: nat): Slot
    requires ValidRx(r)
  {
    if j < 256 then r.slots[Ix(r.head + j)] else EMPTY
  }

  /** The reader stops after a bad result or an end of packet, or where no result is left. */
  function StopFrom(r: Rx, j: nat): (n: nat)
    requires ValidRx(r) && j <= 256 && (r.overrun || j <= Occupied(r))
    ensures j <= n <= 257
    ensures !r.overrun ==> n <= Occupied(r)
    decreases 257 - j
  {
    if !r.overrun && j == Occupied(r) then j
    else if !Fine(At(r, j)) || Eop(At(r, j)) then j + 1
    else StopFrom(r, j + 1)
  }

  lemma {:induction false} StopFromMeans(r: Rx, j: nat)
    requires ValidRx(r) && j <= 256 && (r.overrun || j <= Occupied(r))
    ensures forall i {:trigger At(r, i)} :: j <= i < StopFrom(r, j) - 1 ==> Fine(At(r, i)) && !Eop(At(r, i))
    ensures var n := StopFrom(r, j);
            n == j || !Fine(At(r, n - 1)) || Eop(At(r, n - 1)) || (n == Occupied(r) && !r.overrun)
    decreases 257 - j
  {
    if (r.overrun || j != Occupied(r)) && Fine(At(r, j)) && !Eop(At(r, j)) {
      StopFromMeans(r, j + 1);
    }
  }

  /** The number of slots one call consumes. */
  function Taken(r: Rx): nat
    requires ValidRx(r)
  {
    StopFrom(r, 0)
  }

  predicate Fault(r: Rx)
    requires ValidRx(r)
  {
    Taken(r) > 0 && !Fine(At(r, Taken(r) - 1))
  }

  /** The call ends with an end of packet. */
  predicate Ended(r: Rx)
    requires ValidRx(r)
  {
    Taken(r) > 0 && Fine(At(r, Taken(r) - 1)) && Eop(At(r, Taken(r) - 1))
  }

  /** The total length of the first n slots of the pass: pkt_length. */
  function Length(r: Rx, n: nat): nat
    requires ValidRx(r)
  {
    if n == 0 then 0 else Length(r, n - 1) + At(r, n - 1).length
  }

  /** The slots with n of them, from head on, cleared. */
  function Cleared(slots: seq<Slot>, head: nat, n: nat): (s: seq<Slot>)
    requires |slots| == 256 && head < 256
    ensures |s| == 256
  {
    seq(256, i requires 0 <= i < 256 => if Gap(head, i) < n then EMPTY else slots[i])
  }

  /** What the call does under the lock: clear the slots it takes and move the head past them. */
  function Take(r: Rx): (t: Rx)
    requires ValidRx(r)
    ensures ValidRx(t)
  {
    r.(slots := Cleared(r.slots, r.head, Taken(r)), head := Ix(r.head + Taken(r)))
  }

  /** A call that faults leaves overrun as it was; any other clears it, after the copy. */
  function Consume(r: Rx): (t: Rx)
    requires ValidRx(r)
    ensures ValidRx(t)
  {
    Take(r).(overrun := r.overrun && Fault(r))
  }

  // ----- positions -----

  /** The step of head and tail. */
  lemma IxNext(n: nat)
    ensures (Ix(n) + 1) % 256 == Ix(n + 1)
  {
  }

  lemma IxStep(n: nat)
    ensures Ix(Ix(n) + 1) == Ix(n + 1)
  {
  }

  lemma IxSum(head: nat, m: nat, n: nat)
    ensures Ix(Ix(head + m) + n) == Ix(head + m + n)
  {
  }

  lemma IxRound(n: nat)
    ensures Ix(n + 256) == Ix(n)
  {
  }

  /** Positions less than a round apart have different slots. */
  lemma IxApart(m: nat, n: nat)
    requires m < n < m + 256
    ensures Ix(m) != Ix(n)
  {
  }

  lemma IxWraps(n: nat)
    requires n < 512
    ensures Ix(n) == if n < 256 then n else n - 256
  {
  }

  /** Gap and Ix are inverse: distinct steps below 256 meet distinct slots, and together all of them. */
  lemma GapIx(head: nat, j: nat)
    requires head < 256 && j < 256
    ensures Gap(head, Ix(head + j)) == j
    ensures Ix(head + Gap(head, j)) == j
    ensures Gap(head, j) == (j - head) % 256
  {
    IxWraps(head + j);
    IxWraps(head + Gap(head, j));
  }

  /** Clearing n slots empties those of steps below n and leaves the others. */
  lemma ClearedAt(slots: seq<Slot>, head: nat, n: nat, j: nat)
    requires |slots| == 256 && head < 256 && j < 256
    ensures Cleared(slots, head, n)[Ix(head + j)] == if j < n then EMPTY else slots[Ix(head + j)]
  {
    GapIx(head, j);
  }

  /** The scan's loop after n iterations from r, where the ring is t. */
  ghost predicate Scanning(r: Rx, n: nat, t: Rx, eops: nat) {
    && ValidRx(r) && n <= 256 - Occupied(r) && eops == Eops(r, n)
    && t == r.(tail := Ix(r.tail + n), overrun := r.overrun || n == 256 - Occupied(r))
    && if r.overrun then n == 0 else ScanFrom(r, 0) == ScanFrom(r, n)
  }

  lemma ScanStarts(r: Rx)
    requires ValidRx(r)
    ensures Scanning(r, 0, r, 0)
  {
  }

  /** One iteration: the tail meets the head exactly where the ring is full. */
  lemma ScanStep(r: Rx, n: nat, t: Rx, eops: nat)
    requires Scanning(r, n, t, eops) && ValidRx(t) && !t.overrun && t.slots[t.tail].status != 0
    ensures n < 256 - Occupied(r)
    ensures var next := (t.tail + 1) % 256;
            Scanning(r, n + 1, t.(tail := next, overrun := next == t.head),
                     if t.slots[t.tail].status % 2 == 1 then eops + 1 else eops)
  {
    hide Ix;
    IxNext(r.tail + n);
    IxWraps(r.tail + n);
    IxWraps(r.tail + n + 1);
    assert Ahead(r, n) == r.slots[t.tail];
  }

  lemma ScanEnds(r: Rx, n: nat, t: Rx, eops: nat)
    requires Scanning(r, n, t, eops) && ValidRx(t) && (t.overrun || t.slots[t.tail].status == 0)
    ensures Scan(r) == t && eops == Eops(r, ScanLength(r))
  {
    hide Ix, Eops;
    assert Ahead(r, n) == r.slots[t.tail];
  }

  /** From any ring without overrun, the scan and the pages already scanned together stay within 256, and
      it leaves the tail on an empty slot unless they fill the ring. */
  lemma ScanStops(r: Rx)
    requires ValidRx(r) && !r.overrun
    ensures Occupied(r) + ScanLength(r) <= 256
    ensures Scan(r).overrun <==> Occupied(r) + ScanLength(r) == 256
    ensures Scan(r).overrun ==> Scan(r).tail == r.head
    ensures !Scan(r).overrun ==> Occupied(Scan(r)) == Occupied(r) + ScanLength(r)
    ensures !Scan(r).overrun ==> Scan(r).slots[Scan(r).tail].status == 0
  {
    hide Ix;
    ScanFromMeans(r, 0);
    IxWraps(r.tail + ScanLength(r));
  }

  /** The reader's loop after n iterations from r: the ring t and the loop's variables. */
  ghost predicate Reading(r: Rx, n: nat, t: Rx, fault: bool, eop: bool, pktLength: nat, credit: nat) {
    && ValidRx(r) && n <= 257 && t == r.(slots := Cleared(r.slots, r.head, n), head := Ix(r.head + n))
    && (fault || eop ==>
          n == Taken(r) > 0 && fault == Fault(r) && eop == Ended(r))
    && (!fault && !eop ==>
          n <= 256 && (r.overrun || n <= Occupied(r)) && Taken(r) == StopFrom(r, n)
          && (n > 0 ==> Fine(At(r, n - 1)) && !Eop(At(r, n - 1))))
    && (!fault ==> pktLength == Length(r, n) && credit == n)
  }

  /** What the locked part of a call leaves and returns. */
  ghost predicate Took(r: Rx, t: Rx, fault: bool, eop: bool, pktLength: nat, credit: nat) {
    && ValidRx(r) && t == Take(r) && fault == Fault(r) && eop == Ended(r)
    && (!fault ==> pktLength == Length(r, Taken(r)) && credit == Taken(r) && (pktLength > 0 <==> credit > 0))
  }

  lemma ReadingStarts(r: Rx)
    requires ValidRx(r)
    ensures Reading(r, 0, r, false, false, 0, 0)
  {
    assert Cleared(r.slots, r.head, 0) == r.slots;
  }

  /** The slot under the head is the next of the pass: an empty one after a full round. */
  lemma ReadingAt(r: Rx, n: nat)
    requires ValidRx(r) && n <= 256
    ensures Cleared(r.slots, r.head, n)[Ix(r.head + n)] == At(r, n)
    ensures Cleared(r.slots, r.head, n)[Ix(r.head + n) := EMPTY] == Cleared(r.slots, r.head, n + 1)
    ensures n <= Occupied(r) ==> (Ix(r.head + n) == r.tail <==> n == Occupied(r))
  {
    IxWraps(r.head + n);
  }

  /** What the next slot does to where the call stops. */
  lemma StopStep(r: Rx, n: nat)
    requires ValidRx(r) && n <= 256 && (r.overrun || n < Occupied(r))
    ensures if Fine(At(r, n)) && !Eop(At(r, n))
            then n < 256 && StopFrom(r, n) == StopFrom(r, n + 1) else StopFrom(r, n) == n + 1
  {
    hide Ix, Occupied;
  }

  /** Clearing the slot under the head and moving on is one more step of the pass. */
  lemma ReadingMoves(r: Rx, n: nat, t: Rx)
    requires ValidRx(r) && n <= 256 && t == r.(slots := Cleared(r.slots, r.head, n), head := Ix(r.head + n))
    requires r.overrun || n <= Occupied(r)
    ensures t.slots[t.head] == At(r, n)
    ensures t.(slots := t.slots[t.head := EMPTY], head := Ix(t.head + 1))
         == r.(slots := Cleared(r.slots, r.head, n + 1), head := Ix(r.head + (n + 1)))
    ensures t.head != t.tail || t.overrun ==> r.overrun || n < Occupied(r)
  {
    hide Ix, Cleared, Occupied;
    ReadingAt(r, n);
    IxStep(r.head + n);
  }

  /** One iteration: a result is accepted or faults the call; either way its slot is cleared. */
  lemma ReadingStep(r: Rx, n: nat, t: Rx, pktLength: nat, credit: nat,
                    fault: bool, eop: bool, length: nat, count: nat)
    requires Reading(r, n, t, false, false, pktLength, credit) && (t.head != t.tail || t.overrun)
    requires ValidRx(t)
    requires fault == !Fine(t.slots[t.head]) && eop == (Fine(t.slots[t.head]) && Eop(t.slots[t.head]))
    requires !fault ==> length == pktLength + t.slots[t.head].length && count == credit + 1
    ensures var next := t.(slots := t.slots[t.head := EMPTY], head := Ix(t.head + 1));
            n <= 256 && Reading(r, n + 1, next, fault, eop, length, count)
  {
    hide Ix, Cleared, Occupied, StopFrom, At, Fine, Eop;
    ReadingMoves(r, n, t);
    StopStep(r, n);
  }

  lemma ReadingEnds(r: Rx, n: nat, t: Rx, fault: bool, eop: bool, pktLength: nat, credit: nat)
    requires Reading(r, n, t, fault, eop, pktLength, credit)
    requires fault || eop || !(t.head != t.tail || t.overrun)
    ensures Took(r, t, fault, eop, pktLength, credit)
  {
    hide Ix, Cleared, Occupied;
    if !fault && !eop {
      ReadingAt(r, n);
    }
  }
}
