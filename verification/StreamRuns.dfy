/**
  Runs of the ring with a reader that copies while the hardware and the bottom half go on: it takes results
  under the lock, copies them page by page without it, and then ends its call. The hardware writes its next
  slot if that is free and no reader still has to copy its page; CreditRuns.dfy shows that credits make it so.
 */
module StreamRuns {
  import opened RingModel
  import opened Delivery
  import opened Words

  /** A call between its locked part and its end: n results from position from on, of which done pages are
      copied and left bytes are not. */
  datatype Reader = Reader(from: nat, n: nat, done: nat, left: nat)

  /** wr: the slot the hardware writes next. scanned: of the written, not yet taken results, those before the
      tail. data: what they hold. produced, delivered: the streams at either end. */
  datatype State = State(rx: Rx, pages: seq<Page>, wr: nat, reader: Option<Reader>, scanned: nat,
                         data: seq<seq<bv8>>, produced: seq<bv8>, delivered: seq<bv8>)

  datatype Action =
    | HwWrite(slot: Slot, bytes: seq<bv8>)
    | ScanStep
    | TakeStep
    | CopyStep
    | ReturnStep

  function Start(pages: seq<Page>): State
    requires |pages| == 256
  {
    State(Rx(seq(256, i => EMPTY), 0, 0, false), pages, 0, None, 0, [], [], [])
  }

  ghost predicate Shaped(s: State) {
    ValidRx(s.rx) && |s.pages| == 256 && s.wr < 256
  }

  /** The reader still has to copy the page of slot i: one of n - done from position from + done on. */
  predicate Needed(s: State, i: nat)
    requires i < 256
  {
    s.reader.Some? && var r := s.reader.value; Gap(Ix(r.from + r.done), i) < r.n - r.done
  }

  /** A result may misreport the length, but not leave the page. */
  ghost predicate Reports(slot: Slot, bytes: seq<bv8>) {
    slot.status != 0 && |bytes| == if slot.length <= 4096 then slot.length else 4096
  }

  /** A read does not fault while overrun is set: RingRuns.OverrunFaultIff says which would. */
  ghost predicate Possible(s: State, a: Action) {
    && Shaped(s)
    && match a
       case HwWrite(slot, bytes) => Reports(slot, bytes) && s.rx.slots[s.wr].status == 0 && !Needed(s, s.wr)
       case ScanStep => true
       case TakeStep => s.reader.None? && !(s.rx.overrun && Fault(s.rx))
       case CopyStep => s.reader.Some? && s.reader.value.left > 0
       case ReturnStep => s.reader.Some? && s.reader.value.left == 0
  }

  function WriteNext(s: State, slot: Slot, bytes: seq<bv8>): State
    requires Shaped(s) && |bytes| <= 4096
  {
    s.(rx := s.rx.(slots := s.rx.slots[s.wr := slot]), pages := s.pages[s.wr := bytes + s.pages[s.wr][|bytes|..]],
       wr := Ix(s.wr + 1), data := s.data + [bytes], produced := s.produced + bytes)
  }

  function ScanNext(s: State): State
    requires Shaped(s)
  {
    s.(rx := Scan(s.rx), scanned := s.scanned + ScanLength(s.rx))
  }

  /** The locked part of a call; one that faults returns at once. */
  function TakeNext(s: State): State
    requires Shaped(s)
  {
    var n := Taken(s.rx);
    s.(rx := Take(s.rx), scanned := if n <= s.scanned then s.scanned - n else 0,
       data := if n <= |s.data| then s.data[n..] else [],
       reader := if Fault(s.rx) then None else Some(Reader(s.rx.head, n, 0, Length(s.rx, n))))
  }

  function CopyNext(s: State): State
    requires Shaped(s) && s.reader.Some?
  {
    var r := s.reader.value;
    var m := if r.left < 4096 then r.left else 4096;
    s.(reader := Some(r.(done := r.done + 1, left := r.left - m)),
       delivered := s.delivered + PageAt(s.pages, r.from + r.done, 0)[..m])
  }

  /** The call ends by clearing overrun. If the ring has filled up meanwhile, head and tail meet and the whole
      ring is there for the next scan again. */
  function ReturnNext(s: State): State {
    s.(rx := s.rx.(overrun := false), reader := None, scanned := if s.scanned == 256 then 0 else s.scanned)
  }

  ghost function Next(s: State, a: Action): State
    requires Possible(s, a)
  {
    match a
    case HwWrite(slot, bytes) => WriteNext(s, slot, bytes)
    case ScanStep => ScanNext(s)
    case TakeStep => TakeNext(s)
    case CopyStep => CopyNext(s)
    case ReturnStep => ReturnNext(s)
  }

  // ----- head, tail and the hardware's slot -----

  /** The written slots are exactly those from the head to the hardware's, the scanned ones among them exactly
      those before the tail; overrun says that all 256 are scanned, unless a reader has taken some since. */
  ghost predicate Inv(s: State) {
    && Shaped(s)
    && s.wr == Ix(s.rx.head + |s.data|)
    && s.scanned <= |s.data| <= 256 && s.rx.tail == Ix(s.rx.head + s.scanned)
    && (!s.rx.overrun ==> s.scanned < 256)
    && (s.rx.overrun && s.reader.None? ==> s.scanned == 256)
    && (forall j {:trigger At(s.rx, j)} :: 0 <= j < 256 ==> (At(s.rx, j).status != 0 <==> j < |s.data|))
    && (s.reader.Some? ==> Ix(s.reader.value.from + s.reader.value.n) == s.rx.head)
  }

  lemma InvMeans(s: State)
    requires Inv(s)
    ensures !s.rx.overrun ==> Occupied(s.rx) == s.scanned
    ensures s.rx.slots[s.wr].status == 0 <==> |s.data| < 256
  {
    IxWraps(s.rx.head + s.scanned);
    IxWraps(s.rx.head + |s.data|);
    if |s.data| < 256 {
      assert At(s.rx, |s.data|).status == 0;
    } else {
      assert At(s.rx, 0).status != 0;
    }
  }

  lemma InvBounds(s: State)
    requires Inv(s)
    ensures Shaped(s) && s.scanned <= |s.data| <= 256
  {
  }

  lemma AheadIs(s: State, i: nat)
    requires Inv(s) && s.scanned + i < 256
    ensures Ahead(s.rx, i) == At(s.rx, s.scanned + i)
    ensures Ahead(s.rx, i).status != 0 <==> s.scanned + i < |s.data|
  {
    hide Ix;
    IxSum(s.rx.head, s.scanned, i);
  }

  /** The scan passes exactly the written slots it has not seen, never more. */
  lemma ScanMeets(s: State)
    requires Inv(s) && !s.rx.overrun
    ensures ScanLength(s.rx) == |s.data| - s.scanned
    ensures Scan(s.rx) == s.rx.(tail := s.wr, overrun := |s.data| == 256)
  {
    hide Ix, Inv, ScanFrom, Ahead, At, Occupied;
    InvMeans(s);
    InvBounds(s);
    ScanFromMeans(s.rx, 0);
    var n, rest := ScanLength(s.rx), |s.data| - s.scanned;
    if n < rest {
      AheadIs(s, n);
    } else if n > rest {
      AheadIs(s, rest);
    }
    TailMeets(s);
  }

  lemma TailMeets(s: State)
    requires Inv(s)
    ensures Ix(s.rx.tail + (|s.data| - s.scanned)) == s.wr
  {
    hide Ix;
    IxSum(s.rx.head, s.scanned, |s.data| - s.scanned);
  }

  lemma ScanKeeps(s: State)
    requires Inv(s)
    ensures Inv(ScanNext(s))
  {
    hide Ix, ScanLength, Scan;
    if s.rx.overrun {
      ScanIdles(s);
    } else {
      ScanMeets(s);
      SameWritten(s, ScanNext(s));
    }
  }

  lemma ScanIdles(s: State)
    requires Inv(s) && s.rx.overrun
    ensures ScanNext(s) == s
  {
  }

  lemma SameWritten(s: State, t: State)
    requires Inv(s) && ValidRx(t.rx) && t.rx.slots == s.rx.slots && t.rx.head == s.rx.head && |t.data| == |s.data|
    ensures forall j {:trigger At(t.rx, j)} :: 0 <= j < 256 ==> (At(t.rx, j).status != 0 <==> j < |t.data|)
  {
    forall j | 0 <= j < 256
      ensures At(t.rx, j).status != 0 <==> j < |t.data|
    {
      assert At(s.rx, j).status != 0 <==> j < |s.data|;
    }
  }

  lemma HwWriteKeeps(s: State, slot: Slot, bytes: seq<bv8>)
    requires Inv(s) && Reports(slot, bytes) && s.rx.slots[s.wr].status == 0
    ensures Inv(WriteNext(s, slot, bytes))
  {
    hide Ix;
    InvMeans(s);
    var t := WriteNext(s, slot, bytes);
    IxSum(s.rx.head, |s.data|, 1);
    forall j | 0 <= j < 256
      ensures At(t.rx, j).status != 0 <==> j < |t.data|
    {
      GapIx(s.rx.head, j);
      GapIx(s.rx.head, |s.data|);
      assert At(s.rx, j).status != 0 <==> j < |s.data|;
    }
  }

  /** A read that does not fault on an overrun ring takes scanned results only. */
  lemma TakenFits(s: State)
    requires Inv(s) && s.reader.None? && !(s.rx.overrun && Fault(s.rx))
    ensures Taken(s.rx) <= s.scanned && (s.rx.overrun ==> Taken(s.rx) > 0)
  {
    InvMeans(s);
  }

  lemma TakeKeeps(s: State)
    requires Inv(s) && s.reader.None? && !(s.rx.overrun && Fault(s.rx))
    ensures Inv(TakeNext(s))
  {
    hide Ix, Cleared, StopFrom, Fault, Length;
    var r, n, t := s.rx, Taken(s.rx), TakeNext(s);
    TakenFits(s);
    forall j | 0 <= j < 256
      ensures At(t.rx, j).status != 0 <==> j < |t.data|
    {
      TakenAt(s, j);
    }
    IxSum(r.head, n, s.scanned - n);
    IxSum(r.head, n, |s.data| - n);
  }

  lemma TakenAt(s: State, j: nat)
    requires Inv(s) && s.reader.None? && !(s.rx.overrun && Fault(s.rx)) && j < 256
    ensures At(Take(s.rx), j).status != 0 <==> Taken(s.rx) + j < |s.data|
  {
    hide Ix, Cleared, StopFrom, Fault;
    var r, n := s.rx, Taken(s.rx);
    TakenFits(s);
    IxSum(r.head, n, j);
    if n + j < 256 {
      ClearedAt(r.slots, r.head, n, n + j);
      assert At(r, n + j).status != 0 <==> n + j < |s.data|;
    } else {
      ClearedAt(r.slots, r.head, n, n + j - 256);
      IxRound(r.head + (n + j - 256));
    }
  }

  lemma CopyKeeps(s: State)
    requires Inv(s) && s.reader.Some? && s.reader.value.left > 0
    ensures Inv(CopyNext(s))
  {
    hide Ix;
  }

  lemma ReturnKeeps(s: State)
    requires Inv(s) && s.reader.Some?
    ensures Inv(ReturnNext(s))
  {
    hide Ix;
    IxRound(s.rx.head);
    SameWritten(s, ReturnNext(s));
  }

  lemma StepKeeps(s: State, a: Action)
    requires Inv(s) && Possible(s, a)
    ensures Inv(Next(s, a))
  {
    hide Inv, WriteNext, ScanNext, TakeNext, ReturnNext, Needed;
    match a {
      case HwWrite(slot, bytes) => HwWriteKeeps(s, slot, bytes);
      case ScanStep => ScanKeeps(s);
      case TakeStep => TakeKeeps(s);
      case CopyStep => CopyKeeps(s);
      case ReturnStep => ReturnKeeps(s);
    }
  }

  // ----- stream reassembly -----

  /** Well-formed hardware: results the reader accepts, and only an end of packet leaves a page partly
      filled. */
  ghost predicate Good(slot: Slot) {
    && 0x52B4_0000 <= slot.status <= 0x52B4_FFFF && 1 <= slot.length <= 4096
    && (slot.status % 2 == 1 || slot.length == 4096)
  }

  ghost predicate WellFormed(a: Action) {
    a.HwWrite? ==> Good(a.slot)
  }

  /** The bytes of the call in progress that are not copied yet. */
  function Pending(s: State): seq<bv8>
    requires |s.pages| == 256
  {
    match s.reader
    case None => []
    case Some(r) => Delivered(s.pages, r.from + r.done, r.left)
  }

  ghost predicate ReaderOk(s: State) {
    s.reader.Some? ==>
      var r := s.reader.value; r.done <= r.n && r.left <= 4096 * (r.n - r.done)
  }

  /** A written result: its data lies at the start of its page, and only an end of packet is short. */
  ghost predicate Entry(slot: Slot, bytes: seq<bv8>, page: Page) {
    && 0x52B4_0000 <= slot.status <= 0x52B4_FFFF && 1 <= slot.length <= 4096
    && |bytes| == slot.length && (slot.status % 2 == 1 || |bytes| == 4096)
    && page[..|bytes|] == bytes
  }

  ghost predicate Entries(slots: seq<Slot>, head: nat, pages: seq<Page>, data: seq<seq<bv8>>)
    requires |slots| == |pages| == 256
  {
    forall j {:trigger data[j]} :: 0 <= j < |data| ==>
      Entry(slots[Ix(head + j)], data[j], PageAt(pages, head, j))
  }

  /** What is delivered, being copied and still in the ring is what was produced, in order. */
  ghost predicate Stream(s: State) {
    && Shaped(s) && ReaderOk(s)
    && Entries(s.rx.slots, s.rx.head, s.pages, s.data)
    && s.produced == s.delivered + Pending(s) + Flat(s.data, |s.data|)
  }

  lemma HwWriteStreams(s: State, slot: Slot, bytes: seq<bv8>)
    requires Inv(s) && Stream(s) && Possible(s, HwWrite(slot, bytes)) && Good(slot)
    ensures Stream(WriteNext(s, slot, bytes))
  {
    hide Inv, Ix, Entries, Flat, Pending, Needed;
    HwWriteKeepsData(s, slot, bytes);
    HwWriteKeepsPending(s, slot, bytes);
    FlatSnoc(s.data, bytes, |s.data|);
    Regroup(s.delivered, Pending(s), Flat(s.data, |s.data|), bytes);
  }

  lemma HwWriteKeepsPending(s: State, slot: Slot, bytes: seq<bv8>)
    requires Shaped(s) && ReaderOk(s) && Possible(s, HwWrite(slot, bytes))
    ensures Pending(WriteNext(s, slot, bytes)) == Pending(s)
  {
    hide Ix, Delivered, Gap;
    if s.reader.Some? {
      var r, t := s.reader.value, WriteNext(s, slot, bytes);
      var p := r.from + r.done;
      forall j {:trigger PageAt(s.pages, p, j)} | 0 <= j < r.n - r.done
        ensures PageAt(s.pages, p, j) == PageAt(t.pages, p, j)
      {
        IxSum(0, p, j);
        GapIx(Ix(p), j);
      }
      DeliveredSame(s.pages, t.pages, p, r.left, r.n - r.done);
    }
  }

  lemma HwWriteKeepsData(s: State, slot: Slot, bytes: seq<bv8>)
    requires Inv(s) && Stream(s) && Possible(s, HwWrite(slot, bytes)) && Good(slot)
    ensures var t := WriteNext(s, slot, bytes); Entries(t.rx.slots, t.rx.head, t.pages, t.data)
  {
    hide Ix, Entry, Inv, Needed, Good, WriteNext, Pending, Flat, PageAt;
    var t := WriteNext(s, slot, bytes);
    EntryWritten(s, slot, bytes);
    forall j {:trigger t.data[j]} | 0 <= j < |t.data|
      ensures Entry(t.rx.slots[Ix(t.rx.head + j)], t.data[j], PageAt(t.pages, t.rx.head, j))
    {
      if j < |s.data| {
        EntryAt(s, j);
        EntryKept(s, slot, bytes, j);
      }
    }
  }

  lemma EntryKept(s: State, slot: Slot, bytes: seq<bv8>, j: nat)
    requires Inv(s) && s.rx.slots[s.wr].status == 0 && |bytes| <= 4096 && j < |s.data|
    requires j < 256 && Entry(At(s.rx, j), s.data[j], PageAt(s.pages, s.rx.head, j))
    ensures var t := WriteNext(s, slot, bytes);
            Entry(t.rx.slots[Ix(t.rx.head + j)], t.data[j], PageAt(t.pages, t.rx.head, j))
  {
    hide Ix, Entry;
    WriterApart(s, j);
    assert WriteNext(s, slot, bytes).data[j] == s.data[j];
  }

  lemma EntryWritten(s: State, slot: Slot, bytes: seq<bv8>)
    requires Inv(s) && Good(slot) && Reports(slot, bytes)
    ensures var t, j := WriteNext(s, slot, bytes), |s.data|;
      && ValidRx(t.rx) && |t.data| == j + 1 && |t.pages| == 256
      && Entry(t.rx.slots[Ix(t.rx.head + j)], t.data[j], PageAt(t.pages, t.rx.head, j))
  {
    hide Ix, Entry;
    WriterNext(s);
    NewEntry(slot, bytes, s.pages[s.wr]);
  }

  /** The hardware's slot is the first behind the written results, and none of them. */
  lemma WriterNext(s: State)
    requires Inv(s)
    ensures s.wr == Ix(s.rx.head + |s.data|)
  {
  }

  /** Seen from a reader, it lies behind the pages of the call and the written results. */
  lemma WriterBeyondReader(s: State)
    requires Inv(s) && s.reader.Some?
    ensures var r := s.reader.value; s.wr == Ix(r.from + r.n + |s.data|)
  {
    IxSum(s.reader.value.from, s.reader.value.n, |s.data|);
  }

  lemma WriterApart(s: State, j: nat)
    requires Inv(s) && s.rx.slots[s.wr].status == 0 && j < |s.data|
    ensures Ix(s.rx.head + j) != s.wr
  {
    hide Ix;
    InvMeans(s);
    IxApart(s.rx.head + j, s.rx.head + |s.data|);
  }

  lemma NewEntry(slot: Slot, bytes: seq<bv8>, page: Page)
    requires Good(slot) && Reports(slot, bytes)
    ensures Entry(slot, bytes, bytes + page[|bytes|..])
  {
  }

  lemma EntryAt(s: State, j: nat)
    requires Inv(s) && Stream(s) && j < |s.data|
    ensures j < 256 && Entry(At(s.rx, j), s.data[j], PageAt(s.pages, s.rx.head, j))
  {
    hide Ix, Entry;
    assert Entry(s.rx.slots[Ix(s.rx.head + j)], s.data[j], PageAt(s.pages, s.rx.head, j));
  }

  /** Well-formed results never fault a call of a ring that is not overrun. */
  lemma NoFault(s: State)
    requires Inv(s) && Stream(s) && !s.rx.overrun
    ensures !Fault(s.rx)
  {
    hide Ix, StopFrom, Stream;
    InvMeans(s);
    var n := Taken(s.rx);
    if n > 0 {
      EntryAt(s, n - 1);
    }
  }

  lemma {:induction false} LengthIsFlat(s: State, n: nat)
    requires Inv(s) && Stream(s) && n <= |s.data|
    ensures Length(s.rx, n) == |Flat(s.data, n)|
  {
    if n > 0 {
      LengthIsFlat(s, n - 1);
      EntryAt(s, n - 1);
    }
  }

  /** Every result of a call but the last is good and ends no packet; the last one is bad or ends a packet, unless
      there are no more. */
  lemma CallStopsAtEop(r: Rx, j: nat)
    requires ValidRx(r) && j < Taken(r)
    ensures var s := At(r, j);
            if j + 1 < Taken(r) then
              0x52B4_0000 <= s.status <= 0x52B4_FFFF && 1 <= s.length <= 4096 && s.status % 2 == 0
            else
              || !(0x52B4_0000 <= s.status <= 0x52B4_FFFF && 1 <= s.length <= 4096) || s.status % 2 == 1
              || (!r.overrun && Taken(r) == Occupied(r))
  {
    StopFromMeans(r, 0);
  }

  /** The results of one call, delivered page by page, are its data. */
  lemma TakeDelivers(s: State)
    requires Inv(s) && Stream(s) && Possible(s, TakeStep)
    ensures Taken(s.rx) <= |s.data|
    ensures var n := Taken(s.rx);
            Delivered(s.pages, s.rx.head, Length(s.rx, n)) == Flat(s.data, n) && Length(s.rx, n) <= 4096 * n
  {
    hide Ix, StopFrom, Taken, Length, Inv, PageAt, Delivered, Fault;
    TakenFits(s);
    var n := Taken(s.rx);
    InvBounds(s);
    LengthIsFlat(s, n);
    forall j | 0 <= j < n
      ensures |s.data[j]| <= 4096 && PageAt(s.pages, s.rx.head, j)[..|s.data[j]|] == s.data[j]
      ensures j < n - 1 ==> |s.data[j]| == 4096
    {
      EntryAt(s, j);
      if j < n - 1 {
        CallStopsAtEop(s.rx, j);
      }
    }
    FullDelivers(s.data, s.pages, s.rx.head, n);
  }

  lemma TakeStreams(s: State)
    requires Inv(s) && Stream(s) && Possible(s, TakeStep)
    ensures Stream(TakeNext(s))
  {
    hide Ix, Inv, Entries, Fault, Taken, Length, Cleared, Flat, Delivered;
    if !s.rx.overrun {
      NoFault(s);
    }
    TakeDelivers(s);
    TakeKeepsData(s);
    FlatSplit(s.data, Taken(s.rx), |s.data|);
    var n, t := Taken(s.rx), TakeNext(s);
    assert Pending(t) == Flat(s.data, n);
    Regroup(s.delivered, [], Flat(s.data, n), Flat(t.data, |t.data|));
  }

  lemma Regroup(a: seq<bv8>, b: seq<bv8>, c: seq<bv8>, d: seq<bv8>)
    ensures a + (b + c) + d == a + b + c + d
    ensures a + b + (c + d) == a + b + c + d
    ensures a + [] + (c + d) == a + c + d
  {
  }

  lemma TakeKeepsData(s: State)
    requires Inv(s) && Stream(s) && Possible(s, TakeStep)
    ensures var t := TakeNext(s); Entries(t.rx.slots, t.rx.head, t.pages, t.data)
  {
    hide Ix, Inv, Taken, Fault, Length, Cleared, Entry;
    TakenFits(s);
    var n, t := Taken(s.rx), TakeNext(s);
    InvBounds(s);
    forall j {:trigger t.data[j]} | 0 <= j < |t.data|
      ensures Entry(t.rx.slots[Ix(t.rx.head + j)], t.data[j], PageAt(t.pages, t.rx.head, j))
    {
      IxSum(s.rx.head, n, j);
      ClearedAt(s.rx.slots, s.rx.head, n, n + j);
      EntryAt(s, n + j);
    }
  }

  lemma CopyStreams(s: State)
    requires Stream(s) && s.reader.Some? && s.reader.value.left > 0
    ensures Stream(CopyNext(s))
  {
    hide Ix, Entries, Flat, Delivered, PageAt;
    var r := s.reader.value;
    var m := if r.left < 4096 then r.left else 4096;
    DeliveredFront(s.pages, r.from + r.done, r.left);
    Regroup(s.delivered, PageAt(s.pages, r.from + r.done, 0)[..m], Pending(CopyNext(s)), Flat(s.data, |s.data|));
  }

  lemma ScanStreams(s: State)
    requires Stream(s)
    ensures Stream(ScanNext(s))
  {
    hide Ix, Entries, Flat, Delivered, ScanLength;
    assert Pending(ScanNext(s)) == Pending(s);
  }

  lemma ReturnStreams(s: State)
    requires Stream(s) && s.reader.Some? && s.reader.value.left == 0
    ensures Stream(ReturnNext(s))
  {
    hide Ix, Entries, Flat;
    assert Pending(s) == [] && Pending(ReturnNext(s)) == [];
  }

  lemma StepStreams(s: State, a: Action)
    requires Inv(s) && Stream(s) && Possible(s, a) && WellFormed(a)
    ensures Stream(Next(s, a))
  {
    hide Inv, Stream, WriteNext, ScanNext, TakeNext, CopyNext, ReturnNext, Good, Needed, Fault;
    match a {
      case HwWrite(slot, bytes) => HwWriteStreams(s, slot, bytes);
      case ScanStep => ScanStreams(s);
      case TakeStep => TakeStreams(s);
      case CopyStep => CopyStreams(s);
      case ReturnStep => ReturnStreams(s);
    }
  }

  // ----- runs -----

  /** The states that the actions lead through, from a ring with any pages. */
  ghost predicate IsRun(states: seq<State>, run: seq<Action>) {
    && |states| == |run| + 1
    && |states[0].pages| == 256 && states[0] == Start(states[0].pages)
    && forall i :: 0 <= i < |run| ==> Possible(states[i], run[i]) && states[i + 1] == Next(states[i], run[i])
  }

  lemma StartInv(s: State)
    requires |s.pages| == 256 && s == Start(s.pages)
    ensures Inv(s) && Stream(s)
  {
  }

  lemma {:induction false} RunsKeepInv(states: seq<State>, run: seq<Action>, n: nat)
    requires IsRun(states, run) && n <= |run|
    ensures Inv(states[n])
  {
    hide Inv, Stream, Possible, Next;
    if n > 0 {
      RunsKeepInv(states, run, n - 1);
      StepKeeps(states[n - 1], run[n - 1]);
    } else {
      StartInv(states[0]);
    }
  }

  lemma {:induction false} RunsStream(states: seq<State>, run: seq<Action>, n: nat)
    requires IsRun(states, run) && n <= |run| && forall i :: 0 <= i < |run| ==> WellFormed(run[i])
    ensures Stream(states[n])
  {
    hide Inv, Stream, WellFormed, Possible, Next;
    if n > 0 {
      RunsStream(states, run, n - 1);
      RunsKeepInv(states, run, n - 1);
      StepStreams(states[n - 1], run[n - 1]);
    } else {
      StartInv(states[0]);
    }
  }

  /** Main result: with well-formed results, what the reader was given is a prefix of what the hardware
      produced, however reads, scans and writes interleave; once everything is read, it is all of it. */
  lemma StreamReassembled(states: seq<State>, run: seq<Action>, n: nat)
    requires IsRun(states, run) && n <= |run| && forall i :: 0 <= i < |run| ==> WellFormed(run[i])
    ensures var s := states[n];
      && s.delivered <= s.produced
      && (s.data == [] && (s.reader.None? || s.reader.value.left == 0) ==> s.delivered == s.produced)
  {
    RunsStream(states, run, n);
  }
}
