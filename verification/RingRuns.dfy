/**
  Runs of the ring without credits: the hardware writes results where it likes and as fast as it
  likes, the bottom half scans, the reader consumes. complete_cyclic is one step here.
 */
module RingRuns {
  import opened RingModel

  datatype Action = HwWrite(i: nat, slot: Slot) | ScanStep | ReadStep

  /** The ring, and how many results were scanned and not read yet, counted from outside. */
  datatype State = State(rx: Rx, unread: int)

  function Start(): State {
    State(Rx(seq(256, i => EMPTY), 0, 0, false), 0)
  }

  ghost predicate Possible(s: State, a: Action) {
    && ValidRx(s.rx)
    && match a
       case HwWrite(i, slot) => i < 256 && slot.status != 0
       case ScanStep => true
       case ReadStep => !(s.rx.overrun && Fault(s.rx))
  }

  function Next(s: State, a: Action): State
    requires ValidRx(s.rx) && (a.HwWrite? ==> a.i < 256)
  {
    match a
    case HwWrite(i, slot) => s.(rx := s.rx.(slots := s.rx.slots[i := slot]))
    case ScanStep => State(Scan(s.rx), s.unread + ScanLength(s.rx))
    case ReadStep => State(Consume(s.rx), s.unread - Taken(s.rx))
  }

  /** Overrun says that all 256 slots are scanned and unread; short of that, head and tail bracket them.
      Every one of them is a written slot. */
  ghost predicate Inv(s: State) {
    && ValidRx(s.rx) && 0 <= s.unread <= 256
    && s.rx.tail == Ix(s.rx.head + s.unread)
    && (s.rx.overrun <==> s.unread == 256)
    && (forall j {:trigger At(s.rx, j)} :: 0 <= j < s.unread ==> At(s.rx, j).status != 0)
  }

  lemma InvMeans(s: State)
    requires Inv(s)
    ensures s.rx.overrun ==> s.rx.head == s.rx.tail
    ensures !s.rx.overrun ==> Occupied(s.rx) == s.unread
  {
    IxWraps(s.rx.head + s.unread);
  }

  lemma HwWriteKeeps(s: State, i: nat, slot: Slot)
    requires Inv(s) && i < 256 && slot.status != 0
    ensures Inv(Next(s, HwWrite(i, slot)))
  {
    var t := Next(s, HwWrite(i, slot));
    forall j | 0 <= j < s.unread
      ensures At(t.rx, j).status != 0
    {
      assert At(s.rx, j).status != 0;
    }
  }

  lemma ScannedAt(s: State, j: nat)
    requires Inv(s) && !s.rx.overrun && j < s.unread + ScanLength(s.rx) && j < 256
    ensures At(s.rx, j).status != 0
  {
    hide Ix;
    if j >= s.unread {
      InvMeans(s);
      ScanFromMeans(s.rx, 0);
      assert Ahead(s.rx, j - s.unread).status != 0;
      IxSum(s.rx.head, s.unread, j - s.unread);
    }
  }

  lemma ScanKeeps(s: State)
    requires Inv(s)
    ensures Inv(Next(s, ScanStep))
  {
    hide Ix;
    InvMeans(s);
    if !s.rx.overrun {
      var r, n := s.rx, ScanLength(s.rx);
      ScanStops(r);
      var t := Next(s, ScanStep);
      forall j | 0 <= j < t.unread
        ensures At(t.rx, j).status != 0
      {
        ScannedAt(s, j);
      }
      IxSum(r.head, s.unread, n);
    } else {
      IxSum(s.rx.head, s.unread, 0);
    }
  }

  /** A read that does not fault while overrun is set. */
  lemma ReadKeeps(s: State)
    requires Inv(s) && !(s.rx.overrun && Fault(s.rx))
    ensures Inv(Next(s, ReadStep))
  {
    hide Ix, Cleared, StopFrom, Fault, Taken;
    var r, n, t := s.rx, Taken(s.rx), Next(s, ReadStep);
    InvMeans(s);
    TakenFits(s);
    forall j | 0 <= j < t.unread
      ensures At(t.rx, j).status != 0
    {
      assert At(r, n + j).status != 0;
      IxSum(r.head, n, j);
      ClearedAt(r.slots, r.head, n, n + j);
    }
    IxSum(r.head, n, s.unread - n);
  }

  lemma TakenFits(s: State)
    requires Inv(s) && !(s.rx.overrun && Fault(s.rx))
    ensures Taken(s.rx) <= s.unread && (s.rx.overrun ==> Taken(s.rx) > 0)
  {
    InvMeans(s);
  }

  /** A read that faults while overrun is set leaves overrun set with slots already free. */
  lemma OverrunFaultBreaks(s: State)
    requires Inv(s) && s.rx.overrun && Fault(s.rx)
    ensures !Inv(Next(s, ReadStep))
  {
  }

  /** Main result: reads keep the invariant exactly when they do not fault on an overrun ring. */
  lemma ReadKeepsIff(s: State)
    requires Inv(s)
    ensures Inv(Next(s, ReadStep)) <==> !(s.rx.overrun && Fault(s.rx))
  {
    if s.rx.overrun && Fault(s.rx) {
      OverrunFaultBreaks(s);
    } else {
      ReadKeeps(s);
    }
  }

  /** Which reads of an overrun ring fault: all but those that meet, before any bad result, an end of
      packet among the 256. In particular, a full ring of good results without one faults too. */
  lemma OverrunFaultIff(r: Rx)
    requires ValidRx(r) && r.overrun
    ensures Fault(r) <==>
              !exists j :: 0 <= j < 256 && Eop(At(r, j)) && forall i :: 0 <= i <= j ==> Fine(At(r, i))
  {
    var n := Taken(r);
    StopFromMeans(r, 0);
    if j :| 0 <= j < 256 && Eop(At(r, j)) && forall i :: 0 <= i <= j ==> Fine(At(r, i)) {
      assert Eop(At(r, j));
      assert j >= n - 1;
      assert Fine(At(r, n - 1));
    }
    if !Fault(r) {
      assert Eop(At(r, n - 1));
      forall i | 0 <= i <= n - 1
        ensures Fine(At(r, i))
      {
      }
    }
  }

  // ----- runs -----

  /** The states that the actions lead through. */
  ghost predicate IsRun(states: seq<State>, run: seq<Action>) {
    && |states| == |run| + 1 && states[0] == Start()
    && forall i :: 0 <= i < |run| ==> Possible(states[i], run[i]) && states[i + 1] == Next(states[i], run[i])
  }

  /** Main result, over all runs in which no read faults while overrun is set. */
  lemma {:induction false} RunsKeepInv(states: seq<State>, run: seq<Action>, n: nat)
    requires IsRun(states, run) && n <= |run|
    ensures Inv(states[n])
  {
    if n > 0 {
      RunsKeepInv(states, run, n - 1);
      StepKeeps(states[n - 1], run[n - 1]);
    }
  }

  lemma StepKeeps(s: State, a: Action)
    requires Inv(s) && Possible(s, a)
    ensures Inv(Next(s, a))
  {
    hide Inv, Next;
    match a
    case HwWrite(i, slot) => HwWriteKeeps(s, i, slot);
    case ScanStep => ScanKeeps(s);
    case ReadStep => ReadKeeps(s);
  }
}
