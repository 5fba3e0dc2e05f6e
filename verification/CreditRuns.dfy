/**
  Runs of the ring with credits: the hardware writes a result only against a credit, and the reader returns
  the credits of a call when it has copied its pages. Conservation of credits makes these runs runs of
  StreamRuns.dfy.
 */
module CreditRuns {
  import opened RingModel
  import opened Delivery
  import opened Words
  import StreamRuns

  type Ring = StreamRuns.State
  type Action = StreamRuns.Action

  /** grant: the credits written at the start. lost: the results of faulting calls. */
  datatype State = State(ring: Ring, grant: nat, credits: nat, lost: nat)

  /** The credits that cyclic_transfer_setup writes. */
  const INITIAL_CREDITS := 128

  /** What cyclic_transfer_setup leaves if it writes grant credits. */
  function Start(pages: seq<Page>, grant: nat): State
    requires |pages| == 256
  {
    State(StreamRuns.Start(pages), grant, grant, 0)
  }

  /** The hardware needs a credit, and nothing else, to write. */
  ghost predicate Possible(s: State, a: Action) {
    && StreamRuns.Shaped(s.ring)
    && match a
       case HwWrite(slot, bytes) => s.credits > 0 && StreamRuns.Reports(slot, bytes)
       case ScanStep => true
       case TakeStep => s.ring.reader.None?
       case CopyStep => s.ring.reader.Some? && s.ring.reader.value.left > 0
       case ReturnStep => s.ring.reader.Some? && s.ring.reader.value.left == 0
  }

  function WriteNext(s: State, slot: Slot, bytes: seq<bv8>): State
    requires StreamRuns.Shaped(s.ring) && s.credits > 0 && |bytes| <= 4096
  {
    s.(ring := StreamRuns.WriteNext(s.ring, slot, bytes), credits := s.credits - 1)
  }

  /** A call that faults returns at once, and its results' credits are gone. */
  function TakeNext(s: State): State
    requires StreamRuns.Shaped(s.ring)
  {
    s.(ring := StreamRuns.TakeNext(s.ring), lost := s.lost + if Fault(s.ring.rx) then Taken(s.ring.rx) else 0)
  }

  function ReturnNext(s: State): State
    requires s.ring.reader.Some?
  {
    s.(ring := StreamRuns.ReturnNext(s.ring), credits := s.credits + s.ring.reader.value.n)
  }

  ghost function Next(s: State, a: Action): State
    requires Possible(s, a)
  {
    match a
    case HwWrite(slot, bytes) => WriteNext(s, slot, bytes)
    case ScanStep => s.(ring := StreamRuns.ScanNext(s.ring))
    case TakeStep => TakeNext(s)
    case CopyStep => s.(ring := StreamRuns.CopyNext(s.ring))
    case ReturnStep => ReturnNext(s)
  }

  // ----- credit conservation -----

  function InFlight(s: State): nat {
    if s.ring.reader.Some? then s.ring.reader.value.n else 0
  }

  /** Credits the hardware holds, results written and not taken, results being copied, and results lost to
      faults are together what was granted, which is less than the number of slots. */
  ghost predicate Inv(s: State) {
    && StreamRuns.Inv(s.ring) && !s.ring.rx.overrun
    && s.credits + |s.ring.data| + InFlight(s) + s.lost == s.grant < 256
  }

  /** A credit is a free slot, whose page no reader still has to copy. */
  lemma CreditIsFree(s: State)
    requires Inv(s) && s.credits > 0
    ensures s.ring.rx.slots[s.ring.wr].status == 0 && !StreamRuns.Needed(s.ring, s.ring.wr)
  {
    hide Ix, Gap, StreamRuns.Inv;
    var t := s.ring;
    StreamRuns.InvMeans(t);
    if t.reader.Some? && t.reader.value.done < t.reader.value.n {
      var r := t.reader.value;
      StreamRuns.WriterBeyondReader(t);
      var p, ahead := r.from + r.done, r.n - r.done + |t.data|;
      IxSum(0, p, ahead);
      GapIx(Ix(p), ahead);
    }
  }

  /** With credits, every step is one of a hardware that knows the free slots, and conserves credits. */
  lemma StepRefines(s: State, a: Action)
    requires Inv(s) && Possible(s, a)
    ensures StreamRuns.Possible(s.ring, a) && Next(s, a).ring == StreamRuns.Next(s.ring, a)
  {
    hide StreamRuns.Inv, StreamRuns.WriteNext, StreamRuns.ScanNext, StreamRuns.TakeNext, StreamRuns.CopyNext,
      StreamRuns.ReturnNext, StreamRuns.Needed, Fault;
    if a.HwWrite? {
      CreditIsFree(s);
    }
  }

  lemma StepKeeps(s: State, a: Action)
    requires Inv(s) && Possible(s, a)
    ensures Inv(Next(s, a))
  {
    hide StreamRuns.Inv, StreamRuns.Possible, StreamRuns.Next, Next, InFlight;
    StepRefines(s, a);
    StreamRuns.StepKeeps(s.ring, a);
    StepConserves(s, a);
  }

  lemma StepConserves(s: State, a: Action)
    requires Inv(s) && Possible(s, a) && StreamRuns.Inv(Next(s, a).ring)
    ensures Inv(Next(s, a))
  {
    hide Ix, Cleared, StopFrom, Length, Scan, Fault, StreamRuns.Inv;
    StreamRuns.InvBounds(s.ring);
    match a
    case ScanStep => StreamRuns.ScanMeets(s.ring);
    case TakeStep => StreamRuns.TakenFits(s.ring);
    case _ =>
  }

  // ----- runs -----

  /** The states that the actions lead through, from a ring with any pages. */
  ghost predicate IsRun(states: seq<State>, run: seq<Action>, grant: nat) {
    && |states| == |run| + 1
    && |states[0].ring.pages| == 256 && states[0] == Start(states[0].ring.pages, grant)
    && forall i :: 0 <= i < |run| ==> Possible(states[i], run[i]) && states[i + 1] == Next(states[i], run[i])
  }

  lemma StartInv(pages: seq<Page>, grant: nat)
    requires |pages| == 256 && grant < 256
    ensures Inv(Start(pages, grant))
  {
  }

  lemma GrantKept(s: State, a: Action)
    requires Possible(s, a)
    ensures Next(s, a).grant == s.grant
  {
  }

  lemma {:induction false} RunsKeepInv(states: seq<State>, run: seq<Action>, grant: nat, n: nat)
    requires IsRun(states, run, grant) && grant < 256 && n <= |run|
    ensures Inv(states[n]) && states[n].grant == grant
  {
    hide Inv, Possible, Next;
    if n > 0 {
      RunsKeepInv(states, run, grant, n - 1);
      StepKeeps(states[n - 1], run[n - 1]);
      GrantKept(states[n - 1], run[n - 1]);
    } else {
      StartInv(states[0].ring.pages, grant);
    }
  }

  /** Main result, for any results the hardware may write, malformed ones and faulting reads included:
      credits are conserved, the hardware's next slot is clear, the tail never catches the head and overrun
      is never set. */
  lemma CreditsConserved(states: seq<State>, run: seq<Action>, n: nat)
    requires IsRun(states, run, INITIAL_CREDITS) && n <= |run|
    ensures var s := states[n]; var t := s.ring;
      && StreamRuns.Shaped(t)
      && s.credits + |t.data| + InFlight(s) + s.lost == 128
      && t.rx.slots[t.wr].status == 0
      && !t.rx.overrun && Occupied(t.rx) == t.scanned <= |t.data|
      && Scan(t.rx) == t.rx.(tail := t.wr)
  {
    RunsKeepInv(states, run, INITIAL_CREDITS, n);
    StreamRuns.InvMeans(states[n].ring);
    StreamRuns.ScanMeets(states[n].ring);
  }

  function Rings(states: seq<State>): (rings: seq<Ring>)
    ensures |rings| == |states|
  {
    seq(|states|, i requires 0 <= i < |states| => states[i].ring)
  }

  /** Main result: a run with fewer credits than slots is one of a hardware that knows the free slots, and none
      of its reads faults on an overrun ring. */
  lemma RunsRefine(states: seq<State>, run: seq<Action>, grant: nat)
    requires IsRun(states, run, grant) && grant < 256
    ensures StreamRuns.IsRun(Rings(states), run)
  {
    hide Inv, Possible, Next, StreamRuns.Possible, StreamRuns.Next, StreamRuns.Start;
    var rings := Rings(states);
    forall i | 0 <= i < |run|
      ensures StreamRuns.Possible(rings[i], run[i]) && rings[i + 1] == StreamRuns.Next(rings[i], run[i])
    {
      RunsKeepInv(states, run, grant, i);
      StepRefines(states[i], run[i]);
    }
  }

  /** So with well-formed results the stream comes through whole. */
  lemma StreamReassembled(states: seq<State>, run: seq<Action>, n: nat)
    requires IsRun(states, run, INITIAL_CREDITS) && n <= |run|
    requires forall i :: 0 <= i < |run| ==> StreamRuns.WellFormed(run[i])
    ensures var s := states[n].ring;
      && s.delivered <= s.produced
      && (s.data == [] && (s.reader.None? || s.reader.value.left == 0) ==> s.delivered == s.produced)
  {
    hide Possible, Next, StreamRuns.WellFormed, StreamRuns.IsRun;
    RunsRefine(states, run, INITIAL_CREDITS);
    StreamRuns.StreamReassembled(Rings(states), run, n);
  }

  // ----- how many credits are safe -----

  /** Results that fill the ring: whole pages, no end of packet. */
  const FULL_RESULT := Slot(0x52B4_0000, 4096)

  function Zeros(): Page {
    seq(4096, i => 0)
  }

  /** The state after n results without a scan. */
  ghost function Flood(pages: seq<Page>, grant: nat, n: nat): (s: State)
    requires |pages| == 256 && n <= grant
    ensures StreamRuns.Shaped(s.ring) && s.credits == grant - n && s.ring.reader == None
    ensures s.ring.rx.head == 0 && s.ring.rx.tail == 0 && !s.ring.rx.overrun && s.ring.wr == Ix(n)
  {
    if n == 0 then Start(pages, grant)
    else
      IxStep(n - 1);
      WriteNext(Flood(pages, grant, n - 1), FULL_RESULT, Zeros())
  }

  lemma {:induction false} FloodFills(pages: seq<Page>, grant: nat, n: nat)
    requires |pages| == 256 && n <= grant && n <= 256
    ensures forall i :: 0 <= i < n ==> Flood(pages, grant, n).ring.rx.slots[i] == FULL_RESULT
  {
    if n > 0 {
      FloodFills(pages, grant, n - 1);
      IxWraps(n - 1);
    }
  }

  /** With as many credits as slots, a flood of results makes the scan run into its own head. */
  lemma FloodOverruns(pages: seq<Page>, grant: nat)
    requires |pages| == 256 && grant >= 256
    ensures StreamRuns.ScanNext(Flood(pages, grant, 256).ring).rx.overrun
  {
    hide Ix;
    var s := Flood(pages, grant, 256).ring;
    FloodFills(pages, grant, 256);
    ScanFromMeans(s.rx, 0);
    assert Ahead(s.rx, ScanLength(s.rx)).status != 0;
  }

  /** Main result: overrun is never set, in any run, exactly if fewer credits are granted than there are
      slots; the driver grants 128. */
  lemma GrantIff(grant: nat)
    ensures grant < 256 <==>
      forall states: seq<State>, run: seq<Action> {:trigger IsRun(states, run, grant)} ::
        IsRun(states, run, grant) ==> !states[|run|].ring.rx.overrun
  {
    if grant < 256 {
      forall states: seq<State>, run: seq<Action> {:trigger IsRun(states, run, grant)} | IsRun(states, run, grant)
        ensures !states[|run|].ring.rx.overrun
      {
        RunsKeepInv(states, run, grant, |run|);
      }
    } else {
      var states, run := FloodRun(grant);
    }
  }

  lemma FloodRun(grant: nat) returns (states: seq<State>, run: seq<Action>)
    requires grant >= 256
    ensures IsRun(states, run, grant) && states[|run|].ring.rx.overrun
  {
    hide WriteNext, StreamRuns.ScanNext, Zeros, Flood;
    var pages: seq<Page> := seq(256, i => Zeros());
    run := seq(257, i => if i < 256 then StreamRuns.HwWrite(FULL_RESULT, Zeros()) else StreamRuns.ScanStep);
    states := seq(258, i requires 0 <= i < 258 =>
      if i <= 256 then Flood(pages, grant, i)
      else Flood(pages, grant, 256).(ring := StreamRuns.ScanNext(Flood(pages, grant, 256).ring)));
    FloodOverruns(pages, grant);
    FloodStarts(pages, grant);
    forall i | 0 <= i < 257
      ensures Possible(states[i], run[i]) && states[i + 1] == Next(states[i], run[i])
    {
      if i < 256 {
        FloodStep(pages, grant, i);
      }
    }
  }

  lemma FloodStarts(pages: seq<Page>, grant: nat)
    requires |pages| == 256
    ensures Flood(pages, grant, 0) == Start(pages, grant)
  {
  }

  lemma FloodStep(pages: seq<Page>, grant: nat, n: nat)
    requires |pages| == 256 && n < grant
    ensures var a := StreamRuns.HwWrite(FULL_RESULT, Zeros());
            Possible(Flood(pages, grant, n), a) && Next(Flood(pages, grant, n), a) == Flood(pages, grant, n + 1)
  {
  }
}
