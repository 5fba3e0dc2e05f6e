/**
  Runs of a whole device in interrupt mode: several engines, the interrupt handler (xdma_isr), the
  work queue (engine_service_work), submitters and the hardware, in any interleaving.

  What is assumed of the hardware: the completed count restarts at 0 on RUN; executing the last,
  STOPPED descriptor makes the engine idle and raises its request; reading and clearing the status
  drops the request. The kernel runs the handler and each engine's work item one at a time.
 */
module Protocol {
  import opened EngineModel
  import opened Words

  // ----- one engine -----

  /** Where an engine's work item is: not running, running before the lock, holding the lock with the
      status read, done servicing. */
  datatype Phase = Idle | Entered | Locked(busySeen: bool) | Served

  /** current, count, busy, request: the hardware. nums: what was submitted, transfer i under id i.
      ran: how many descriptors of each the hardware executed. */
  datatype Chan = Chan(eng: Eng, current: Xfer, count: nat, busy: bool, request: bool,
                       phase: Phase, pending: bool,
                       nums: seq<nat>, ran: seq<nat>, retired: seq<Retired>, bug: bool)

  const FRESH := Chan(Eng([], false, 0), Xfer(0, 0), 0, false, false, Idle, false, [], [], [], false)

  /** The effect of a driver call on the hardware: RUN loads the head and restarts the count. */
  function Settle(c: Chan, r: Result): Chan {
    match r
    case Bug => c.(bug := true)
    case Done(eng, retired, started) =>
      var d := c.(eng := eng, retired := c.retired + retired);
      if started && eng.queue != [] then d.(current := eng.queue[0], count := 0, busy := true) else d
  }

  /** transfer_queue; it waits for the engine lock. */
  function SubmitStep(c: Chan, num: nat): Option<Chan> {
    if c.bug || c.phase.Locked? || c.phase.Served? || !(0 < num < 0x8000_0000) then None
    else Some(Settle(c.(nums := c.nums + [num], ran := c.ran + [0]), EngineModel.Submit(c.eng, Xfer(|c.nums|, num))))
  }

  /** The hardware executes one more descriptor of the current transfer. */
  function HwStep(c: Chan): Option<Chan> {
    if c.bug || !c.busy || c.count >= c.current.num || c.current.id >= |c.ran| then None
    else
      var last := c.count + 1 == c.current.num;
      Some(c.(count := c.count + 1, ran := c.ran[c.current.id := c.ran[c.current.id] + 1],
              busy := !last, request := c.request || last))
  }

  function WorkEntryStep(c: Chan): Option<Chan> {
    if !c.bug && c.pending && c.phase.Idle? then Some(c.(pending := false, phase := Entered)) else None
  }

  /** The lock is taken and the status read and cleared. */
  function WorkLockStep(c: Chan): Option<Chan> {
    if !c.bug && c.phase.Entered? then Some(c.(phase := Locked(c.busy), request := false)) else None
  }

  /** engine_service reads the count, retires transfers and restarts the engine. */
  function WorkServiceStep(c: Chan): Option<Chan> {
    if c.bug || !c.phase.Locked? then None
    else
      var busy := c.phase.busySeen;
      Some(Settle(c.(phase := Served), Service(c.eng, Status(busy, false), !busy, c.count)))
  }

  function WorkEndStep(c: Chan): Option<Chan> {
    if !c.bug && c.phase.Served? then Some(c.(phase := Idle)) else None
  }

  // ----- the device -----

  /** enabled: the channel interrupt enable mask; latch: the requests the handler has read. */
  datatype Sys = Sys(chans: seq<Chan>, enabled: set<nat>, latch: Option<set<nat>>)

  datatype Action =
    | Submit(e: nat, num: nat)
    | HwDesc(e: nat)
    | IsrRead
    | IsrMask
    | WorkEntry(e: nat)
    | WorkLock(e: nat)
    | WorkService(e: nat)
    | WorkEnd(e: nat)

  function Below(n: nat): (r: set<nat>)
    ensures forall e: nat :: e in r <==> e < n
  {
    if n == 0 then {} else Below(n - 1) + {n - 1}
  }

  /** n idle engines, every channel interrupt enabled. */
  function Init(n: nat): Sys {
    Sys(seq(n, i => FRESH), Below(n), None)
  }

  /** What channel_int_request reads; gated: the register shows unmasked requests only. */
  function Requests(gated: bool, s: Sys): set<nat> {
    set e | 0 <= e < |s.chans| && s.chans[e].request && (gated ==> e in s.enabled)
  }

  function Local(c: Chan, a: Action): Option<Chan> {
    match a
    case Submit(_, num) => SubmitStep(c, num)
    case HwDesc(_) => HwStep(c)
    case WorkEntry(_) => WorkEntryStep(c)
    case WorkLock(_) => WorkLockStep(c)
    case WorkService(_) => WorkServiceStep(c)
    case WorkEnd(_) => WorkEndStep(c)
    case IsrRead => None
    case IsrMask => None
  }

  function Next(gated: bool, s: Sys, a: Action): Option<Sys> {
    match a
    case IsrRead =>
      if s.latch.Some? then None else Some(s.(latch := Some(Requests(gated, s))))
    case IsrMask =>
      if s.latch.None? then None
      else
        Some(Sys(seq(|s.chans|, i requires 0 <= i < |s.chans| =>
                   if i in s.latch.value then s.chans[i].(pending := true) else s.chans[i]),
                 s.enabled - s.latch.value, None))
    case _ =>
      if a.e >= |s.chans| then None
      else
        match Local(s.chans[a.e], a)
        case None => None
        case Some(c) =>
          Some(s.(chans := s.chans[a.e := c], enabled := if a.WorkEnd? then s.enabled + {a.e} else s.enabled))
  }

  /** The state after the first n actions of the run, if each is possible in turn. */
  function Exec(gated: bool, s: Sys, run: seq<Action>, n: nat): Option<Sys>
    requires n <= |run|
  {
    if n == 0 then Some(s)
    else match Exec(gated, s, run, n - 1)
      case None => None
      case Some(t) => Next(gated, t, run[n - 1])
  }

  // ----- safety -----

  /** Completions are a prefix of the submissions, in order, each once, and each ran to its end. */
  ghost predicate Fifo(c: Chan) {
    var r := |c.retired|;
    && |c.nums| == |c.ran| == r + |c.eng.queue|
    && (forall i :: 0 <= i < r ==> c.retired[i] == Retired(i, COMPLETED) && c.ran[i] == c.nums[i])
    && (forall j :: 0 <= j < |c.eng.queue| ==> c.eng.queue[j] == Xfer(r + j, c.nums[r + j]))
  }

  ghost predicate SafeChan(c: Chan) {
    && !c.bug
    && Fifo(c)
    && (c.eng.running <==> c.eng.queue != [])
    && (c.eng.running ==> c.current == c.eng.queue[0] && c.count <= c.current.num)
    && (c.busy ==> c.eng.running)
    && (c.phase.Locked? ==> !c.phase.busySeen)
  }

  /** A finished transfer still queued has its request up and unmasked, or its work under way; and
      the mask is down exactly while work is pending or running. */
  ghost predicate NothingLost(c: Chan, enabled: bool) {
    && (c.eng.running && !c.busy ==> (c.request && enabled) || c.pending || !c.phase.Idle?)
    && (enabled <==> !c.pending && c.phase.Idle?)
  }

  ghost predicate Safe(s: Sys) {
    forall e :: 0 <= e < |s.chans| ==> SafeChan(s.chans[e]) && NothingLost(s.chans[e], e in s.enabled)
  }

  // ----- the invariant -----

  ghost predicate ChanInv(c: Chan, enabled: bool, latched: bool) {
    && SafeChan(c)
    && Progress(c)
    && (c.request ==> c.eng.running && !c.busy)
    && (c.eng.running && !c.busy ==> c.request || c.phase.Locked?)
    && (c.pending || latched || c.phase.Entered? ==> c.request)
    && (c.phase.Locked? ==> c.eng.running && !c.busy && !c.request)
    && (c.pending || latched ==> c.phase.Idle?)
    && (latched ==> !c.pending)
    && (enabled <==> !c.pending && c.phase.Idle?)
  }

  /** Only the head has run, exactly as far as the hardware's count says. */
  ghost predicate Progress(c: Chan)
    requires Fifo(c)
  {
    var r := |c.retired|;
    && (forall i :: 0 <= i < |c.nums| ==> 0 < c.nums[i] < 0x8000_0000)
    && (forall i :: r < i < |c.ran| ==> c.ran[i] == 0)
    && (c.eng.running && c.eng.queue != [] ==>
          c.eng.dequeued == 0 && c.ran[r] == c.count && (c.busy <==> c.count < c.nums[r]))
  }

  ghost predicate Inv(s: Sys) {
    && (forall e :: 0 <= e < |s.chans| ==>
          ChanInv(s.chans[e], e in s.enabled, s.latch.Some? && e in s.latch.value))
    && (s.latch.Some? ==> forall e :: e in s.latch.value ==> e < |s.chans|)
  }

  /** What transfer_queue leaves: one more transfer in the queue, running alone if the engine was idle. */
  function Joined(c: Chan, num: nat): Chan {
    var t := Xfer(|c.nums|, num);
    var d := c.(nums := c.nums + [num], ran := c.ran + [0]);
    if c.eng.running then d.(eng := c.eng.(queue := c.eng.queue + [t]))
    else d.(eng := Eng([t], true, 0), current := t, count := 0, busy := true)
  }

  lemma SubmitJoins(c: Chan, num: nat)
    requires SafeChan(c) && SubmitStep(c, num).Some?
    ensures SubmitStep(c, num).value == Joined(c, num)
  {
    hide Fifo;
    var t := Xfer(|c.nums|, num);
    assert c.retired + [] == c.retired;
    if !c.eng.running {
      assert c.eng.queue + [t] == [t];
    }
  }

  lemma JoinedKeeps(c: Chan, num: nat, enabled: bool, latched: bool)
    requires ChanInv(c, enabled, latched) && 0 < num < 0x8000_0000 && !c.phase.Locked? && !c.phase.Served?
    ensures ChanInv(Joined(c, num), enabled, latched)
  {
    var d := Joined(c, num);
    assert Fifo(d);
  }

  lemma SubmitKeeps(c: Chan, num: nat, enabled: bool, latched: bool)
    requires ChanInv(c, enabled, latched) && SubmitStep(c, num).Some?
    ensures ChanInv(SubmitStep(c, num).value, enabled, latched)
  {
    hide Fifo, Progress, Joined;
    SubmitJoins(c, num);
    JoinedKeeps(c, num, enabled, latched);
  }

  lemma HwKeeps(c: Chan, enabled: bool, latched: bool)
    requires ChanInv(c, enabled, latched) && HwStep(c).Some?
    ensures ChanInv(HwStep(c).value, enabled, latched)
  {
  }

  /** An idle engine whose count ends the head: the head is completed, nothing else. */
  lemma ServiceHead(e: Eng)
    requires e.running && e.queue != [] && e.dequeued == 0 && 0 < e.queue[0].num < 0x8000_0000
    ensures Service(e, Status(false, false), true, e.queue[0].num)
         == Resume(Eng(e.queue[1..], false, e.queue[0].num), [Retired(e.queue[0].id, COMPLETED)])
  {
    var num := e.queue[0].num;
    assert Passed(e.queue, num, 0) == 0;
    assert AllCompleted(e.queue, 0) == [];
  }

  /** What the work item leaves: the head retired, and the hardware on the next one, if any. */
  function NextHead(c: Chan): Chan
    requires c.eng.queue != []
  {
    var head, rest := c.eng.queue[0], c.eng.queue[1..];
    var d := c.(phase := Served, retired := c.retired + [Retired(head.id, COMPLETED)]);
    if rest == [] then d.(eng := Eng(rest, false, head.num))
    else d.(eng := Eng(rest, true, 0), current := rest[0], count := 0, busy := true)
  }

  lemma ServiceAdvances(c: Chan, enabled: bool, latched: bool)
    requires ChanInv(c, enabled, latched) && WorkServiceStep(c).Some?
    ensures c.eng.queue != [] && WorkServiceStep(c).value == NextHead(c)
  {
    hide Service;
    assert c.eng.queue[0] == Xfer(|c.retired|, c.nums[|c.retired|]);
    ServiceHead(c.eng);
  }

  lemma NextHeadKeeps(c: Chan, enabled: bool, latched: bool)
    requires ChanInv(c, enabled, latched) && c.phase.Locked? && c.eng.queue != []
    ensures ChanInv(NextHead(c), enabled, latched)
  {
    var d := NextHead(c);
    assert c.eng.queue[0] == Xfer(|c.retired|, c.nums[|c.retired|]);
    assert Fifo(d);
  }

  lemma ServiceKeeps(c: Chan, enabled: bool, latched: bool)
    requires ChanInv(c, enabled, latched) && WorkServiceStep(c).Some?
    ensures ChanInv(WorkServiceStep(c).value, enabled, latched)
  {
    ServiceAdvances(c, enabled, latched);
    NextHeadKeeps(c, enabled, latched);
  }

  lemma WorkKeeps(c: Chan, a: Action, enabled: bool, latched: bool)
    requires ChanInv(c, enabled, latched)
    requires a.WorkEntry? || a.WorkLock? || a.WorkEnd?
    requires Local(c, a).Some?
    ensures ChanInv(Local(c, a).value, enabled || a.WorkEnd?, latched)
  {
  }

  lemma IsrMaskKeeps(c: Chan, enabled: bool)
    requires ChanInv(c, enabled, true)
    ensures ChanInv(c.(pending := true), false, false)
  {
  }

  lemma IsrReadKeeps(c: Chan, enabled: bool)
    requires ChanInv(c, enabled, false)
    ensures ChanInv(c, enabled, c.request && enabled)
  {
  }

  lemma StepKeeps(s: Sys, a: Action)
    requires Inv(s) && Next(true, s, a).Some?
    ensures Inv(Next(true, s, a).value)
  {
    hide ChanInv;
    var t := Next(true, s, a).value;
    forall e | 0 <= e < |t.chans|
      ensures ChanInv(t.chans[e], e in t.enabled, t.latch.Some? && e in t.latch.value)
    {
      var c, enabled := s.chans[e], e in s.enabled;
      var latched := s.latch.Some? && e in s.latch.value;
      assert ChanInv(c, enabled, latched);
      if a.IsrRead? {
        IsrReadKeeps(c, enabled);
      } else if a.IsrMask? {
        if latched {
          IsrMaskKeeps(c, enabled);
        }
      } else if e == a.e {
        if a.Submit? {
          SubmitKeeps(c, a.num, enabled, latched);
        } else if a.HwDesc? {
          HwKeeps(c, enabled, latched);
        } else if a.WorkService? {
          ServiceKeeps(c, enabled, latched);
        } else {
          WorkKeeps(c, a, enabled, latched);
        }
      }
    }
  }

  lemma {:induction false} RunKeeps(s: Sys, run: seq<Action>, n: nat)
    requires Inv(s) && n <= |run| && Exec(true, s, run, n).Some?
    ensures Inv(Exec(true, s, run, n).value)
  {
    hide Inv, Next;
    if n > 0 {
      RunKeeps(s, run, n - 1);
      StepKeeps(Exec(true, s, run, n - 1).value, run[n - 1]);
    }
  }

  lemma {:induction false} ReachableInv(engines: nat, run: seq<Action>, n: nat)
    requires n <= |run| && Exec(true, Init(engines), run, n).Some?
    ensures Inv(Exec(true, Init(engines), run, n).value)
  {
    assert Inv(Init(engines));
    hide Inv, Next, Init;
    RunKeeps(Init(engines), run, n);
  }

  /** Main result: every reachable state is safe, however many engines there are. */
  lemma {:induction false} RunsAreSafe(n: nat, run: seq<Action>)
    requires Exec(true, Init(n), run, |run|).Some?
    ensures Safe(Exec(true, Init(n), run, |run|).value)
  {
    ReachableInv(n, run, |run|);
  }

  /** No call of the driver fires a BUG_ON: not the work item's service, nor any submission. */
  lemma NoCallFires(engines: nat, run: seq<Action>, e: nat, num: nat)
    requires Exec(true, Init(engines), run, |run|).Some? && 0 < num < 0x8000_0000
    requires e < |Exec(true, Init(engines), run, |run|).value.chans|
    ensures var c := Exec(true, Init(engines), run, |run|).value.chans[e];
      && (c.phase.Locked? ==> Service(c.eng, Status(c.phase.busySeen, false), !c.phase.busySeen, c.count).Done?)
      && EngineModel.Submit(c.eng, Xfer(|c.nums|, num)).Done?
  {
    hide Exec, Service;
    ReachableInv(engines, run, |run|);
    var s := Exec(true, Init(engines), run, |run|).value;
    var c := s.chans[e];
    assert ChanInv(c, e in s.enabled, s.latch.Some? && e in s.latch.value);
    if c.phase.Locked? {
      assert c.eng.queue[0] == Xfer(|c.retired|, c.nums[|c.retired|]);
      ServiceHead(c.eng);
    }
  }

  // ----- without the gate -----

  /** Two transfers on one engine; an interrupt while the first one's work waits for the lock. */
  const SPURIOUS: seq<Action> := [
    Submit(0, 1), Submit(0, 1), HwDesc(0), IsrRead, IsrMask, WorkEntry(0), IsrRead, IsrMask,
    WorkLock(0), WorkService(0), WorkEnd(0), WorkEntry(0), WorkLock(0), WorkService(0)]

  /** A device with one engine. */
  function One(c: Chan, enabled: bool, latched: Option<bool>): Sys {
    Sys([c], if enabled then {0} else {}, if latched.None? then None else Some(if latched.value then {0} else {}))
  }

  lemma OneLocal(c: Chan, enabled: bool, a: Action)
    requires !a.IsrRead? && !a.IsrMask? && a.e == 0 && Local(c, a).Some?
    ensures Next(false, One(c, enabled, None), a) == Some(One(Local(c, a).value, enabled || a.WorkEnd?, None))
  {
    var d := Local(c, a).value;
    assert [c][0 := d] == [d];
    assert One(c, enabled, None).enabled + {0} == {0};
  }

  lemma OneIsr(c: Chan, enabled: bool)
    requires c.request
    ensures Next(false, One(c, enabled, None), IsrRead) == Some(One(c, enabled, Some(true)))
    ensures Next(false, One(c, enabled, Some(true)), IsrMask) == Some(One(c.(pending := true), false, None))
  {
    assert Requests(false, One(c, enabled, None)) == {0};
    var t := Next(false, One(c, enabled, Some(true)), IsrMask).value;
    assert t.chans == [c.(pending := true)] && t.enabled == {};
  }

  lemma {:induction false} ExecLocal(n: nat, c: Chan, enabled: bool, d: Chan)
    requires n < |SPURIOUS| && Exec(false, Init(1), SPURIOUS, n) == Some(One(c, enabled, None))
    requires var a := SPURIOUS[n]; !a.IsrRead? && !a.IsrMask? && a.e == 0 && Local(c, a) == Some(d)
    ensures Exec(false, Init(1), SPURIOUS, n + 1) == Some(One(d, enabled || SPURIOUS[n].WorkEnd?, None))
  {
    OneLocal(c, enabled, SPURIOUS[n]);
  }

  lemma {:induction false} ExecIsr(n: nat, c: Chan, enabled: bool)
    requires n + 1 < |SPURIOUS| && Exec(false, Init(1), SPURIOUS, n) == Some(One(c, enabled, None))
    requires SPURIOUS[n].IsrRead? && SPURIOUS[n + 1].IsrMask? && c.request
    ensures Exec(false, Init(1), SPURIOUS, n + 2) == Some(One(c.(pending := true), false, None))
  {
    OneIsr(c, enabled);
    assert Exec(false, Init(1), SPURIOUS, n + 1) == Some(One(c, enabled, Some(true)));
  }

  // The engine along that run: A is the first transfer, B the second.

  const A := Xfer(0, 1)
  const B := Xfer(1, 1)
  const ALONE := FRESH.(eng := Eng([A], true, 0), current := A, busy := true, nums := [1], ran := [0])
  const BOTH := ALONE.(eng := Eng([A, B], true, 0), nums := [1, 1], ran := [0, 0])
  const A_DONE := BOTH.(count := 1, ran := [1, 0], busy := false, request := true)
  const B_BUSY := A_DONE.(eng := Eng([B], true, 0), current := B, count := 0, busy := true, request := false,
                          pending := true, phase := Served, retired := [Retired(0, COMPLETED)])
  const B_FAILED := B_BUSY.(eng := Eng([], true, 1), pending := false,
                            retired := [Retired(0, COMPLETED), Retired(1, FAILED)])

  lemma SpuriousSubmits()
    ensures Local(FRESH, Submit(0, 1)) == Some(ALONE)
    ensures Local(ALONE, Submit(0, 1)) == Some(BOTH)
  {
    assert [] + [A] == [A] && [] + [1] == [1] && [] + [0] == [0];
    assert FRESH.retired + [] == [];
    assert [A] + [B] == [A, B] && [1] + [1] == [1, 1] && [0] + [0] == [0, 0];
  }

  lemma SpuriousHardware()
    ensures Local(BOTH, HwDesc(0)) == Some(A_DONE)
  {
    assert [0, 0][0 := 1] == [1, 0];
  }

  lemma SpuriousFirstService()
    ensures Local(A_DONE.(phase := Locked(false), request := false, pending := true), WorkService(0)) == Some(B_BUSY)
  {
    ServiceHead(BOTH.eng);
    assert [A, B][1..] == [B];
  }

  lemma SpuriousSecondService()
    ensures Local(B_BUSY.(phase := Locked(true), pending := false), WorkService(0)) == Some(B_FAILED)
  {
    assert Passed([B], 0, 0) == 0;
    assert [B][1..] == [];
    assert AllCompleted([B], 0) == [];
    assert [Retired(0, COMPLETED)] + ([] + [Retired(1, FAILED)]) == [Retired(0, COMPLETED), Retired(1, FAILED)];
  }

  lemma SpuriousWork()
    ensures Local(A_DONE.(pending := true), WorkEntry(0)) == Some(A_DONE.(phase := Entered))
    ensures Local(A_DONE.(phase := Entered, pending := true), WorkLock(0))
         == Some(A_DONE.(phase := Locked(false), request := false, pending := true))
    ensures Local(B_BUSY, WorkEnd(0)) == Some(B_BUSY.(phase := Idle))
    ensures Local(B_BUSY.(phase := Idle), WorkEntry(0)) == Some(B_BUSY.(phase := Entered, pending := false))
    ensures Local(B_BUSY.(phase := Entered, pending := false), WorkLock(0))
         == Some(B_BUSY.(phase := Locked(true), pending := false))
  {
  }

  lemma SpuriousStart()
    ensures Exec(false, Init(1), SPURIOUS, 0) == Some(One(FRESH, true, None))
  {
    assert Init(1).chans == [FRESH];
    assert Below(1) == {0};
  }

  lemma FailedIsNotSafe()
    ensures !Safe(One(B_FAILED, true, None))
  {
    assert One(B_FAILED, true, None).chans[0] == B_FAILED;
  }

  /** If the request register showed masked requests, the second transfer would be failed while the
      hardware is executing it. */
  lemma UngatedFails()
    ensures Exec(false, Init(1), SPURIOUS, 14) == Some(One(B_FAILED, true, None))
    ensures !Safe(One(B_FAILED, true, None))
  {
    hide Local, Exec, Next, Safe, One, Init;
    SpuriousStart();
    SpuriousWork();
    FailedIsNotSafe();
    SpuriousSubmits();
    ExecLocal(0, FRESH, true, ALONE);
    ExecLocal(1, ALONE, true, BOTH);
    SpuriousHardware();
    ExecLocal(2, BOTH, true, A_DONE);
    ExecIsr(3, A_DONE, true);
    ExecLocal(5, A_DONE.(pending := true), false, A_DONE.(phase := Entered));
    ExecIsr(6, A_DONE.(phase := Entered), false);
    var locked := A_DONE.(phase := Locked(false), request := false, pending := true);
    ExecLocal(8, A_DONE.(phase := Entered, pending := true), false, locked);
    SpuriousFirstService();
    ExecLocal(9, locked, false, B_BUSY);
    ExecLocal(10, B_BUSY, false, B_BUSY.(phase := Idle));
    ExecLocal(11, B_BUSY.(phase := Idle), true, B_BUSY.(phase := Entered, pending := false));
    ExecLocal(12, B_BUSY.(phase := Entered, pending := false), true, B_BUSY.(phase := Locked(true), pending := false));
    SpuriousSecondService();
    ExecLocal(13, B_BUSY.(phase := Locked(true), pending := false), true, B_FAILED);
  }

  /** All runs are safe exactly when the request register hides masked requests. */
  lemma SafeIffGated(gated: bool)
    ensures gated <==> forall n: nat, run: seq<Action> {:trigger Exec(gated, Init(n), run, |run|)} ::
                         Exec(gated, Init(n), run, |run|).Some? ==> Safe(Exec(gated, Init(n), run, |run|).value)
  {
    if gated {
      forall n: nat, run: seq<Action> | Exec(gated, Init(n), run, |run|).Some?
        ensures Safe(Exec(gated, Init(n), run, |run|).value)
      {
        RunsAreSafe(n, run);
      }
    } else {
      UngatedFails();
      assert Exec(gated, Init(1), SPURIOUS, |SPURIOUS|).Some?;
    }
  }
}
