/**
  What the hardware has done by any point of a run: the descriptors it has fetched along the next pointers,
  engine by engine, are the chains of the retired transfers in the order of submission and a part of the
  head's, so its byte moves are those transfers' copies, one after the other.
 */
module Executed {
  import opened Chain
  import opened Descriptors
  import opened EngineModel
  import opened Protocol
  import opened SgMapper
  import opened Transfers
  import opened Words

  /** A submitted transfer: the first num of descs, at bus in descriptor memory, carry count bytes of the
      buffer at start to or from ep. */
  datatype Job = Job(mem: Memory, bus: nat, descs: seq<Desc>, num: nat,
                     frame: PageTable, start: u64, count: nat, ep: nat)

  /** How an engine moves bytes. */
  datatype Mode = Mode(dma: Dma, incr: bool, toDev: bool, force: bool)

  /** What transfer_create leaves. */
  ghost predicate Ready(j: Job, m: Mode) {
    && j.count >= 1 && ValidDma(m.dma)
    && Shape(j.descs, j.bus, j.num) && Fetched(j.mem, j.bus, j.descs)
    && Carries(j.descs, j.num, MappedSegs(j.frame, m.dma, j.start, j.count), j.ep, m.incr, m.toDev, m.force)
  }

  /** Transfer i of the engine is job i. */
  ghost predicate Submitted(jobs: nat -> Job, m: Mode, nums: seq<nat>) {
    forall i :: 0 <= i < |nums| ==> Ready(jobs(i), m) && jobs(i).num == nums[i]
  }

  // ----- the log -----

  /** The k-th descriptor along the next pointers. */
  function Nth(mem: Memory, addr: nat, k: nat): Option<Desc>
    decreases k
  {
    if addr !in mem then None
    else if k == 0 then Some(mem[addr])
    else Nth(mem, mem[addr].next, k - 1)
  }

  /** The descriptor that engine e executes in an action. */
  function Fetch(jobs: nat -> Job, s: Sys, a: Action, e: nat): seq<Desc> {
    if a != HwDesc(e) || e >= |s.chans| then []
    else
      var job := jobs(s.chans[e].current.id);
      var d := Nth(job.mem, job.bus, s.chans[e].count);
      if d.Some? then [d.value] else []
  }

  /** What engine e has executed in the first n actions of a run. */
  function Log(jobs: nat -> Job, s: Sys, run: seq<Action>, n: nat, e: nat): seq<Desc>
    requires n <= |run|
  {
    if n == 0 then []
    else
      var before := Exec(true, s, run, n - 1);
      Log(jobs, s, run, n - 1, e) + if before.Some? then Fetch(jobs, before.value, run[n - 1], e) else []
  }

  /** The chains of the first r jobs. */
  function Chains(jobs: nat -> Job, r: nat): seq<Desc> {
    if r == 0 then [] else Chains(jobs, r - 1) + Taken(jobs(r - 1), jobs(r - 1).num)
  }

  function Taken(j: Job, k: nat): seq<Desc> {
    if k <= |j.descs| then j.descs[..k] else j.descs
  }

  /** The copies of the first r jobs. */
  function Copies(jobs: nat -> Job, m: Mode, r: nat): seq<Move> {
    if r == 0 then [] else Copies(jobs, m, r - 1) + JobCopy(jobs(r - 1), m)
  }

  function JobCopy(j: Job, m: Mode): seq<Move> {
    Copy(BusBytes(j.frame, m.dma, j.start, j.count), j.ep, m.incr, m.toDev)
  }

  // ----- where an engine is -----

  /** The transfers retired, and the descriptors of the next one executed. */
  function Position(c: Chan): (nat, nat) {
    (|c.retired|, if c.eng.running then c.count else 0)
  }

  lemma PositionAfterHw(c: Chan, enabled: bool, latched: bool)
    requires ChanInv(c, enabled, latched) && HwStep(c).Some?
    ensures var (r, k) := Position(c); var d := HwStep(c).value;
      && c.current.id == r < |c.nums| && c.count == k < c.nums[r]
      && Position(d) == (r, k + 1) && d.nums == c.nums && (d.busy <==> k + 1 < c.nums[r])
  {
    assert c.current == c.eng.queue[0] == Xfer(|c.retired|, c.nums[|c.retired|]);
  }

  lemma PositionAfterService(c: Chan, enabled: bool, latched: bool)
    requires ChanInv(c, enabled, latched) && WorkServiceStep(c).Some?
    ensures var (r, k) := Position(c); var d := WorkServiceStep(c).value;
      && r < |c.nums| && k == c.nums[r] && Position(d) == (r + 1, 0) && d.nums == c.nums
  {
    hide Service;
    ServiceAdvances(c, enabled, latched);
    assert c.eng.queue[0] == Xfer(|c.retired|, c.nums[|c.retired|]);
  }

  lemma PositionAfterSubmit(c: Chan, num: nat, enabled: bool, latched: bool)
    requires ChanInv(c, enabled, latched) && SubmitStep(c, num).Some?
    ensures var d := SubmitStep(c, num).value; Position(d) == Position(c) && d.nums == c.nums + [num]
  {
  }

  lemma PositionAfterWork(c: Chan, a: Action)
    requires a.WorkEntry? || a.WorkLock? || a.WorkEnd?
    requires Local(c, a).Some?
    ensures var d := Local(c, a).value; Position(d) == Position(c) && d.nums == c.nums
  {
  }

  // ----- the log of a run -----

  /** What an engine at a position has executed. */
  function Done(jobs: nat -> Job, position: (nat, nat)): seq<Desc> {
    Chains(jobs, position.0) + Taken(jobs(position.0), position.1)
  }

  /** Along the pointers lie the descriptors of the chain, and only the last one stops the engine. */
  lemma {:induction false} NthOfChain(mem: Memory, bus: nat, descs: seq<Desc>, num: nat, i: nat, k: nat)
    requires Shape(descs, bus, num) && Fetched(mem, bus, descs) && i + k < num
    ensures Nth(mem, bus + 32 * i, k) == Some(descs[i + k])
    ensures descs[i + k].Stops() <==> i + k + 1 == num
    decreases k
  {
    hide ShapeAt;
    assert Holds(mem, bus + 32 * i, descs[i]);
    AfterDesc(descs, bus, num, i);
    if k > 0 {
      NthOfChain(mem, bus, descs, num, i + 1, k - 1);
    }
  }

  /** A step adds to the log what it adds to the position. */
  lemma StepLogs(jobs: nat -> Job, m: Mode, s: Sys, a: Action, e: nat)
    requires Inv(s) && e < |s.chans| && Next(true, s, a).Some?
    requires Submitted(jobs, m, Next(true, s, a).value.chans[e].nums)
    ensures var t := Next(true, s, a).value;
      && Submitted(jobs, m, s.chans[e].nums)
      && Done(jobs, Position(t.chans[e])) == Done(jobs, Position(s.chans[e])) + Fetch(jobs, s, a, e)
  {
    hide Local, ChanInv, Position, Ready, Taken, Chains, Fetch;
    var c, enabled, latched := s.chans[e], e in s.enabled, s.latch.Some? && e in s.latch.value;
    var d := Next(true, s, a).value.chans[e];
    assert ChanInv(c, enabled, latched);
    if a.IsrRead? || a.IsrMask? || a.e != e {
      QuietFetch(jobs, s, a, e);
      SamePosition(c, d);
    } else {
      LocalLogs(jobs, m, s, a, enabled, latched);
    }
  }

  lemma QuietFetch(jobs: nat -> Job, s: Sys, a: Action, e: nat)
    requires a != HwDesc(e)
    ensures Fetch(jobs, s, a, e) == []
  {
  }

  lemma SamePosition(c: Chan, d: Chan)
    requires d == c || d == c.(pending := true)
    ensures Position(d) == Position(c)
  {
  }

  lemma LocalLogs(jobs: nat -> Job, m: Mode, s: Sys, a: Action, enabled: bool, latched: bool)
    requires !a.IsrRead? && !a.IsrMask? && a.e < |s.chans|
    requires ChanInv(s.chans[a.e], enabled, latched) && Local(s.chans[a.e], a).Some?
    requires Submitted(jobs, m, Local(s.chans[a.e], a).value.nums)
    ensures var c := s.chans[a.e]; var d := Local(c, a).value;
      && Submitted(jobs, m, c.nums)
      && Done(jobs, Position(d)) == Done(jobs, Position(c)) + Fetch(jobs, s, a, a.e)
  {
    hide ChanInv, Position, Ready, SubmitStep, HwStep, WorkServiceStep, WorkEntryStep, WorkLockStep, WorkEndStep,
      Shape, Fetched, Nth, Done;
    var c := s.chans[a.e];
    match a
    case Submit(_, num) =>
      PositionAfterSubmit(c, num, enabled, latched);
      SubmittedBefore(jobs, m, c.nums, num);
    case HwDesc(_) =>
      PositionAfterHw(c, enabled, latched);
      HwLogs(jobs, m, c, Position(c).0, Position(c).1);
    case WorkService(_) =>
      PositionAfterService(c, enabled, latched);
      RetireLogs(jobs, m, c, Position(c).0);
    case _ =>
      PositionAfterWork(c, a);
  }

  lemma SubmittedBefore(jobs: nat -> Job, m: Mode, nums: seq<nat>, num: nat)
    requires Submitted(jobs, m, nums + [num])
    ensures Submitted(jobs, m, nums)
  {
    hide Ready;
    forall i | 0 <= i < |nums|
      ensures Ready(jobs(i), m) && jobs(i).num == nums[i]
    {
      assert (nums + [num])[i] == nums[i];
    }
  }

  lemma HwLogs(jobs: nat -> Job, m: Mode, c: Chan, r: nat, k: nat)
    requires Submitted(jobs, m, c.nums) && r < |c.nums| && k < c.nums[r]
    ensures Nth(jobs(r).mem, jobs(r).bus, k).Some?
    ensures Done(jobs, (r, k + 1)) == Done(jobs, (r, k)) + [Nth(jobs(r).mem, jobs(r).bus, k).value]
    ensures Nth(jobs(r).mem, jobs(r).bus, k).value.Stops() <==> k + 1 == c.nums[r]
  {
    hide Nth, Fetched, Carries, ShapeAt;
    var j := jobs(r);
    assert Ready(j, m);
    NthOfChain(j.mem, j.bus, j.descs, j.num, 0, k);
    assert Taken(j, k + 1) == Taken(j, k) + [j.descs[k]];
    assert Done(jobs, (r, k + 1)) == Done(jobs, (r, k)) + [j.descs[k]];
  }

  lemma RetireLogs(jobs: nat -> Job, m: Mode, c: Chan, r: nat)
    requires Submitted(jobs, m, c.nums) && r < |c.nums|
    ensures Done(jobs, (r + 1, 0)) == Done(jobs, (r, c.nums[r]))
  {
    hide Ready;
    assert Taken(jobs(r + 1), 0) == [];
  }

  /** In every run the log of an engine is the chains of its retired transfers in the order of submission, and
      as much of the head's chain as the hardware counts. */
  lemma {:induction false} LogIsChains(jobs: nat -> Job, m: Mode, engines: nat, run: seq<Action>, n: nat, e: nat)
    requires n <= |run| && e < engines && Exec(true, Init(engines), run, n).Some?
    requires var s := Exec(true, Init(engines), run, n).value;
             e < |s.chans| && Submitted(jobs, m, s.chans[e].nums)
    ensures var c := Exec(true, Init(engines), run, n).value.chans[e];
      Log(jobs, Init(engines), run, n, e) == Done(jobs, Position(c))
  {
    hide Inv, Next, Fetch, Position, Submitted, Done;
    if n == 0 {
      LogStarts(jobs);
    } else {
      var s := Exec(true, Init(engines), run, n - 1).value;
      ReachableInv(engines, run, n - 1);
      EnginesKept(s, run[n - 1]);
      StepLogs(jobs, m, s, run[n - 1], e);
      LogIsChains(jobs, m, engines, run, n - 1, e);
    }
  }

  lemma LogStarts(jobs: nat -> Job)
    ensures Done(jobs, Position(FRESH)) == []
  {
    assert Taken(jobs(0), 0) == [];
  }

  lemma EnginesKept(s: Sys, a: Action)
    requires Next(true, s, a).Some?
    ensures |Next(true, s, a).value.chans| == |s.chans|
  {
  }

  /** What the runs count is what the descriptors say: the hardware finds one, and it carries STOPPED exactly
      if the engine then goes idle. */
  lemma FetchStops(jobs: nat -> Job, m: Mode, s: Sys, e: nat)
    requires Inv(s) && e < |s.chans| && Next(true, s, HwDesc(e)).Some?
    requires Submitted(jobs, m, s.chans[e].nums)
    ensures |Fetch(jobs, s, HwDesc(e), e)| == 1
    ensures Fetch(jobs, s, HwDesc(e), e)[0].Stops() <==> !Next(true, s, HwDesc(e)).value.chans[e].busy
  {
    hide ChanInv, Nth, Submitted;
    var c, enabled, latched := s.chans[e], e in s.enabled, s.latch.Some? && e in s.latch.value;
    assert ChanInv(c, enabled, latched);
    PositionAfterHw(c, enabled, latched);
    HwLogs(jobs, m, c, Position(c).0, Position(c).1);
  }

  // ----- the moves -----

  lemma {:induction false} MovesAppend(a: seq<Desc>, b: seq<Desc>, n: nat, m: Mode)
    requires n <= |b|
    ensures TraceMoves(a + b, |a| + n, m.incr, m.toDev)
         == TraceMoves(a, |a|, m.incr, m.toDev) + TraceMoves(b, n, m.incr, m.toDev)
  {
    hide MovesOf;
    if n == 0 {
      TracePrefix(a + b, a, |a|, m.incr, m.toDev);
    } else {
      MovesAppend(a, b, n - 1, m);
      assert (a + b)[|a| + n - 1] == b[n - 1];
    }
  }

  lemma {:induction false} MovesGrow(descs: seq<Desc>, k: nat, n: nat, m: Mode)
    requires k <= n <= |descs|
    ensures TraceMoves(descs, k, m.incr, m.toDev) <= TraceMoves(descs, n, m.incr, m.toDev)
  {
    hide MovesOf;
    if k < n {
      MovesGrow(descs, k, n - 1, m);
    }
  }

  /** A whole chain copies its job, the beginning of one copies the beginning of it. */
  lemma TakenCopies(j: Job, m: Mode, k: nat)
    requires Ready(j, m) && k <= j.num
    ensures TraceMoves(Taken(j, k), |Taken(j, k)|, m.incr, m.toDev) <= JobCopy(j, m)
    ensures k == j.num ==> TraceMoves(Taken(j, k), |Taken(j, k)|, m.incr, m.toDev) == JobCopy(j, m)
  {
    hide TraceMoves, Carries, Fetched, ShapeAt, Runs, Copy, BusBytes, MappedSegs, ValidDma;
    var trace := j.descs[0..j.num];
    ChainRuns(j.mem, j.bus, j.descs, j.num, 0);
    ChainCopies(j.mem, j.bus, j.descs, j.num, trace, j.frame, m.dma, j.start, j.count, j.ep, m.incr, m.toDev, m.force);
    MovesGrow(trace, k, j.num, m);
    TracePrefix(Taken(j, k), trace, k, m.incr, m.toDev);
  }

  lemma {:induction false} ChainsCopy(jobs: nat -> Job, m: Mode, nums: seq<nat>, r: nat)
    requires Submitted(jobs, m, nums) && r <= |nums|
    ensures TraceMoves(Chains(jobs, r), |Chains(jobs, r)|, m.incr, m.toDev) == Copies(jobs, m, r)
  {
    hide Ready, Taken, JobCopy, TraceMoves;
    if r == 0 {
      NoMoves(m);
    } else {
      ChainsCopy(jobs, m, nums, r - 1);
      var last := Taken(jobs(r - 1), jobs(r - 1).num);
      TakenCopies(jobs(r - 1), m, jobs(r - 1).num);
      MovesAppend(Chains(jobs, r - 1), last, |last|, m);
    }
  }

  lemma NoMoves(m: Mode)
    ensures TraceMoves([], 0, m.incr, m.toDev) == []
  {
  }

  /** Main result: in every run the moves of an engine are the copies of its retired transfers, in the order of
      submission, and the beginning of the head's; the head's whole copy once the engine is idle. An empty
      queue means that every submitted transfer has been copied. */
  lemma {:induction false} RunsCopyInOrder(jobs: nat -> Job, m: Mode, engines: nat, run: seq<Action>, e: nat)
    requires e < engines && Exec(true, Init(engines), run, |run|).Some?
    requires var s := Exec(true, Init(engines), run, |run|).value;
             e < |s.chans| && Submitted(jobs, m, s.chans[e].nums)
    ensures var c := Exec(true, Init(engines), run, |run|).value.chans[e];
      var log := Log(jobs, Init(engines), run, |run|, e);
      var moves, r := TraceMoves(log, |log|, m.incr, m.toDev), |c.retired|;
      && Copies(jobs, m, r) <= moves
      && (c.eng.queue != [] ==> moves <= Copies(jobs, m, r + 1))
      && (c.eng.queue != [] && !c.busy ==> moves == Copies(jobs, m, r + 1))
      && (c.eng.queue == [] ==> moves == Copies(jobs, m, |c.nums|))
  {
    hide Exec, Log, Submitted, Done, Copies, TraceMoves, ChanInv;
    LogIsChains(jobs, m, engines, run, |run|, e);
    ReachableInv(engines, run, |run|);
    var s := Exec(true, Init(engines), run, |run|).value;
    var c := s.chans[e];
    PositionMeans(c, e in s.enabled, s.latch.Some? && e in s.latch.value);
    PositionCopies(jobs, m, c.nums, Position(c).0, Position(c).1);
  }

  lemma PositionMeans(c: Chan, enabled: bool, latched: bool)
    requires ChanInv(c, enabled, latched)
    ensures var (r, k) := Position(c);
      && r == |c.retired|
      && (c.eng.queue == [] ==> r == |c.nums| && k == 0)
      && (c.eng.queue != [] ==> r < |c.nums| && k <= c.nums[r] && (!c.busy ==> k == c.nums[r]))
  {
    if c.eng.queue != [] {
      assert c.eng.queue[0] == Xfer(|c.retired|, c.nums[|c.retired|]);
    }
  }

  lemma PositionCopies(jobs: nat -> Job, m: Mode, nums: seq<nat>, r: nat, k: nat)
    requires Submitted(jobs, m, nums) && r <= |nums|
    requires if r == |nums| then k == 0 else k <= nums[r]
    ensures var done := Done(jobs, (r, k));
      var moves := TraceMoves(done, |done|, m.incr, m.toDev);
      && Copies(jobs, m, r) <= moves
      && (r == |nums| ==> moves == Copies(jobs, m, r))
      && (r < |nums| ==> moves <= Copies(jobs, m, r + 1))
      && (r < |nums| && k == nums[r] ==> moves == Copies(jobs, m, r + 1))
  {
    hide Ready, Taken, Chains, JobCopy, TraceMoves;
    ChainsCopy(jobs, m, nums, r);
    var part := Taken(jobs(r), k);
    MovesAppend(Chains(jobs, r), part, |part|, m);
    if r < |nums| {
      TakenCopies(jobs(r), m, k);
    } else {
      NothingTaken(jobs(r), m);
    }
  }

  lemma NothingTaken(j: Job, m: Mode)
    ensures TraceMoves(Taken(j, 0), |Taken(j, 0)|, m.incr, m.toDev) == []
  {
  }
}
