/**
  One engine's transfer queue as a value: what transfer_queue, engine_start and engine_service do
  to it. The class in Engines.dfy is proved against these functions, the runs in Protocol.dfy are
  made of them.
 */
module EngineModel {

  import opened Words

  /** A queued transfer: who it is and how many descriptors it has. */
  datatype Xfer = Xfer(id: nat, num: nat)

  datatype Retired = Retired(id: nat, state: XferState)

  /** The driver's side: the queue, the running flag, the descriptors dequeued in this engine run. */
  datatype Eng = Eng(queue: seq<Xfer>, running: bool, dequeued: nat)

  /** The bits of the status register that engine_service looks at. */
  datatype Status = Status(busy: bool, err: bool)

  /** What a call leaves: a fired BUG_ON, or a new state, the transfers taken off the queue and
      whether the engine was started on the new head. */
  datatype Result = Bug | Done(eng: Eng, retired: seq<Retired>, started: bool)

  /** The descriptors of the first n queued transfers. */
  function Cum(queue: seq<Xfer>, n: nat): nat
    requires n <= |queue|
  {
    if n == 0 then 0 else Cum(queue, n - 1) + queue[n - 1].num
  }

  /** The number of transfers that lie wholly below descriptor c, searched from transfer i on. */
  function Passed(queue: seq<Xfer>, c: nat, i: nat): (k: nat)
    requires i <= |queue|
    ensures i <= k <= |queue|
    decreases |queue| - i
  {
    if i == |queue| || c <= queue[i].num then i else Passed(queue, c - queue[i].num, i + 1)
  }

  /** The loop stops at the transfer that contains descriptor c, and only there. */
  lemma {:induction false} PassedMeans(queue: seq<Xfer>, c: nat, i: nat)
    requires i <= |queue| && c >= 1
    ensures var k := Passed(queue, c, i);
            && (k > i ==> Cum(queue, k) - Cum(queue, i) < c)
            && (k < |queue| ==> c <= Cum(queue, k + 1) - Cum(queue, i))
            && (k == |queue| <==> c > Cum(queue, |queue|) - Cum(queue, i))
    decreases |queue| - i
  {
    if i < |queue| && c > queue[i].num {
      PassedMeans(queue, c - queue[i].num, i + 1);
    } else if i < |queue| {
      CumMonotone(queue, i + 1, |queue|);
    }
  }

  lemma {:induction false} CumMonotone(queue: seq<Xfer>, m: nat, n: nat)
    requires m <= n <= |queue|
    ensures Cum(queue, m) <= Cum(queue, n)
  {
    if m < n {
      CumMonotone(queue, m, n - 1);
    }
  }

  function AllCompleted(queue: seq<Xfer>, n: nat): (r: seq<Retired>)
    requires n <= |queue|
    ensures |r| == n && forall i :: 0 <= i < n ==> r[i] == Retired(queue[i].id, COMPLETED)
  {
    seq(n, i requires 0 <= i < n => Retired(queue[i].id, COMPLETED))
  }

  // ----- engine_start, transfer_queue -----

  /** BUG_ON if running or if there is nothing to start. */
  function Start(e: Eng, retired: seq<Retired>): (r: Result)
    ensures r.Bug? <==> e.running || e.queue == []
  {
    if e.running || e.queue == [] then Bug else Done(e.(running := true, dequeued := 0), retired, true)
  }

  /** engine_service_resume, when no shutdown was requested. */
  function Resume(e: Eng, retired: seq<Retired>): Result {
    if !e.running && e.queue != [] then Start(e, retired) else Done(e, retired, false)
  }

  /** transfer_queue, when no shutdown was requested; BUG_ON for a transfer without descriptors. */
  function Submit(e: Eng, t: Xfer): Result {
    if t.num == 0 then Bug else Resume(e.(queue := e.queue + [t]), [])
  }

  // ----- engine_service -----

  /** The descriptors the hardware reports beyond those dequeued, a 32-bit difference. */
  function Owed(dequeued: nat, count: nat): nat {
    (count - dequeued) % 0x1_0000_0000
  }

  /** engine_service up to the restart, on a running engine: the transfers that lie below the
      hardware's count are complete; the one that contains descriptor count is complete if the count
      ends it and failed otherwise, unless an error flag leaves it at the head of the queue. */
  function Finish(e: Eng, status: Status, count: nat): Result {
    var c := Owed(e.dequeued, count);
    var k := Passed(e.queue, c, 0);
    if k == |e.queue| then Bug
    else
      var below := AllCompleted(e.queue, k);
      var now := Eng(e.queue[k..], e.running, e.dequeued + Cum(e.queue, k));
      if status.err then Done(now, below, false)
      else
        var last := Retired(e.queue[k].id, if c - Cum(e.queue, k) < e.queue[k].num then FAILED else COMPLETED);
        Done(Eng(e.queue[k + 1..], e.running, now.dequeued + e.queue[k].num), below + [last], false)
  }

  /** engine_service; stopped: it saw the engine idle, or has the count from the poll-mode writeback. */
  function Service(e: Eng, status: Status, stopped: bool, count: nat): Result {
    if !e.running then Done(e, [], false)
    else match Finish(e.(running := !stopped), status, count)
      case Bug => Bug
      case Done(served, retired, _) => Resume(served, retired)
  }

  // ----- completion accounting -----

  lemma {:induction false} CumDrop(queue: seq<Xfer>, k: nat, n: nat)
    requires k <= n <= |queue|
    ensures Cum(queue[k..], n - k) == Cum(queue, n) - Cum(queue, k)
  {
    if k < n {
      CumDrop(queue, k, n - 1);
    }
  }

  /** The descriptors dequeued in this engine run and those still queued: none is lost or invented. */
  function Accounted(e: Eng): nat {
    e.dequeued + Cum(e.queue, |e.queue|)
  }

  /** What Finish leaves, in terms of the number k of transfers that lie wholly below the count. */
  lemma FinishShape(e: Eng, status: Status, count: nat, k: nat)
    requires k == Passed(e.queue, Owed(e.dequeued, count), 0)
    ensures Finish(e, status, count).Bug? <==> k == |e.queue|
    ensures Finish(e, status, count).Done? ==>
      var c, done := Owed(e.dequeued, count), Finish(e, status, count);
      var n := if status.err then k else k + 1;
      && k < |e.queue| && |done.retired| == n && !done.started
      && (forall i :: 0 <= i < k ==> done.retired[i] == Retired(e.queue[i].id, COMPLETED))
      && (!status.err ==>
            var state := if c - Cum(e.queue, k) < e.queue[k].num then FAILED else COMPLETED;
            done.retired[k] == Retired(e.queue[k].id, state))
      && done.eng == Eng(e.queue[n..], e.running,
                         e.dequeued + Cum(e.queue, k) + if status.err then 0 else e.queue[k].num)
  {
    hide Owed, Passed, Cum;
  }

  /** Without error flags, when the hardware reports c >= 1 descriptors more than were dequeued, a BUG_ON
      fires exactly if c exceeds the queue. */
  lemma BugIffBeyondQueue(e: Eng, status: Status, count: nat)
    requires !status.err && 1 <= Owed(e.dequeued, count)
    ensures Finish(e, status, count).Bug? <==> Owed(e.dequeued, count) > Cum(e.queue, |e.queue|)
  {
    hide Owed, Passed, Cum, Finish;
    PassedMeans(e.queue, Owed(e.dequeued, count), 0);
    CumStarts(e.queue);
    FinishShape(e, status, count, Passed(e.queue, Owed(e.dequeued, count), 0));
  }

  lemma CumStarts(queue: seq<Xfer>)
    ensures Cum(queue, 0) == 0
    ensures forall i :: 0 <= i < |queue| ==> Cum(queue, i + 1) == Cum(queue, i) + queue[i].num
  {
  }

  /** Otherwise the shortest prefix of the queue with c descriptors leaves it, a transfer in it being completed
      exactly if its last descriptor is among the c. */
  lemma CompletionAccounting(e: Eng, status: Status, count: nat)
    requires !status.err && 1 <= Owed(e.dequeued, count) <= Cum(e.queue, |e.queue|)
    ensures Finish(e, status, count).Done?
    ensures
      var c, done := Owed(e.dequeued, count), Finish(e, status, count);
      var n := |done.retired|;
      && 0 < n <= |e.queue| && Cum(e.queue, n - 1) < c <= Cum(e.queue, n)
      && done.eng.queue == e.queue[n..] && done.eng.dequeued == e.dequeued + Cum(e.queue, n)
      && (forall i :: 0 <= i < n ==>
            done.retired[i] == Retired(e.queue[i].id, if Cum(e.queue, i + 1) <= c then COMPLETED else FAILED))
  {
    hide Owed, Passed, Cum, Finish;
    var c, done := Owed(e.dequeued, count), Finish(e, status, count);
    var k := Passed(e.queue, c, 0);
    PassedMeans(e.queue, c, 0);
    CumStarts(e.queue);
    FinishShape(e, status, count, k);
    forall i | 0 <= i < k
      ensures done.retired[i] == Retired(e.queue[i].id, if Cum(e.queue, i + 1) <= c then COMPLETED else FAILED)
    {
      CumMonotone(e.queue, i + 1, k);
    }
  }

  /** Servicing moves descriptors from the queue to the dequeued count and changes their sum never. */
  lemma FinishConserves(e: Eng, status: Status, count: nat)
    requires Finish(e, status, count).Done?
    ensures Accounted(Finish(e, status, count).eng) == Accounted(e)
  {
    hide Owed;
    var k := Passed(e.queue, Owed(e.dequeued, count), 0);
    CumDrop(e.queue, k, |e.queue|);
    CumDrop(e.queue, k + 1, |e.queue|);
  }

  /** A count that ends a transfer ends the last one of the shortest prefix with that many. */
  lemma BoundaryEndsPrefix(queue: seq<Xfer>, c: nat, k: nat, n: nat)
    requires 0 < k <= |queue| && n <= |queue|
    requires Cum(queue, k - 1) < c <= Cum(queue, k) && Cum(queue, n) == c
    ensures Cum(queue, k) == c
  {
    if n < k {
      CumMonotone(queue, n, k - 1);
    } else {
      CumMonotone(queue, k, n);
    }
  }

  /** The count ends a transfer of the queue. */
  ghost predicate EndsTransfer(queue: seq<Xfer>, c: nat) {
    exists n :: 0 <= n <= |queue| && Cum(queue, n) == c
  }

  /** The driver never dequeues less than the hardware reported; it dequeues exactly that if and only if the
      count ends a transfer, and if and only if nothing failed. */
  lemma DequeuedMeetsHardware(e: Eng, status: Status, count: nat)
    requires !status.err && e.dequeued < count < e.dequeued + 0x1_0000_0000
    requires count - e.dequeued <= Cum(e.queue, |e.queue|)
    ensures var done := Finish(e, status, count);
      && done.Done? && done.eng.dequeued >= count
      && (done.eng.dequeued == count <==> EndsTransfer(e.queue, count - e.dequeued))
      && (done.eng.dequeued == count <==> forall i :: 0 <= i < |done.retired| ==> done.retired[i].state == COMPLETED)
  {
    hide Finish, Cum;
    assert Owed(e.dequeued, count) == count - e.dequeued;
    CompletionAccounting(e, status, count);
    var c, done := count - e.dequeued, Finish(e, status, count);
    var k := |done.retired|;
    assert done.retired[k - 1].state == if Cum(e.queue, k) <= c then COMPLETED else FAILED;
    forall i | 0 <= i < k && Cum(e.queue, k) == c
      ensures done.retired[i].state == COMPLETED
    {
      CumMonotone(e.queue, i + 1, k);
    }
    if EndsTransfer(e.queue, c) {
      var n :| 0 <= n <= |e.queue| && Cum(e.queue, n) == c;
      BoundaryEndsPrefix(e.queue, c, k, n);
    }
  }

  /** Serviced before its hardware has finished anything new, an engine fails its head. */
  lemma ServicedTooEarly(e: Eng, status: Status, count: nat)
    requires !status.err && Owed(e.dequeued, count) == 0 && e.queue != [] && e.queue[0].num > 0
    ensures var done := Finish(e, status, count);
      done.Done? && done.retired == [Retired(e.queue[0].id, FAILED)] && done.eng.queue == e.queue[1..]
  {
    hide Owed;
    assert Passed(e.queue, 0, 0) == 0 && AllCompleted(e.queue, 0) == [];
  }

  /** With an error flag, only the transfers wholly below c leave; the one that contains descriptor c
      stays at the head, and an idle engine is restarted on it from its first descriptor. */
  lemma ErrorLeavesHead(e: Eng, status: Status, count: nat)
    requires status.err && e.running && 1 <= Owed(e.dequeued, count) <= Cum(e.queue, |e.queue|)
    ensures var n := Passed(e.queue, Owed(e.dequeued, count), 0);
      && n < |e.queue| && Cum(e.queue, n) < Owed(e.dequeued, count) <= Cum(e.queue, n + 1)
      && Service(e, status, true, count) == Done(Eng(e.queue[n..], true, 0), AllCompleted(e.queue, n), true)
  {
    hide Owed;
    PassedMeans(e.queue, Owed(e.dequeued, count), 0);
  }
}
