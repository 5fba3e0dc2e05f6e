/**
  struct xdma_engine and the functions that update it: transfer_queue, engine_start and the
  engine_service family, in interrupt and in poll mode. Each is proved against EngineModel.
 */
module Engines {
  import opened EngineModel
  import opened Words
  import Chain

  const WB_ERR: int := -1
  const SHUT_DOWN: int := -1

  /** struct xdma_transfer, as far as the queue uses it. */
  class Transfer {
    const id: nat
    const descNum: nat
    const descBus: nat
    const descAdjacent: int
    const cyclic: bool
    var state: XferState

    constructor (id: nat, descNum: nat, descBus: nat, descAdjacent: int)
      ensures this.id == id && this.descNum == descNum && this.descBus == descBus
      ensures this.descAdjacent == descAdjacent && !cyclic && state == NEW
    {
      this.id, this.descNum, this.descBus, this.descAdjacent := id, descNum, descBus, descAdjacent;
      cyclic, state := false, NEW;
    }
  }

  /** Each transfer is queued once, and none is cyclic. */
  ghost predicate Distinct(list: seq<Transfer>) {
    && (forall i, j :: 0 <= i < j < |list| ==> list[i] != list[j])
    && (forall i :: 0 <= i < |list| ==> !list[i].cyclic)
  }

  lemma DistinctDrop(list: seq<Transfer>, k: nat)
    requires k <= |list| && Distinct(list)
    ensures Distinct(list[k..])
  {
  }

  /** The queue as a value; ids and descriptor counts never change. */
  ghost function QueueOf(list: seq<Transfer>): (q: seq<Xfer>)
    ensures |q| == |list|
  {
    seq(|list|, i requires 0 <= i < |list| => Xfer(list[i].id, list[i].descNum))
  }

  lemma DropOne<T>(s: seq<T>, k: nat)
    requires k < |s|
    ensures s[k..][1..] == s[k + 1..]
  {
  }

  lemma ListFacts(list: seq<Transfer>)
    requires Distinct(list)
    ensures forall i :: 0 <= i < |list| ==> QueueOf(list)[i].num == list[i].descNum && !list[i].cyclic
    ensures forall i, j :: 0 <= i < j < |list| ==> list[i] != list[j]
  {
  }

  /** The sweep over the finished transfers has passed k of them. */
  ghost predicate Sweeping(queue: seq<Xfer>, count: nat, k: nat, completed: nat) {
    k <= |queue| && Passed(queue, count, 0) == Passed(queue, completed, k) && completed + Cum(queue, k) == count
  }

  lemma SweepStarts(queue: seq<Xfer>, count: nat)
    ensures Sweeping(queue, count, 0, count) && Cum(queue, 0) == 0
  {
  }

  lemma SweepStep(queue: seq<Xfer>, count: nat, k: nat, completed: nat)
    requires Sweeping(queue, count, k, completed) && k < |queue| && completed > queue[k].num
    ensures Sweeping(queue, count, k + 1, completed - queue[k].num)
    ensures Cum(queue, k + 1) == Cum(queue, k) + queue[k].num
  {
  }

  lemma SweepEnds(queue: seq<Xfer>, count: nat, k: nat, completed: nat)
    requires Sweeping(queue, count, k, completed) && (k < |queue| ==> completed <= queue[k].num)
    ensures k == Passed(queue, count, 0) && completed + Cum(queue, k) == count
  {
  }

  lemma QueueOfDrop(list: seq<Transfer>, k: nat)
    requires k <= |list|
    ensures QueueOf(list[k..]) == QueueOf(list)[k..]
  {
  }

  /** The registers of one engine; the device writes status and count, the driver the others. */
  class Registers {
    var status: Status
    var completedDescCount: nat
    var firstDesc: nat
    var firstDescAdjacent: nat
    var run: bool
    var starts: nat

    constructor ()
      ensures status == Status(false, false) && completedDescCount == 0 && firstDesc == 0 && firstDescAdjacent == 0
      ensures !run && starts == 0
    {
      status, completedDescCount, firstDesc, firstDescAdjacent := Status(false, false), 0, 0, 0;
      run, starts := false, 0;
    }
  }

  /** What a service leaves that is not followed by a restart. */
  ghost function Waiting(e: Eng, status: Status, stopped: bool, count: nat): Eng {
    if !e.running then e
    else
      var done := Finish(e.(running := !stopped), status, count);
      if done.Bug? then e else done.eng
  }

  lemma NotRunning(e: Eng, status: Status, stopped: bool, count: nat)
    requires !e.running
    ensures EngineModel.Service(e, status, stopped, count) == Done(e, [], false)
    ensures Waiting(e, status, stopped, count) == e
  {
  }

  class Engine {
    const regs: Registers
    const pollMode: bool
    var writeback: nat                                   // completed_desc_count in host memory, poll mode
    var running: bool
    var shutdownRequest: bool
    var shutdownIdle: bool
    var descDequeued: nat
    var status: Status
    var transferList: seq<Transfer>

    constructor (regs: Registers, pollMode: bool)
      ensures this.regs == regs && this.pollMode == pollMode && Valid()
      ensures !running && !shutdownRequest && !shutdownIdle && descDequeued == 0 && transferList == []
      ensures status == Status(false, false) && writeback == 0
    {
      this.regs, this.pollMode, writeback := regs, pollMode, 0;
      running, shutdownRequest, shutdownIdle, descDequeued := false, false, false, 0;
      status, transferList := Status(false, false), [];
    }

    ghost predicate Valid()
      reads `transferList
    {
      Distinct(transferList)
    }

    ghost function Queue(): (q: seq<Xfer>)
      reads `transferList
    {
      QueueOf(transferList)
    }

    ghost function State(): Eng
      reads this
    {
      Eng(Queue(), running, descDequeued)
    }

    /** The registers name the head's chain, and the engine runs. */
    ghost predicate RunsHead()
      reads this, regs
    {
      && transferList != [] && regs.run && regs.firstDesc == transferList[0].descBus
      && regs.firstDescAdjacent == Chain.FirstExtra(transferList[0].descAdjacent)
    }

    method Start() returns (transfer: Transfer)
      requires Valid()
      requires !running && transferList != []            // BUG_ON
      modifies this`running, this`descDequeued, this`shutdownRequest, this`shutdownIdle, regs
      ensures Valid() && transfer == transferList[0]
      ensures Done(State(), [], true) == EngineModel.Start(old(State()), [])
      ensures RunsHead() && regs.starts == old(regs.starts) + 1
      ensures !shutdownRequest && !shutdownIdle && regs.status == old(regs.status)
      ensures regs.completedDescCount == old(regs.completedDescCount)
    {
      transfer := transferList[0];
      shutdownRequest, shutdownIdle := false, false;
      descDequeued := 0;
      regs.firstDesc := transfer.descBus;
      var extraAdj := 0;
      if transfer.descAdjacent > 0 {
        extraAdj := transfer.descAdjacent - 1;
        if extraAdj > 15 {
          extraAdj := 15;
        }
      }
      regs.firstDescAdjacent := extraAdj;
      regs.run, regs.starts := true, regs.starts + 1;
      running := true;
    }

    method TransferQueue(transfer: Transfer) returns (rc: int)
      requires Valid() && !transfer.cyclic && transfer !in transferList
      requires transfer.descNum != 0                     // BUG_ON
      modifies this`transferList, this`running, this`descDequeued, this`shutdownRequest, this`shutdownIdle, regs,
        transfer`state
      ensures Valid()
      ensures rc == if old(shutdownRequest) then SHUT_DOWN else 0
      ensures shutdownRequest == old(shutdownRequest)
      ensures shutdownIdle == (old(shutdownIdle) && (old(shutdownRequest) || old(running)))
      ensures regs.status == old(regs.status) && regs.completedDescCount == old(regs.completedDescCount)
      ensures old(shutdownRequest) || old(running) ==>
                && regs.run == old(regs.run) && regs.firstDesc == old(regs.firstDesc)
                && regs.firstDescAdjacent == old(regs.firstDescAdjacent) && regs.starts == old(regs.starts)
      ensures old(shutdownRequest) ==>
                State() == old(State()) && transferList == old(transferList) && transfer.state == old(transfer.state)
      ensures !old(shutdownRequest) ==>
                && Done(State(), [], !old(running)) == Submit(old(State()), Xfer(transfer.id, transfer.descNum))
                && transferList == old(transferList) + [transfer] && transfer.state == SUBMITTED
                && (!old(running) ==> RunsHead())
                && regs.starts == old(regs.starts) + if old(running) then 0 else 1
    {
      if shutdownRequest {
        return SHUT_DOWN;
      }
      transfer.state := SUBMITTED;
      transferList := transferList + [transfer];
      assert Queue() == old(Queue()) + [Xfer(transfer.id, transfer.descNum)];
      if !running {
        var started := Start();
      }
      return 0;
    }

    /** engine_status_read(engine, 1): the latched flags clear on read, BUSY is live. */
    method StatusReadClear()
      modifies this`status, regs`status
      ensures status == old(regs.status) && regs.status == old(regs.status).(err := false)
    {
      status := regs.status;
      regs.status := regs.status.(err := false);
    }

    /** xdma_engine_stop: de-assert RUN. */
    method Stop()
      modifies regs`run
      ensures !regs.run
    {
      regs.run := false;
    }

    method ServiceShutdown()
      modifies this`running, regs`run
      ensures !running && !regs.run
    {
      Stop();
      running := false;
    }

    /** The transfers that lie wholly below descriptor count leave the queue, completed. */
    method ServiceTransferList(count: nat) returns (transfer: Transfer?, completed: nat)
      requires Valid()
      requires transferList != []                        // BUG_ON(!transfer)
      modifies this`transferList, this`descDequeued, transferList
      ensures Valid()
      ensures var k := Passed(old(Queue()), count, 0);
              && transferList == old(transferList)[k..]
              && Queue() == old(Queue())[k..]
              && descDequeued == old(descDequeued) + Cum(old(Queue()), k)
              && completed + Cum(old(Queue()), k) == count
              && transfer == (if k < |old(transferList)| then old(transferList)[k] else null)
              && (forall i :: 0 <= i < k ==> old(transferList)[i].state == COMPLETED)
              && (forall i :: k <= i < |old(transferList)| ==>
                   old(transferList)[i].state == old(transferList[i].state))
    {
      hide QueueOf, Distinct, Cum, Passed, Sweeping;
      ghost var was, queue, k := transferList, Queue(), 0;
      ListFacts(was);
      SweepStarts(queue, count);
      completed := count;
      transfer := transferList[0];
      while transfer != null && !transfer.cyclic && completed > transfer.descNum
        invariant k <= |was| && transferList == was[k..]
        invariant transfer == if k < |was| then was[k] else null
        invariant Sweeping(queue, count, k, completed) && descDequeued == old(descDequeued) + Cum(queue, k)
        invariant forall i :: 0 <= i < |was| ==> was[i].state == if i < k then COMPLETED else old(was[i].state)
        decreases |was| - k
      {
        SweepStep(queue, count, k, completed);
        completed := completed - transfer.descNum;
        transferList := transferList[1..];
        descDequeued := descDequeued + transfer.descNum;
        transfer.state := COMPLETED;
        k := k + 1;
        assert transferList == was[k..];
        transfer := if transferList != [] then transferList[0] else null;
      }
      SweepEnds(queue, count, k, completed);
      QueueOfDrop(was, k);
      DistinctDrop(was, k);
    }

    /** What the transfer the engine stopped on becomes; an error flag leaves it queued. */
    method ServiceFinalTransfer(transfer: Transfer, completed: nat)
      requires Valid() && transferList != [] && transfer == transferList[0]
      modifies this`transferList, this`descDequeued, transfer`state, regs`run
      ensures Valid()
      ensures status.err ==>
                && transferList == old(transferList) && descDequeued == old(descDequeued)
                && transfer.state == FAILED && !regs.run
      ensures !status.err ==>
                && transferList == old(transferList)[1..] && Queue() == old(Queue())[1..]
                && descDequeued == old(descDequeued) + transfer.descNum && regs.run == old(regs.run)
                && transfer.state == if completed < transfer.descNum then FAILED else COMPLETED
    {
      if status.err {
        transfer.state := FAILED;                        // engine_err_handle
        Stop();
        return;
      }
      transfer.state := if completed < transfer.descNum then FAILED else COMPLETED;
      transferList := transferList[1..];
      descDequeued := descDequeued + transfer.descNum;
      QueueOfDrop(old(transferList), 1);
    }

    /** The sweep and the transfer it stops on, number k, with count descriptors still to be accounted for. */
    method Retire(count: nat, ghost k: nat)
      requires Valid()
      requires k == Passed(Queue(), count, 0) < |transferList|
      modifies this`transferList, this`descDequeued, transferList, regs`run
      ensures Valid() && regs.run == (old(regs.run) && !status.err)
      ensures transferList == old(transferList)[if status.err then k else k + 1..]
      ensures Queue() == old(Queue())[if status.err then k else k + 1..]
      ensures descDequeued == old(descDequeued) + Cum(old(Queue()), k) + if status.err then 0 else old(Queue())[k].num
      ensures forall i :: 0 <= i < |old(transferList)| ==>
                old(transferList)[i].state ==
                  if i < k then COMPLETED
                  else if i > k then old(transferList[i].state)
                  else if status.err || count - Cum(old(Queue()), k) < old(Queue())[k].num then FAILED
                  else COMPLETED
    {
      hide Cum, Passed, QueueOf, Distinct;
      ghost var queue, list := Queue(), transferList;
      ListFacts(list);
      var transfer, completed := ServiceTransferList(count);
      ServiceFinalTransfer(transfer, completed);
      DropOne(queue, k);
      DropOne(list, k);
    }

    /** engine_service from the queue inspection to the restart. */
    method ServiceQueue(count: nat)
      requires Valid()
      requires Finish(State(), status, count).Done?                                // BUG_ON
      modifies this`transferList, this`descDequeued, transferList, regs`run
      ensures Valid() && regs.run == (old(regs.run) && !status.err)
      ensures
        var done := Finish(old(State()), status, count);
        && State() == done.eng
        && |done.retired| <= |old(transferList)|
        && transferList == old(transferList)[|done.retired|..]
        && (forall i :: 0 <= i < |done.retired| ==> old(transferList)[i].state == done.retired[i].state)
        && (status.err ==> transferList != [] && transferList[0].state == FAILED)
        && var n := |done.retired| + if status.err then 1 else 0;
           forall i :: n <= i < |old(transferList)| ==> old(transferList)[i].state == old(transferList[i].state)
    {
      hide Cum, Passed, Finish, QueueOf, Distinct;
      var pending := (count - descDequeued) % 0x1_0000_0000;
      ghost var k := Passed(Queue(), pending, 0);
      FinishShape(State(), status, count, k);
      Retire(pending, k);
    }

    method ServiceResume() returns (started: bool)
      requires Valid()
      modifies this`running, this`descDequeued, this`shutdownRequest, this`shutdownIdle, regs
      ensures Valid()
      ensures old(shutdownRequest) ==> State() == old(State()) && !started
      ensures shutdownRequest == old(shutdownRequest)
      ensures shutdownIdle == if old(running) then old(shutdownIdle)
                              else if old(shutdownRequest) then true else old(shutdownIdle) && !started
      ensures !old(shutdownRequest) ==> Done(State(), [], started) == Resume(old(State()), [])
      ensures regs.starts == old(regs.starts) + if started then 1 else 0
      ensures if started then RunsHead()
              else regs.run == old(regs.run) && regs.firstDesc == old(regs.firstDesc)
                   && regs.firstDescAdjacent == old(regs.firstDescAdjacent)
      ensures regs.status == old(regs.status) && regs.completedDescCount == old(regs.completedDescCount)
    {
      started := false;
      if !running {
        if shutdownRequest {
          shutdownIdle := true;
        } else if transferList != [] {
          var first := Start();
          started := true;
        }
      }
    }

    /** The status engine_service decides on: read now, unless the writeback replaces it. */
    ghost function StatusSeen(wbCount: nat, wbErr: bool): Status
      reads this, regs
    {
      if wbCount == 0 || wbErr then regs.status else status
    }

    /** engine_service on a running engine, behind the reading of the status. */
    method ServiceRunning(wbCount: nat) returns (started: bool)
      requires Valid() && running
      requires EngineModel.Service(State(), status, !status.busy || wbCount != 0,
                                   if wbCount == 0 then regs.completedDescCount else wbCount).Done?
      modifies this`transferList, this`running, this`descDequeued, this`shutdownRequest, this`shutdownIdle,
        this`writeback, regs, transferList
      ensures Valid()
      ensures started ==> RunsHead()
      ensures writeback == if pollMode then 0 else old(writeback)
      ensures regs.starts == old(regs.starts) + if started then 1 else 0
      ensures regs.status == old(regs.status) && regs.completedDescCount == old(regs.completedDescCount)
      ensures shutdownRequest == old(shutdownRequest)
      ensures shutdownIdle == if running && !started then old(shutdownIdle)
                              else old(shutdownRequest) || (old(shutdownIdle) && !started)
      ensures !started ==>
                regs.firstDesc == old(regs.firstDesc) && regs.firstDescAdjacent == old(regs.firstDescAdjacent)
      ensures
        var before, stopped := old(State()), !status.busy || wbCount != 0;
        var count := if wbCount == 0 then old(regs.completedDescCount) else wbCount;
        var done := EngineModel.Service(before, status, stopped, count);
        var n := |done.retired| + if status.err then 1 else 0;
        && |done.retired| <= |old(transferList)|
        && transferList == old(transferList)[|done.retired|..]
        && (forall i :: 0 <= i < |done.retired| ==> old(transferList)[i].state == done.retired[i].state)
        && (status.err ==> transferList != [] && transferList[0].state == FAILED)
        && (forall i :: n <= i < |old(transferList)| ==> old(transferList)[i].state == old(transferList[i].state))
        && (!old(shutdownRequest) ==> done == Done(State(), done.retired, started))
        && (old(shutdownRequest) ==> !started && State() == Waiting(before, status, stopped, count))
        && (!started ==> regs.run == (old(regs.run) && !status.err && !stopped))
    {
      hide QueueOf, Queue, Finish, Distinct;
      if !status.busy || wbCount != 0 {
        ServiceShutdown();
      }
      var count := if wbCount == 0 then regs.completedDescCount else wbCount;
      ServiceQueue(count);
      if pollMode {
        writeback := 0;
      }
      started := ServiceResume();
    }

    /** engine_service with the count and error bit of desc_writeback; both zero in interrupt mode. Only the transfers
        that leave the queue, and the one that an error flag finds at its head, change their state. */
    method Service(wbCount: nat, wbErr: bool) returns (rc: int, started: bool)
      requires Valid() && wbCount <= 0xffffff
      requires EngineModel.Service(State(), StatusSeen(wbCount, wbErr),
                                   !StatusSeen(wbCount, wbErr).busy || wbCount != 0,
                                   if wbCount == 0 then regs.completedDescCount else wbCount).Done?   // BUG_ON
      modifies this, regs, transferList
      ensures Valid()
      ensures rc == if wbErr && old(running) then WB_ERR else 0
      ensures started ==> RunsHead()
      ensures writeback == if old(running) && pollMode then 0 else old(writeback)
      ensures regs.starts == old(regs.starts) + if started then 1 else 0
      ensures regs.completedDescCount == old(regs.completedDescCount)
      ensures var read := if old(running) then wbCount == 0 || wbErr else wbCount == 0 && !wbErr;
        && status == (if read then old(regs.status) else old(status))
        && regs.status == if read then old(regs.status).(err := false) else old(regs.status)
      ensures
        var seen, before := if wbCount == 0 || wbErr then old(regs.status) else old(status), old(State());
        var stopped := !seen.busy || wbCount != 0;
        var count := if wbCount == 0 then old(regs.completedDescCount) else wbCount;
        var done := EngineModel.Service(before, seen, stopped, count);
        && |done.retired| <= |old(transferList)|
        && transferList == old(transferList)[|done.retired|..]
        && (forall i :: 0 <= i < |done.retired| ==> old(transferList)[i].state == done.retired[i].state)
        && (old(running) && seen.err ==> transferList != [] && transferList[0].state == FAILED)
        && (var n := |done.retired| + if old(running) && seen.err then 1 else 0;
            forall i :: n <= i < |old(transferList)| ==> old(transferList)[i].state == old(transferList[i].state))
        && (!old(shutdownRequest) ==> done == Done(State(), done.retired, started))
        && (old(shutdownRequest) ==> !started && State() == Waiting(before, seen, stopped, count))
        && (!started ==> regs.run == (old(regs.run) && !(old(running) && (seen.err || stopped))))
      ensures !started ==>
                regs.firstDesc == old(regs.firstDesc) && regs.firstDescAdjacent == old(regs.firstDescAdjacent)
      ensures shutdownRequest == old(shutdownRequest)
      ensures shutdownIdle == if !old(running) || (running && !started) then old(shutdownIdle)
                              else old(shutdownRequest) || (old(shutdownIdle) && !started)
    {
      hide QueueOf, Queue, Finish, Distinct, EngineModel.Service, RunsHead, Waiting;
      if !running {
        if wbCount == 0 && !wbErr {
          StatusReadClear();
        }
        assert old(transferList)[0..] == transferList;
        NotRunning(old(State()), old(StatusSeen(wbCount, wbErr)), !old(StatusSeen(wbCount, wbErr)).busy || wbCount != 0,
                   if wbCount == 0 then regs.completedDescCount else wbCount);
        return 0, false;
      }
      rc := if wbErr then WB_ERR else 0;
      ghost var seen := StatusSeen(wbCount, wbErr);
      if wbCount == 0 || wbErr {
        StatusReadClear();
      }
      assert status == seen;
      started := ServiceRunning(wbCount);
    }
  }
}
