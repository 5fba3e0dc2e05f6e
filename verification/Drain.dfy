/**
  Nothing waits for ever: from any reachable state, every run of the hardware, the handler and the
  work items - in any order - is bounded, and it can only come to rest with every queue empty and
  every submitted transfer completed.
 */
module Drain {
  import opened EngineModel
  import opened Words
  import opened Protocol

  /** An action that is not a new submission, nor an interrupt that finds nothing to do. */
  ghost predicate Useful(s: Sys, a: Action) {
    !a.Submit? && (a.IsrRead? ==> Requests(true, s) != {})
  }

  /** How far the work item is from its next visit to engine_service. */
  function Stage(c: Chan, latched: bool): nat {
    match c.phase
    case Served => 7
    case Locked(_) => 1
    case Entered => 2
    case Idle => if c.pending then 3 else if latched then 4 else 6
  }

  /** The descriptors not yet executed, the transfers not yet retired, and the stage. */
  function Left(c: Chan, latched: bool): int {
    10 * (Cum(c.eng.queue, |c.eng.queue|) - (if c.eng.running then c.count else 0) + |c.eng.queue|) + Stage(c, latched)
  }

  function Latched(s: Sys, e: nat): bool {
    s.latch.Some? && e in s.latch.value
  }

  /** The sum over the first n engines. */
  function LeftUpTo(s: Sys, n: nat): int
    requires n <= |s.chans|
  {
    if n == 0 then 0 else LeftUpTo(s, n - 1) + Left(s.chans[n - 1], Latched(s, n - 1))
  }

  /** Drops with every useful step. */
  function Measure(s: Sys): int {
    LeftUpTo(s, |s.chans|) + if s.latch.Some? then 1 else 0
  }

  // ----- one engine -----

  lemma LeftNat(c: Chan, enabled: bool, latched: bool)
    requires ChanInv(c, enabled, latched)
    ensures Left(c, latched) >= 1
  {
    if c.eng.running {
      assert c.current == c.eng.queue[0] && c.count <= c.current.num;
      CumMonotone(c.eng.queue, 1, |c.eng.queue|);
    }
  }

  /** Every step of one engine's hardware or work item brings it nearer. */
  lemma LocalDescends(c: Chan, a: Action, enabled: bool, latched: bool)
    requires ChanInv(c, enabled, latched) && !a.Submit? && Local(c, a).Some?
    ensures Left(Local(c, a).value, latched) < Left(c, latched)
  {
    if a.WorkService? {
      ServiceAdvances(c, enabled, latched);
      RetireDescends(c, enabled, latched);
    }
  }

  lemma RetireDescends(c: Chan, enabled: bool, latched: bool)
    requires ChanInv(c, enabled, latched) && c.phase.Locked? && c.eng.queue != []
    ensures Left(NextHead(c), latched) < Left(c, latched)
  {
    var q := c.eng.queue;
    CumDrop(q, 1, |q|);
    assert q[0] == Xfer(|c.retired|, c.nums[|c.retired|]);
  }

  // ----- the device -----

  lemma {:induction false} SumDescends(s: Sys, t: Sys, n: nat, e: nat, drop: nat)
    requires n <= |s.chans| == |t.chans|
    requires forall i :: 0 <= i < n ==>
               Left(t.chans[i], Latched(t, i)) <= Left(s.chans[i], Latched(s, i)) - if i == e then drop else 0
    ensures LeftUpTo(t, n) <= LeftUpTo(s, n) - if e < n then drop else 0
  {
    hide Left, Latched;
    if n > 0 {
      SumDescends(s, t, n - 1, e, drop);
    }
  }

  lemma {:induction false} SumNat(s: Sys, n: nat)
    requires Inv(s) && n <= |s.chans|
    ensures LeftUpTo(s, n) >= n
  {
    hide Left, ChanInv;
    if n > 0 {
      SumNat(s, n - 1);
      LeftNat(s.chans[n - 1], n - 1 in s.enabled, Latched(s, n - 1));
    }
  }

  lemma MeasureNat(s: Sys)
    requires Inv(s)
    ensures Measure(s) >= 0
  {
    SumNat(s, |s.chans|);
  }

  lemma IsrReadDescends(c: Chan, enabled: bool)
    requires ChanInv(c, enabled, false) && c.request && enabled
    ensures Left(c, true) == Left(c, false) - 2
  {
  }

  lemma IsrMaskDescends(c: Chan, enabled: bool)
    requires ChanInv(c, enabled, true)
    ensures Left(c.(pending := true), false) < Left(c, true)
  {
  }

  lemma StepDescends(s: Sys, a: Action)
    requires Inv(s) && Next(true, s, a).Some? && Useful(s, a)
    ensures Measure(Next(true, s, a).value) < Measure(s)
  {
    var t, n := Next(true, s, a).value, |s.chans|;
    if a.IsrRead? {
      var e :| e in Requests(true, s);
      forall i | 0 <= i < n
        ensures Left(t.chans[i], Latched(t, i)) <= Left(s.chans[i], Latched(s, i)) - if i == e then 2 else 0
      {
        if i in t.latch.value {
          IsrReadDescends(s.chans[i], true);
        }
      }
      SumDescends(s, t, n, e, 2);
    } else if a.IsrMask? {
      forall i | 0 <= i < n
        ensures Left(t.chans[i], Latched(t, i)) <= Left(s.chans[i], Latched(s, i)) - if i == n then 1 else 0
      {
        if i in s.latch.value {
          IsrMaskDescends(s.chans[i], i in s.enabled);
        }
      }
      SumDescends(s, t, n, n, 1);
    } else {
      LocalDescends(s.chans[a.e], a, a.e in s.enabled, Latched(s, a.e));
      SumDescends(s, t, n, a.e, 1);
    }
  }

  /** While a transfer is queued, the hardware, the handler or a work item has something to do. */
  lemma SomethingToDo(s: Sys, e: nat) returns (a: Action)
    requires Inv(s) && e < |s.chans| && s.chans[e].eng.queue != []
    ensures Useful(s, a) && Next(true, s, a).Some?
  {
    var c := s.chans[e];
    assert ChanInv(c, e in s.enabled, Latched(s, e));
    assert c.eng.queue[0] == Xfer(|c.retired|, c.nums[|c.retired|]);
    match c.phase {
      case Locked(_) => a := WorkService(e);
      case Served => a := WorkEnd(e);
      case Entered => a := WorkLock(e);
      case Idle =>
        if c.busy {
          a := HwDesc(e);
        } else if c.pending {
          a := WorkEntry(e);
        } else if s.latch.Some? {
          a := IsrMask;
        } else {
          assert e in Requests(true, s);
          a := IsrRead;
        }
    }
  }

  // ----- runs -----

  /** A run from s without submissions and without idle interrupts. */
  ghost predicate Quiet(s: Sys, run: seq<Action>) {
    forall i :: 0 <= i < |run| ==> Exec(true, s, run, i).Some? && Useful(Exec(true, s, run, i).value, run[i])
  }

  lemma {:induction false} QuietDescends(s: Sys, run: seq<Action>, n: nat)
    requires Inv(s) && n <= |run| && Quiet(s, run) && Exec(true, s, run, n).Some?
    ensures Inv(Exec(true, s, run, n).value) && Measure(Exec(true, s, run, n).value) <= Measure(s) - n
  {
    hide Inv, Next, Measure, Useful;
    if n > 0 {
      QuietDescends(s, run, n - 1);
      var t := Exec(true, s, run, n - 1).value;
      StepKeeps(t, run[n - 1]);
      StepDescends(t, run[n - 1]);
    }
  }

  lemma QuietSubmitsNothing(s: Sys, a: Action, e: nat)
    requires e < |s.chans| && !a.Submit? && Next(true, s, a).Some?
    ensures |Next(true, s, a).value.chans| == |s.chans| && Next(true, s, a).value.chans[e].nums == s.chans[e].nums
  {
    hide Service;
  }

  lemma {:induction false} QuietKeepsNums(s: Sys, run: seq<Action>, n: nat, e: nat)
    requires n <= |run| && Quiet(s, run) && Exec(true, s, run, n).Some? && e < |s.chans|
    ensures |Exec(true, s, run, n).value.chans| == |s.chans|
    ensures Exec(true, s, run, n).value.chans[e].nums == s.chans[e].nums
  {
    hide Next;
    if n > 0 {
      QuietKeepsNums(s, run, n - 1, e);
      QuietSubmitsNothing(Exec(true, s, run, n - 1).value, run[n - 1], e);
    }
  }

  /** No useful step is left. */
  ghost predicate AtRest(t: Sys) {
    forall a :: Useful(t, a) ==> Next(true, t, a).None?
  }

  /** Every transfer that was submitted by s has been completed in t, in order. */
  ghost predicate Drained(s: Sys, t: Sys) {
    && |t.chans| == |s.chans|
    && forall e :: 0 <= e < |s.chans| ==>
         && t.chans[e].eng.queue == [] && |t.chans[e].retired| == |s.chans[e].nums|
         && forall i :: 0 <= i < |t.chans[e].retired| ==> t.chans[e].retired[i] == Retired(i, COMPLETED)
  }

  lemma RestIsEmpty(t: Sys, e: nat)
    requires Inv(t) && AtRest(t) && e < |t.chans|
    ensures t.chans[e].eng.queue == []
  {
    hide Next, Useful, Inv;
    if t.chans[e].eng.queue != [] {
      var a := SomethingToDo(t, e);
      assert false;
    }
  }

  lemma EmptyIsDrained(s: Sys, t: Sys)
    requires Inv(t) && |t.chans| == |s.chans|
    requires forall e :: 0 <= e < |s.chans| ==> t.chans[e].eng.queue == [] && t.chans[e].nums == s.chans[e].nums
    ensures Drained(s, t)
  {
    hide Progress;
  }

  lemma SizeKept(s: Sys, run: seq<Action>, n: nat)
    requires n <= |run| && Quiet(s, run) && Exec(true, s, run, n).Some?
    ensures |Exec(true, s, run, n).value.chans| == |s.chans|
  {
    if n > 0 {
      SizeKept(s, run, n - 1);
    }
  }

  /** Main result: after any run of the device, a quiet run takes at most Measure steps; and where no
      useful step is left, every transfer that was ever submitted has been completed. */
  lemma QuietRunsDrain(n: nat, before: seq<Action>, s: Sys, run: seq<Action>, t: Sys)
    requires Exec(true, Init(n), before, |before|) == Some(s)
    requires Quiet(s, run) && Exec(true, s, run, |run|) == Some(t)
    ensures |run| <= Measure(s)
    ensures AtRest(t) ==> Drained(s, t)
  {
    hide Inv, Next, Useful, Measure, AtRest, Drained;
    ReachableInv(n, before, |before|);
    QuietDescends(s, run, |run|);
    MeasureNat(t);
    SizeKept(s, run, |run|);
    if AtRest(t) {
      forall e | 0 <= e < |s.chans|
        ensures t.chans[e].eng.queue == [] && t.chans[e].nums == s.chans[e].nums
      {
        QuietKeepsNums(s, run, |run|, e);
        RestIsEmpty(t, e);
      }
      EmptyIsDrained(s, t);
    }
  }
}
