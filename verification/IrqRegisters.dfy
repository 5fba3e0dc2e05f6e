/**
  The interrupt controller's registers behind the runs of Protocol.dfy: the channel enable mask, changed by
  writing ones to its set and clear addresses, and the request word that the interrupt handler reads. The
  sets of engines used there are what these words show.
 */
module IrqRegisters {
  import opened EngineModel
  import opened Protocol
  import opened Words

  // ----- the words -----

  /** irq_bitmask: engine n of a device gets the n-th bit. */
  function IrqMask(n: bv5): bv32 {
    1 << (n as bv32)
  }

  function And(v: bv32, w: bv32): bv32 { v & w }

  /** A register after a write of ones to its set address, to its clear address. */
  function WriteSet(reg: bv32, ones: bv32): bv32 { reg | ones }
  function WriteClear(reg: bv32, ones: bv32): bv32 { reg & !ones }

  /** The interrupt handler's test. */
  predicate Test(w: bv32, n: bv5) {
    And(w, IrqMask(n)) != 0
  }

  lemma OneBit(w: bv32, n: bv5)
    ensures IrqMask(n) != 0 && (And(w, IrqMask(n)) == 0 || And(w, IrqMask(n)) == IrqMask(n))
  {
  }

  lemma MasksDisjoint(m: bv5, n: bv5)
    requires m != n
    ensures And(IrqMask(m), IrqMask(n)) == 0
  {
  }

  // Bits do not meet: what a write does to one mask's bits depends on those bits only.

  lemma SetDistributes(v: bv32, w: bv32, m: bv32)
    ensures And(WriteSet(v, w), m) == WriteSet(And(v, m), And(w, m))
  {
    calc {
      And(WriteSet(v, w), m);
      And(v | w, m);
      (v | w) & m;
      (v & m) | (w & m);
      WriteSet(v & m, w & m);
      WriteSet(And(v, m), And(w, m));
    }
  }

  lemma ClearDistributes(v: bv32, w: bv32, m: bv32)
    ensures And(WriteClear(v, w), m) == WriteClear(And(v, m), And(w, m))
  {
    calc {
      And(WriteClear(v, w), m);
      And(v & !w, m);
      (v & !w) & m;
      (v & m) & !(w & m);
      WriteClear(v & m, w & m);
      WriteClear(And(v, m), And(w, m));
    }
  }

  lemma AndDistributes(v: bv32, w: bv32, m: bv32)
    ensures And(And(v, w), m) == And(And(v, m), And(w, m))
  {
    calc {
      And(And(v, w), m);
      And(v & w, m);
      (v & w) & m;
      (v & m) & (w & m);
      And(v & m, w & m);
      And(And(v, m), And(w, m));
    }
  }

  lemma Corners(m: bv32)
    ensures WriteSet(0, m) == WriteSet(m, 0) == WriteSet(m, m) == m
    ensures WriteClear(m, 0) == m && WriteClear(0, m) == WriteClear(m, m) == 0
    ensures And(0, m) == And(m, 0) == 0 && And(m, m) == And(0xFFFF_FFFF, m) == m
  {
  }

  /** A bit of the registers: set or clear by ones writes it where the ones have it, and nowhere else. */
  lemma TestOf(v: bv32, w: bv32, n: bv5)
    ensures Test(And(v, w), n) <==> Test(v, n) && Test(w, n)
    ensures Test(WriteSet(v, w), n) <==> Test(v, n) || Test(w, n)
    ensures Test(WriteClear(v, w), n) <==> Test(v, n) && !Test(w, n)
    ensures Test(0xFFFF_FFFF, n) && !Test(0, n)
  {
    hide IrqMask, And, WriteSet, WriteClear;
    OneBit(v, n);
    OneBit(w, n);
    SetDistributes(v, w, IrqMask(n));
    ClearDistributes(v, w, IrqMask(n));
    AndDistributes(v, w, IrqMask(n));
    Corners(IrqMask(n));
    Corners(0);
  }

  lemma TestOfMask(m: bv5, n: bv5)
    ensures Test(IrqMask(m), n) <==> m == n
  {
    hide IrqMask, And;
    OneBit(0, n);
    Corners(IrqMask(n));
    if m != n {
      MasksDisjoint(m, n);
    }
  }

  /** Masking or unmasking one engine's bit leaves every other engine's bit alone. */
  lemma IrqMasksDisjoint(enabled: bv32, m: bv5, n: bv5)
    ensures Test(WriteSet(enabled, IrqMask(m)), n) <==> m == n || Test(enabled, n)
    ensures Test(WriteClear(enabled, IrqMask(m)), n) <==> m != n && Test(enabled, n)
  {
    hide IrqMask, WriteSet, WriteClear, Test;
    TestOf(enabled, IrqMask(m), n);
    TestOfMask(m, n);
  }

  // ----- words as sets of engines -----

  function Index(e: nat): (n: bv5)
    requires e < 32
    ensures n as nat == e
  {
    e as bv5
  }

  predicate Bit(w: bv32, e: nat)
    requires e < 32
  {
    Test(w, Index(e))
  }

  /** The engines, among the first n, whose bit is set. */
  function Shown(w: bv32, n: nat): (r: set<nat>)
    requires n <= 32
  {
    set e: nat | 0 <= e < n && Bit(w, e)
  }

  /** The and shows the intersection; a write of ones adds or removes what the ones show. */
  lemma ShownBy(v: bv32, w: bv32, n: nat)
    requires n <= 32
    ensures Shown(And(v, w), n) == Shown(v, n) * Shown(w, n)
    ensures Shown(WriteSet(v, w), n) == Shown(v, n) + Shown(w, n)
    ensures Shown(WriteClear(v, w), n) == Shown(v, n) - Shown(w, n)
    ensures Shown(0xFFFF_FFFF, n) == Below(n) && Shown(0, n) == {}
  {
    hide And, WriteSet, WriteClear, Test, Index;
    forall e: nat | e < n
      ensures Bit(And(v, w), e) <==> Bit(v, e) && Bit(w, e)
      ensures Bit(WriteSet(v, w), e) <==> Bit(v, e) || Bit(w, e)
      ensures Bit(WriteClear(v, w), e) <==> Bit(v, e) && !Bit(w, e)
      ensures Bit(0xFFFF_FFFF, e) && !Bit(0, e)
    {
      TestOf(v, w, Index(e));
    }
  }

  /** An engine's mask shows that engine only. */
  lemma ShownMask(e: nat, n: nat)
    requires e < n <= 32
    ensures Shown(IrqMask(Index(e)), n) == {e}
  {
    hide IrqMask, Test, Index;
    forall f: nat | f < n
      ensures Bit(IrqMask(Index(e)), f) <==> f == e
    {
      TestOfMask(Index(e), Index(f));
    }
  }

  // ----- the device with its registers -----

  /** enable: the enable mask register; latch: the request word the handler has read. */
  datatype Device = Device(chans: seq<Chan>, enable: bv32, latch: Option<bv32>)

  /** The request lines of the first n engines. */
  function RequestLines(chans: seq<Chan>, n: nat): bv32
    requires n <= |chans| && n <= 32
  {
    if n == 0 then 0
    else if chans[n - 1].request then WriteSet(RequestLines(chans, n - 1), IrqMask(Index(n - 1)))
    else RequestLines(chans, n - 1)
  }

  /** channel_int_request. */
  function RequestWord(gated: bool, d: Device): bv32
    requires |d.chans| <= 32
  {
    var lines := RequestLines(d.chans, |d.chans|);
    if gated then And(lines, d.enable) else lines
  }

  /** The device comes up with all channel interrupts enabled. */
  function Up(n: nat): Device {
    Device(seq(n, i => FRESH), 0xFFFF_FFFF, None)
  }

  function Unmasked(enable: bv32, e: nat): bv32
    requires e < 32
  {
    WriteSet(enable, IrqMask(Index(e)))
  }

  /** The handler clears in the enable mask what it has read, and schedules the work of every engine whose
      mask meets it; an engine's work ends by setting the engine's own mask. */
  function Step(gated: bool, d: Device, a: Action): Option<Device>
    requires |d.chans| <= 32
  {
    match a
    case IsrRead =>
      if d.latch.Some? then None else Some(d.(latch := Some(RequestWord(gated, d))))
    case IsrMask =>
      if d.latch.None? then None
      else
        Some(Device(seq(|d.chans|, i requires 0 <= i < |d.chans| =>
                      if Bit(d.latch.value, i) then d.chans[i].(pending := true) else d.chans[i]),
                    WriteClear(d.enable, d.latch.value), None))
    case _ =>
      if a.e >= |d.chans| then None
      else
        match Local(d.chans[a.e], a)
        case None => None
        case Some(c) =>
          Some(d.(chans := d.chans[a.e := c], enable := if a.WorkEnd? then Unmasked(d.enable, a.e) else d.enable))
  }

  function Run(gated: bool, d: Device, run: seq<Action>, n: nat): (r: Option<Device>)
    requires n <= |run| && |d.chans| <= 32
    ensures r.Some? ==> |r.value.chans| == |d.chans|
  {
    if n == 0 then Some(d)
    else match Run(gated, d, run, n - 1)
      case None => None
      case Some(t) => Step(gated, t, run[n - 1])
  }

  // ----- the registers implement the sets -----

  function Sets(d: Device): Sys
    requires |d.chans| <= 32
  {
    Sys(d.chans, Shown(d.enable, |d.chans|),
        if d.latch.Some? then Some(Shown(d.latch.value, |d.chans|)) else None)
  }

  lemma {:induction false} LinesShow(chans: seq<Chan>, n: nat, m: nat)
    requires n <= |chans| && n <= m <= 32
    ensures Shown(RequestLines(chans, n), m) == set e: nat | 0 <= e < n && chans[e].request
  {
    hide Shown, IrqMask, WriteSet;
    if n > 0 {
      LinesShow(chans, n - 1, m);
      ShownBy(RequestLines(chans, n - 1), IrqMask(Index(n - 1)), m);
      ShownMask(n - 1, m);
    } else {
      ShownBy(0, 0, m);
    }
  }

  lemma RequestsShow(gated: bool, d: Device)
    requires |d.chans| <= 32
    ensures Shown(RequestWord(gated, d), |d.chans|) == Requests(gated, Sets(d))
  {
    hide Shown, RequestLines, And;
    var n := |d.chans|;
    LinesShow(d.chans, n, n);
    ShownBy(RequestLines(d.chans, n), d.enable, n);
  }

  /** A step on the registers is the step on the sets they show: the same actions are possible, and the
      results agree. */
  ghost predicate Refines(gated: bool, d: Device, a: Action)
    requires |d.chans| <= 32
  {
    Next(gated, Sets(d), a) == match Step(gated, d, a) case None => None case Some(t) => Some(Sets(t))
  }

  lemma ReadRefines(gated: bool, d: Device)
    requires |d.chans| <= 32
    ensures Refines(gated, d, IsrRead)
  {
    hide Shown, RequestWord, Requests;
    RequestsShow(gated, d);
  }

  lemma MaskRefines(gated: bool, d: Device)
    requires |d.chans| <= 32
    ensures Refines(gated, d, IsrMask)
  {
    hide WriteClear, Test;
    if d.latch.Some? {
      ShownBy(d.enable, d.latch.value, |d.chans|);
      assert Next(gated, Sets(d), IsrMask).value.chans == Step(gated, d, IsrMask).value.chans;
    }
  }

  lemma WorkRefines(gated: bool, d: Device, a: Action)
    requires |d.chans| <= 32 && !a.IsrRead? && !a.IsrMask?
    ensures Refines(gated, d, a)
  {
    hide Local, IrqMask, WriteSet, Shown;
    if a.e < |d.chans| {
      ShownBy(d.enable, IrqMask(Index(a.e)), |d.chans|);
      ShownMask(a.e, |d.chans|);
    }
  }

  /** That holds of every action. */
  lemma StepRefines(gated: bool, d: Device, a: Action)
    requires |d.chans| <= 32
    ensures Next(gated, Sets(d), a)
         == match Step(gated, d, a) case None => None case Some(t) => Some(Sets(t))
  {
    hide Next, Step, Sets;
    if a.IsrRead? {
      ReadRefines(gated, d);
    } else if a.IsrMask? {
      MaskRefines(gated, d);
    } else {
      WorkRefines(gated, d, a);
    }
  }

  lemma {:induction false} RunRefines(gated: bool, d: Device, run: seq<Action>, n: nat)
    requires |d.chans| <= 32 && n <= |run|
    ensures Exec(gated, Sets(d), run, n)
         == match Run(gated, d, run, n) case None => None case Some(t) => Some(Sets(t))
  {
    hide Next, Step, Sets;
    if n > 0 {
      RunRefines(gated, d, run, n - 1);
      if Run(gated, d, run, n - 1).Some? {
        StepRefines(gated, Run(gated, d, run, n - 1).value, run[n - 1]);
      }
    }
  }

  /** Main result: so the device with its registers is safe in every run, and bit e of the enable mask is down
      exactly while work of engine e is pending or running. */
  lemma RegisterRunsAreSafe(n: nat, run: seq<Action>)
    requires n <= 32 && Run(true, Up(n), run, |run|).Some?
    ensures var d := Run(true, Up(n), run, |run|).value;
      forall e :: 0 <= e < n ==> SafeChan(d.chans[e]) && NothingLost(d.chans[e], Bit(d.enable, e))
  {
    hide Run, Exec, SafeChan, NothingLost, Test;
    ShownBy(0, 0, n);
    assert Sets(Up(n)) == Init(n);
    RunRefines(true, Up(n), run, |run|);
    RunsAreSafe(n, run);
  }

  /** Only the end of an engine's own work raises its bit. */
  lemma OnlyOwnWorkUnmasks(gated: bool, d: Device, a: Action, e: nat)
    requires |d.chans| <= 32 && e < 32 && Step(gated, d, a).Some?
    requires !Bit(d.enable, e) && Bit(Step(gated, d, a).value.enable, e)
    ensures a == WorkEnd(e)
  {
    hide Local, IrqMask, WriteSet, WriteClear, RequestWord, Test, Index;
    if a.IsrMask? {
      TestOf(d.enable, d.latch.value, Index(e));
    } else if a.WorkEnd? {
      IrqMasksDisjoint(d.enable, Index(a.e), Index(e));
    }
  }
}
