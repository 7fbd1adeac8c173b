/**
 The firmware's boot sequence and main loop. The device state is the status
 table and the remembered button level; host reports arrive between loop
 iterations and change the table through the endpoint 2 handler.
 */
module Firmware {
  import opened Types
  import opened Events
  import opened StatusTable
  import opened Strip
  import opened Keyboard
  import opened Button
  import opened Hid

  /** Length of one main-loop iteration, and the time each sweep counts down. */
  const LoopDelayMs: uint16 := 20

  datatype Device = Device(table: Table, buttonLast: bool)

  /** The boot colour: full red, a third of full green, no blue. `neoMax` is
      the strip driver's full brightness. */
  function BootSlot(neoMax: uint8): Slot {
    Slot(neoMax, neoMax / 3, 0, StatusTimeoutMs)
  }

  /** The clearing loop at boot: whatever the table held, every slot ends up
      switched off. */
  method ClearAll(t: Table) returns (t': Table)
    ensures t' == AllOff
  {
    t' := t;
    for i := 0 to LedCount
      invariant forall j :: 0 <= j < i ==> t'[j] == OffSlot
    {
      t' := Clear(t', i);
    }
  }

  /** The device once boot has set slot 0 to the boot colour. */
  function Boot(neoMax: uint8): (dev: Device)
    ensures dev.table[0] == BootSlot(neoMax)
    ensures forall i :: 1 <= i < LedCount ==> dev.table[i] == OffSlot
    ensures !dev.buttonLast
    ensures Valid(dev.table)
  {
    Device(Set(AllOff, 0, neoMax, neoMax / 3, 0), false)
  }

  /** The boot frame puts the boot colour on pixel 0 and leaves the other
      pixels black. */
  lemma BootFrameShowsBootColour(neoMax: uint8)
    ensures ShownColours(Frame(Boot(neoMax).table))
         == [Colour(neoMax, neoMax / 3, 0)] + seq(LedCount - 1, _ => Colour(0, 0, 0))
  {
    FrameShowsTable(Boot(neoMax).table);
  }

  /** The device state after one main-loop iteration with the button pin at
      `pinHigh`: the button level is remembered and the table swept once. The
      pin is pulled up, so a pressed button reads low. */
  function Iterate(dev: Device, pinHigh: bool): (dev': Device)
    ensures dev'.buttonLast == !pinHigh
    ensures dev'.table == Tick(dev.table, LoopDelayMs)
    ensures Valid(dev.table) ==> Valid(dev'.table)
  {
    Device(Tick(dev.table, LoopDelayMs), ButtonStep(dev.buttonLast, !pinHigh).last)
  }

  /** The events that close every main-loop iteration: the loop delay, then
      the watchdog reset. */
  const LoopTail: seq<Event> := [Delay(LoopDelayMs as nat), WatchdogReset]

  /** Number of events from the start of the frame to the end of an
      iteration: the frame (interrupts off, ten writes, interrupts on, latch)
      and the loop tail. */
  const FrameAndTailLen: nat := LedCount + 5

  /** The events of one main-loop iteration that polled the button (`fire`
      when it saw a press) and swept the table to `table`: the whole macro
      first if it fired, then the frame of the swept table, then the loop
      delay and the watchdog reset. */
  function LoopTrace(fire: bool, table: Table): (tr: seq<Event>)
    ensures Presses(tr) == (if fire then [LeftCtrl, LeftAlt, Delete] else [])
    ensures Releases(tr) == (if fire then [Delete, LeftAlt, LeftCtrl] else [])
    ensures ShownColours(tr) == Colours(table)
    ensures forall i, j :: 0 <= i < j < |tr| && tr[j].IsKey() ==> !tr[i].WriteColor?
    ensures |tr| == (if fire then |CtrlAltDel| else 0) + FrameAndTailLen
    ensures fire ==> tr[..|CtrlAltDel|] == CtrlAltDel
    ensures tr[|tr| - FrameAndTailLen..] == Frame(table) + LoopTail
  {
    var macro := if fire then CtrlAltDel else [];
    var rest := Frame(table) + LoopTail;
    CtrlAltDelKeys();
    CtrlAltDelWritesNoPixel();
    FrameAndTailHaveNoKeys(table);
    MacroThenRestKeys(fire, macro, rest);
    KeysBeforeWrites(macro, rest);
    LoopTraceShows(macro, table);
    LoopTraceShape(macro, table);
    macro + Frame(table) + LoopTail
  }

  lemma LoopTraceShape(macro: seq<Event>, table: Table)
    ensures macro + Frame(table) + LoopTail == macro + (Frame(table) + LoopTail)
    ensures |macro + Frame(table) + LoopTail| == |macro| + FrameAndTailLen
    ensures (macro + Frame(table) + LoopTail)[..|macro|] == macro
    ensures (macro + Frame(table) + LoopTail)[|macro|..] == Frame(table) + LoopTail
  {
    assert macro + Frame(table) + LoopTail == macro + (Frame(table) + LoopTail);
  }

  lemma LoopTraceShows(macro: seq<Event>, table: Table)
    requires macro == [] || macro == CtrlAltDel
    ensures ShownColours(macro + Frame(table) + LoopTail) == Colours(table)
  {
    CtrlAltDelWritesNoPixel();
    ShownColoursAppend(macro + Frame(table), LoopTail);
    ShownColoursAppend(macro, Frame(table));
    ShownColoursNoWrites(macro);
    ShownColoursNoWrites(LoopTail);
    FrameShowsTable(table);
  }

  /** The macro followed by events with no key among them presses and
      releases exactly the macro's keys. */
  lemma MacroThenRestKeys(fire: bool, macro: seq<Event>, rest: seq<Event>)
    requires macro == (if fire then CtrlAltDel else [])
    requires forall k :: 0 <= k < |rest| ==> !rest[k].IsKey()
    ensures Presses(macro + rest) == (if fire then [LeftCtrl, LeftAlt, Delete] else [])
    ensures Releases(macro + rest) == (if fire then [Delete, LeftAlt, LeftCtrl] else [])
  {
    CtrlAltDelKeys();
    NoKeysNoPressesOrReleases(rest);
    PressesAppend(macro, rest);
    ReleasesAppend(macro, rest);
  }

  /** When `a` writes no pixel and `b` holds no key event, every key event of
      `a + b` comes before every pixel write. */
  lemma KeysBeforeWrites(a: seq<Event>, b: seq<Event>)
    requires forall k :: 0 <= k < |a| ==> !a[k].WriteColor?
    requires forall k :: 0 <= k < |b| ==> !b[k].IsKey()
    ensures forall i, j :: 0 <= i < j < |a + b| && (a + b)[j].IsKey() ==> !(a + b)[i].WriteColor?
  {
    assert forall k :: |a| <= k < |a + b| ==> (a + b)[k] == b[k - |a|];
    assert forall k :: 0 <= k < |a| ==> (a + b)[k] == a[k];
  }

  /** The frame and the loop tail hold no keyboard event. */
  lemma FrameAndTailHaveNoKeys(table: Table)
    ensures forall k :: 0 <= k < |Frame(table) + LoopTail| ==> !(Frame(table) + LoopTail)[k].IsKey()
  {
    FrameHasNoKeys(table);
    var rest := Frame(table) + LoopTail;
    forall k | 0 <= k < |rest|
      ensures !rest[k].IsKey()
    {
      if k < |Frame(table)| {
        assert rest[k] == Frame(table)[k];
      } else {
        assert rest[k] == LoopTail[k - |Frame(table)|];
      }
    }
  }

  /** A frame holds no keyboard event. */
  lemma FrameHasNoKeys(table: Table)
    ensures forall k :: 0 <= k < |Frame(table)| ==> !Frame(table)[k].IsKey()
  {
    forall k | 0 <= k < |Frame(table)|
      ensures !Frame(table)[k].IsKey()
    {
      if 1 <= k <= LedCount {
        assert Frame(table)[(k - 1) + 1] == WriteColor(table[k - 1].Rgb());
      }
    }
  }

  lemma {:induction false} NoKeysNoPressesOrReleases(tr: seq<Event>)
    requires forall i :: 0 <= i < |tr| ==> !tr[i].IsKey()
    ensures Presses(tr) == [] && Releases(tr) == []
    decreases |tr|
  {
    if |tr| > 0 {
      NoKeysNoPressesOrReleases(tr[1..]);
    }
  }

  datatype StepResult = StepResult(dev: Device, trace: seq<Event>)

  /** One main-loop iteration: poll the button, sweep the table, render it,
      wait and feed the watchdog. The whole macro is sent, before anything
      else, exactly when the button reads pressed after reading released; the
      frame that follows shows the table after this iteration's sweep; the
      20 ms delay and the watchdog reset close the iteration. */
  function LoopStep(dev: Device, pinHigh: bool): (res: StepResult)
    ensures res.dev == Iterate(dev, pinHigh)
    ensures Presses(res.trace) == (if !pinHigh && !dev.buttonLast then [LeftCtrl, LeftAlt, Delete] else [])
    ensures Releases(res.trace) == (if !pinHigh && !dev.buttonLast then [Delete, LeftAlt, LeftCtrl] else [])
    ensures ShownColours(res.trace) == Colours(Tick(dev.table, LoopDelayMs))
    ensures forall i, j :: 0 <= i < j < |res.trace| && res.trace[j].IsKey() ==> !res.trace[i].WriteColor?
    ensures |res.trace| == (if !pinHigh && !dev.buttonLast then |CtrlAltDel| else 0) + FrameAndTailLen
    ensures !pinHigh && !dev.buttonLast ==> res.trace[..|CtrlAltDel|] == CtrlAltDel
    ensures res.trace[|res.trace| - FrameAndTailLen..] == Frame(Tick(dev.table, LoopDelayMs)) + LoopTail
  {
    var poll := ButtonStep(dev.buttonLast, !pinHigh);
    var dev' := Iterate(dev, pinHigh);
    StepResult(dev', LoopTrace(poll.fire, dev'.table))
  }

  /** What can happen to the device between two observations: a host report
      on endpoint 2, or one main-loop iteration. */
  datatype Input = HostReport(buf: seq<uint8>) | Iteration(pinHigh: bool)

  function Apply(dev: Device, input: Input): Device {
    match input
    case HostReport(buf) => dev.(table := HandleOut(dev.table, buf))
    case Iteration(pinHigh) => Iterate(dev, pinHigh)
  }

  function Run(dev: Device, inputs: seq<Input>): Device
    decreases |inputs|
  {
    if |inputs| == 0 then dev else Run(Apply(dev, inputs[0]), inputs[1..])
  }

  /** No sequence of host reports and loop iterations breaks the table's
      invariant. */
  lemma {:induction false} RunPreservesValid(dev: Device, inputs: seq<Input>)
    requires Valid(dev.table)
    ensures Valid(Run(dev, inputs).table)
    decreases |inputs|
  {
    if |inputs| > 0 {
      RunPreservesValid(Apply(dev, inputs[0]), inputs[1..]);
    }
  }

  /** `n` loop iterations with the button released and no host report. */
  function Idle(n: nat): (inputs: seq<Input>)
    ensures |inputs| == n
  {
    seq(n, _ => Iteration(true))
  }

  /** Idle iterations do nothing to the table but sweep it once each. */
  lemma {:induction false} IdleRunSweeps(dev: Device, n: nat)
    ensures Run(dev, Idle(n)).table == Ticks(dev.table, LoopDelayMs, n)
    decreases n
  {
    if n > 0 {
      assert Idle(n)[0] == Iteration(true);
      assert Idle(n)[1..] == Idle(n - 1);
      IdleRunSweeps(Apply(dev, Iteration(true)), n - 1);
    }
  }

  /** A slot given a fresh lifetime and then swept every loop iteration stays
      lit with its colour for 249 iterations and is switched off by the 250th. */
  lemma SetStatusExpiresOnSweep250(s: Slot)
    requires s.remainingMs == StatusTimeoutMs
    ensures forall n :: 0 <= n < 250 ==>
              Sweeps(s, LoopDelayMs, n).remainingMs > 0 && Sweeps(s, LoopDelayMs, n).Rgb() == s.Rgb()
    ensures Sweeps(s, LoopDelayMs, 250) == OffSlot
  {
    forall n | 0 <= n < 250
      ensures Sweeps(s, LoopDelayMs, n).remainingMs > 0 && Sweeps(s, LoopDelayMs, n).Rgb() == s.Rgb()
    {
      SweepsCountDown(s, LoopDelayMs, n);
    }
    SweepsCountDown(s, LoopDelayMs, 250);
  }

  /** A host report followed by `n` idle iterations sets the table as the
      endpoint 2 handler does, then sweeps it `n` times. */
  lemma ReportThenIdle(dev: Device, buf: seq<uint8>, n: nat)
    ensures Run(dev, [HostReport(buf)] + Idle(n)).table == Ticks(HandleOut(dev.table, buf), LoopDelayMs, n)
  {
    var inputs := [HostReport(buf)] + Idle(n);
    assert inputs[0] == HostReport(buf);
    assert inputs[1..] == Idle(n);
    IdleRunSweeps(Apply(dev, HostReport(buf)), n);
  }

  /** The report the host sends to turn pixel 3 red. */
  const RedOnPixel3: seq<uint8> := [StatusReportId, 3, 255, 0, 0]

  /** Boot, then the host turns pixel 3 red: 249 idle iterations later pixels
      0 and 3 are still lit, and the 250th switches both off. */
  lemma BootReportExpireScenario(neoMax: uint8)
    ensures Run(Boot(neoMax), [HostReport(RedOnPixel3)] + Idle(249)).table[3] == Slot(255, 0, 0, LoopDelayMs)
    ensures Run(Boot(neoMax), [HostReport(RedOnPixel3)] + Idle(249)).table[0] == BootSlot(neoMax).(remainingMs := LoopDelayMs)
    ensures Run(Boot(neoMax), [HostReport(RedOnPixel3)] + Idle(250)).table[3] == OffSlot
    ensures Run(Boot(neoMax), [HostReport(RedOnPixel3)] + Idle(250)).table[0] == OffSlot
  {
    var t := HandleOut(Boot(neoMax).table, RedOnPixel3);
    assert t == Set(Boot(neoMax).table, 3, 255, 0, 0);
    assert t[3] == Slot(255, 0, 0, StatusTimeoutMs);
    assert t[0] == BootSlot(neoMax);
    ReportThenIdle(Boot(neoMax), RedOnPixel3, 249);
    ReportThenIdle(Boot(neoMax), RedOnPixel3, 250);
    TicksSlotwise(t, LoopDelayMs, 249);
    TicksSlotwise(t, LoopDelayMs, 250);
    SweepsCountDown(t[3], LoopDelayMs, 249);
    SweepsCountDown(t[3], LoopDelayMs, 250);
    SweepsCountDown(t[0], LoopDelayMs, 249);
    SweepsCountDown(t[0], LoopDelayMs, 250);
  }

  /** Loop iterations alone: the remembered button level is the last level
      read, and the table has been swept once per iteration. */
  lemma {:induction false} IterationsSweepAndRemember(dev: Device, pins: seq<bool>)
    requires |pins| > 0
    ensures Run(dev, seq(|pins|, i requires 0 <= i < |pins| => Iteration(pins[i]))).buttonLast == !pins[|pins| - 1]
    ensures Run(dev, seq(|pins|, i requires 0 <= i < |pins| => Iteration(pins[i]))).table == Ticks(dev.table, LoopDelayMs, |pins|)
    decreases |pins|
  {
    var inputs := seq(|pins|, i requires 0 <= i < |pins| => Iteration(pins[i]));
    assert inputs[0] == Iteration(pins[0]);
    var dev1 := Apply(dev, inputs[0]);
    if |pins| > 1 {
      assert inputs[1..] == seq(|pins[1..]|, i requires 0 <= i < |pins[1..]| => Iteration(pins[1..][i]));
      IterationsSweepAndRemember(dev1, pins[1..]);
    } else {
      assert inputs[1..] == [];
    }
  }
}
