/**
 The LED status table: one record per pixel holding a colour and the time the
 colour has left to live. `Set` gives a slot a colour and the full lifetime,
 `Clear` switches it off, and `Tick` counts every live slot down by the time
 elapsed since the previous sweep, clearing the slots whose lifetime runs out.
 */
module StatusTable {
  import opened Types
  import opened Events

  /** Number of pixels on the strip. */
  const LedCount: nat := 10

  /** Lifetime, in milliseconds, that every set gives a slot. */
  const StatusTimeoutMs: uint16 := 5000

  datatype Slot = Slot(r: uint8, g: uint8, b: uint8, remainingMs: uint16)
  {
    function Rgb(): Colour {
      Colour(r, g, b)
    }

    predicate Dark() {
      r == 0 && g == 0 && b == 0
    }
  }

  /** A switched-off slot: black, no lifetime left. */
  const OffSlot: Slot := Slot(0, 0, 0, 0)

  /** The table always has exactly one slot per pixel. */
  type Table = t: seq<Slot> | |t| == LedCount
    witness [OffSlot, OffSlot, OffSlot, OffSlot, OffSlot, OffSlot, OffSlot, OffSlot, OffSlot, OffSlot]

  /** The table with every slot switched off. */
  const AllOff: Table :=
    [OffSlot, OffSlot, OffSlot, OffSlot, OffSlot, OffSlot, OffSlot, OffSlot, OffSlot, OffSlot]

  /** A slot never lives longer than one timeout window, and a slot with no
      lifetime left is black. */
  predicate SlotOk(s: Slot) {
    && s.remainingMs <= StatusTimeoutMs
    && (s.remainingMs == 0 ==> s.Dark())
  }

  predicate Valid(t: Table) {
    forall i :: 0 <= i < LedCount ==> SlotOk(t[i])
  }

  /** Gives slot `index` the colour (r, g, b) and a fresh lifetime; an index
      past the end of the table is ignored. */
  function Set(t: Table, index: uint8, r: uint8, g: uint8, b: uint8): (t': Table)
    ensures index < LedCount ==> t'[index] == Slot(r, g, b, StatusTimeoutMs)
    ensures forall i :: 0 <= i < LedCount && i != index ==> t'[i] == t[i]
    ensures index >= LedCount ==> t' == t
    ensures Valid(t) ==> Valid(t')
  {
    if index >= LedCount then t
    else t[index := Slot(r, g, b, StatusTimeoutMs)]
  }

  /** Switches slot `index` off; an index past the end of the table is
      ignored. */
  function Clear(t: Table, index: uint8): (t': Table)
    ensures index < LedCount ==> t'[index].Dark() && t'[index].remainingMs == 0
    ensures forall i :: 0 <= i < LedCount && i != index ==> t'[i] == t[i]
    ensures index >= LedCount ==> t' == t
    ensures Valid(t) ==> Valid(t')
  {
    if index >= LedCount then t
    else t[index := OffSlot]
  }

  /** One slot's share of a timeout sweep. */
  function SweepSlot(s: Slot, elapsedMs: uint16): (s': Slot)
    ensures s'.remainingMs <= s.remainingMs
    ensures SlotOk(s) ==> SlotOk(s')
  {
    if s.remainingMs == 0 then s
    else if s.remainingMs <= elapsedMs then OffSlot
    else s.(remainingMs := s.remainingMs - elapsedMs)
  }

  /** A timeout sweep over the whole table. */
  function Tick(t: Table, elapsedMs: uint16): (t': Table)
    ensures forall i :: 0 <= i < LedCount ==> t'[i].remainingMs <= t[i].remainingMs
    ensures Valid(t) ==> Valid(t')
  {
    seq(LedCount, i requires 0 <= i < LedCount => SweepSlot(t[i], elapsedMs))
  }

  /** The sweep as the firmware runs it: one pass over the slots in index
      order, skipping dead slots, clearing the ones that run out and counting
      the others down. */
  method UpdateTimeouts(t: Table, elapsedMs: uint16) returns (t': Table)
    ensures forall i :: 0 <= i < LedCount && t[i].remainingMs == 0 ==> t'[i] == t[i]
    ensures forall i :: 0 <= i < LedCount && 0 < t[i].remainingMs <= elapsedMs ==> t'[i] == OffSlot
    ensures forall i :: 0 <= i < LedCount && elapsedMs < t[i].remainingMs ==>
              t'[i].Rgb() == t[i].Rgb() && t'[i].remainingMs == t[i].remainingMs - elapsedMs
    ensures t' == Tick(t, elapsedMs)
  {
    t' := t;
    for i := 0 to LedCount
      invariant forall j :: 0 <= j < i ==> t'[j] == SweepSlot(t[j], elapsedMs)
      invariant forall j :: i <= j < LedCount ==> t'[j] == t[j]
    {
      if t'[i].remainingMs == 0 {
        continue;
      }
      if t'[i].remainingMs <= elapsedMs {
        t' := Clear(t', i);
      } else {
        t' := t'[i := t'[i].(remainingMs := t'[i].remainingMs - elapsedMs)];
      }
    }
  }

  /** A sweep over no elapsed time changes nothing. */
  lemma TickZeroIsIdentity(t: Table)
    ensures Tick(t, 0) == t
  {
  }

  /** `n` consecutive sweeps of one slot, each over `elapsedMs`. */
  function Sweeps(s: Slot, elapsedMs: uint16, n: nat): Slot
    decreases n
  {
    if n == 0 then s else Sweeps(SweepSlot(s, elapsedMs), elapsedMs, n - 1)
  }

  /** `n` consecutive sweeps of the whole table, each over `elapsedMs`. */
  function Ticks(t: Table, elapsedMs: uint16, n: nat): Table
    decreases n
  {
    if n == 0 then t else Ticks(Tick(t, elapsedMs), elapsedMs, n - 1)
  }

  /** A switched-off slot stays off however many sweeps pass. */
  lemma {:induction false} SweepsOfOffSlot(elapsedMs: uint16, n: nat)
    ensures Sweeps(OffSlot, elapsedMs, n) == OffSlot
  {
    if n > 0 {
      SweepsOfOffSlot(elapsedMs, n - 1);
    }
  }

  /** A live slot keeps its colour and loses `elapsedMs` per sweep for as long
      as the total elapsed time stays below its lifetime, and is switched off
      by the first sweep that reaches it. */
  lemma {:induction false} SweepsCountDown(s: Slot, elapsedMs: uint16, n: nat)
    requires s.remainingMs > 0
    decreases n
    ensures n * elapsedMs < s.remainingMs ==>
              Sweeps(s, elapsedMs, n).Rgb() == s.Rgb() &&
              Sweeps(s, elapsedMs, n).remainingMs == s.remainingMs - n * elapsedMs
    ensures s.remainingMs <= n * elapsedMs ==> Sweeps(s, elapsedMs, n) == OffSlot
  {
    if n > 0 {
      var s1 := SweepSlot(s, elapsedMs);
      var before := (n - 1) * elapsedMs;
      assert before + elapsedMs == n * elapsedMs;
      if s.remainingMs <= elapsedMs {
        assert s1 == OffSlot;
        SweepsOfOffSlot(elapsedMs, n - 1);
      } else {
        assert s1.Rgb() == s.Rgb() && s1.remainingMs == s.remainingMs - elapsedMs;
        SweepsCountDown(s1, elapsedMs, n - 1);
      }
    }
  }

  /** Sweeping the table is sweeping each slot on its own. */
  lemma {:induction false} TicksSlotwise(t: Table, elapsedMs: uint16, n: nat)
    ensures forall i :: 0 <= i < LedCount ==> Ticks(t, elapsedMs, n)[i] == Sweeps(t[i], elapsedMs, n)
    decreases n
  {
    if n > 0 {
      TicksSlotwise(Tick(t, elapsedMs), elapsedMs, n - 1);
    }
  }
}
