/**
 Edge detection on the reboot button: the macro fires when the button goes
 from released to pressed, and the level just read is always remembered for
 the next poll.
 */
module Button {

  datatype Poll = Poll(fire: bool, last: bool)

  /** One poll of the button, given the level remembered from the previous
      poll and whether the button is pressed now. */
  function ButtonStep(last: bool, pressed: bool): (p: Poll)
    ensures p.fire <==> pressed && !last
    ensures p.last == pressed
  {
    Poll(pressed && !last, pressed)
  }

  /** For each poll of the level sequence `levels`, whether the macro fired. */
  function Fires(last: bool, levels: seq<bool>): (fires: seq<bool>)
    ensures |fires| == |levels|
    decreases |levels|
  {
    if |levels| == 0 then []
    else
      var p := ButtonStep(last, levels[0]);
      [p.fire] + Fires(p.last, levels[1..])
  }

  /** The level remembered after polling every level of `levels`. */
  function LastAfter(last: bool, levels: seq<bool>): bool
    decreases |levels|
  {
    if |levels| == 0 then last else LastAfter(ButtonStep(last, levels[0]).last, levels[1..])
  }

  /** Poll `i` sees the button pressed while the poll before it (or the
      remembered level, for the first poll) saw it released. */
  predicate RisingEdge(last: bool, levels: seq<bool>, i: int)
    requires 0 <= i < |levels|
  {
    levels[i] && !(if i == 0 then last else levels[i - 1])
  }

  /** The macro fires on exactly the rising edges of the level sequence. */
  lemma {:induction false} FiresOnRisingEdges(last: bool, levels: seq<bool>)
    ensures forall i :: 0 <= i < |levels| ==> (Fires(last, levels)[i] <==> RisingEdge(last, levels, i))
    decreases |levels|
  {
    if |levels| > 0 {
      FiresOnRisingEdges(levels[0], levels[1..]);
      forall i | 1 <= i < |levels|
        ensures Fires(last, levels)[i] <==> RisingEdge(last, levels, i)
      {
        assert Fires(last, levels)[i] == Fires(levels[0], levels[1..])[i - 1];
        assert RisingEdge(levels[0], levels[1..], i - 1) == RisingEdge(last, levels, i);
      }
    }
  }

  /** After a run of polls the remembered level is the last level read. */
  lemma {:induction false} LastAfterIsLastLevel(last: bool, levels: seq<bool>)
    requires |levels| > 0
    ensures LastAfter(last, levels) == levels[|levels| - 1]
    decreases |levels|
  {
    if |levels| > 1 {
      LastAfterIsLastLevel(levels[0], levels[1..]);
    }
  }

  /** Holding the button down never fires twice in a row. */
  lemma NoConsecutiveFires(last: bool, levels: seq<bool>)
    ensures forall i :: 0 <= i < |levels| - 1 ==> !(Fires(last, levels)[i] && Fires(last, levels)[i + 1])
  {
    FiresOnRisingEdges(last, levels);
  }

  function CountTrue(s: seq<bool>): nat
    decreases |s|
  {
    if |s| == 0 then 0 else (if s[0] then 1 else 0) + CountTrue(s[1..])
  }

  /** Released, released, pressed, held, released: the macro fires once, on
      the press. */
  lemma PressAndHoldFiresOnce()
    ensures Fires(false, [false, false, true, true, false]) == [false, false, true, false, false]
    ensures CountTrue(Fires(false, [false, false, true, true, false])) == 1
  {
  }
}
