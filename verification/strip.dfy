/**
 Rendering the status table onto the NeoPixel strip: every frame shifts out all
 ten colours in index order with interrupts masked, re-enables interrupts and
 then latches the frame.
 */
module Strip {
  import opened Types
  import opened Events
  import opened StatusTable

  /** The colours of the table, in pixel order. */
  function Colours(t: Table): seq<Colour> {
    seq(LedCount, i requires 0 <= i < LedCount => t[i].Rgb())
  }

  /** The events of one frame. */
  function Frame(t: Table): (tr: seq<Event>)
    ensures |tr| == LedCount + 3
    ensures tr[0] == InterruptsOff
    ensures forall i :: 0 <= i < LedCount ==> tr[i + 1] == WriteColor(t[i].Rgb())
    ensures tr[LedCount + 1] == InterruptsOn && tr[LedCount + 2] == Latch
  {
    [InterruptsOff] + Writes(t) + [InterruptsOn, Latch]
  }

  /** One pixel write per slot, in pixel order. */
  function Writes(t: Table): (ws: seq<Event>)
    ensures |ws| == LedCount
    ensures forall i :: 0 <= i < LedCount ==> ws[i] == WriteColor(t[i].Rgb())
  {
    seq(LedCount, i requires 0 <= i < LedCount => WriteColor(t[i].Rgb()))
  }

  /** The frame as the firmware emits it, one pixel per loop iteration. */
  method ApplyStatusStrip(t: Table) returns (tr: seq<Event>)
    ensures tr == Frame(t)
  {
    tr := [InterruptsOff];
    for i := 0 to LedCount
      invariant tr == [InterruptsOff] + Writes(t)[..i]
    {
      assert Writes(t)[..i + 1] == Writes(t)[..i] + [WriteColor(t[i].Rgb())];
      tr := tr + [WriteColor(t[i].Rgb())];
    }
    assert Writes(t)[..LedCount] == Writes(t);
    tr := tr + [InterruptsOn];
    tr := tr + [Latch];
  }

  /** What a strip shows after a trace: the colours shifted out, in order. */
  function ShownColours(tr: seq<Event>): seq<Colour>
    decreases |tr|
  {
    if |tr| == 0 then []
    else (if tr[0].WriteColor? then [tr[0].colour] else []) + ShownColours(tr[1..])
  }

  lemma {:induction false} ShownColoursAppend(a: seq<Event>, b: seq<Event>)
    ensures ShownColours(a + b) == ShownColours(a) + ShownColours(b)
    decreases |a|
  {
    if |a| == 0 {
      assert a + b == b;
    } else {
      assert (a + b)[0] == a[0];
      assert (a + b)[1..] == a[1..] + b;
      ShownColoursAppend(a[1..], b);
    }
  }

  /** A trace that writes no pixel shows nothing. */
  lemma {:induction false} ShownColoursNoWrites(tr: seq<Event>)
    requires forall i :: 0 <= i < |tr| ==> !tr[i].WriteColor?
    ensures ShownColours(tr) == []
    decreases |tr|
  {
    if |tr| > 0 {
      ShownColoursNoWrites(tr[1..]);
    }
  }

  lemma {:induction false} ShownColoursOfWrites(ws: seq<Event>)
    requires forall i :: 0 <= i < |ws| ==> ws[i].WriteColor?
    ensures |ShownColours(ws)| == |ws|
    ensures forall i :: 0 <= i < |ws| ==> ShownColours(ws)[i] == ws[i].colour
    decreases |ws|
  {
    if |ws| > 0 {
      ShownColoursOfWrites(ws[1..]);
    }
  }

  /** A frame shows exactly the table's colours, slot 0 first. */
  lemma FrameShowsTable(t: Table)
    ensures ShownColours(Frame(t)) == Colours(t)
  {
    var ws := Writes(t);
    ShownColoursAppend([InterruptsOff] + ws, [InterruptsOn, Latch]);
    ShownColoursAppend([InterruptsOff], ws);
    ShownColoursNoWrites([InterruptsOff]);
    ShownColoursNoWrites([InterruptsOn, Latch]);
    ShownColoursOfWrites(ws);
    assert ShownColours(ws) == Colours(t);
  }

  /** Setting a slot in range and rendering shows the new colour at that
      pixel and leaves every other pixel's colour as it was. */
  lemma SetThenRender(t: Table, index: uint8, r: uint8, g: uint8, b: uint8)
    requires index < LedCount
    ensures |ShownColours(Frame(t))| == |ShownColours(Frame(Set(t, index, r, g, b)))| == LedCount
    ensures ShownColours(Frame(Set(t, index, r, g, b)))[index] == Colour(r, g, b)
    ensures forall i :: 0 <= i < LedCount && i != index ==>
              ShownColours(Frame(Set(t, index, r, g, b)))[i] == ShownColours(Frame(t))[i]
  {
    FrameShowsTable(t);
    FrameShowsTable(Set(t, index, r, g, b));
    assert ShownColours(Frame(Set(t, index, r, g, b))) == Colours(Set(t, index, r, g, b));
  }

  /** Sets slots 0, 1, ... |cs| - 1 to the colours of `cs`, in that order. */
  function SetEach(t: Table, cs: seq<Colour>): Table
    requires |cs| <= LedCount
    decreases |cs|
  {
    if |cs| == 0 then t
    else
      var c := cs[|cs| - 1];
      Set(SetEach(t, cs[..|cs| - 1]), |cs| - 1, c.r, c.g, c.b)
  }

  lemma {:induction false} SetEachSlots(t: Table, cs: seq<Colour>)
    requires |cs| <= LedCount
    ensures forall i :: 0 <= i < |cs| ==> SetEach(t, cs)[i] == Slot(cs[i].r, cs[i].g, cs[i].b, StatusTimeoutMs)
    ensures forall i :: |cs| <= i < LedCount ==> SetEach(t, cs)[i] == t[i]
    decreases |cs|
  {
    if |cs| > 0 {
      SetEachSlots(t, cs[..|cs| - 1]);
    }
  }

  /** Ten sets, one per slot in ascending order, followed by a render put
      exactly those ten colours on the strip in that order. */
  lemma SetEveryPixelThenRender(t: Table, cs: seq<Colour>)
    requires |cs| == LedCount
    ensures ShownColours(Frame(SetEach(t, cs))) == cs
  {
    SetEachSlots(t, cs);
    FrameShowsTable(SetEach(t, cs));
  }
}
