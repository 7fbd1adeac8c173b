/**
 The soft-reboot macro: Ctrl+Alt+Del pressed in that order, held for a short
 dwell, and released in the reverse order.
 */
module Keyboard {
  import opened Events

  /** How long, in milliseconds, all three keys stay down together. */
  const MacroDwellMs: nat := 10

  /** The keys held down after replaying `tr`, starting with `held` down. */
  function HeldAfter(held: set<Key>, tr: seq<Event>): set<Key>
    decreases |tr|
  {
    if |tr| == 0 then held
    else
      var held' := match tr[0]
        case Press(k) => held + {k}
        case Release(k) => held - {k}
        case _ => held;
      HeldAfter(held', tr[1..])
  }

  /** The keys pressed in `tr`, in order. */
  function Presses(tr: seq<Event>): seq<Key>
    decreases |tr|
  {
    if |tr| == 0 then []
    else (if tr[0].Press? then [tr[0].key] else []) + Presses(tr[1..])
  }

  /** The keys released in `tr`, in order. */
  function Releases(tr: seq<Event>): seq<Key>
    decreases |tr|
  {
    if |tr| == 0 then []
    else (if tr[0].Release? then [tr[0].key] else []) + Releases(tr[1..])
  }

  function Reverse<T>(s: seq<T>): (r: seq<T>)
    ensures |r| == |s|
    ensures forall i :: 0 <= i < |s| ==> r[i] == s[|s| - 1 - i]
    decreases |s|
  {
    if |s| == 0 then [] else Reverse(s[1..]) + [s[0]]
  }

  lemma {:induction false} HeldAfterAppend(held: set<Key>, a: seq<Event>, b: seq<Event>)
    ensures HeldAfter(held, a + b) == HeldAfter(HeldAfter(held, a), b)
    decreases |a|
  {
    if |a| == 0 {
      assert a + b == b;
    } else {
      assert (a + b)[0] == a[0];
      assert (a + b)[1..] == a[1..] + b;
      var held' := match a[0]
        case Press(k) => held + {k}
        case Release(k) => held - {k}
        case _ => held;
      HeldAfterAppend(held', a[1..], b);
    }
  }

  lemma {:induction false} PressesAppend(a: seq<Event>, b: seq<Event>)
    ensures Presses(a + b) == Presses(a) + Presses(b)
    decreases |a|
  {
    if |a| == 0 {
      assert a + b == b;
    } else {
      assert (a + b)[0] == a[0];
      assert (a + b)[1..] == a[1..] + b;
      PressesAppend(a[1..], b);
    }
  }

  lemma {:induction false} ReleasesAppend(a: seq<Event>, b: seq<Event>)
    ensures Releases(a + b) == Releases(a) + Releases(b)
    decreases |a|
  {
    if |a| == 0 {
      assert a + b == b;
    } else {
      assert (a + b)[0] == a[0];
      assert (a + b)[1..] == a[1..] + b;
      ReleasesAppend(a[1..], b);
    }
  }

  /** The press half of the macro. */
  const KeysDown: seq<Event> := [Press(LeftCtrl), Press(LeftAlt), Press(Delete)]

  /** The release half of the macro. */
  const KeysUp: seq<Event> := [Release(Delete), Release(LeftAlt), Release(LeftCtrl)]

  lemma KeysDownEffect()
    ensures Presses(KeysDown) == [LeftCtrl, LeftAlt, Delete]
    ensures Releases(KeysDown) == []
    ensures HeldAfter({}, KeysDown) == {LeftCtrl, LeftAlt, Delete}
  {
  }

  lemma KeysUpEffect()
    ensures Presses(KeysUp) == []
    ensures Releases(KeysUp) == [Delete, LeftAlt, LeftCtrl]
    ensures HeldAfter({LeftCtrl, LeftAlt, Delete}, KeysUp) == {}
  {
  }

  lemma DwellEffect(held: set<Key>)
    ensures Presses([Delay(MacroDwellMs)]) == []
    ensures Releases([Delay(MacroDwellMs)]) == []
    ensures HeldAfter(held, [Delay(MacroDwellMs)]) == held
  {
  }

  /** The events of one Ctrl+Alt+Del: the presses, the dwell, the releases. */
  const CtrlAltDel: seq<Event> := KeysDown + [Delay(MacroDwellMs)] + KeysUp

  /** The macro presses Ctrl, Alt and Del in that order, holds all three for
      the dwell, releases them in the reverse order and leaves no key down. */
  lemma CtrlAltDelKeys()
    ensures |CtrlAltDel| == 7 && CtrlAltDel[3] == Delay(MacroDwellMs)
    ensures Presses(CtrlAltDel) == [LeftCtrl, LeftAlt, Delete]
    ensures Releases(CtrlAltDel) == Reverse(Presses(CtrlAltDel))
    ensures HeldAfter({}, CtrlAltDel[..3]) == {LeftCtrl, LeftAlt, Delete}
    ensures HeldAfter({}, CtrlAltDel) == {}
  {
    var dwell := [Delay(MacroDwellMs)];
    assert CtrlAltDel[..3] == KeysDown;
    KeysDownEffect();
    KeysUpEffect();
    DwellEffect({LeftCtrl, LeftAlt, Delete});
    PressesAppend(KeysDown + dwell, KeysUp);
    PressesAppend(KeysDown, dwell);
    ReleasesAppend(KeysDown + dwell, KeysUp);
    ReleasesAppend(KeysDown, dwell);
    HeldAfterAppend({}, KeysDown + dwell, KeysUp);
    HeldAfterAppend({}, KeysDown, dwell);
    assert Reverse([LeftCtrl, LeftAlt, Delete]) == [Delete, LeftAlt, LeftCtrl];
  }

  /** The macro writes no pixel. */
  lemma CtrlAltDelWritesNoPixel()
    ensures forall i :: 0 <= i < |CtrlAltDel| ==> !CtrlAltDel[i].WriteColor?
  {
  }
}
