/** The flip clock: each displayed time becomes a six-character digit
    snapshot `HHMMSS`; every slot whose previous value is defined and differs
    from its new digit gets a flip overlay that shows the previous value
    peeling away, and the snapshot is kept for the next time. */
module FlipClock {
  import opened Decimal
  import opened Duration

  /** The value read from `prevDigits[i]`: JavaScript's `undefined`, the
      initial `null` placeholder, or a one-character digit string. */
  datatype Prev = Undefined | Null | Char(c: char)

  /** A flip instruction: slot index, the value peeling away, the new digit. */
  datatype Flip = Flip(slot: nat, from: Prev, to: char)

  /** The optional `.flip` overlay of a digit element. */
  datatype Peel = Static | Peeling(shows: Prev)

  /** A child of the clock container: a `.digit` element whose `.top` and
      `.bottom` halves both show one character, or a `.colon`. */
  datatype Child = DigitBox(top: char, bottom: char, peel: Peel) | ColonBox

  const Slots: nat := 6

  /** `useState([null, null, null, null, null, null])`. */
  const InitialDigits: seq<Prev> := [Null, Null, Null, Null, Null, Null]

  /** Fields that each take two decimal digits. */
  predicate Fits(t: Hms) {
    t.hours < 100 && t.minutes < 100 && t.seconds < 100
  }

  /** `pad(hours) + pad(minutes) + pad(seconds)`. */
  function TimeString(t: Hms): (r: string)
    ensures Fits(t) <==> |r| == Slots
  {
    Pad2(t.hours) + Pad2(t.minutes) + Pad2(t.seconds)
  }

  /** With two-digit fields the snapshot has one digit per slot, hours in
      slots 0-1, minutes in 2-3 and seconds in 4-5. */
  lemma TimeStringSlots(t: Hms)
    requires Fits(t)
    ensures var r := TimeString(t);
      |r| == Slots && AllDigits(r) &&
      AllDigits(r[0..2]) && Parse(r[0..2]) == t.hours &&
      AllDigits(r[2..4]) && Parse(r[2..4]) == t.minutes &&
      AllDigits(r[4..6]) && Parse(r[4..6]) == t.seconds
  {
    var h, m, s := Pad2(t.hours), Pad2(t.minutes), Pad2(t.seconds);
    Pad2Reads(t.hours);
    Pad2Reads(t.minutes);
    Pad2Reads(t.seconds);
    var r := h + m + s;
    assert |h| == 2 && |m| == 2 && |s| == 2;
    assert r[0..2] == h by { assert r == h + (m + s); }
    assert r[2..4] == m by { assert r[2..] == m + s; }
    assert r[4..6] == s by { assert r[4..] == s; }
  }

  /** Distinct displayable times give distinct snapshots. */
  lemma TimeStringInjective(a: Hms, b: Hms)
    requires Fits(a) && Fits(b)
    requires TimeString(a) == TimeString(b)
    ensures a == b
  {
    TimeStringSlots(a);
    TimeStringSlots(b);
  }

  /** `prevValue !== undefined && prevValue !== value`. */
  predicate FlipsFrom(prev: Prev, value: char): (flips: bool)
    ensures prev.Null? ==> flips
    ensures prev.Undefined? ==> !flips
    ensures prev.Char? ==> (flips <==> prev.c != value)
  {
    prev != Undefined && prev != Char(value)
  }

  /** `renderDigit(container, value, prevValue)`. */
  function RenderDigit(value: char, prev: Prev): (box: Child)
    ensures box.DigitBox? && box.top == value && box.bottom == value
    ensures box.peel.Peeling? <==> FlipsFrom(prev, value)
    ensures box.peel.Peeling? ==> box.peel.shows == prev
  {
    DigitBox(value, value, if FlipsFrom(prev, value) then Peeling(prev) else Static)
  }

  /** The flip instructions emitted for slots `0 .. n-1`, in slot order. */
  function DiffUpTo(prev: seq<Prev>, timeStr: string, n: nat): seq<Flip>
    requires n <= |prev| && n <= |timeStr|
  {
    if n == 0 then []
    else
      var i := n - 1;
      DiffUpTo(prev, timeStr, i) +
        if FlipsFrom(prev[i], timeStr[i]) then [Flip(i, prev[i], timeStr[i])] else []
  }

  /** The children appended for slots `0 .. n-1`: each slot's digit element,
      with a colon after slots 1 and 3. */
  function RenderUpTo(prev: seq<Prev>, timeStr: string, n: nat): seq<Child>
    requires n <= |prev| && n <= |timeStr|
  {
    if n == 0 then []
    else
      var i := n - 1;
      RenderUpTo(prev, timeStr, i) + [RenderDigit(timeStr[i], prev[i])] +
        if i == 1 || i == 3 then [ColonBox] else []
  }

  /** `timeStr.split('')`: the snapshot retained for the next render. */
  function Retained(timeStr: string): (r: seq<Prev>)
    ensures |r| == |timeStr|
    ensures forall i :: 0 <= i < |r| ==> r[i] == Char(timeStr[i])
  {
    seq(|timeStr|, i requires 0 <= i < |timeStr| => Char(timeStr[i]))
  }

  function FlippedSlots(flips: seq<Flip>): set<nat> {
    set f | f in flips :: f.slot
  }

  lemma FlippedSlotsAppend(a: seq<Flip>, b: seq<Flip>)
    ensures FlippedSlots(a + b) == FlippedSlots(a) + FlippedSlots(b)
  {
    assert forall f :: f in a + b <==> f in a || f in b;
  }

  /** The set of slots instructed to flip is exactly the set of slots whose
      previous value is defined and differs from the new digit. */
  lemma {:induction false} DiffSlotsExact(prev: seq<Prev>, timeStr: string, n: nat)
    requires n <= |prev| && n <= |timeStr|
    ensures FlippedSlots(DiffUpTo(prev, timeStr, n)) ==
      set i | 0 <= i < n && FlipsFrom(prev[i], timeStr[i])
  {
    if n > 0 {
      var i := n - 1;
      DiffSlotsExact(prev, timeStr, i);
      var extra := if FlipsFrom(prev[i], timeStr[i]) then [Flip(i, prev[i], timeStr[i])] else [];
      FlippedSlotsAppend(DiffUpTo(prev, timeStr, i), extra);
      assert FlippedSlots(extra) == if FlipsFrom(prev[i], timeStr[i]) then {i} else {};
      assert (set j | 0 <= j < n && FlipsFrom(prev[j], timeStr[j])) ==
        (set j | 0 <= j < i && FlipsFrom(prev[j], timeStr[j])) +
        (if FlipsFrom(prev[i], timeStr[i]) then {i} else {});
    }
  }

  /** Each instruction carries its slot's previous value and new digit, and
      the instructions come in increasing slot order. */
  lemma {:induction false} DiffCarriesDigits(prev: seq<Prev>, timeStr: string, n: nat)
    requires n <= |prev| && n <= |timeStr|
    ensures var r := DiffUpTo(prev, timeStr, n);
      (forall f :: f in r ==> f.slot < n && f.from == prev[f.slot] && f.to == timeStr[f.slot]) &&
      (forall j, k :: 0 <= j < k < |r| ==> r[j].slot < r[k].slot)
  {
    if n > 0 {
      DiffCarriesDigits(prev, timeStr, n - 1);
    }
  }

  /** Slots that agree on a prefix emit no flips there. */
  lemma {:induction false} NoFlipsWhereUnchanged(before: string, after: string, n: nat)
    requires n <= |before| && n <= |after|
    requires forall i :: 0 <= i < n ==> before[i] == after[i]
    ensures DiffUpTo(Retained(before), after, n) == []
  {
    if n > 0 {
      NoFlipsWhereUnchanged(before, after, n - 1);
    }
  }

  /** Rendering the retained snapshot's own time again emits no flip. */
  lemma RerenderNoFlips(timeStr: string)
    ensures DiffUpTo(Retained(timeStr), timeStr, |timeStr|) == []
  {
    NoFlipsWhereUnchanged(timeStr, timeStr, |timeStr|);
  }

  /** From all-`null` placeholders (null is not undefined) every slot flips,
      from the placeholder to its digit. */
  lemma {:induction false} FirstRenderFlipsAll(timeStr: string, n: nat)
    requires n <= |timeStr| && n <= Slots
    ensures var r := DiffUpTo(InitialDigits, timeStr, n);
      |r| == n && forall k :: 0 <= k < n ==> r[k] == Flip(k, Null, timeStr[k])
  {
    if n > 0 {
      FirstRenderFlipsAll(timeStr, n - 1);
    }
  }

  /** Advancing the last second flips only slot 5, from '6' to '7'. */
  lemma LastDigitFlip()
    ensures DiffUpTo(Retained("123456"), "123457", Slots) == [Flip(5, Char('6'), '7')]
  {
    var prev := Retained("123456");
    assert DiffUpTo(prev, "123457", 5) == [] by {
      NoFlipsWhereUnchanged("123456", "123457", 5);
    }
  }

  /** When the minute rolls over every slot but the first changes. */
  lemma MinuteRolloverFlips()
    ensures FlippedSlots(DiffUpTo(Retained("005959"), "010000", Slots)) == {1, 2, 3, 4, 5}
  {
    var prev := Retained("005959");
    DiffSlotsExact(prev, "010000", Slots);
    assert forall i :: 0 <= i < Slots ==> (FlipsFrom(prev[i], "010000"[i]) <==> i != 0);
    assert (set i | 0 <= i < Slots && FlipsFrom(prev[i], "010000"[i])) == {1, 2, 3, 4, 5};
  }

  /** The container holds eight children: two digits, a colon, two digits, a
      colon, two digits, each digit element rendered from its own slot. */
  lemma RenderLayout(prev: seq<Prev>, timeStr: string)
    requires |prev| == Slots && |timeStr| == Slots
    ensures RenderUpTo(prev, timeStr, Slots) ==
      [RenderDigit(timeStr[0], prev[0]), RenderDigit(timeStr[1], prev[1]), ColonBox,
       RenderDigit(timeStr[2], prev[2]), RenderDigit(timeStr[3], prev[3]), ColonBox,
       RenderDigit(timeStr[4], prev[4]), RenderDigit(timeStr[5], prev[5])]
  {
    var d := seq(Slots, k requires 0 <= k < Slots => RenderDigit(timeStr[k], prev[k]));
    assert RenderUpTo(prev, timeStr, 1) == [d[0]];
    assert RenderUpTo(prev, timeStr, 2) == [d[0], d[1], ColonBox];
    assert RenderUpTo(prev, timeStr, 3) == [d[0], d[1], ColonBox, d[2]];
    assert RenderUpTo(prev, timeStr, 4) == [d[0], d[1], ColonBox, d[2], d[3], ColonBox];
    assert RenderUpTo(prev, timeStr, 5) == [d[0], d[1], ColonBox, d[2], d[3], ColonBox, d[4]];
  }

  /** The flip overlay's state: still under its digit element, or removed. */
  datatype Overlay = Attached | Detached

  /** The two ways an overlay is retired: its `animationend` listener and the
      600 ms timeout. */
  datatype OverlayEvent = AnimationEnd | RemovalTimeout

  const RemovalTimeoutMs: nat := 600

  /** `flip.remove()` on animation end; the timeout removes only while
      `flip.parentNode` is set. */
  function OnOverlayEvent(o: Overlay, e: OverlayEvent): (r: Overlay)
    ensures r == Detached
  {
    match e
    case AnimationEnd => Detached
    case RemovalTimeout => if o.Attached? then Detached else o
  }

  function Deliver(o: Overlay, events: seq<OverlayEvent>): Overlay
    decreases events
  {
    if events == [] then o else Deliver(OnOverlayEvent(o, events[0]), events[1..])
  }

  /** A removed overlay stays removed: a second removal changes nothing. */
  lemma {:induction false} DetachedStays(events: seq<OverlayEvent>)
    ensures Deliver(Detached, events) == Detached
  {
    if events != [] {
      DetachedStays(events[1..]);
    }
  }

  /** Whichever of the two events comes first removes the overlay, and it is
      removed only by one of them. */
  lemma OverlayRemovedIffAnyEvent(events: seq<OverlayEvent>)
    ensures Deliver(Attached, events) == Detached <==> events != []
  {
    if events != [] {
      DetachedStays(events[1..]);
    }
  }

  /** The period of both intervals that change the displayed time. A render
      they cause is followed by their next one 1000 ms later; a render caused
      by a handler (a mode switch, a configuration edit) may be followed by
      the next render sooner. */
  const TickPeriodMs: nat := 1000

  /** An overlay event together with the milliseconds elapsed since the render
      that created the overlay. */
  datatype Timed = Timed(atMs: nat, event: OverlayEvent)

  /** The events of a timeline that have fired by `t` ms, in timeline order. */
  function Due(timeline: seq<Timed>, t: nat): seq<OverlayEvent>
    decreases timeline
  {
    if timeline == [] then []
    else (if timeline[0].atMs <= t then [timeline[0].event] else []) + Due(timeline[1..], t)
  }

  lemma {:induction false} DueIncludes(timeline: seq<Timed>, t: nat, e: Timed)
    requires e in timeline && e.atMs <= t
    ensures e.event in Due(timeline, t)
  {
    if timeline[0] != e {
      DueIncludes(timeline[1..], t, e);
    }
  }

  /** Whatever else happens, a removal timeout that fires no later than
      `TickPeriodMs` after the render (the 600 ms timeout fires at
      `RemovalTimeoutMs` or later) has removed the overlay by 1000 ms after
      its render. */
  lemma OverlayGoneBeforeNextTick(timeline: seq<Timed>, t: nat)
    requires t <= TickPeriodMs && Timed(t, RemovalTimeout) in timeline
    ensures Deliver(Attached, Due(timeline, TickPeriodMs)) == Detached
  {
    DueIncludes(timeline, TickPeriodMs, Timed(t, RemovalTimeout));
    OverlayRemovedIffAnyEvent(Due(timeline, TickPeriodMs));
  }

  /** The FlipClock component's retained state. */
  class FlipClock {
    var prevDigits: array<Prev>

    ghost predicate Valid()
      reads this
    {
      prevDigits.Length == Slots
    }

    constructor ()
      ensures Valid() && fresh(prevDigits)
      ensures prevDigits[..] == InitialDigits
    {
      var initial := new Prev[Slots](_ => Null);
      assert initial[..] == InitialDigits;
      prevDigits := initial;
    }

    /** One run of the render effect for a new `time`: rebuild the children,
        emit the flips, replace `prevDigits` with the new snapshot. */
    method OnTick(time: Hms) returns (children: seq<Child>, flips: seq<Flip>)
      requires Valid() && Fits(time)
      modifies this
      ensures Valid() && fresh(prevDigits)
      ensures children == RenderUpTo(old(prevDigits[..]), TimeString(time), Slots)
      ensures flips == DiffUpTo(old(prevDigits[..]), TimeString(time), Slots)
      ensures prevDigits[..] == Retained(TimeString(time))
    {
      var timeStr := TimeString(time);
      children, flips := RenderSlots(timeStr);
      prevDigits := new Prev[Slots](k requires 0 <= k < Slots => Char(timeStr[k]));
      assert prevDigits[..] == Retained(timeStr);
    }

    /** The loop over slots 0..5: each slot's digit element, a colon after
        slots 1 and 3, and a flip instruction wherever `renderDigit` adds an
        overlay. */
    method RenderSlots(timeStr: string) returns (children: seq<Child>, flips: seq<Flip>)
      requires Valid() && |timeStr| == Slots
      ensures children == RenderUpTo(prevDigits[..], timeStr, Slots)
      ensures flips == DiffUpTo(prevDigits[..], timeStr, Slots)
    {
      children, flips := [], [];
      for i := 0 to Slots
        invariant children == RenderUpTo(prevDigits[..], timeStr, i)
        invariant flips == DiffUpTo(prevDigits[..], timeStr, i)
      {
        var prevValue := prevDigits[i];
        children := children + [RenderDigit(timeStr[i], prevValue)];
        if FlipsFrom(prevValue, timeStr[i]) {
          flips := flips + [Flip(i, prevValue, timeStr[i])];
        }
        if i == 1 || i == 3 {
          children := children + [ColonBox];
        }
      }
    }
  }
}
