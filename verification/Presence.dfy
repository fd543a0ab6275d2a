/**
 Crossing events when several devices move on one window forest (dix/enterleave.c): which windows are told what when
 one device moves, and what a window that understands only a single device makes of it. The pointer (Enter/Leave) and
 focus (FocusIn/FocusOut) halves of the file follow the same rules.
 */
module Presence {
  import opened WindowTree

  datatype Kind = In | Out

  datatype Detail = Ancestor | Virtual | Inferior | Nonlinear | NonlinearVirtual | Pointer

  /** `child` is the subwindow field; NullWindow is None. */
  datatype Event = Event(kind: Kind, detail: Detail, window: Window, child: Window)

  /** P(W) or F(W): where the device is, as seen from W. */
  datatype Place = On | Below | Outside

  // ---- Where the devices are

  /** `ws` is PointerWindows or FocusWindows; an unused entry is NullWindow. */
  predicate HasDevice(ws: seq<Window>, w: Window) {
    exists i :: 0 <= i < |ws| && ws[i] == w
  }

  predicate HasBelow(ws: seq<Window>, w: Window) {
    exists i :: 0 <= i < |ws| && IsParent(w, ws[i])
  }

  /** `child` is the first entry below `w`. */
  ghost predicate IsFirstBelow(ws: seq<Window>, w: Window, child: Window) {
    exists i :: 0 <= i < |ws| && ws[i] == child && IsParent(w, child) && forall j :: 0 <= j < i ==> !IsParent(w, ws[j])
  }

  function PlaceOf(ws: seq<Window>, w: Window): Place {
    if HasDevice(ws, w) then On else if HasBelow(ws, w) then Below else Outside
  }

  // ---- The events of one move. `ws` are the windows of the other devices; `blind` is HasPointer's answer FALSE for
  // ---- a grabbed device.

  predicate Occupied(ws: seq<Window>, blind: bool, w: Window) {
    !blind && HasDevice(ws, w)
  }

  predicate Busy(ws: seq<Window>, blind: bool, w: Window) {
    Occupied(ws, blind, w) || HasBelow(ws, w)
  }

  /** Out events for the windows strictly between `child` and `ancestor`, running up; the first busy one stops it. */
  function OutBetween(ws: seq<Window>, blind: bool, child: Window, ancestor: Window, detail: Detail): seq<Event>
    requires ancestor <= child
    decreases |child|
  {
    if ancestor == child || Parent(child) == ancestor then []
    else
      var w := Parent(child);
      if Busy(ws, blind, w) then [] else [Event(Out, detail, w, child)] + OutBetween(ws, blind, w, ancestor, detail)
  }

  /** In events for the windows strictly between `ancestor` and `child`, running down. */
  function InBetween(ws: seq<Window>, blind: bool, ancestor: Window, child: Window, detail: Detail): seq<Event>
    requires ancestor < child
    decreases |child|
  {
    var w := Parent(child);
    if w == ancestor then []
    else
      var rest := InBetween(ws, blind, ancestor, w, detail);
      if Busy(ws, blind, w) then rest else rest + [Event(In, detail, w, child)]
  }

  /** The event on the window left or entered: the detail becomes Inferior if another device is below. */
  function EndEvent(ws: seq<Window>, blind: bool, kind: Kind, w: Window, detail: Detail): seq<Event> {
    if Occupied(ws, blind, w) then []
    else [Event(kind, if HasBelow(ws, w) then Inferior else detail, w, NullWindow)]
  }

  function MoveEvents(ws: seq<Window>, blind: bool, a: Window, b: Window): seq<Event>
    requires a != b && a != NullWindow && b != NullWindow
  {
    if IsParent(a, b) then
      (if Occupied(ws, blind, a) then [] else [Event(Out, Inferior, a, NullWindow)])
      + InBetween(ws, blind, a, b, Virtual)
      + EndEvent(ws, blind, In, b, Ancestor)
    else if IsParent(b, a) then
      EndEvent(ws, blind, Out, a, Ancestor)
      + OutBetween(ws, blind, a, b, Virtual)
      + (if Occupied(ws, blind, b) then [] else [Event(In, Inferior, b, NullWindow)])
    else
      MeetBelow(a, b);
      EndEvent(ws, blind, Out, a, Nonlinear)
      + OutBetween(ws, blind, a, Meet(a, b), NonlinearVirtual)
      + InBetween(ws, blind, Meet(a, b), b, NonlinearVirtual)
      + EndEvent(ws, blind, In, b, Nonlinear)
  }

  // ---- What a window makes of its events

  /** The events for one window, in order. */
  function EventsAt(events: seq<Event>, w: Window): seq<Event> {
    if |events| == 0 then []
    else
      var rest := EventsAt(events[..|events| - 1], w);
      if events[|events| - 1].window == w then rest + [events[|events| - 1]] else rest
  }

  datatype View = Sees(place: Place) | Confused

  predicate IsVirtual(d: Detail) {
    d == Virtual || d == NonlinearVirtual
  }

  /**
   A single-device client's bookkeeping. Every event has one place it can be received in; anything else confuses it.
   NotifyPointer events say nothing about the device.
   */
  function See(v: View, e: Event): View {
    if e.detail == Pointer then v
    else match v
      case Confused => Confused
      case Sees(On) => if e.kind == In || IsVirtual(e.detail) then Confused
                       else Sees(if e.detail == Inferior then Below else Outside)
      case Sees(Below) => if e.kind == In && e.detail == Inferior then Sees(On)
                          else if e.kind == Out && IsVirtual(e.detail) then Sees(Outside) else Confused
      case Sees(Outside) => if e.kind == Out || e.detail == Inferior then Confused
                            else Sees(if IsVirtual(e.detail) then Below else On)
  }

  function Replay(v: View, events: seq<Event>): View {
    if |events| == 0 then v else See(Replay(v, events[..|events| - 1]), events[|events| - 1])
  }

  // ---- Events at a window, piece by piece

  lemma {:induction false} EventsAtConcat(a: seq<Event>, b: seq<Event>, w: Window)
    ensures EventsAt(a + b, w) == EventsAt(a, w) + EventsAt(b, w)
  {
    if |b| == 0 {
      assert a + b == a;
    } else {
      assert (a + b)[..|a + b| - 1] == a + b[..|b| - 1];
      EventsAtConcat(a, b[..|b| - 1], w);
    }
  }

  lemma {:induction false} EventsAtOne(e: Event, w: Window)
    ensures EventsAt([e], w) == if e.window == w then [e] else []
  {
    assert [e][..0] == [];
  }

  lemma {:induction false} EventsAtNone(w: Window)
    ensures EventsAt([], w) == []
  {
  }

  lemma {:induction false} EventsAtLast(events: seq<Event>, e: Event, w: Window)
    ensures EventsAt(events + [e], w) == if e.window == w then EventsAt(events, w) + [e] else EventsAt(events, w)
  {
    assert (events + [e])[..|events|] == events;
  }

  lemma {:induction false} ReplayConcat(v: View, a: seq<Event>, b: seq<Event>)
    ensures Replay(v, a + b) == Replay(Replay(v, a), b)
  {
    if |b| == 0 {
      assert a + b == a;
    } else {
      assert (a + b)[..|a + b| - 1] == a + b[..|b| - 1];
      ReplayConcat(v, a, b[..|b| - 1]);
    }
  }

  lemma {:induction false} BelowUp(ws: seq<Window>, upper: Window, lower: Window)
    requires IsParent(upper, lower) && (HasDevice(ws, lower) || HasBelow(ws, lower))
    ensures HasBelow(ws, upper)
  {
    if HasDevice(ws, lower) {
      var i :| 0 <= i < |ws| && ws[i] == lower;
      assert IsParent(upper, ws[i]);
    } else {
      var i :| 0 <= i < |ws| && IsParent(lower, ws[i]);
      PrefixTrans(upper, lower, ws[i]);
    }
  }

  /** Stopping at the first busy window loses nothing: all windows above it are busy too. */
  lemma {:induction false} OutBetweenAt(ws: seq<Window>, blind: bool, child: Window, anc: Window, detail: Detail,
                                        w: Window)
    requires anc <= child && child != NullWindow
    ensures EventsAt(OutBetween(ws, blind, child, anc, detail), w)
         == if anc < w < child && !Busy(ws, blind, w) then [Event(Out, detail, w, child[..|w| + 1])] else []
    decreases |child|
  {
    hide EventsAt;
    EventsAtNone(w);
    if !(anc == child || Parent(child) == anc) {
      var p := Parent(child);
      assert anc < p by {
        PrefixesComparable(anc, p, child);
      }
      if anc < w < child && w != p {
        PrefixesComparable(w, p, child);
        assert IsParent(w, p);
        if Busy(ws, blind, p) {
          BelowUp(ws, w, p);
        }
        assert p[..|w| + 1] == child[..|w| + 1];
      } else if w == p {
        assert child[..|w| + 1] == child;
      } else if anc < w < p {
        PrefixTrans(w, p, child);
      }
      if !Busy(ws, blind, p) {
        var rest := OutBetween(ws, blind, p, anc, detail);
        OutBetweenAt(ws, blind, p, anc, detail, w);
        EventsAtConcat([Event(Out, detail, p, child)], rest, w);
        EventsAtOne(Event(Out, detail, p, child), w);
      }
    }
  }

  lemma {:induction false} InBetweenAt(ws: seq<Window>, blind: bool, anc: Window, child: Window, detail: Detail,
                                       w: Window)
    requires anc < child
    ensures EventsAt(InBetween(ws, blind, anc, child, detail), w)
         == if anc < w < child && !Busy(ws, blind, w) then [Event(In, detail, w, child[..|w| + 1])] else []
    decreases |child|
  {
    hide Busy, EventsAt;
    EventsAtNone(w);
    var p := Parent(child);
    if p != anc {
      assert anc < p by {
        PrefixesComparable(anc, p, child);
      }
      var rest := InBetween(ws, blind, anc, p, detail);
      InBetweenAt(ws, blind, anc, p, detail, w);
      if anc < w < child && w != p {
        PrefixesComparable(w, p, child);
        assert p[..|w| + 1] == child[..|w| + 1];
      } else if w == p {
        assert child[..|w| + 1] == child;
      } else if anc < w < p {
        PrefixTrans(w, p, child);
      }
      EventsAtLast(rest, Event(In, detail, p, child), w);
    }
  }

  // ---- One move

  /** `w` lies strictly between one end of the move and the windows common to both. */
  predicate OutSide(a: Window, b: Window, w: Window) {
    w < a && !(w <= b)
  }

  predicate InSide(a: Window, b: Window, w: Window) {
    w < b && !(w <= a)
  }

  /** At most one event per window: what a move from `a` to `b` sends to `w`. */
  function EventFor(ws: seq<Window>, blind: bool, a: Window, b: Window, w: Window): seq<Event> {
    var linear := IsParent(a, b) || IsParent(b, a);
    if w == a then
      if IsParent(a, b) then (if Occupied(ws, blind, a) then [] else [Event(Out, Inferior, a, NullWindow)])
      else EndEvent(ws, blind, Out, a, if linear then Ancestor else Nonlinear)
    else if w == b then
      if IsParent(b, a) then (if Occupied(ws, blind, b) then [] else [Event(In, Inferior, b, NullWindow)])
      else EndEvent(ws, blind, In, b, if linear then Ancestor else Nonlinear)
    else if OutSide(a, b, w) && !Busy(ws, blind, w) then
      [Event(Out, if linear then Virtual else NonlinearVirtual, w, a[..|w| + 1])]
    else if InSide(a, b, w) && !Busy(ws, blind, w) then
      [Event(In, if linear then Virtual else NonlinearVirtual, w, b[..|w| + 1])]
    else []
  }

  lemma {:induction false} EndAt(ws: seq<Window>, blind: bool, kind: Kind, x: Window, detail: Detail, w: Window)
    ensures EventsAt(EndEvent(ws, blind, kind, x, detail), w)
         == if w == x then EndEvent(ws, blind, kind, x, detail) else []
  {
    if !Occupied(ws, blind, x) {
      EventsAtOne(EndEvent(ws, blind, kind, x, detail)[0], w);
    }
  }

  lemma {:induction false} InferiorAt(ws: seq<Window>, blind: bool, kind: Kind, x: Window, w: Window)
    ensures var e := if Occupied(ws, blind, x) then [] else [Event(kind, Inferior, x, NullWindow)];
            EventsAt(e, w) == if w == x then e else []
  {
    EventsAtOne(Event(kind, Inferior, x, NullWindow), w);
  }

  lemma {:induction false} ThreeAt(a: seq<Event>, b: seq<Event>, c: seq<Event>, w: Window)
    ensures EventsAt(a + b + c, w) == EventsAt(a, w) + EventsAt(b, w) + EventsAt(c, w)
  {
    EventsAtConcat(a + b, c, w);
    EventsAtConcat(a, b, w);
  }

  /** Which windows lie between, told by prefixes alone. */
  lemma {:induction false} BetweenIff(a: Window, b: Window, w: Window)
    requires a != b
    ensures IsParent(a, b) ==> (a < w < b <==> w != a && InSide(a, b, w)) && !OutSide(a, b, w)
    ensures IsParent(b, a) ==> (b < w < a <==> w != b && OutSide(a, b, w)) && !InSide(a, b, w)
    ensures Unrelated(a, b) ==> (Meet(a, b) < w < a <==> OutSide(a, b, w)) && (Meet(a, b) < w < b <==> InSide(a, b, w))
  {
    if IsParent(a, b) {
      DownOf(a, b, w);
    } else if IsParent(b, a) {
      DownOf(b, a, w);
    } else if Unrelated(a, b) {
      MeetSide(a, b, w);
      MeetSide(b, a, w);
      MeetSymmetric(a, b);
    }
  }

  lemma {:induction false} DownOf(a: Window, b: Window, w: Window)
    requires a < b
    ensures a < w < b <==> w < b && !(w <= a)
    ensures w < a ==> w <= b
  {
    if w < b && !(w <= a) {
      PrefixesComparable(w, a, b);
    }
    if w < a {
      PrefixTrans(w, a, b);
    }
  }

  lemma {:induction false} MeetSide(a: Window, b: Window, w: Window)
    requires Unrelated(a, b)
    ensures Meet(a, b) < w < a <==> w < a && !(w <= b)
  {
    var x := Meet(a, b);
    if w < a {
      if w <= b {
        MeetIsDeepest(a, b, w);
      } else {
        PrefixesComparable(w, x, a);
        if w <= x {
          PrefixTrans(w, x, b);
        }
      }
    }
  }

  /** A move sends each window at most one event, and this is the event. */
  lemma {:induction false} MoveAt(ws: seq<Window>, blind: bool, a: Window, b: Window, w: Window)
    requires a != b && a != NullWindow && b != NullWindow && w != NullWindow
    ensures EventsAt(MoveEvents(ws, blind, a, b), w) == EventFor(ws, blind, a, b, w)
  {
    BetweenIff(a, b, w);
    if IsParent(a, b) {
      MoveDownAt(ws, blind, a, b, w);
    } else if IsParent(b, a) {
      MoveUpAt(ws, blind, a, b, w);
    } else {
      MoveAcrossAt(ws, blind, a, b, w);
    }
  }

  lemma {:induction false} MoveDownAt(ws: seq<Window>, blind: bool, a: Window, b: Window, w: Window)
    requires IsParent(a, b)
    requires (a < w < b <==> w != a && InSide(a, b, w)) && !OutSide(a, b, w)
    ensures EventsAt(MoveEvents(ws, blind, a, b), w) == EventFor(ws, blind, a, b, w)
  {
    hide EventsAt, Busy, Occupied, HasBelow, HasDevice;
    var x := if Occupied(ws, blind, a) then [] else [Event(Out, Inferior, a, NullWindow)];
    var y, z := InBetween(ws, blind, a, b, Virtual), EndEvent(ws, blind, In, b, Ancestor);
    ThreeAt(x, y, z, w);
    InferiorAt(ws, blind, Out, a, w);
    InBetweenAt(ws, blind, a, b, Virtual, w);
    EndAt(ws, blind, In, b, Ancestor, w);
  }

  lemma {:induction false} MoveUpAt(ws: seq<Window>, blind: bool, a: Window, b: Window, w: Window)
    requires IsParent(b, a)
    requires (b < w < a <==> w != b && OutSide(a, b, w)) && !InSide(a, b, w)
    ensures EventsAt(MoveEvents(ws, blind, a, b), w) == EventFor(ws, blind, a, b, w)
  {
    hide EventsAt, Busy, Occupied, HasBelow, HasDevice;
    var z := if Occupied(ws, blind, b) then [] else [Event(In, Inferior, b, NullWindow)];
    var x, y := EndEvent(ws, blind, Out, a, Ancestor), OutBetween(ws, blind, a, b, Virtual);
    ThreeAt(x, y, z, w);
    InferiorAt(ws, blind, In, b, w);
    OutBetweenAt(ws, blind, a, b, Virtual, w);
    EndAt(ws, blind, Out, a, Ancestor, w);
  }

  lemma {:induction false} MoveAcrossAt(ws: seq<Window>, blind: bool, a: Window, b: Window, w: Window)
    requires a != NullWindow && b != NullWindow && a != b && !IsParent(a, b) && !IsParent(b, a)
    requires (Meet(a, b) < w < a <==> OutSide(a, b, w)) && (Meet(a, b) < w < b <==> InSide(a, b, w))
    ensures EventsAt(MoveEvents(ws, blind, a, b), w) == EventFor(ws, blind, a, b, w)
  {
    hide EventsAt, Busy, Occupied, HasBelow, HasDevice, Meet;
    MeetBelow(a, b);
    var m := Meet(a, b);
    var p, q := EndEvent(ws, blind, Out, a, Nonlinear), OutBetween(ws, blind, a, m, NonlinearVirtual);
    var r, s := InBetween(ws, blind, m, b, NonlinearVirtual), EndEvent(ws, blind, In, b, Nonlinear);
    EventsAtConcat(p + q + r, s, w);
    ThreeAt(p, q, r, w);
    EndAt(ws, blind, Out, a, Nonlinear, w);
    OutBetweenAt(ws, blind, a, m, NonlinearVirtual, w);
    InBetweenAt(ws, blind, m, b, NonlinearVirtual, w);
    EndAt(ws, blind, In, b, Nonlinear, w);
  }

  /** The places after the moving device `d` is put on `x`. */
  lemma {:induction false} PlaceWith(ws: seq<Window>, d: nat, x: Window, w: Window)
    requires d < |ws| && ws[d] == NullWindow && w != NullWindow
    ensures HasDevice(ws[d := x], w) <==> HasDevice(ws, w) || x == w
    ensures HasBelow(ws[d := x], w) <==> HasBelow(ws, w) || IsParent(w, x)
  {
    var with := ws[d := x];
    assert with[d] == x;
    if i :| 0 <= i < |ws| && ws[i] == w {
      assert with[i] == w;
    }
    if i :| 0 <= i < |ws| && IsParent(w, ws[i]) {
      assert with[i] == ws[i];
    }
    if i :| 0 <= i < |with| && with[i] == w {
      assert i != d ==> ws[i] == w;
    }
    if i :| 0 <= i < |with| && IsParent(w, with[i]) {
      assert i != d ==> ws[i] == with[i];
    }
  }

  /** A grabbed device tells `w`, which another device is on, something that is not so. */
  predicate Misled(ws: seq<Window>, blind: bool, a: Window, b: Window, w: Window) {
    && blind && HasDevice(ws, w)
    && (w == a || w == b || ((OutSide(a, b, w) || InSide(a, b, w)) && !HasBelow(ws, w)))
  }

  ghost predicate AnyMisled(ws: seq<Window>, blind: bool, a: Window, b: Window) {
    exists w: Window :: w != NullWindow && Misled(ws, blind, a, b, w)
  }

  /**
   After the move the window's single-device reading is right, if and only if the device was not grabbed or no other
   device was on the window (unless the window lies between and another device below it hides the move).
   */
  lemma {:induction false} MoveReplays(ws: seq<Window>, blind: bool, d: nat, a: Window, b: Window, w: Window)
    requires d < |ws| && ws[d] == NullWindow && w != NullWindow
    requires a != b && a != NullWindow && b != NullWindow
    ensures Replay(Sees(PlaceOf(ws[d := a], w)), EventsAt(MoveEvents(ws, blind, a, b), w)) == Sees(PlaceOf(ws[d := b], w))
       <==> !Misled(ws, blind, a, b, w)
  {
    hide EventsAt, MoveEvents, HasDevice, HasBelow;
    MoveAt(ws, blind, a, b, w);
    PlaceWith(ws, d, a, w);
    PlaceWith(ws, d, b, w);
    ReplayShort(Sees(PlaceOf(ws[d := a], w)), EventFor(ws, blind, a, b, w));
    RelatedPlaces(a, b, w);
  }

  lemma {:induction false} ReplayShort(v: View, events: seq<Event>)
    requires |events| <= 1
    ensures Replay(v, events) == if events == [] then v else See(v, events[0])
  {
    if events != [] {
      assert events[..0] == [];
    }
  }

  /** A window above both ends, or off both paths, is neither side. */
  lemma {:induction false} RelatedPlaces(a: Window, b: Window, w: Window)
    requires a != b
    ensures w < a && w < b ==> !OutSide(a, b, w) && !InSide(a, b, w)
    ensures w == a && IsParent(w, b) ==> !IsParent(b, a)
    ensures w < a && !(w < b) ==> w == b || OutSide(a, b, w)
    ensures w < b && !(w < a) ==> w == a || InSide(a, b, w)
  {
  }

  /** Reading `events` as a single device's, from its place in `start` on, tells `w` its place in `now`. */
  predicate Reads(start: seq<Window>, events: seq<Event>, now: seq<Window>, w: Window) {
    Replay(Sees(PlaceOf(start, w)), EventsAt(events, w)) == Sees(PlaceOf(now, w))
  }

  /** One more move, read on from what the window already knew. */
  lemma {:induction false} ReadOn(start: seq<Window>, before: seq<Window>, after: seq<Window>, others: seq<Window>,
                                  grabbed: bool, dev: nat, from: Window, to: Window, sent: seq<Event>, w: Window)
    requires dev < |others| && others[dev] == NullWindow && w != NullWindow
    requires from != to && from != NullWindow && to != NullWindow
    requires others[dev := from] == before && others[dev := to] == after
    requires Reads(start, sent, before, w)
    ensures Reads(start, sent + MoveEvents(others, grabbed, from, to), after, w)
       <==> !Misled(others, grabbed, from, to, w)
  {
    hide EventsAt, MoveEvents, PlaceOf, Misled;
    var move := MoveEvents(others, grabbed, from, to);
    MoveReplays(others, grabbed, dev, from, to, w);
    EventsAtConcat(sent, move, w);
    ReplayConcat(Sees(PlaceOf(start, w)), EventsAt(sent, w), EventsAt(move, w));
  }

  // ---- Runs

  /** Device `dev`, ungrabbed, moves to window `to`. */
  datatype Move = Move(dev: nat, to: Window)

  predicate CanMove(ws: seq<Window>, m: Move) {
    m.dev < |ws| && ws[m.dev] != NullWindow && m.to != NullWindow && m.to != ws[m.dev]
  }

  predicate CanRun(ws: seq<Window>, moves: seq<Move>)
    decreases |moves|
  {
    moves == [] || (CanMove(ws, moves[0]) && CanRun(ws[moves[0].dev := moves[0].to], moves[1..]))
  }

  function RunEvents(ws: seq<Window>, moves: seq<Move>): seq<Event>
    requires CanRun(ws, moves)
    decreases |moves|
  {
    if moves == [] then []
    else
      var m := moves[0];
      MoveEvents(ws[m.dev := NullWindow], false, ws[m.dev], m.to) + RunEvents(ws[m.dev := m.to], moves[1..])
  }

  function RunWindows(ws: seq<Window>, moves: seq<Move>): seq<Window>
    requires CanRun(ws, moves)
    decreases |moves|
  {
    if moves == [] then ws else RunWindows(ws[moves[0].dev := moves[0].to], moves[1..])
  }

  /**
   Any sequence of moves by any number of ungrabbed devices: a window that reads the events sent to it as if there were
   only one device always knows P(W), and is never sent an event it could not have got from a single device.
   */
  lemma {:induction false} RunReplays(ws: seq<Window>, moves: seq<Move>, w: Window)
    requires CanRun(ws, moves) && w != NullWindow
    ensures Reads(ws, RunEvents(ws, moves), RunWindows(ws, moves), w)
    decreases |moves|
  {
    if moves != [] {
      hide EventsAt, MoveEvents, PlaceOf, Misled;
      var m := moves[0];
      var others, next := ws[m.dev := NullWindow], ws[m.dev := m.to];
      assert others[m.dev := ws[m.dev]] == ws && others[m.dev := m.to] == next;
      var first, rest := MoveEvents(others, false, ws[m.dev], m.to), RunEvents(next, moves[1..]);
      Unblinded(others, ws[m.dev], m.to, w);
      MoveReplays(others, false, m.dev, ws[m.dev], m.to, w);
      RunReplays(next, moves[1..], w);
      EventsAtConcat(first, rest, w);
      ReplayConcat(Sees(PlaceOf(ws, w)), EventsAt(first, w), EventsAt(rest, w));
    }
  }

  lemma {:induction false} Unblinded(ws: seq<Window>, a: Window, b: Window, w: Window)
    ensures !Misled(ws, false, a, b, w)
  {
  }

  // ---- A single device

  /** XI2 Enter events between, running down: nothing is suppressed. */
  function AllInBetween(ancestor: Window, child: Window, detail: Detail): seq<Event>
    requires ancestor < child
    decreases |child|
  {
    var w := Parent(child);
    if w == ancestor then [] else AllInBetween(ancestor, w, detail) + [Event(In, detail, w, child)]
  }

  function AllOutBetween(child: Window, ancestor: Window, detail: Detail): seq<Event>
    requires ancestor <= child
    decreases |child|
  {
    if ancestor == child || Parent(child) == ancestor then []
    else [Event(Out, detail, Parent(child), child)] + AllOutBetween(Parent(child), ancestor, detail)
  }

  /** The per-device events of one move. */
  function DeviceEvents(a: Window, b: Window): seq<Event>
    requires a != b && a != NullWindow && b != NullWindow
  {
    if IsParent(a, b) then
      [Event(Out, Inferior, a, NullWindow)] + AllInBetween(a, b, Virtual) + [Event(In, Ancestor, b, NullWindow)]
    else if IsParent(b, a) then
      [Event(Out, Ancestor, a, NullWindow)] + AllOutBetween(a, b, Virtual) + [Event(In, Inferior, b, NullWindow)]
    else
      MeetBelow(b, a);
      [Event(Out, Nonlinear, a, NullWindow)]
      + AllOutBetween(a, Meet(b, a), NonlinearVirtual)
      + AllInBetween(Meet(b, a), b, NonlinearVirtual)
      + [Event(In, Nonlinear, b, NullWindow)]
  }

  predicate Alone(ws: seq<Window>) {
    forall i :: 0 <= i < |ws| ==> ws[i] == NullWindow
  }

  lemma {:induction false} AloneNotBusy(ws: seq<Window>, blind: bool, w: Window)
    requires Alone(ws) && w != NullWindow
    ensures !Busy(ws, blind, w) && !Occupied(ws, blind, w) && !HasBelow(ws, w)
  {
  }

  lemma {:induction false} AloneOut(ws: seq<Window>, blind: bool, child: Window, anc: Window, detail: Detail)
    requires Alone(ws) && anc <= child
    ensures OutBetween(ws, blind, child, anc, detail) == AllOutBetween(child, anc, detail)
    decreases |child|
  {
    if !(anc == child || Parent(child) == anc) {
      AloneNotBusy(ws, blind, Parent(child));
      AloneOut(ws, blind, Parent(child), anc, detail);
    }
  }

  lemma {:induction false} AloneIn(ws: seq<Window>, blind: bool, anc: Window, child: Window, detail: Detail)
    requires Alone(ws) && anc < child
    ensures InBetween(ws, blind, anc, child, detail) == AllInBetween(anc, child, detail)
    decreases |child|
  {
    if Parent(child) != anc {
      AloneNotBusy(ws, blind, Parent(child));
      AloneIn(ws, blind, anc, Parent(child), detail);
    }
  }

  /** With no other device the core events are the per-device ones, event for event. */
  lemma {:induction false} AloneRefines(ws: seq<Window>, blind: bool, a: Window, b: Window)
    requires Alone(ws) && a != b && a != NullWindow && b != NullWindow
    ensures MoveEvents(ws, blind, a, b) == DeviceEvents(a, b)
  {
    AloneNotBusy(ws, blind, a);
    AloneNotBusy(ws, blind, b);
    if IsParent(a, b) {
      AloneIn(ws, blind, a, b, Virtual);
    } else if IsParent(b, a) {
      AloneOut(ws, blind, a, b, Virtual);
    } else {
      MeetSymmetric(a, b);
      MeetBelow(a, b);
      AloneOut(ws, blind, a, Meet(a, b), NonlinearVirtual);
      AloneIn(ws, blind, Meet(a, b), b, NonlinearVirtual);
    }
  }

  /** The tree path from `a` to `b`, without the turning point if it is neither. */
  predicate OnPath(a: Window, b: Window, w: Window) {
    w == a || w == b || OutSide(a, b, w) || InSide(a, b, w)
  }

  /** Both sequences visit exactly the path, each window once. */
  lemma {:induction false} PathVisited(a: Window, b: Window, w: Window)
    requires a != b && a != NullWindow && b != NullWindow && w != NullWindow
    ensures |EventsAt(DeviceEvents(a, b), w)| == if OnPath(a, b, w) then 1 else 0
  {
    AloneRefines([], false, a, b);
    MoveAt([], false, a, b, w);
    AloneNotBusy([], false, w);
  }

  // ---- The per-device events written out

  lemma {:induction false} AllInAt(anc: Window, child: Window, detail: Detail)
    requires anc < child
    ensures |AllInBetween(anc, child, detail)| == |child| - |anc| - 1
    ensures forall i :: 0 <= i < |child| - |anc| - 1 ==>
              AllInBetween(anc, child, detail)[i] == Event(In, detail, child[..|anc| + 1 + i], child[..|anc| + 2 + i])
    decreases |child|
  {
    var w, n := Parent(child), |child| - |anc| - 2;
    if w != anc {
      PrefixesComparable(anc, w, child);
      AllInAt(anc, w, detail);
      forall i | 0 <= i < n + 1
        ensures AllInBetween(anc, child, detail)[i] == Event(In, detail, child[..|anc| + 1 + i], child[..|anc| + 2 + i])
      {
        if i < n {
          assert w[..|anc| + 1 + i] == child[..|anc| + 1 + i] && w[..|anc| + 2 + i] == child[..|anc| + 2 + i];
        } else {
          assert child[..|anc| + 2 + n] == child;
        }
      }
    }
  }

  lemma {:induction false} AllOutAt(child: Window, anc: Window, detail: Detail)
    requires anc < child
    ensures |AllOutBetween(child, anc, detail)| == |child| - |anc| - 1
    ensures forall i :: 0 <= i < |child| - |anc| - 1 ==>
              AllOutBetween(child, anc, detail)[i] == Event(Out, detail, child[..|child| - 1 - i], child[..|child| - i])
    decreases |child|
  {
    var w := Parent(child);
    if w != anc {
      PrefixesComparable(anc, w, child);
      AllOutAt(w, anc, detail);
      forall i | 0 <= i < |child| - |anc| - 1
        ensures AllOutBetween(child, anc, detail)[i] == Event(Out, detail, child[..|child| - 1 - i], child[..|child| - i])
      {
        if i > 0 {
          assert AllOutBetween(child, anc, detail)[i] == AllOutBetween(w, anc, detail)[i - 1];
          assert w[..|w| - 1 - (i - 1)] == child[..|child| - 1 - i] && w[..|w| - (i - 1)] == child[..|child| - i];
        } else {
          assert child[..|child|] == child;
        }
      }
    }
  }

  /** A move down: Inferior where the pointer was, Virtual on the way, Ancestor where it is. */
  lemma {:induction false} DeviceDown(a: Window, b: Window, i: nat)
    requires IsParent(a, b) && i <= |b| - |a|
    ensures |DeviceEvents(a, b)| == |b| - |a| + 1
    ensures DeviceEvents(a, b)[i] == if i == 0 then Event(Out, Inferior, a, NullWindow)
                                     else if i == |b| - |a| then Event(In, Ancestor, b, NullWindow)
                                     else Event(In, Virtual, b[..|a| + i], b[..|a| + i + 1])
  {
    AllInAt(a, b, Virtual);
  }

  /** A move up: Ancestor where the pointer was, Virtual on the way, Inferior where it is. */
  lemma {:induction false} DeviceUp(a: Window, b: Window, i: nat)
    requires IsParent(b, a) && i <= |a| - |b|
    ensures |DeviceEvents(a, b)| == |a| - |b| + 1
    ensures DeviceEvents(a, b)[i] == if i == 0 then Event(Out, Ancestor, a, NullWindow)
                                     else if i == |a| - |b| then Event(In, Inferior, b, NullWindow)
                                     else Event(Out, Virtual, a[..|a| - i], a[..|a| - i + 1])
  {
    AllOutAt(a, b, Virtual);
  }

  /** A move sideways: Nonlinear at both ends, NonlinearVirtual up to and down from the deepest common window `x`. */
  lemma {:induction false} DeviceAcross(a: Window, b: Window, x: Window, i: nat)
    requires a != NullWindow && b != NullWindow
    requires x < a && x < b && a[|x|] != b[|x|] && i < |a| + |b| - 2 * |x|
    ensures |DeviceEvents(a, b)| == |a| + |b| - 2 * |x|
    ensures var up := |a| - |x|;
            DeviceEvents(a, b)[i] == if i == 0 then Event(Out, Nonlinear, a, NullWindow)
                                     else if i == |a| + |b| - 2 * |x| - 1 then Event(In, Nonlinear, b, NullWindow)
                                     else if i < up then Event(Out, NonlinearVirtual, a[..|a| - i], a[..|a| - i + 1])
                                     else Event(In, NonlinearVirtual, b[..|x| + 1 + i - up], b[..|x| + 2 + i - up])
  {
    hide Meet, AllInBetween, AllOutBetween;
    MeetIs(b, a, x);
    AllOutAt(a, x, NonlinearVirtual);
    AllInAt(x, b, NonlinearVirtual);
    var out, inside := [Event(Out, Nonlinear, a, NullWindow)], [Event(In, Nonlinear, b, NullWindow)];
    var up, down := AllOutBetween(a, x, NonlinearVirtual), AllInBetween(x, b, NonlinearVirtual);
    assert DeviceEvents(a, b) == out + up + down + inside;
    FourAt(out, up, down, inside, i);
  }

  lemma {:induction false} FourAt(a: seq<Event>, b: seq<Event>, c: seq<Event>, d: seq<Event>, i: nat)
    requires |a| == |d| == 1 && i < |b| + |c| + 2
    ensures (a + b + c + d)[i] == if i == 0 then a[0]
                                  else if i < 1 + |b| then b[i - 1]
                                  else if i < 1 + |b| + |c| then c[i - 1 - |b|] else d[0]
  {
  }

  /** The deepest common window is where the paths part. */
  lemma {:induction false} MeetIs(a: Window, b: Window, x: Window)
    requires x < a && x < b && a[|x|] != b[|x|]
    ensures Meet(a, b) == x
  {
    if x != [] {
      MeetIs(a[1..], b[1..], x[1..]);
      assert x == [x[0]] + x[1..];
    }
  }

  /**
   What other devices change: an end of the move where one is gets nothing, and with one below it is told Inferior;
   a window between with one on or below it gets nothing; any other window gets its per-device event.
   */
  lemma {:induction false} MoveFromDevice(ws: seq<Window>, blind: bool, a: Window, b: Window, w: Window)
    requires a != b && a != NullWindow && b != NullWindow && w != NullWindow
    ensures |EventsAt(DeviceEvents(a, b), w)| == if OnPath(a, b, w) then 1 else 0
    ensures EventsAt(MoveEvents(ws, blind, a, b), w) ==
              var here, below := !blind && HasDevice(ws, w), HasBelow(ws, w);
              if !OnPath(a, b, w) || here || (below && w != a && w != b) then []
              else if below then [EventsAt(DeviceEvents(a, b), w)[0].(detail := Inferior)]
              else EventsAt(DeviceEvents(a, b), w)
  {
    hide EventsAt, MoveEvents, DeviceEvents, HasDevice, HasBelow;
    PathVisited(a, b, w);
    AloneRefines([], false, a, b);
    NobodyThere(w);
    MoveAt([], false, a, b, w);
    MoveAt(ws, blind, a, b, w);
  }

  lemma {:induction false} NobodyThere(w: Window)
    ensures !HasDevice([], w) && !HasBelow([], w)
  {
  }

  /** The lowest common ancestor of unrelated windows, and everything above it, is not visited. */
  lemma {:induction false} TurningPointOmitted(a: Window, b: Window, w: Window)
    requires Unrelated(a, b)
    ensures w <= Meet(a, b) ==> !OnPath(a, b, w)
  {
    if w <= Meet(a, b) {
      MeetBelow(a, b);
      PrefixTrans(w, Meet(a, b), a);
      PrefixTrans(w, Meet(a, b), b);
    }
  }

  // ---- What matters to the reading

  /** The events without NotifyPointer ones and without subwindow fields. */
  function Story(events: seq<Event>): seq<Event> {
    if |events| == 0 then []
    else
      var rest, e := Story(events[..|events| - 1]), events[|events| - 1];
      if e.detail == Pointer then rest else rest + [e.(child := NullWindow)]
  }

  lemma {:induction false} StoryConcat(a: seq<Event>, b: seq<Event>)
    ensures Story(a + b) == Story(a) + Story(b)
  {
    if |b| == 0 {
      assert a + b == a;
    } else {
      assert (a + b)[..|a + b| - 1] == a + b[..|b| - 1];
      StoryConcat(a, b[..|b| - 1]);
    }
  }

  lemma {:induction false} StoryOne(e: Event)
    ensures Story([e]) == if e.detail == Pointer then [] else [e.(child := NullWindow)]
  {
    assert [e][..0] == [];
  }

  lemma {:induction false} StoryReplays(v: View, events: seq<Event>, w: Window)
    ensures Replay(v, EventsAt(events, w)) == Replay(v, EventsAt(Story(events), w))
  {
    hide EventsAt, Replay, Story;
    if |events| == 0 {
      StoryNone();
    } else {
      var rest, e := events[..|events| - 1], events[|events| - 1];
      var plain := e.(child := NullWindow);
      assert events == rest + [e];
      StoryReplays(v, rest, w);
      StoryConcat(rest, [e]);
      StoryOne(e);
      EventsAtLast(rest, e, w);
      EventsAtLast(Story(rest), plain, w);
      ReplayLast(v, EventsAt(rest, w), e);
      ReplayLast(v, EventsAt(Story(rest), w), plain);
      if e.detail == Pointer {
        assert Story(rest) + [] == Story(rest);
      }
    }
  }

  lemma {:induction false} StoryNone()
    ensures Story([]) == []
  {
  }

  lemma {:induction false} ReplayLast(v: View, events: seq<Event>, e: Event)
    ensures Replay(v, events + [e]) == See(Replay(v, events), e)
  {
    assert (events + [e])[..|events|] == events;
  }
}
