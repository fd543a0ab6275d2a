/**
 The focus half of dix/enterleave.c for moves between real windows: the FocusWindows table and the core FocusIn and
 FocusOut events, with the NotifyPointer runs that accompany them.
 */
module Focus {
  import opened WindowTree
  import opened Presence

  // ---- The events of one focus move. `ws` are the windows of the other keyboards, `pointer` is where the paired
  // ---- pointer is, NullWindow if nowhere.

  /** The first entry below `w`, or NullWindow. */
  function FirstBelow(ws: seq<Window>, w: Window): (child: Window)
    ensures child == NullWindow <==> !HasBelow(ws, w)
    ensures child != NullWindow ==> IsParent(w, child)
  {
    if |ws| == 0 then NullWindow
    else
      assert ws == [ws[0]] + ws[1..];
      assert HasBelow(ws[1..], w) ==> HasBelow(ws, w) by {
        assert forall i :: 0 <= i < |ws| - 1 ==> ws[1..][i] == ws[i + 1];
      }
      assert HasBelow(ws, w) && !IsParent(w, ws[0]) ==> HasBelow(ws[1..], w) by {
        assert forall i :: 1 <= i < |ws| ==> ws[i] == ws[1..][i - 1];
      }
      if IsParent(w, ws[0]) then ws[0] else FirstBelow(ws[1..], w)
  }

  /** The pointer window is above or below `exclude`. */
  predicate InLine(pointer: Window, exclude: Window) {
    exclude != NullWindow && (IsParent(exclude, pointer) || IsParent(pointer, exclude))
  }

  /** NotifyPointer events from the pointer window up to, and without, `top`. */
  function PointerOut(pointer: Window, top: Window, exclude: Window): seq<Event> {
    if !IsParent(top, pointer) || InLine(pointer, exclude) then []
    else seq(|pointer| - |top|, i requires 0 <= i < |pointer| - |top| =>
                                  Event(Out, Pointer, pointer[..|pointer| - i], NullWindow))
  }

  /** NotifyPointer events for the windows below `top`, down to the pointer window. */
  function PointerIn(pointer: Window, top: Window, exclude: Window): seq<Event> {
    if !IsParent(top, pointer) || pointer == exclude || InLine(pointer, exclude) then []
    else seq(|pointer| - |top|, i requires 0 <= i < |pointer| - |top| =>
                                  Event(In, Pointer, pointer[..|top| + 1 + i], NullWindow))
  }

  /** A NotifyPointer run tells exactly the windows between `top` and the pointer window, that one included. */
  lemma {:induction false} PointerRun(pointer: Window, top: Window, exclude: Window, w: Window)
    requires IsParent(top, pointer) && !InLine(pointer, exclude)
    ensures Event(Out, Pointer, w, NullWindow) in PointerOut(pointer, top, exclude) <==> top < w <= pointer
    ensures pointer != exclude ==>
              (Event(In, Pointer, w, NullWindow) in PointerIn(pointer, top, exclude) <==> top < w <= pointer)
    ensures |PointerOut(pointer, top, exclude)| == |pointer| - |top|
  {
    if top < w <= pointer {
      var up, down := PointerOut(pointer, top, exclude), PointerIn(pointer, top, exclude);
      assert w == pointer[..|w|];
      assert up[|pointer| - |w|].window == w;
      assert pointer != exclude ==> down[|w| - |top| - 1].window == w;
    }
  }

  /** What the window that loses the focus sideways or upwards is told, and the windows below it. */
  function LostEvents(ws: seq<Window>, pointer: Window, a: Window, detail: Detail): seq<Event> {
    (if HasDevice(ws, a) || (detail != Nonlinear && !HasBelow(ws, a)) then []
     else PointerOut(pointer, a, FirstBelow(ws, a)))
    + EndEvent(ws, false, Out, a, detail)
  }

  /** What the window that gains the focus from the side or from above is told, and the windows below it. */
  function GainedEvents(ws: seq<Window>, pointer: Window, b: Window, detail: Detail): seq<Event> {
    EndEvent(ws, false, In, b, detail)
    + (if HasDevice(ws, b) || (detail != Nonlinear && !HasBelow(ws, b)) then []
       else PointerIn(pointer, b, FirstBelow(ws, b)))
  }

  function FocusEvents(ws: seq<Window>, pointer: Window, a: Window, b: Window): seq<Event>
    requires a != b && a != NullWindow && b != NullWindow
  {
    if IsParent(a, b) then
      (if HasDevice(ws, a) then [] else PointerOut(pointer, a, b) + [Event(Out, Inferior, a, NullWindow)])
      + Story(InBetween(ws, false, a, b, Virtual))
      + GainedEvents(ws, pointer, b, Ancestor)
    else if IsParent(b, a) then
      LostEvents(ws, pointer, a, Ancestor)
      + Story(OutBetween(ws, false, a, b, Virtual))
      + (if HasDevice(ws, b) then [] else [Event(In, Inferior, b, NullWindow)] + PointerIn(pointer, b, a))
    else
      MeetBelow(a, b);
      LostEvents(ws, pointer, a, Nonlinear)
      + Story(OutBetween(ws, false, a, Meet(a, b), NonlinearVirtual))
      + Story(InBetween(ws, false, Meet(a, b), b, NonlinearVirtual))
      + GainedEvents(ws, pointer, b, Nonlinear)
  }

  lemma {:induction false} Sideways(ws: seq<Window>, pointer: Window, a: Window, b: Window)
    requires Unrelated(a, b) && a != NullWindow && b != NullWindow
    ensures Meet(a, b) < a && Meet(a, b) < b
    ensures FocusEvents(ws, pointer, a, b)
         == LostEvents(ws, pointer, a, Nonlinear)
            + Story(OutBetween(ws, false, a, Meet(a, b), NonlinearVirtual))
            + Story(InBetween(ws, false, Meet(a, b), b, NonlinearVirtual))
            + GainedEvents(ws, pointer, b, Nonlinear)
  {
    hide InBetween, OutBetween, LostEvents, GainedEvents, Meet, Story;
    MeetBelow(a, b);
  }

  lemma {:induction false} NoStory(events: seq<Event>)
    requires forall i :: 0 <= i < |events| ==> events[i].detail == Pointer
    ensures Story(events) == []
  {
    if events != [] {
      NoStory(events[..|events| - 1]);
    }
  }

  lemma {:induction false} StoryTwice(events: seq<Event>)
    ensures Story(Story(events)) == Story(events)
  {
    if events != [] {
      var rest, e := events[..|events| - 1], events[|events| - 1];
      StoryTwice(rest);
      StoryConcat(Story(rest), [e.(child := NullWindow)]);
      StoryOne(e.(child := NullWindow));
    }
  }

  // ---- Which windows get NotifyPointer events

  function OutRun(ws: seq<Window>, pointer: Window, a: Window, b: Window): seq<Event> {
    if HasDevice(ws, a) || (IsParent(b, a) && !HasBelow(ws, a)) then []
    else PointerOut(pointer, a, if IsParent(a, b) then b else FirstBelow(ws, a))
  }

  function InRun(ws: seq<Window>, pointer: Window, a: Window, b: Window): seq<Event> {
    if HasDevice(ws, b) || (IsParent(a, b) && !HasBelow(ws, b)) then []
    else PointerIn(pointer, b, if IsParent(b, a) then a else FirstBelow(ws, b))
  }

  /** The run of the old focus comes before, and that of the new focus after, the events of a pointer's move. */
  lemma {:induction false} FocusShape(ws: seq<Window>, pointer: Window, a: Window, b: Window)
    requires a != b && a != NullWindow && b != NullWindow
    ensures FocusEvents(ws, pointer, a, b)
         == OutRun(ws, pointer, a, b) + Story(MoveEvents(ws, false, a, b)) + InRun(ws, pointer, a, b)
  {
    hide FocusEvents, MoveEvents, OutRun, InRun, Story;
    if IsParent(a, b) {
      ShapeDown(ws, pointer, a, b);
    } else if IsParent(b, a) {
      ShapeUp(ws, pointer, a, b);
    } else {
      ShapeAcross(ws, pointer, a, b);
    }
  }

  lemma {:induction false} ShapeDown(ws: seq<Window>, pointer: Window, a: Window, b: Window)
    requires IsParent(a, b)
    ensures FocusEvents(ws, pointer, a, b)
         == OutRun(ws, pointer, a, b) + Story(MoveEvents(ws, false, a, b)) + InRun(ws, pointer, a, b)
  {
    hide Story, InBetween, HasDevice, HasBelow, FirstBelow, PointerIn, PointerOut, EndEvent;
    var p := if HasDevice(ws, a) then [] else [Event(Out, Inferior, a, NullWindow)];
    var q, r := InBetween(ws, false, a, b, Virtual), EndEvent(ws, false, In, b, Ancestor);
    NoStory([]);
    StoryOfEvent(Event(Out, Inferior, a, NullWindow));
    EndStory(ws, In, b, Ancestor);
    StoryConcat(p, q);
    StoryConcat(p + q, r);
    assert MoveEvents(ws, false, a, b) == p + q + r;
    Regroup(OutRun(ws, pointer, a, b), p, Story(q), r, InRun(ws, pointer, a, b));
    assert GainedEvents(ws, pointer, b, Ancestor) == r + InRun(ws, pointer, a, b);
    assert FocusEvents(ws, pointer, a, b) == OutRun(ws, pointer, a, b) + p + Story(q) + (r + InRun(ws, pointer, a, b));
  }

  lemma {:induction false} ShapeUp(ws: seq<Window>, pointer: Window, a: Window, b: Window)
    requires IsParent(b, a)
    ensures FocusEvents(ws, pointer, a, b)
         == OutRun(ws, pointer, a, b) + Story(MoveEvents(ws, false, a, b)) + InRun(ws, pointer, a, b)
  {
    hide Story, OutBetween, HasDevice, HasBelow, FirstBelow, PointerIn, PointerOut, EndEvent;
    var p, q := EndEvent(ws, false, Out, a, Ancestor), OutBetween(ws, false, a, b, Virtual);
    var r := if HasDevice(ws, b) then [] else [Event(In, Inferior, b, NullWindow)];
    NoStory([]);
    StoryOfEvent(Event(In, Inferior, b, NullWindow));
    EndStory(ws, Out, a, Ancestor);
    StoryConcat(p, q);
    StoryConcat(p + q, r);
    assert MoveEvents(ws, false, a, b) == p + q + r;
    Regroup(OutRun(ws, pointer, a, b), p, Story(q), r, InRun(ws, pointer, a, b));
    assert LostEvents(ws, pointer, a, Ancestor) == OutRun(ws, pointer, a, b) + p;
    assert FocusEvents(ws, pointer, a, b) == OutRun(ws, pointer, a, b) + p + Story(q) + (r + InRun(ws, pointer, a, b));
  }

  lemma {:induction false} ShapeAcross(ws: seq<Window>, pointer: Window, a: Window, b: Window)
    requires Unrelated(a, b) && a != NullWindow && b != NullWindow
    ensures FocusEvents(ws, pointer, a, b)
         == OutRun(ws, pointer, a, b) + Story(MoveEvents(ws, false, a, b)) + InRun(ws, pointer, a, b)
  {
    hide Story, InBetween, OutBetween, HasDevice, HasBelow, FirstBelow, PointerIn, PointerOut, EndEvent, Meet;
    MeetBelow(a, b);
    var o, i := EndEvent(ws, false, Out, a, Nonlinear), EndEvent(ws, false, In, b, Nonlinear);
    var q := OutBetween(ws, false, a, Meet(a, b), NonlinearVirtual);
    var r := InBetween(ws, false, Meet(a, b), b, NonlinearVirtual);
    EndStory(ws, Out, a, Nonlinear);
    EndStory(ws, In, b, Nonlinear);
    StoryConcat(o, q);
    StoryConcat(o + q, r);
    StoryConcat(o + q + r, i);
    var before, after := OutRun(ws, pointer, a, b), InRun(ws, pointer, a, b);
    assert before + o + Story(q) + Story(r) + (i + after) == before + (o + Story(q) + Story(r) + i) + after;
    assert LostEvents(ws, pointer, a, Nonlinear) == before + o;
    assert GainedEvents(ws, pointer, b, Nonlinear) == i + after;
    Sideways(ws, pointer, a, b);
  }

  lemma {:induction false} Regroup(before: seq<Event>, p: seq<Event>, q: seq<Event>, r: seq<Event>, after: seq<Event>)
    ensures before + p + q + (r + after) == before + (p + q + r) + after
  {
  }

  lemma {:induction false} StoryOfEvent(e: Event)
    requires e.detail != Pointer && e.child == NullWindow
    ensures Story([e]) == [e]
  {
    StoryOne(e);
  }

  lemma {:induction false} EndStory(ws: seq<Window>, kind: Kind, w: Window, detail: Detail)
    requires detail != Pointer
    ensures Story(EndEvent(ws, false, kind, w, detail)) == EndEvent(ws, false, kind, w, detail)
  {
    hide Story, HasDevice, HasBelow;
    NoStory([]);
    StoryOfEvent(Event(kind, detail, w, NullWindow));
    StoryOfEvent(Event(kind, Inferior, w, NullWindow));
  }

  /** Apart from NotifyPointer events a focus move is a pointer's move. */
  lemma {:induction false} FocusStory(ws: seq<Window>, pointer: Window, a: Window, b: Window)
    requires a != b && a != NullWindow && b != NullWindow
    ensures Story(FocusEvents(ws, pointer, a, b)) == Story(MoveEvents(ws, false, a, b))
  {
    hide Story, FocusEvents, MoveEvents, HasDevice, HasBelow, FirstBelow;
    var up, move, down := OutRun(ws, pointer, a, b), MoveEvents(ws, false, a, b), InRun(ws, pointer, a, b);
    FocusShape(ws, pointer, a, b);
    NoStory(up);
    NoStory(down);
    StoryTwice(move);
    StoryConcat(up, Story(move));
    StoryConcat(up + Story(move), down);
  }

  /** The event that tells `w` where the pointer is. */
  function Tells(kind: Kind, w: Window): Event {
    Event(kind, Pointer, w, NullWindow)
  }

  /** Neither of the two windows lies above the other. */
  predicate Apart(v: Window, w: Window) {
    !(v < w) && !(w < v)
  }

  lemma {:induction false} StoryTellsNothing(events: seq<Event>, e: Event)
    requires e.detail == Pointer
    ensures e !in Story(events)
  {
    if events != [] {
      StoryTellsNothing(events[..|events| - 1], e);
    }
  }

  /** NotifyPointer events are those of the two runs. */
  lemma {:induction false} TellsOnlyInRuns(ws: seq<Window>, pointer: Window, a: Window, b: Window, w: Window)
    requires a != b && a != NullWindow && b != NullWindow
    ensures Tells(Out, w) in FocusEvents(ws, pointer, a, b) <==> Tells(Out, w) in OutRun(ws, pointer, a, b)
    ensures Tells(In, w) in FocusEvents(ws, pointer, a, b) <==> Tells(In, w) in InRun(ws, pointer, a, b)
  {
    hide Story, FocusEvents, MoveEvents, FirstBelow;
    FocusShape(ws, pointer, a, b);
    StoryTellsNothing(MoveEvents(ws, false, a, b), Tells(Out, w));
    StoryTellsNothing(MoveEvents(ws, false, a, b), Tells(In, w));
  }

  lemma {:induction false} FirstBelowIs(ws: seq<Window>, w: Window)
    ensures FirstBelow(ws, w) != NullWindow ==> IsFirstBelow(ws, w, FirstBelow(ws, w))
    ensures forall c :: IsFirstBelow(ws, w, c) ==> c == FirstBelow(ws, w)
  {
    if |ws| != 0 {
      FirstBelowIs(ws[1..], w);
      assert forall i :: 1 <= i < |ws| ==> ws[i] == ws[1..][i - 1];
      if !IsParent(w, ws[0]) {
        forall c
          ensures IsFirstBelow(ws, w, c) <==> IsFirstBelow(ws[1..], w, c)
        {
          LaterFirst(ws, w, c);
        }
      }
    }
  }

  lemma {:induction false} NoFirstBelow(ws: seq<Window>, w: Window)
    ensures forall c :: IsFirstBelow(ws, w, c) ==> c != NullWindow
  {
  }

  lemma {:induction false} LaterFirst(ws: seq<Window>, w: Window, c: Window)
    requires |ws| > 0 && !IsParent(w, ws[0])
    ensures IsFirstBelow(ws, w, c) <==> IsFirstBelow(ws[1..], w, c)
  {
    var rest := ws[1..];
    if i :| 0 <= i < |rest| && rest[i] == c && IsParent(w, c) && forall j :: 0 <= j < i ==> !IsParent(w, rest[j]) {
      assert forall j :: 1 <= j < i + 1 ==> ws[j] == rest[j - 1];
      assert ws[i + 1] == c;
    }
    if i :| 0 <= i < |ws| && ws[i] == c && IsParent(w, c) && forall j :: 0 <= j < i ==> !IsParent(w, ws[j]) {
      assert rest[i - 1] == c && forall j :: 0 <= j < i - 1 ==> rest[j] == ws[j + 1];
    }
  }

  lemma {:induction false} RunTells(pointer: Window, top: Window, exclude: Window, w: Window)
    requires top != NullWindow
    ensures Tells(Out, w) in PointerOut(pointer, top, exclude) <==>
              top < w <= pointer && (exclude != NullWindow ==> Apart(pointer, exclude))
    ensures Tells(In, w) in PointerIn(pointer, top, exclude) <==>
              top < w <= pointer && (exclude != NullWindow ==> pointer != exclude && Apart(pointer, exclude))
  {
    if top < w <= pointer {
      assert top < pointer;
    }
    if IsParent(top, pointer) && !InLine(pointer, exclude) {
      PointerRun(pointer, top, exclude, w);
    }
  }

  /**
   Focus moves up from `a` to `b`. Below `b` the windows down to the pointer's are told, unless the pointer is in line
   with the old focus; below `a` they are if another keyboard's focus is below and the pointer is not in line with it.
   */
  lemma {:induction false} MoveUpTells(ws: seq<Window>, pointer: Window, a: Window, b: Window, w: Window)
    requires IsParent(b, a)
    ensures Tells(In, w) in FocusEvents(ws, pointer, a, b) <==>
              !HasDevice(ws, b) && b < w <= pointer && pointer != a && Apart(pointer, a)
    ensures Tells(Out, w) in FocusEvents(ws, pointer, a, b) <==>
              && !HasDevice(ws, a) && HasBelow(ws, a) && a < w <= pointer
              && forall c :: IsFirstBelow(ws, a, c) ==> Apart(pointer, c)
  {
    hide FocusEvents, PointerIn, PointerOut, HasDevice, IsFirstBelow;
    TellsOnlyInRuns(ws, pointer, a, b, w);
    FirstBelowIs(ws, a);
    RunTells(pointer, b, a, w);
    RunTells(pointer, a, FirstBelow(ws, a), w);
  }

  /**
   Focus moves down from `a` to `b`. Below `a` the windows down to the pointer's are told, unless the pointer is above
   or below the new focus; below `b` they are if another keyboard's focus is below and the pointer is not in line with
   it.
   */
  lemma {:induction false} MoveDownTells(ws: seq<Window>, pointer: Window, a: Window, b: Window, w: Window)
    requires IsParent(a, b)
    ensures Tells(Out, w) in FocusEvents(ws, pointer, a, b) <==>
              !HasDevice(ws, a) && a < w <= pointer && Apart(pointer, b)
    ensures Tells(In, w) in FocusEvents(ws, pointer, a, b) <==>
              && !HasDevice(ws, b) && HasBelow(ws, b) && b < w <= pointer
              && forall c :: IsFirstBelow(ws, b, c) ==> pointer != c && Apart(pointer, c)
  {
    hide FocusEvents, PointerIn, PointerOut, HasDevice, IsFirstBelow;
    TellsOnlyInRuns(ws, pointer, a, b, w);
    FirstBelowIs(ws, b);
    RunTells(pointer, a, b, w);
    RunTells(pointer, b, FirstBelow(ws, b), w);
  }

  /** Focus moves sideways: below either end the windows are told, unless another focus is below and in line. */
  lemma {:induction false} MoveAcrossTells(ws: seq<Window>, pointer: Window, a: Window, b: Window, w: Window)
    requires Unrelated(a, b) && a != NullWindow && b != NullWindow
    ensures Tells(Out, w) in FocusEvents(ws, pointer, a, b) <==>
              && !HasDevice(ws, a) && a < w <= pointer
              && forall c :: IsFirstBelow(ws, a, c) ==> Apart(pointer, c)
    ensures Tells(In, w) in FocusEvents(ws, pointer, a, b) <==>
              && !HasDevice(ws, b) && b < w <= pointer
              && forall c :: IsFirstBelow(ws, b, c) ==> pointer != c && Apart(pointer, c)
  {
    hide FocusEvents, PointerIn, PointerOut, HasDevice, IsFirstBelow;
    TellsOnlyInRuns(ws, pointer, a, b, w);
    assert FirstBelow(ws, a) != NullWindow <==> HasBelow(ws, a);
    NoFirstBelow(ws, a);
    NoFirstBelow(ws, b);
    FirstBelowIs(ws, a);
    FirstBelowIs(ws, b);
    RunTells(pointer, a, FirstBelow(ws, a), w);
    RunTells(pointer, b, FirstBelow(ws, b), w);
  }

  /** The runs come in path order: upwards before everything else, downwards after everything else. */
  lemma {:induction false} TellsInOrder(ws: seq<Window>, pointer: Window, a: Window, b: Window)
    requires a != b && a != NullWindow && b != NullWindow
    ensures var events := FocusEvents(ws, pointer, a, b);
            forall i, j :: 0 <= i < j < |events| ==>
              && (events[j].detail == Pointer && events[j].kind == Out ==>
                    events[i].detail == Pointer && events[i].kind == Out && events[j].window < events[i].window)
              && (events[i].detail == Pointer && events[i].kind == In ==>
                    events[j].detail == Pointer && events[j].kind == In && events[i].window < events[j].window)
  {
    hide Story, FocusEvents, MoveEvents, FirstBelow, HasDevice, HasBelow;
    FocusShape(ws, pointer, a, b);
    var up, story, down := OutRun(ws, pointer, a, b), Story(MoveEvents(ws, false, a, b)), InRun(ws, pointer, a, b);
    forall k | 0 <= k < |story|
      ensures story[k].detail != Pointer
    {
      assert story[k] in story;
      if story[k].detail == Pointer {
        StoryTellsNothing(MoveEvents(ws, false, a, b), story[k]);
      }
    }
  }

  class Keyboards {
    /** FocusWindows; a keyboard without focus, or with its focus at PointerRoot or None, has NullWindow. */
    var windows: seq<Window>
    /** The core events sent so far. */
    var core: seq<Event>
    ghost const start: seq<Window>

    /** Every window's single-focus reading of its events agrees with the table. */
    ghost predicate Valid()
      reads this
    {
      forall w: Window | w != NullWindow :: Reads(start, core, windows, w)
    }

    constructor (windows: seq<Window>)
      ensures Valid() && this.windows == windows && core == []
    {
      this.windows, core, start := windows, [], windows;
    }

    method HasFocus(win: Window) returns (has: bool)
      ensures has <==> Occupied(windows, false, win)
    {
      for i := 0 to |windows|
        invariant forall j :: 0 <= j < i ==> windows[j] != win
      {
        if windows[i] == win {
          return true;
        }
      }
      return false;
    }

    method FirstFocusChild(win: Window) returns (child: Window)
      ensures child == NullWindow <==> !HasBelow(windows, win)
      ensures child != NullWindow ==> IsFirstBelow(windows, win, child)
      ensures child == FirstBelow(windows, win)
    {
      assert windows[0..] == windows;
      for i := 0 to |windows|
        invariant forall j :: 0 <= j < i ==> !IsParent(win, windows[j])
        invariant FirstBelow(windows[i..], win) == FirstBelow(windows, win)
      {
        assert windows[i..][1..] == windows[i + 1..] && windows[i..][0] == windows[i];
        if windows[i] != NullWindow && IsParent(win, windows[i]) {
          return windows[i];
        }
      }
      return NullWindow;
    }

    method Send(kind: Kind, detail: Detail, win: Window)
      modifies this`core
      ensures core == old(core) + [Event(kind, detail, win, NullWindow)]
    {
      core := core + [Event(kind, detail, win, NullWindow)];
    }

    method CoreFocusInEvents(ancestor: Window, child: Window, detail: Detail)
      requires ancestor < child && detail != Pointer
      modifies this`core
      ensures core == old(core) + Story(InBetween(windows, false, ancestor, child, detail))
      decreases |child|
    {
      var parent := Parent(child);
      if ancestor == parent {
        return;
      }
      hide Story, HasBelow, HasDevice;
      PrefixesComparable(ancestor, parent, child);
      CoreFocusInEvents(ancestor, parent, detail);
      var has := HasFocus(parent);
      var below := FirstFocusChild(parent);
      if !has && below == NullWindow {
        StoryThen(InBetween(windows, false, ancestor, parent, detail), Event(In, detail, parent, child));
        Send(In, detail, parent);
      }
    }

    method CoreFocusOutEvents(child: Window, ancestor: Window, detail: Detail)
      requires ancestor <= child && child != NullWindow && detail != Pointer
      modifies this`core
      ensures core == old(core) + Story(OutBetween(windows, false, child, ancestor, detail))
    {
      hide Story, OutBetween, HasBelow, HasDevice, IsParent, IsFirstBelow;
      if ancestor == child {
        OutNone(windows, child, ancestor, detail);
        return;
      }
      ghost var below := child;
      var win := Parent(child);
      PrefixesComparable(ancestor, win, child);
      ghost var whole := core + Story(OutBetween(windows, false, child, ancestor, detail));
      while win != ancestor
        invariant below != NullWindow && win == Parent(below) && ancestor <= win && ancestor < below
        invariant whole == core + Story(OutBetween(windows, false, below, ancestor, detail))
        decreases |win|
      {
        OutStory(windows, below, ancestor, detail);
        var has := HasFocus(win);
        var lower := FirstFocusChild(win);
        if has || lower != NullWindow {
          return;
        }
        Send(Out, detail, win);
        PrefixesComparable(ancestor, Parent(win), win);
        below := win;
        win := Parent(win);
      }
      OutNone(windows, below, ancestor, detail);
    }

    /**
     FocusOut(NotifyPointer) from the paired pointer's window `pointer` up to, and without, `top`; nothing if the
     pointer is in line with `exclude`.
     */
    method CoreFocusOutNotifyPointerEvents(pointer: Window, top: Window, exclude: Window)
      requires top != NullWindow
      modifies this`core
      ensures core == old(core) + PointerOut(pointer, top, exclude)
    {
      if pointer == NullWindow || !IsParent(top, pointer) {
        return;
      }
      if exclude != NullWindow && (IsParent(exclude, pointer) || IsParent(pointer, exclude)) {
        return;
      }
      ghost var run := PointerOut(pointer, top, exclude);
      var p := pointer;
      ghost var n := 0;
      while p != NullWindow && p != top
        invariant 0 <= n <= |run| && p == pointer[..|pointer| - n]
        invariant core == old(core) + run[..n]
        decreases |p|
      {
        Send(Out, Pointer, p);
        p := Parent(p);
        n := n + 1;
      }
      assert n == |run|;
    }

    method CoreFocusInRecurse(win: Window, stopAt: Window)
      requires stopAt <= win && stopAt != NullWindow
      modifies this`core
      ensures core == old(core) + PointerIn(win, stopAt, NullWindow)
      decreases |win|
    {
      if win == stopAt || win == NullWindow {
        return;
      }
      DeeperIn(win, stopAt);
      CoreFocusInRecurse(Parent(win), stopAt);
      Send(In, Pointer, win);
    }

    method CoreFocusInNotifyPointerEvents(pointer: Window, top: Window, exclude: Window)
      requires top != NullWindow
      modifies this`core
      ensures core == old(core) + PointerIn(pointer, top, exclude)
    {
      if pointer == NullWindow || pointer == exclude || (top != pointer && !IsParent(top, pointer)) {
        return;
      }
      if exclude != NullWindow && (IsParent(exclude, pointer) || IsParent(pointer, exclude)) {
        return;
      }
      CoreFocusInRecurse(pointer, top);
    }

    /** The event on the window that loses the focus sideways or upwards. */
    method LoseFocus(pointer: Window, a: Window, detail: Detail)
      requires a != NullWindow
      modifies this`core
      ensures core == old(core) + LostEvents(windows, pointer, a, detail)
    {
      var has := HasFocus(a);
      if !has {
        var child := FirstFocusChild(a);
        if child != NullWindow {
          CoreFocusOutNotifyPointerEvents(pointer, a, child);
          Send(Out, Inferior, a);
        } else {
          if detail == Nonlinear {
            CoreFocusOutNotifyPointerEvents(pointer, a, NullWindow);
          }
          Send(Out, detail, a);
        }
      }
    }

    /** The event on the window that gains the focus from the side or from above. */
    method GainFocus(pointer: Window, b: Window, detail: Detail)
      requires b != NullWindow
      modifies this`core
      ensures core == old(core) + GainedEvents(windows, pointer, b, detail)
    {
      var has := HasFocus(b);
      if !has {
        var child := FirstFocusChild(b);
        if child != NullWindow {
          Send(In, Inferior, b);
          CoreFocusInNotifyPointerEvents(pointer, b, child);
        } else {
          Send(In, detail, b);
          if detail == Nonlinear {
            CoreFocusInNotifyPointerEvents(pointer, b, NullWindow);
          }
        }
      }
    }

    method CoreFocusNonLinear(pointer: Window, a: Window, b: Window)
      requires Unrelated(a, b) && a != NullWindow && b != NullWindow
      modifies this`core
      ensures core == old(core) + FocusEvents(windows, pointer, a, b)
    {
      hide InBetween, OutBetween, LostEvents, GainedEvents, Meet, Story, FocusEvents;
      MeetBelow(a, b);
      Sideways(windows, pointer, a, b);
      var x := CommonAncestor(a, b);
      LoseFocus(pointer, a, Nonlinear);
      CoreFocusOutEvents(a, x, NonlinearVirtual);
      CoreFocusInEvents(x, b, NonlinearVirtual);
      GainFocus(pointer, b, Nonlinear);
    }

    method CoreFocusToAncestor(pointer: Window, a: Window, b: Window)
      requires IsParent(b, a)
      modifies this`core
      ensures core == old(core) + FocusEvents(windows, pointer, a, b)
    {
      hide InBetween, OutBetween, LostEvents, GainedEvents, Meet, Story, PointerIn;
      LoseFocus(pointer, a, Ancestor);
      CoreFocusOutEvents(a, b, Virtual);
      var has := HasFocus(b);
      if !has {
        Send(In, Inferior, b);
        CoreFocusInNotifyPointerEvents(pointer, b, a);
      }
    }

    method CoreFocusToDescendant(pointer: Window, a: Window, b: Window)
      requires IsParent(a, b)
      modifies this`core
      ensures core == old(core) + FocusEvents(windows, pointer, a, b)
    {
      hide InBetween, OutBetween, LostEvents, GainedEvents, Meet, Story, PointerOut;
      var has := HasFocus(a);
      if !has {
        CoreFocusOutNotifyPointerEvents(pointer, a, b);
        Send(Out, Inferior, a);
      }
      CoreFocusInEvents(a, b, Virtual);
      GainFocus(pointer, b, Ancestor);
    }

    /**
     A master keyboard's focus moves between two windows; `pointer` is where the paired pointer is. The events are
     those of a pointer moving the same way with NotifyPointer runs added, and every window's reading stays right.
     */
    method CoreFocusEvents(dev: nat, master: bool, pointer: Window, from: Window, to: Window)
      requires Valid() && dev < |windows| && (master ==> windows[dev] == from)
      requires from != to && from != NullWindow && to != NullWindow
      modifies this`windows, this`core
      ensures Valid()
      ensures !master ==> windows == old(windows) && core == old(core)
      ensures master ==> windows == old(windows)[dev := to]
      ensures master ==>
                core == old(core) + FocusEvents(old(windows)[dev := NullWindow], pointer, from, to)
      ensures master ==>
                Story(core) == Story(old(core)) + Story(MoveEvents(old(windows)[dev := NullWindow], false, from, to))
    {
      if !master {
        return;
      }
      ghost var sent, before := core, windows;
      windows := windows[dev := NullWindow];
      ghost var others := windows;
      if IsParent(from, to) {
        CoreFocusToDescendant(pointer, from, to);
      } else if IsParent(to, from) {
        CoreFocusToAncestor(pointer, from, to);
      } else {
        CoreFocusNonLinear(pointer, from, to);
      }
      StoryConcat(sent, FocusEvents(others, pointer, from, to));
      FocusStory(others, pointer, from, to);
      windows := windows[dev := to];
      assert others[dev := from] == before && others[dev := to] == windows;
      forall w: Window | w != NullWindow
        ensures Reads(start, core, windows, w)
      {
        FocusReadOn(start, before, windows, others, dev, from, to, sent, core, w);
      }
    }
  }

  lemma {:induction false} FocusReadOn(start: seq<Window>, before: seq<Window>, after: seq<Window>,
                                       others: seq<Window>, dev: nat, from: Window, to: Window, sent: seq<Event>,
                                       now: seq<Event>, w: Window)
    requires dev < |others| && others[dev] == NullWindow && w != NullWindow
    requires from != to && from != NullWindow && to != NullWindow
    requires others[dev := from] == before && others[dev := to] == after
    requires Reads(start, sent, before, w)
    requires Story(now) == Story(sent) + Story(MoveEvents(others, false, from, to))
    ensures Reads(start, now, after, w)
  {
    hide EventsAt, MoveEvents, PlaceOf, Misled, Story;
    var move, v := MoveEvents(others, false, from, to), Sees(PlaceOf(start, w));
    StoryReplays(v, now, w);
    StoryReplays(v, sent + move, w);
    StoryConcat(sent, move);
    Unblinded(others, from, to, w);
    ReadOn(start, before, after, others, false, dev, from, to, sent, w);
  }

  lemma {:induction false} StoryThen(events: seq<Event>, e: Event)
    requires e.detail != Pointer
    ensures Story(events + [e]) == Story(events) + [e.(child := NullWindow)]
  {
    hide Story;
    StoryConcat(events, [e]);
    StoryOne(e);
  }

  lemma {:induction false} OutNone(ws: seq<Window>, child: Window, ancestor: Window, detail: Detail)
    requires ancestor <= child && (ancestor == child || Parent(child) == ancestor)
    ensures Story(OutBetween(ws, false, child, ancestor, detail)) == []
  {
    NoStory([]);
  }

  lemma {:induction false} OutStory(ws: seq<Window>, child: Window, ancestor: Window, detail: Detail)
    requires ancestor < child && detail != Pointer && Parent(child) != ancestor
    ensures ancestor <= Parent(child)
    ensures Story(OutBetween(ws, false, child, ancestor, detail))
         == if HasDevice(ws, Parent(child)) || HasBelow(ws, Parent(child)) then []
            else [Event(Out, detail, Parent(child), NullWindow)]
                 + Story(OutBetween(ws, false, Parent(child), ancestor, detail))
  {
    hide Story, HasDevice, HasBelow;
    PrefixesComparable(ancestor, Parent(child), child);
    NoStory([]);
    var rest := OutBetween(ws, false, Parent(child), ancestor, detail);
    StoryConcat([Event(Out, detail, Parent(child), child)], rest);
    StoryOne(Event(Out, detail, Parent(child), child));
  }

  lemma {:induction false} DeeperIn(win: Window, stopAt: Window)
    requires stopAt < win && stopAt != NullWindow
    ensures stopAt <= Parent(win)
    ensures PointerIn(win, stopAt, NullWindow)
         == PointerIn(Parent(win), stopAt, NullWindow) + [Event(In, Pointer, win, NullWindow)]
  {
    var rest, n := PointerIn(Parent(win), stopAt, NullWindow), |win| - |stopAt| - 1;
    assert |rest| == n;
    assert win[..|stopAt| + 1 + n] == win;
    forall i | 0 <= i < n
      ensures rest[i].window == win[..|stopAt| + 1 + i]
    {
    }
    assert PointerIn(win, stopAt, NullWindow) == rest + [Event(In, Pointer, win, NullWindow)];
  }
}
