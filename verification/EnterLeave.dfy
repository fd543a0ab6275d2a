/**
 The pointer half of dix/enterleave.c: the PointerWindows table, and the core and per-device events of a pointer that
 moves from one window to another.
 */
module EnterLeave {
  import opened WindowTree
  import opened Presence

  class Pointers {
    /** PointerWindows; an unused entry is NullWindow. */
    var windows: seq<Window>
    /** The core events sent so far, oldest first. */
    var core: seq<Event>
    /** The per-device events sent so far. */
    var device: seq<Event>
    /** The table when the log was empty. */
    ghost const start: seq<Window>

    /** Every window's single-pointer reading of its events agrees with the table. */
    ghost predicate Valid()
      reads this
    {
      forall w: Window | w != NullWindow :: Reads(start, core, windows, w)
    }

    constructor (windows: seq<Window>)
      ensures Valid() && this.windows == windows && core == [] && device == []
    {
      this.windows, core, device, start := windows, [], [], windows;
    }

    method HasPointer(grabbed: bool, win: Window) returns (has: bool)
      ensures has <==> Occupied(windows, grabbed, win)
    {
      if grabbed {
        return false;
      }
      for i := 0 to |windows|
        invariant forall j :: 0 <= j < i ==> windows[j] != win
      {
        if windows[i] == win {
          return true;
        }
      }
      return false;
    }

    /** The first table entry below `win`, or NullWindow. */
    method FirstPointerChild(win: Window) returns (child: Window)
      ensures child == NullWindow <==> !HasBelow(windows, win)
      ensures child != NullWindow ==> IsFirstBelow(windows, win, child)
    {
      for i := 0 to |windows|
        invariant forall j :: 0 <= j < i ==> !IsParent(win, windows[j])
      {
        if windows[i] != NullWindow && IsParent(win, windows[i]) {
          return windows[i];
        }
      }
      return NullWindow;
    }

    method CoreEnterNotifies(grabbed: bool, ancestor: Window, child: Window, detail: Detail)
      requires ancestor < child
      modifies this`core
      ensures core == old(core) + InBetween(windows, grabbed, ancestor, child, detail)
      decreases |child|
    {
      var parent := Parent(child);
      if ancestor == parent {
        return;
      }
      PrefixesComparable(ancestor, parent, child);
      CoreEnterNotifies(grabbed, ancestor, parent, detail);
      var has := HasPointer(grabbed, parent);
      var below := FirstPointerChild(parent);
      if !has && below == NullWindow {
        core := core + [Event(In, detail, parent, child)];
      }
    }

    method CoreLeaveNotifies(grabbed: bool, child: Window, ancestor: Window, detail: Detail)
      requires ancestor <= child && child != NullWindow
      modifies this`core
      ensures core == old(core) + OutBetween(windows, grabbed, child, ancestor, detail)
    {
      if ancestor == child {
        return;
      }
      var below, win := child, Parent(child);
      PrefixesComparable(ancestor, win, child);
      while win != ancestor
        invariant below != NullWindow && win == Parent(below) && ancestor <= win && ancestor < below
        invariant old(core) + OutBetween(windows, grabbed, child, ancestor, detail)
               == core + OutBetween(windows, grabbed, below, ancestor, detail)
        decreases |win|
      {
        var has := HasPointer(grabbed, win);
        var lower := FirstPointerChild(win);
        if has || lower != NullWindow {
          return;
        }
        core := core + [Event(Out, detail, win, below)];
        PrefixesComparable(ancestor, Parent(win), win);
        below := win;
        win := Parent(win);
      }
    }

    /** The event on the window the pointer leaves or enters from above or from the side. */
    method EndNotify(grabbed: bool, kind: Kind, win: Window, detail: Detail)
      modifies this`core
      ensures core == old(core) + EndEvent(windows, grabbed, kind, win, detail)
    {
      var has := HasPointer(grabbed, win);
      if !has {
        var child := FirstPointerChild(win);
        if child != NullWindow {
          core := core + [Event(kind, Inferior, win, NullWindow)];
        } else {
          core := core + [Event(kind, detail, win, NullWindow)];
        }
      }
    }

    method CoreEnterLeaveNonLinear(grabbed: bool, a: Window, b: Window)
      requires Unrelated(a, b) && a != NullWindow && b != NullWindow
      modifies this`core
      ensures core == old(core) + MoveEvents(windows, grabbed, a, b)
    {
      hide InBetween, OutBetween, EndEvent, Meet;
      MeetBelow(a, b);
      var x := CommonAncestor(a, b);
      EndNotify(grabbed, Out, a, Nonlinear);
      CoreLeaveNotifies(grabbed, a, x, NonlinearVirtual);
      CoreEnterNotifies(grabbed, x, b, NonlinearVirtual);
      EndNotify(grabbed, In, b, Nonlinear);
    }

    method CoreEnterLeaveToAncestor(grabbed: bool, a: Window, b: Window)
      requires IsParent(b, a)
      modifies this`core
      ensures core == old(core) + MoveEvents(windows, grabbed, a, b)
    {
      EndNotify(grabbed, Out, a, Ancestor);
      CoreLeaveNotifies(grabbed, a, b, Virtual);
      var has := HasPointer(grabbed, b);
      if !has {
        core := core + [Event(In, Inferior, b, NullWindow)];
      }
    }

    method CoreEnterLeaveToDescendant(grabbed: bool, a: Window, b: Window)
      requires IsParent(a, b)
      modifies this`core
      ensures core == old(core) + MoveEvents(windows, grabbed, a, b)
    {
      var has := HasPointer(grabbed, a);
      if !has {
        core := core + [Event(Out, Inferior, a, NullWindow)];
      }
      CoreEnterNotifies(grabbed, a, b, Virtual);
      EndNotify(grabbed, In, b, Ancestor);
    }

    /**
     A pointer moves between two windows. Slave devices send no core events. A master's move keeps every window's
     reading right exactly when no window is misled, which never happens to an ungrabbed pointer.
     */
    method CoreEnterLeaveEvents(dev: nat, master: bool, grabbed: bool, from: Window, to: Window)
      requires Valid() && dev < |windows| && (master ==> windows[dev] == from)
      requires from != to && from != NullWindow && to != NullWindow
      modifies this`windows, this`core
      ensures !master ==> windows == old(windows) && core == old(core)
      ensures master ==> windows == old(windows)[dev := to]
      ensures master ==> core == old(core) + MoveEvents(old(windows)[dev := NullWindow], grabbed, from, to)
      ensures Valid() <==> (master ==> !AnyMisled(old(windows)[dev := NullWindow], grabbed, from, to))
    {
      if !master {
        return;
      }
      ghost var sent, before := core, windows;
      windows := windows[dev := NullWindow];
      ghost var others := windows;
      if IsParent(from, to) {
        CoreEnterLeaveToDescendant(grabbed, from, to);
      } else if IsParent(to, from) {
        CoreEnterLeaveToAncestor(grabbed, from, to);
      } else {
        CoreEnterLeaveNonLinear(grabbed, from, to);
      }
      windows := windows[dev := to];
      assert others[dev := from] == before && others[dev := to] == windows;
      forall w: Window | w != NullWindow
        ensures Reads(start, core, windows, w) <==> !Misled(others, grabbed, from, to, w)
      {
        ReadOn(start, before, windows, others, grabbed, dev, from, to, sent, w);
      }
    }

    // ---- The events sent to clients that see every device

    method DeviceEnterNotifies(ancestor: Window, child: Window, detail: Detail)
      requires ancestor < child
      modifies this`device
      ensures device == old(device) + AllInBetween(ancestor, child, detail)
      decreases |child|
    {
      var parent := Parent(child);
      if ancestor == parent {
        return;
      }
      PrefixesComparable(ancestor, parent, child);
      DeviceEnterNotifies(ancestor, parent, detail);
      device := device + [Event(In, detail, parent, child)];
    }

    method DeviceLeaveNotifies(child: Window, ancestor: Window, detail: Detail)
      requires ancestor <= child && child != NullWindow
      modifies this`device
      ensures device == old(device) + AllOutBetween(child, ancestor, detail)
    {
      if ancestor == child {
        return;
      }
      var below, win := child, Parent(child);
      PrefixesComparable(ancestor, win, child);
      while win != ancestor
        invariant below != NullWindow && win == Parent(below) && ancestor <= win && ancestor < below
        invariant old(device) + AllOutBetween(child, ancestor, detail) == device + AllOutBetween(below, ancestor, detail)
        decreases |win|
      {
        device := device + [Event(Out, detail, win, below)];
        PrefixesComparable(ancestor, Parent(win), win);
        below := win;
        win := Parent(win);
      }
    }

    method DeviceEnterLeaveEvents(from: Window, to: Window)
      requires from != to && from != NullWindow && to != NullWindow
      modifies this`device
      ensures device == old(device) + DeviceEvents(from, to)
    {
      if IsParent(from, to) {
        device := device + [Event(Out, Inferior, from, NullWindow)];
        DeviceEnterNotifies(from, to, Virtual);
        device := device + [Event(In, Ancestor, to, NullWindow)];
      } else if IsParent(to, from) {
        device := device + [Event(Out, Ancestor, from, NullWindow)];
        DeviceLeaveNotifies(from, to, Virtual);
        device := device + [Event(In, Inferior, to, NullWindow)];
      } else {
        MeetBelow(to, from);
        var common := CommonAncestor(to, from);
        device := device + [Event(Out, Nonlinear, from, NullWindow)];
        DeviceLeaveNotifies(from, common, NonlinearVirtual);
        DeviceEnterNotifies(common, to, NonlinearVirtual);
        device := device + [Event(In, Nonlinear, to, NullWindow)];
      }
    }

    /**
     The whole of DoEnterLeaveEvents for a pointer device. With no other pointer in the table, core and per-device
     clients are sent the same events.
     */
    method DoEnterLeaveEvents(dev: nat, master: bool, grabbed: bool, passive: bool, from: Window, to: Window)
      requires Valid() && dev < |windows| && (master ==> windows[dev] == from)
      requires from != NullWindow && to != NullWindow
      modifies this`windows, this`core, this`device
      ensures from == to || passive ==> windows == old(windows) && core == old(core)
      ensures from == to ==> device == old(device)
      ensures from != to ==> device == old(device) + DeviceEvents(from, to)
      ensures !grabbed ==> Valid()
      ensures from != to && !passive && master && Alone(old(windows)[dev := NullWindow]) ==>
                core == old(core) + DeviceEvents(from, to)
    {
      if from == to {
        return;
      }
      if !passive {
        CoreEnterLeaveEvents(dev, master, grabbed, from, to);
        if Alone(old(windows)[dev := NullWindow]) {
          AloneRefines(old(windows)[dev := NullWindow], grabbed, from, to);
        }
      }
      DeviceEnterLeaveEvents(from, to);
    }
  }

  /** A grabbed pointer moves onto the window where another pointer is: that window is told a second time. */
  method GrabbedMove() returns (p: Pointers)
    ensures fresh(p) && !p.Valid() && p.windows == [[0, 1], [0, 1]]
    ensures p.core == [Event(Out, Inferior, [0], NullWindow), Event(In, Ancestor, [0, 1], NullWindow)]
  {
    p := new Pointers([[0], [0, 1]]);
    var others: seq<Window> := [[], [0, 1]];
    assert p.windows[0 := NullWindow] == others && others[1] == [0, 1];
    assert Parent([0, 1]) == [0];
    assert Misled(others, true, [0], [0, 1], [0, 1]);
    p.CoreEnterLeaveEvents(0, true, true, [0], [0, 1]);
  }
}
