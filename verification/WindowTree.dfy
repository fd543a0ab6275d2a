/**
 The window forest. A window is named by its path: the number of its screen, then the child to take at each level.
 The parent of a window is its path without the last step; NullWindow, the parent of every root, is the empty path.
 */
module WindowTree {

  type Window = seq<nat>

  const NullWindow: Window := []

  function Parent(w: Window): Window
    requires w != NullWindow
  {
    w[..|w| - 1]
  }

  /** WindowIsParent: `a` is a proper ancestor of `b`. */
  predicate IsParent(a: Window, b: Window) {
    a != NullWindow && a < b
  }

  /** Neither window is the other or an ancestor of it. */
  predicate Unrelated(a: Window, b: Window) {
    !(a <= b) && !(b <= a)
  }

  /** The deepest window at or above both, or NullWindow. */
  function Meet(a: Window, b: Window): (x: Window)
    ensures x <= a && x <= b
  {
    if a == [] || b == [] || a[0] != b[0] then []
    else
      var x := Meet(a[1..], b[1..]);
      assert a == [a[0]] + a[1..] && b == [b[0]] + b[1..];
      [a[0]] + x
  }

  lemma {:induction false} MeetIsDeepest(a: Window, b: Window, x: Window)
    requires x <= a && x <= b
    ensures x <= Meet(a, b)
  {
    if x != [] {
      MeetIsDeepest(a[1..], b[1..], x[1..]);
      assert x == [x[0]] + x[1..];
    }
  }

  lemma {:induction false} MeetSymmetric(a: Window, b: Window)
    ensures Meet(a, b) == Meet(b, a)
  {
    MeetIsDeepest(a, b, Meet(b, a));
    MeetIsDeepest(b, a, Meet(a, b));
  }

  lemma {:induction false} MeetBelow(a: Window, b: Window)
    requires Unrelated(a, b)
    ensures Meet(a, b) < a && Meet(a, b) < b
  {
  }

  /** Two prefixes of one path are comparable. */
  lemma {:induction false} PrefixesComparable(x: Window, y: Window, w: Window)
    requires x <= w && y <= w
    ensures x <= y || y <= x
  {
    if |x| <= |y| {
      assert x == w[..|x|] == y[..|x|];
    } else {
      assert y == w[..|y|] == x[..|y|];
    }
  }

  lemma {:induction false} PrefixTrans(x: Window, y: Window, z: Window)
    requires x <= y && y <= z
    ensures x <= z
  {
    assert x == y[..|x|] == z[..|x|];
  }

  /** The window that is the first ancestor of both, or NullWindow: the loop climbs from `b`. */
  method CommonAncestor(a: Window, b: Window) returns (x: Window)
    requires Unrelated(a, b)
    ensures x == Meet(a, b)
  {
    MeetBelow(a, b);
    x := Parent(b);
    assert Meet(a, b) <= x by { PrefixesComparable(Meet(a, b), x, b); }
    while x != NullWindow && !IsParent(x, a)
      invariant x < b && Meet(a, b) <= x
      decreases |x|
    {
      assert x != Meet(a, b);
      PrefixesComparable(Meet(a, b), Parent(x), x);
      PrefixTrans(Parent(x), x, b);
      x := Parent(x);
    }
    if x != NullWindow {
      MeetIsDeepest(a, b, x);
    }
  }
}
