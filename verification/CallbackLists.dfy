/**
 Re-entrant callback lists on values (dix/dixutils.c, Generic Callback Manager): what a run of adds, deletes and nested
 walks leaves, whatever the callbacks do.
 */
module CallbackLists {
  import opened Options

  /** A CallbackRec; the id stands for its address. */
  datatype Node = Node(id: nat, proc: nat, data: nat, deleted: bool)

  datatype List = List(nodes: seq<Node>, inCallback: nat, numDeleted: nat, deleted: bool)

  /** `*pcbl` and the allocator's next address. */
  datatype State = State(cbl: Option<List>, next: nat)

  /** What a callback may do to its own list. `gotList` and `gotNode` say whether the two callocs succeed. */
  datatype Action =
    | Add(proc: nat, data: nat, gotList: bool, gotNode: bool)
    | Delete(proc: nat, data: nat)
    | DeleteList
    | Walk(reactions: seq<Script>)

  /** The actions of one invocation of a callback. */
  datatype Script = Script(actions: seq<Action>)

  // ---- Single operations

  predicate Matches(n: Node, proc: nat, data: nat) {
    n.proc == proc && n.data == data
  }

  /** The index of the first node with the given callback, or the length. */
  function FirstMatch(nodes: seq<Node>, proc: nat, data: nat): (k: nat)
    ensures k <= |nodes| && (k < |nodes| ==> Matches(nodes[k], proc, data))
    ensures forall i :: 0 <= i < k ==> !Matches(nodes[i], proc, data)
  {
    if |nodes| == 0 || Matches(nodes[0], proc, data) then 0 else 1 + FirstMatch(nodes[1..], proc, data)
  }

  function Marked(nodes: seq<Node>, k: nat): seq<Node>
    requires k < |nodes|
  {
    nodes[k := nodes[k].(deleted := true)]
  }

  function Removed(nodes: seq<Node>, k: nat): seq<Node>
    requires k < |nodes|
  {
    nodes[..k] + nodes[k + 1..]
  }

  function CountMarked(nodes: seq<Node>): nat {
    if |nodes| == 0 then 0 else (if nodes[0].deleted then 1 else 0) + CountMarked(nodes[1..])
  }

  /** The nodes that are not marked, in order. */
  function Unmarked(nodes: seq<Node>): seq<Node> {
    if |nodes| == 0 then []
    else if nodes[0].deleted then Unmarked(nodes[1..]) else [nodes[0]] + Unmarked(nodes[1..])
  }

  function AddTo(s: State, proc: nat, data: nat, gotList: bool, gotNode: bool): State {
    if s.cbl.None? && !gotList then s
    else
      var l := if s.cbl.None? then List([], 0, 0, false) else s.cbl.value;
      if !gotNode then s.(cbl := Some(l))
      else State(Some(l.(nodes := [Node(s.next, proc, data, false)] + l.nodes)), s.next + 1)
  }

  function DeleteFrom(s: State, proc: nat, data: nat): State {
    if s.cbl.None? then s
    else
      var l := s.cbl.value;
      var k := FirstMatch(l.nodes, proc, data);
      if k == |l.nodes| then s
      else if l.inCallback > 0 then s.(cbl := Some(l.(nodes := Marked(l.nodes, k), numDeleted := l.numDeleted + 1)))
      else s.(cbl := Some(l.(nodes := Removed(l.nodes, k))))
  }

  function DeleteWhole(s: State): State {
    if s.cbl.None? then s
    else if s.cbl.value.inCallback > 0 then s.(cbl := Some(s.cbl.value.(deleted := true)))
    else s.(cbl := None)
  }

  /** The deletion loop at the end of a walk: it stops after `n` deletions. */
  function Sweep(nodes: seq<Node>, n: nat): seq<Node> {
    if |nodes| == 0 || n == 0 then nodes
    else if nodes[0].deleted then Sweep(nodes[1..], n - 1) else [nodes[0]] + Sweep(nodes[1..], n)
  }

  /** What the end of a walk does. */
  function Leave(s: State): State
    requires s.cbl.Some? && s.cbl.value.inCallback > 0
  {
    var l := s.cbl.value.(inCallback := s.cbl.value.inCallback - 1);
    if l.inCallback > 0 then s.(cbl := Some(l))
    else if l.deleted then s.(cbl := None)
    else
      var marks := CountMarked(l.nodes);
      s.(cbl := Some(l.(nodes := Sweep(l.nodes, l.numDeleted),
                        numDeleted := if marks < l.numDeleted then l.numDeleted - marks else 0)))
  }

  // ---- Whole runs

  function Enter(s: State): State
    requires s.cbl.Some?
  {
    s.(cbl := Some(s.cbl.value.(inCallback := s.cbl.value.inCallback + 1)))
  }

  /** Every node present at the start is invoked once; the i-th one reacts with the i-th script, if there is one. */
  function Visits(s: State, reactions: seq<Script>): (n: nat)
    requires s.cbl.Some?
    ensures n <= |reactions|
  {
    if |reactions| < |s.cbl.value.nodes| then |reactions| else |s.cbl.value.nodes|
  }

  function Act(s: State, a: Action): State
    decreases a, 1
  {
    match a
    case Add(proc, data, gotList, gotNode) => AddTo(s, proc, data, gotList, gotNode)
    case Delete(proc, data) => DeleteFrom(s, proc, data)
    case DeleteList => DeleteWhole(s)
    case Walk(reactions) =>
      if s.cbl.None? then s
      else
        var after := React(Enter(s), reactions, Visits(s, reactions));
        if after.cbl.Some? && after.cbl.value.inCallback > 0 then Leave(after) else after
  }

  /** The first `n` invocations of a walk. */
  function React(s: State, reactions: seq<Script>, n: nat): State
    requires n <= |reactions|
    decreases reactions, n
  {
    if n == 0 then s else ActAll(React(s, reactions, n - 1), reactions[n - 1].actions, |reactions[n - 1].actions|)
  }

  function ActAll(s: State, actions: seq<Action>, n: nat): State
    requires n <= |actions|
    decreases actions, n
  {
    if n == 0 then s else Act(ActAll(s, actions, n - 1), actions[n - 1])
  }

  // ---- What holds at all times

  predicate Inv(s: State) {
    s.cbl.Some? ==>
      var l := s.cbl.value;
      && CountMarked(l.nodes) <= l.numDeleted
      && (l.inCallback == 0 ==> CountMarked(l.nodes) == 0 && !l.deleted)
      && (forall i :: 0 <= i < |l.nodes| ==> l.nodes[i].id < s.next)
      && (forall i, j :: 0 <= i < j < |l.nodes| ==> l.nodes[i].id != l.nodes[j].id)
  }

  predicate SameNode(before: Node, after: Node) {
    after == before || after == before.(deleted := true)
  }

  /** All old nodes are still there, in order, at the end; some may have been marked. */
  predicate Grown(before: seq<Node>, after: seq<Node>) {
    && |before| <= |after|
    && forall i :: 0 <= i < |before| ==> SameNode(before[i], after[|after| - |before| + i])
  }

  /** Nothing a callback does ends a running walk or frees a node. */
  predicate Inside(s: State, s': State) {
    s.cbl.Some? && s'.cbl.Some? &&
    var l, l' := s.cbl.value, s'.cbl.value;
    && l'.inCallback == l.inCallback
    && Grown(l.nodes, l'.nodes)
    && l.numDeleted <= l'.numDeleted
    && (l.deleted ==> l'.deleted)
    && s.next <= s'.next
  }

  lemma {:induction false} GrownTrans(a: seq<Node>, b: seq<Node>, c: seq<Node>)
    requires Grown(a, b) && Grown(b, c)
    ensures Grown(a, c)
  {
    forall i | 0 <= i < |a|
      ensures SameNode(a[i], c[|c| - |a| + i])
    {
      assert SameNode(a[i], b[|b| - |a| + i]);
      assert SameNode(b[|b| - |a| + i], c[|c| - |b| + (|b| - |a| + i)]);
    }
  }

  lemma {:induction false} InsideTrans(s: State, t: State, u: State)
    requires Inside(s, t) && Inside(t, u)
    ensures Inside(s, u)
  {
    GrownTrans(s.cbl.value.nodes, t.cbl.value.nodes, u.cbl.value.nodes);
  }

  lemma {:induction false} MarkCounts(nodes: seq<Node>, k: nat)
    requires k < |nodes|
    ensures CountMarked(Marked(nodes, k)) == CountMarked(nodes) + if nodes[k].deleted then 0 else 1
  {
    var m := Marked(nodes, k);
    if k > 0 {
      MarkCounts(nodes[1..], k - 1);
      assert m[1..] == Marked(nodes[1..], k - 1);
    } else {
      assert m[1..] == nodes[1..];
    }
  }

  lemma {:induction false} RemoveCounts(nodes: seq<Node>, k: nat)
    requires k < |nodes|
    ensures CountMarked(Removed(nodes, k)) == CountMarked(nodes) - if nodes[k].deleted then 1 else 0
  {
    if k > 0 {
      RemoveCounts(nodes[1..], k - 1);
      assert Removed(nodes, k)[1..] == Removed(nodes[1..], k - 1);
    } else {
      assert Removed(nodes, k) == nodes[1..];
    }
  }

  lemma {:induction false} SweepAll(nodes: seq<Node>, n: nat)
    requires CountMarked(nodes) <= n
    ensures Sweep(nodes, n) == Unmarked(nodes)
    ensures CountMarked(nodes) == 0 ==> Unmarked(nodes) == nodes
  {
    if |nodes| != 0 {
      if nodes[0].deleted {
        SweepAll(nodes[1..], n - 1);
      } else {
        SweepAll(nodes[1..], n);
        if n == 0 {
          assert nodes == [nodes[0]] + nodes[1..];
        }
        assert nodes == [nodes[0]] + nodes[1..];
      }
    }
  }

  lemma {:induction false} UnmarkedExact(nodes: seq<Node>)
    ensures CountMarked(Unmarked(nodes)) == 0 && |Unmarked(nodes)| + CountMarked(nodes) == |nodes|
    ensures forall n :: n in Unmarked(nodes) <==> n in nodes && !n.deleted
  {
    if |nodes| != 0 {
      UnmarkedExact(nodes[1..]);
      assert nodes == [nodes[0]] + nodes[1..];
      if !nodes[0].deleted {
        assert ([nodes[0]] + Unmarked(nodes[1..]))[1..] == Unmarked(nodes[1..]);
      }
    }
  }

  lemma {:induction false} UnmarkedDistinct(nodes: seq<Node>)
    requires forall i, j :: 0 <= i < j < |nodes| ==> nodes[i].id != nodes[j].id
    ensures forall i, j :: 0 <= i < j < |Unmarked(nodes)| ==> Unmarked(nodes)[i].id != Unmarked(nodes)[j].id
  {
    if |nodes| != 0 {
      UnmarkedDistinct(nodes[1..]);
      UnmarkedExact(nodes[1..]);
      var rest := Unmarked(nodes[1..]);
      forall i | 0 <= i < |rest|
        ensures rest[i].id != nodes[0].id
      {
        assert rest[i] in rest && rest[i] in nodes[1..];
      }
    }
  }

  lemma {:induction false} AddKeeps(s: State, proc: nat, data: nat, gotList: bool, gotNode: bool)
    requires Inv(s)
    ensures Inv(AddTo(s, proc, data, gotList, gotNode))
    ensures s.cbl.Some? ==> Inside(s, AddTo(s, proc, data, gotList, gotNode))
  {
    var l := if s.cbl.None? then List([], 0, 0, false) else s.cbl.value;
    var more := [Node(s.next, proc, data, false)] + l.nodes;
    assert more[1..] == l.nodes;
  }

  lemma {:induction false} DeleteKeeps(s: State, proc: nat, data: nat)
    requires Inv(s)
    ensures Inv(DeleteFrom(s, proc, data))
    ensures s.cbl.Some? && s.cbl.value.inCallback > 0 ==> Inside(s, DeleteFrom(s, proc, data))
  {
    hide CountMarked, FirstMatch;
    if s.cbl.Some? {
      var nodes := s.cbl.value.nodes;
      var k := FirstMatch(nodes, proc, data);
      if k < |nodes| {
        MarkCounts(nodes, k);
        RemoveCounts(nodes, k);
      }
    }
  }

  lemma {:induction false} LeaveKeeps(s: State)
    requires Inv(s) && s.cbl.Some? && s.cbl.value.inCallback > 0
    ensures Inv(Leave(s))
    ensures var l, s' := s.cbl.value, Leave(s);
            && (l.inCallback > 1 ==> s' == s.(cbl := Some(l.(inCallback := l.inCallback - 1))))
            && (l.inCallback == 1 && l.deleted ==> s'.cbl == None)
            && (l.inCallback == 1 && !l.deleted ==> s'.cbl.Some? && s'.cbl.value.nodes == Unmarked(l.nodes)
                                                    && s'.cbl.value.inCallback == 0)
  {
    var nodes := s.cbl.value.nodes;
    SweepAll(nodes, s.cbl.value.numDeleted);
    UnmarkedExact(nodes);
    UnmarkedDistinct(nodes);
    forall i | 0 <= i < |Unmarked(nodes)|
      ensures Unmarked(nodes)[i].id < s.next
    {
      assert Unmarked(nodes)[i] in nodes;
    }
  }

  /** Every action keeps the invariant, at any nesting depth; inside a walk it keeps the walk going. */
  lemma {:induction false} ActKeeps(s: State, a: Action)
    requires Inv(s)
    ensures Inv(Act(s, a))
    ensures s.cbl.Some? && s.cbl.value.inCallback > 0 ==> Inside(s, Act(s, a))
    decreases a, 1
  {
    match a
    case Add(proc, data, gotList, gotNode) => AddKeeps(s, proc, data, gotList, gotNode);
    case Delete(proc, data) => DeleteKeeps(s, proc, data);
    case DeleteList =>
    case Walk(reactions) =>
      if s.cbl.Some? {
        var n := Visits(s, reactions);
        ReactKeeps(Enter(s), reactions, n);
        LeaveKeeps(React(Enter(s), reactions, n));
      }
  }

  lemma {:induction false} ReactKeeps(s: State, reactions: seq<Script>, n: nat)
    requires Inv(s) && s.cbl.Some? && s.cbl.value.inCallback > 0 && n <= |reactions|
    ensures Inv(React(s, reactions, n)) && Inside(s, React(s, reactions, n))
    decreases reactions, n
  {
    if n > 0 {
      var before := React(s, reactions, n - 1);
      ReactKeeps(s, reactions, n - 1);
      ActAllKeeps(before, reactions[n - 1].actions, |reactions[n - 1].actions|);
      InsideTrans(s, before, React(s, reactions, n));
    }
  }

  lemma {:induction false} ActAllKeeps(s: State, actions: seq<Action>, n: nat)
    requires Inv(s) && n <= |actions|
    ensures Inv(ActAll(s, actions, n))
    ensures s.cbl.Some? && s.cbl.value.inCallback > 0 ==> Inside(s, ActAll(s, actions, n))
    decreases actions, n
  {
    if n > 0 {
      var before := ActAll(s, actions, n - 1);
      ActAllKeeps(s, actions, n - 1);
      ActKeeps(before, actions[n - 1]);
      if s.cbl.Some? && s.cbl.value.inCallback > 0 {
        InsideTrans(s, before, ActAll(s, actions, n));
      }
    }
  }

  /**
   After an outermost walk the list is gone if it was deleted meanwhile; otherwise it is the nodes that are not marked,
   in unchanged order, out of the old nodes behind the ones added.
   */
  lemma {:induction false} OutermostWalk(s: State, reactions: seq<Script>)
    requires Inv(s) && s.cbl.Some? && s.cbl.value.inCallback == 0
    ensures var mid, after := React(Enter(s), reactions, Visits(s, reactions)), Act(s, Walk(reactions));
            && mid.cbl.Some? && Grown(s.cbl.value.nodes, mid.cbl.value.nodes)
            && (if mid.cbl.value.deleted then after.cbl == None
                else after.cbl.Some? && after.cbl.value.nodes == Unmarked(mid.cbl.value.nodes)
                     && after.cbl.value.inCallback == 0)
  {
    var n := Visits(s, reactions);
    ReactKeeps(Enter(s), reactions, n);
    LeaveKeeps(React(Enter(s), reactions, n));
  }

  // ---- Deleting later and deleting at once

  /**
   A deletion deferred by a walk has the effect of an immediate one, unless the first matching node is already marked
   and another match is not: then nothing more is deleted.
   */
  lemma {:induction false} DeferredDelete(nodes: seq<Node>, proc: nat, data: nat)
    ensures var k, live := FirstMatch(nodes, proc, data), Unmarked(nodes);
            var j := FirstMatch(live, proc, data);
            var later := if k < |nodes| then Unmarked(Marked(nodes, k)) else live;
            var atOnce := if j < |live| then Removed(live, j) else live;
            later == atOnce <==> !(k < |nodes| && nodes[k].deleted && j < |live|)
  {
    var k, live := FirstMatch(nodes, proc, data), Unmarked(nodes);
    var j := FirstMatch(live, proc, data);
    if k == |nodes| {
      NoMatch(nodes, proc, data);
    } else if nodes[k].deleted {
      assert Marked(nodes, k) == nodes;
      if j < |live| {
        assert |Removed(live, j)| == |live| - 1;
      }
    } else {
      MarkFirst(nodes, proc, data);
    }
  }

  lemma {:induction false} NoMatch(nodes: seq<Node>, proc: nat, data: nat)
    requires FirstMatch(nodes, proc, data) == |nodes|
    ensures FirstMatch(Unmarked(nodes), proc, data) == |Unmarked(nodes)|
  {
    UnmarkedExact(nodes);
  }

  lemma {:induction false} MarkFirst(nodes: seq<Node>, proc: nat, data: nat)
    requires var k := FirstMatch(nodes, proc, data); k < |nodes| && !nodes[k].deleted
    ensures var k, live := FirstMatch(nodes, proc, data), Unmarked(nodes);
            var j := FirstMatch(live, proc, data);
            j < |live| && Unmarked(Marked(nodes, k)) == Removed(live, j)
  {
    hide Matches, Removed;
    var k := FirstMatch(nodes, proc, data);
    var m, rest := Marked(nodes, k), nodes[1..];
    if k == 0 {
      assert m[1..] == rest;
      RemoveHead(nodes[0], Unmarked(rest));
    } else {
      MarkFirst(rest, proc, data);
      assert m[1..] == Marked(rest, k - 1) && m[0] == nodes[0];
      if !nodes[0].deleted {
        MatchBehind(nodes[0], Unmarked(rest), proc, data);
      }
    }
  }

  lemma {:induction false} RemoveHead(n: Node, nodes: seq<Node>)
    ensures Removed([n] + nodes, 0) == nodes
  {
  }

  lemma {:induction false} MatchBehind(n: Node, nodes: seq<Node>, proc: nat, data: nat)
    requires !Matches(n, proc, data) && FirstMatch(nodes, proc, data) < |nodes|
    ensures var k := FirstMatch(nodes, proc, data);
            && FirstMatch([n] + nodes, proc, data) == k + 1
            && Removed([n] + nodes, k + 1) == [n] + Removed(nodes, k)
  {
    assert ([n] + nodes)[1..] == nodes;
  }

  /**
   The same callback registered twice and deleted twice: outside a walk both nodes go, but when the first invocation
   of a walk makes the two deletions one node survives the walk.
   */
  lemma {:induction false} DeferredTwice()
    ensures var first, second := Node(1, 7, 8, false), Node(0, 7, 8, false);
            var s := State(Some(List([first, second], 0, 0, false)), 2);
            var twice := [Delete(7, 8), Delete(7, 8)];
            && Inv(s)
            && ActAll(s, twice, 2).cbl == Some(List([], 0, 0, false))
            && Act(s, Walk([Script(twice)])).cbl == Some(List([second], 0, 1, false))
  {
    var first, second := Node(1, 7, 8, false), Node(0, 7, 8, false);
    var s := State(Some(List([first, second], 0, 0, false)), 2);
    var twice := [Delete(7, 8), Delete(7, 8)];
    var marked := first.(deleted := true);
    PairSteps(first, second, 2);
    TwoDeletions(s, 7, 8);
    TwoDeletions(Enter(s), 7, 8);
    hide DeleteFrom, Leave;
    assert ActAll(Enter(s), twice, 2) == State(Some(List([marked, second], 1, 2, false)), 2);
    assert React(Enter(s), [Script(twice)], 0) == Enter(s);
    assert React(Enter(s), [Script(twice)], 1) == ActAll(Enter(s), twice, 2);
  }

  lemma {:induction false} PairSteps(first: Node, second: Node, next: nat)
    requires Matches(first, 7, 8) && Matches(second, 7, 8) && !first.deleted && !second.deleted
    ensures var pair, marked := [first, second], [first.(deleted := true), second];
            && DeleteFrom(State(Some(List(pair, 0, 0, false)), next), 7, 8) == State(Some(List([second], 0, 0, false)), next)
            && DeleteFrom(State(Some(List([second], 0, 0, false)), next), 7, 8) == State(Some(List([], 0, 0, false)), next)
            && DeleteFrom(State(Some(List(pair, 1, 0, false)), next), 7, 8) == State(Some(List(marked, 1, 1, false)), next)
            && DeleteFrom(State(Some(List(marked, 1, 1, false)), next), 7, 8) == State(Some(List(marked, 1, 2, false)), next)
            && Leave(State(Some(List(marked, 1, 2, false)), next)) == State(Some(List([second], 0, 1, false)), next)
  {
    var pair, marked := [first, second], [first.(deleted := true), second];
    assert Removed(pair, 0) == [second] && Removed([second], 0) == [];
    assert Marked(pair, 0) == marked == Marked(marked, 0);
    SweepPair(marked[0], second);
  }

  lemma {:induction false} SweepPair(first: Node, second: Node)
    requires first.deleted && !second.deleted
    ensures CountMarked([first, second]) == 1 && Sweep([first, second], 2) == [second]
  {
    assert [first, second][1..] == [second] && [second][1..] == [];
    assert CountMarked([second]) == CountMarked([]) == 0;
    assert Sweep([second], 1) == [second] + Sweep([], 1) == [second];
  }

  lemma {:induction false} TwoDeletions(s: State, proc: nat, data: nat)
    ensures var twice := [Delete(proc, data), Delete(proc, data)];
            ActAll(s, twice, 2) == Act(Act(s, twice[0]), twice[1])
  {
    var twice := [Delete(proc, data), Delete(proc, data)];
    assert ActAll(s, twice, 1) == Act(ActAll(s, twice, 0), twice[0]);
  }
}
