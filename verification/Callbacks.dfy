/**
 The callback manager as it runs (dix/dixutils.c): counters and flags changed in place, and walks that follow the
 `next` pointers of a list that callbacks may change under them.
 */
module Callbacks {
  import opened Options
  import opened CallbackLists

  /** One invocation: the node, and what is called with what. */
  datatype Invocation = Invocation(id: nat, proc: nat, data: nat)

  function InvocationOf(n: Node): Invocation {
    Invocation(n.id, n.proc, n.data)
  }

  class Manager {
    /** `*pcbl != NULL` */
    var present: bool
    var list: seq<Node>
    var inCallback: nat
    var numDeleted: nat
    var deleted: bool
    /** The next address calloc returns. */
    var next: nat

    ghost function Now(): State
      reads this
    {
      State(if present then Some(List(list, inCallback, numDeleted, deleted)) else None, next)
    }

    ghost predicate Valid()
      reads this
    {
      Inv(Now())
    }

    constructor ()
      ensures Valid() && Now() == State(None, 0)
    {
      present, list, inCallback, numDeleted, deleted, next := false, [], 0, 0, false, 0;
    }

    method AddCallback(proc: nat, data: nat, gotList: bool, gotNode: bool) returns (ok: bool)
      requires Valid()
      modifies this
      ensures Valid() && Now() == AddTo(old(Now()), proc, data, gotList, gotNode)
      ensures ok <==> gotNode && (old(present) || gotList)
      ensures ok ==>
                && present && |list| > 0 && list[0].proc == proc && list[0].data == data && !list[0].deleted
                && list[1..] == if old(present) then old(list) else []
      ensures ok && !old(present) ==> inCallback == 0 && numDeleted == 0 && !deleted
      ensures old(present) ==> inCallback == old(inCallback) && numDeleted == old(numDeleted) && deleted == old(deleted)
      ensures !ok ==> list == (if old(present) then old(list) else if gotList then [] else old(list))
                      && (present <==> old(present) || gotList)
    {
      AddKeeps(Now(), proc, data, gotList, gotNode);
      if !present {
        if !gotList {
          return false;
        }
        present, list, inCallback, numDeleted, deleted := true, [], 0, 0, false;
      }
      if !gotNode {
        return false;
      }
      list := [Node(next, proc, data, false)] + list;
      next := next + 1;
      return true;
    }

    method DeleteCallback(proc: nat, data: nat) returns (ok: bool)
      requires Valid()
      modifies this
      ensures Valid() && Now() == DeleteFrom(old(Now()), proc, data)
      ensures ok <==> old(present) && exists i :: 0 <= i < |old(list)| && old(list)[i].proc == proc && old(list)[i].data == data
      ensures !ok ==> list == old(list) && numDeleted == old(numDeleted)
      ensures ok ==>
                exists k :: 0 <= k < |old(list)| && old(list)[k].proc == proc && old(list)[k].data == data
                            && (forall i :: 0 <= i < k ==> !(old(list)[i].proc == proc && old(list)[i].data == data))
                            && list == (if old(inCallback) > 0 then old(list)[k := old(list)[k].(deleted := true)]
                                        else old(list)[..k] + old(list)[k + 1..])
      ensures present == old(present) && inCallback == old(inCallback) && deleted == old(deleted)
    {
      hide Inv, Inside;
      DeleteKeeps(Now(), proc, data);
      if !present {
        return false;
      }
      var k := 0;
      while k < |list| && !(list[k].proc == proc && list[k].data == data)
        invariant 0 <= k <= |list|
        invariant forall i :: 0 <= i < k ==> !Matches(list[i], proc, data)
      {
        k := k + 1;
      }
      assert k == FirstMatch(list, proc, data);
      if k == |list| {
        return false;
      }
      if inCallback > 0 {
        numDeleted := numDeleted + 1;
        list := list[k := list[k].(deleted := true)];
      } else {
        list := list[..k] + list[k + 1..];
      }
      return true;
    }

    method DeleteCallbackList()
      requires Valid()
      modifies this
      ensures Valid() && Now() == DeleteWhole(old(Now()))
      ensures present <==> old(present) && old(inCallback) > 0
      ensures present ==> deleted && list == old(list) && inCallback == old(inCallback)
    {
      if !present {
        return;
      }
      if inCallback > 0 {
        deleted := true;
        return;
      }
      present, list := false, [];
    }

    /** The loop that frees marked nodes once no walk is left; `k` is where `cbr` stands. */
    method SweepMarked()
      modifies this`list, this`numDeleted
      ensures list == Sweep(old(list), old(numDeleted))
      ensures numDeleted == if CountMarked(old(list)) < old(numDeleted) then old(numDeleted) - CountMarked(old(list)) else 0
    {
      hide Sweep, CountMarked;
      var k := 0;
      ghost var marks := CountMarked(list);
      assert list[0..] == list;
      while k < |list| && numDeleted > 0
        invariant 0 <= k <= |list|
        invariant Sweep(old(list), old(numDeleted)) == list[..k] + Sweep(list[k..], numDeleted)
        invariant CountMarked(list[k..]) - numDeleted == marks - old(numDeleted)
        decreases |list| - k
      {
        assert list[k..][0] == list[k] && list[k..][1..] == list[k + 1..];
        SweepStep(list[k..], numDeleted);
        if list[k].deleted {
          ghost var rest := list[k + 1..];
          list := list[..k] + list[k + 1..];
          assert list[k..] == rest;
          numDeleted := numDeleted - 1;
        } else {
          assert list[..k + 1] == list[..k] + [list[k]];
          k := k + 1;
        }
      }
      SweepRest(list, k, numDeleted);
    }

    /** `cbr->proc` and `cbr->data`: they may only be asked of a node that has not been freed. */
    method Follow(id: nat, ghost at: nat) returns (call: Invocation)
      requires at < |list| && list[at].id == id
      requires forall i, j :: 0 <= i < j < |list| ==> list[i].id != list[j].id
      ensures call == InvocationOf(list[at])
    {
      var k := 0;
      while list[k].id != id
        invariant 0 <= k <= at
        decreases at - k
      {
        k := k + 1;
      }
      call := Invocation(id, list[k].proc, list[k].data);
    }

    /** `cbr->next`: it may only be asked of a node that has not been freed. */
    method Successor(id: nat, ghost at: nat) returns (succ: Option<nat>)
      requires at < |list| && list[at].id == id
      requires forall i, j :: 0 <= i < j < |list| ==> list[i].id != list[j].id
      ensures succ == if at + 1 < |list| then Some(list[at + 1].id) else None
    {
      var k := 0;
      while list[k].id != id
        invariant 0 <= k <= at
        decreases at - k
      {
        k := k + 1;
      }
      succ := if k + 1 < |list| then Some(list[k + 1].id) else None;
    }

    /**
     A walk, with whatever the invoked callbacks do. It invokes exactly the nodes that were there when it began, once
     each and in order; the successor is always asked of a node that is still in the list.
     */
    method CallCallbacks(reactions: seq<Script>) returns (invoked: seq<Invocation>)
      requires Valid()
      modifies this
      ensures Valid() && Now() == Act(old(Now()), Walk(reactions))
      ensures |invoked| == if old(present) then |old(list)| else 0
      ensures forall i :: 0 <= i < |invoked| ==> invoked[i] == Invocation(old(list)[i].id, old(list)[i].proc, old(list)[i].data)
      decreases reactions, 3
    {
      hide Inv, Inside, React, Sweep, CountMarked;
      ActKeeps(Now(), Walk(reactions));
      if !present {
        return [];
      }
      EnterKeeps(Now());
      inCallback := inCallback + 1;
      invoked := InvokeAll(reactions);
      inCallback := inCallback - 1;
      if inCallback > 0 {
        return;
      }
      if deleted {
        present, list := false, [];
        return;
      }
      SweepNothing(list);
      if numDeleted > 0 {
        SweepMarked();
      }
    }

    method InvokeAll(reactions: seq<Script>) returns (invoked: seq<Invocation>)
      requires Valid() && present && inCallback > 0
      modifies this
      ensures Valid() && Now() == React(old(Now()), reactions, Visits(old(Now()), reactions))
      ensures present && inCallback == old(inCallback) && Reports(invoked, old(list))
      decreases reactions, 2
    {
      hide Inv, Inside, React, Reports, ActAll;
      ghost var s0, nodes := Now(), list;
      var cbr := if |list| == 0 then None else Some(list[0].id);
      invoked := [];
      var i := 0;
      NoneYet(s0, reactions);
      while cbr.Some?
        invariant Valid() && Inside(s0, Now()) && inCallback == old(inCallback) && 0 <= i <= |nodes|
        invariant cbr == if i < |nodes| then Some(nodes[i].id) else None
        invariant Reports(invoked, nodes[..i])
        invariant Now() == React(s0, reactions, Reacted(i, reactions))
        decreases |nodes| - i
      {
        var call, succ := Invoke(cbr.value, reactions, s0, i);
        ReportsLonger(invoked, nodes, i, call);
        invoked := invoked + [call];
        cbr := succ;
        i := i + 1;
      }
      assert nodes[..|nodes|] == nodes;
      StillInside(s0, Now());
    }

    /** One node of a walk that began in state `s0`: call it, then ask for its successor. */
    method Invoke(cbr: nat, reactions: seq<Script>, ghost s0: State, i: nat) returns (call: Invocation, succ: Option<nat>)
      requires Valid() && Inside(s0, Now()) && i < |s0.cbl.value.nodes| && cbr == s0.cbl.value.nodes[i].id
      requires inCallback > 0 && Now() == React(s0, reactions, Reacted(i, reactions))
      modifies this
      ensures Valid() && Inside(s0, Now()) && inCallback == old(inCallback)
      ensures Now() == React(s0, reactions, Reacted(i + 1, reactions))
      ensures call == InvocationOf(s0.cbl.value.nodes[i])
      ensures succ == if i + 1 < |s0.cbl.value.nodes| then Some(s0.cbl.value.nodes[i + 1].id) else None
      decreases reactions, 1
    {
      hide Inv, React, ActAll, Grown;
      ghost var before, behind := Now(), |s0.cbl.value.nodes| - i;
      Cursor(s0, before, i);
      call := Follow(cbr, |list| - behind);
      if i < |reactions| {
        PerformAll(reactions[i].actions);
        InsideTrans(s0, before, Now());
      }
      ReactNext(s0, reactions, i);
      Cursor(s0, Now(), i);
      succ := Successor(cbr, |list| - behind);
    }

    method Perform(a: Action)
      requires Valid()
      modifies this
      ensures Valid() && Now() == Act(old(Now()), a)
      ensures old(present) && old(inCallback) > 0 ==> Inside(old(Now()), Now())
      decreases a, 1
    {
      ActKeeps(Now(), a);
      match a
      case Add(proc, data, gotList, gotNode) => var ok := AddCallback(proc, data, gotList, gotNode);
      case Delete(proc, data) => var ok := DeleteCallback(proc, data);
      case DeleteList => DeleteCallbackList();
      case Walk(reactions) => var invoked := CallCallbacks(reactions);
    }

    method PerformAll(actions: seq<Action>)
      requires Valid()
      modifies this
      ensures Valid() && Now() == ActAll(old(Now()), actions, |actions|)
      ensures old(present) && old(inCallback) > 0 ==> Inside(old(Now()), Now())
      decreases actions, 1
    {
      ActAllKeeps(Now(), actions, |actions|);
      for i := 0 to |actions|
        invariant Valid() && Now() == ActAll(old(Now()), actions, i)
      {
        Perform(actions[i]);
      }
    }
  }

  /** Exactly these nodes were invoked, in order. */
  ghost predicate Reports(invoked: seq<Invocation>, nodes: seq<Node>) {
    |invoked| == |nodes| && forall i :: 0 <= i < |nodes| ==> invoked[i] == InvocationOf(nodes[i])
  }

  lemma {:induction false} ReportsLonger(invoked: seq<Invocation>, nodes: seq<Node>, i: nat, call: Invocation)
    requires i < |nodes| && Reports(invoked, nodes[..i]) && call == InvocationOf(nodes[i])
    ensures Reports(invoked + [call], nodes[..i + 1])
  {
  }

  function Reacted(i: nat, reactions: seq<Script>): (n: nat)
    ensures n <= |reactions|
  {
    if i < |reactions| then i else |reactions|
  }

  lemma {:induction false} NoneYet(s: State, reactions: seq<Script>)
    requires s.cbl.Some?
    ensures Inside(s, s) && React(s, reactions, 0) == s && Reports([], [])
  {
  }

  lemma {:induction false} ReactNext(s: State, reactions: seq<Script>, i: nat)
    ensures var before := React(s, reactions, Reacted(i, reactions));
            React(s, reactions, Reacted(i + 1, reactions)) ==
            if i < |reactions| then ActAll(before, reactions[i].actions, |reactions[i].actions|) else before
  {
  }

  lemma {:induction false} StillInside(s0: State, s: State)
    requires Inside(s0, s)
    ensures s0.cbl.Some? && s.cbl.Some? && s.cbl.value.inCallback == s0.cbl.value.inCallback
    ensures Grown(s0.cbl.value.nodes, s.cbl.value.nodes)
  {
  }

  /** The node a walk stands on has moved back in the list by the nodes added in front, and is still there. */
  lemma {:induction false} Cursor(s0: State, s: State, i: nat)
    requires Inv(s) && Inside(s0, s) && i < |s0.cbl.value.nodes|
    ensures var nodes, list := s0.cbl.value.nodes, s.cbl.value.nodes;
            var at := |list| - |nodes| + i;
            && 0 <= at < |list| && list[at].id == nodes[i].id && InvocationOf(list[at]) == InvocationOf(nodes[i])
            && (i + 1 < |nodes| ==> list[at + 1].id == nodes[i + 1].id)
            && (forall j, k :: 0 <= j < k < |list| ==> list[j].id != list[k].id)
  {
    var nodes, list := s0.cbl.value.nodes, s.cbl.value.nodes;
    var at := |list| - |nodes| + i;
    assert SameNode(nodes[i], list[at]);
    if i + 1 < |nodes| {
      assert SameNode(nodes[i + 1], list[|list| - |nodes| + (i + 1)]);
    }
  }

  lemma {:induction false} SweepStep(list: seq<Node>, n: nat)
    requires |list| > 0 && n > 0
    ensures Sweep(list, n) == if list[0].deleted then Sweep(list[1..], n - 1) else [list[0]] + Sweep(list[1..], n)
    ensures CountMarked(list) == CountMarked(list[1..]) + if list[0].deleted then 1 else 0
  {
  }

  lemma {:induction false} SweepNothing(list: seq<Node>)
    ensures Sweep(list, 0) == list
  {
  }

  lemma {:induction false} EnterKeeps(s: State)
    requires Inv(s) && s.cbl.Some?
    ensures Inv(Enter(s))
  {
  }

  lemma {:induction false} SweepRest(list: seq<Node>, k: nat, n: nat)
    requires k <= |list| && (k == |list| || n == 0)
    ensures list[..k] + Sweep(list[k..], n) == list
    ensures k == |list| ==> CountMarked(list[k..]) == 0
  {
    assert list[..k] + list[k..] == list;
  }

  /** Registering a callback and, outside a walk, deleting it again: the deletion succeeds and undoes it. */
  method AddThenDelete(m: Manager, proc: nat, data: nat) returns (deletion: bool)
    requires m.Valid() && (m.present ==> m.inCallback == 0)
    modifies m
    ensures m.Valid() && m.present && m.inCallback == 0
    ensures deletion && m.list == if old(m.present) then old(m.list) else []
  {
    var ok := m.AddCallback(proc, data, true, true);
    ghost var added := m.list;
    assert added[0].proc == proc && added[0].data == data;
    deletion := m.DeleteCallback(proc, data);
    assert added[..0] + added[1..] == added[1..];
  }
}
