/**
 A window's list of passive grabs (dix/grabs.c): adding, removing and subtracting grabs, with allocation failures.
 */
module PassiveGrabs {
  import opened Options
  import opened GrabAlgebra

  datatype Status = Success | BadAccess | BadAlloc | AccessDenied

  // ---- Lists of grabs

  predicate AllValid(list: seq<Grab>) {
    forall i :: 0 <= i < |list| ==> Valid(list[i])
  }

  predicate DistinctIds(list: seq<Grab>) {
    forall i, j :: 0 <= i < j < |list| ==> list[i].resource != list[j].resource
  }

  predicate IdsBelow(list: seq<Grab>, limit: nat) {
    forall i :: 0 <= i < |list| ==> list[i].resource < limit
  }

  /** Some grab with these terms claims the pair. */
  ghost predicate Held(list: seq<Grab>, t: Terms, m: nat, k: nat)
    requires m < 256 && k < 256
  {
    exists i :: 0 <= i < |list| && Valid(list[i]) && list[i].terms == t && Claims(list[i], m, k)
  }

  /** No pair is claimed by two clients' compatible grabs. */
  ghost predicate Exclusive(list: seq<Grab>) {
    forall s: Terms, t: Terms, m: nat, k: nat ::
      m < 256 && k < 256 && s.client != t.client && Compatible(s, t) ==> !(Held(list, s, m, k) && Held(list, t, m, k))
  }

  /** `after` holds what `before` held, minus the pairs of `minuend` where it concerns the terms. */
  ghost predicate Subtracted(before: seq<Grab>, after: seq<Grab>, minuend: Grab)
    requires Valid(minuend)
  {
    forall t: Terms, m: nat, k: nat :: m < 256 && k < 256 ==>
      (Held(after, t, m, k) <==> Held(before, t, m, k) && !(Concerns(minuend, t) && Claims(minuend, m, k)))
  }

  /** Holding less keeps the clients apart. */
  lemma {:induction false} SubtractKeepsExclusive(before: seq<Grab>, after: seq<Grab>, minuend: Grab)
    requires Valid(minuend) && Subtracted(before, after, minuend) && Exclusive(before)
    ensures Exclusive(after)
  {
  }

  // ---- The three kinds of change, as DeletePassiveGrabFromList collects them

  datatype Field = KeyMask | ModsMask

  /** `*updates[j] = details[j]`, with the grab named by its resource. */
  datatype Update = Update(resource: nat, field: Field, mask: Words)

  datatype Plan = Plan(deletes: seq<nat>, adds: seq<Grab>, updates: seq<Update>)

  function PlanUpdate(grab: Grab, minuend: Grab): Update
    requires Valid(grab) && Valid(minuend) && Unmasked(minuend) && ActionFor(grab, minuend) in {NarrowKey, NarrowMods, Split}
  {
    ActionSound(grab, minuend);
    if ActionFor(grab, minuend) == NarrowMods then
      Update(grab.resource, ModsMask, DeleteDetailFromMask(grab.mods.pMask, minuend.mods.exact))
    else
      Update(grab.resource, KeyMask, DeleteDetailFromMask(grab.key.pMask, minuend.key.exact))
  }

  /** The plan after one more grab. `next` is the resource id the next new grab gets. */
  function PlanStep(p: Plan, grab: Grab, minuend: Grab, next: nat): Plan
    requires Valid(grab) && Valid(minuend) && Unmasked(minuend)
  {
    match ActionFor(grab, minuend)
    case Keep => p
    case Delete => p.(deletes := p.deletes + [grab.resource])
    case NarrowKey | NarrowMods => p.(updates := p.updates + [PlanUpdate(grab, minuend)])
    case Split =>
      p.(updates := p.updates + [PlanUpdate(grab, minuend)], adds := p.adds + [SplitOff(grab, minuend, next)])
  }

  function PlanFor(list: seq<Grab>, minuend: Grab, next: nat): Plan
    requires AllValid(list) && Valid(minuend) && Unmasked(minuend)
  {
    if |list| == 0 then Plan([], [], [])
    else
      var n := |list| - 1;
      var p := PlanFor(list[..n], minuend, next);
      PlanStep(p, list[n], minuend, next + |p.adds|)
  }

  /** How many allocations one grab needs. */
  function Cost(grab: Grab, minuend: Grab): nat
    requires Valid(grab) && Valid(minuend)
  {
    match ActionFor(grab, minuend)
    case Keep | Delete => 0
    case NarrowKey | NarrowMods => 1
    case Split => 5
  }

  function TotalCost(list: seq<Grab>, minuend: Grab): nat
    requires AllValid(list) && Valid(minuend)
  {
    if |list| == 0 then 0 else TotalCost(list[..|list| - 1], minuend) + Cost(list[|list| - 1], minuend)
  }

  /** The four work arrays, then whatever the grabs need; an empty list needs nothing. */
  function Needed(list: seq<Grab>, minuend: Grab): nat
    requires AllValid(list) && Valid(minuend)
  {
    if |list| == 0 then 0 else 4 + TotalCost(list, minuend)
  }

  // ---- Applying a plan

  function Without(list: seq<Grab>, gone: set<nat>): seq<Grab> {
    if |list| == 0 then []
    else
      var rest := Without(list[..|list| - 1], gone);
      if list[|list| - 1].resource in gone then rest else rest + [list[|list| - 1]]
  }

  function Reversed(list: seq<Grab>): seq<Grab> {
    if |list| == 0 then [] else [list[|list| - 1]] + Reversed(list[..|list| - 1])
  }

  function SetMask(g: Grab, u: Update): Grab {
    if g.resource != u.resource then g
    else match u.field
      case KeyMask => g.(key := g.key.(pMask := Some(u.mask)))
      case ModsMask => g.(mods := g.mods.(pMask := Some(u.mask)))
  }

  function SetMasks(g: Grab, updates: seq<Update>): Grab {
    if |updates| == 0 then g else SetMask(SetMasks(g, updates[..|updates| - 1]), updates[|updates| - 1])
  }

  function Each(list: seq<Grab>, updates: seq<Update>): seq<Grab> {
    seq(|list|, i requires 0 <= i < |list| => SetMasks(list[i], updates))
  }

  function Applied(list: seq<Grab>, p: Plan): seq<Grab> {
    Each(Reversed(p.adds) + Without(list, ToSet(p.deletes)), p.updates)
  }

  lemma {:induction false} EachNone(list: seq<Grab>)
    ensures Each(list, []) == list
  {
  }

  lemma {:induction false} EachStep(list: seq<Grab>, updates: seq<Update>, j: nat)
    requires j < |updates|
    ensures var before, after := Each(list, updates[..j]), Each(list, updates[..j + 1]);
            |after| == |before| && forall i :: 0 <= i < |before| ==> after[i] == SetMask(before[i], updates[j])
  {
    assert updates[..j + 1][..j] == updates[..j];
  }

  function ToSet(ids: seq<nat>): set<nat> {
    set id | id in ids
  }

  /** Unlinking grabs keeps every property of the list. */
  lemma {:induction false} WithoutKeeps(list: seq<Grab>, gone: set<nat>, limit: nat)
    ensures DistinctIds(list) ==> DistinctIds(Without(list, gone))
    ensures AllValid(list) ==> AllValid(Without(list, gone))
    ensures IdsBelow(list, limit) ==> IdsBelow(Without(list, gone), limit)
    ensures Exclusive(list) ==> Exclusive(Without(list, gone))
  {
    hide Valid, Compatible, Claims;
    var kept := Without(list, gone);
    if DistinctIds(list) {
      WithoutDistinct(list, gone);
    }
    forall g
      ensures g in kept ==> g in list
    {
      WithoutMember(list, gone, g);
    }
    assert forall i :: 0 <= i < |kept| ==> kept[i] in kept;
    forall t: Terms, m: nat, k: nat | m < 256 && k < 256 && Held(kept, t, m, k)
      ensures Held(list, t, m, k)
    {
      var i :| 0 <= i < |kept| && Valid(kept[i]) && kept[i].terms == t && Claims(kept[i], m, k);
      var j :| 0 <= j < |list| && list[j] == kept[i];
    }
  }

  class Window {
    var passiveGrabs: seq<Grab>
    /** FakeClientID's next answer: larger than every id in use. */
    var nextId: nat

    ghost predicate WindowValid()
      reads this
    {
      && AllValid(passiveGrabs) && DistinctIds(passiveGrabs) && IdsBelow(passiveGrabs, nextId)
      && Exclusive(passiveGrabs)
    }

    constructor ()
      ensures WindowValid() && passiveGrabs == []
    {
      passiveGrabs, nextId := [], 0;
    }

    /** Unlink one grab; it is fine if it is not there. */
    method DeletePassiveGrab(resource: nat)
      requires DistinctIds(passiveGrabs)
      modifies this`passiveGrabs
      ensures passiveGrabs == Without(old(passiveGrabs), {resource})
      ensures old(WindowValid()) ==> WindowValid()
    {
      hide Exclusive, Held, Valid;
      WithoutKeeps(passiveGrabs, {resource}, nextId);
      var n := 0;
      while n < |passiveGrabs| && passiveGrabs[n].resource != resource
        invariant 0 <= n <= |passiveGrabs|
        invariant forall i :: 0 <= i < n ==> passiveGrabs[i].resource != resource
      {
        n := n + 1;
      }
      RemoveOne(passiveGrabs, resource, n);
      if n < |passiveGrabs| {
        passiveGrabs := passiveGrabs[..n] + passiveGrabs[n + 1..];
      }
    }

    /**
     One round of the collecting loop. `oom(n)` says that the n-th allocation fails; `n` counts the allocations
     made so far. New grabs take their ids from nextId.
     */
    method Collect(grab: Grab, minuend: Grab, p: Plan, n: nat, oom: nat -> bool)
      returns (p': Plan, n': nat, ok: bool)
      requires Valid(grab) && Valid(minuend) && Unmasked(minuend)
      modifies this`nextId
      ensures ok <==> forall x: nat :: n <= x < n + Cost(grab, minuend) ==> !oom(x)
      ensures ok ==> p' == PlanStep(p, grab, minuend, old(nextId)) && n' == n + Cost(grab, minuend)
      ensures ok ==> nextId == old(nextId) + |p'.adds| - |p.adds|
      ensures nextId >= old(nextId)
    {
      hide GetBit;
      p', n', ok := p, n, true;
      ActionSound(grab, minuend);
      var any := AnyModifier(minuend.terms.grabtype);
      if grab.terms.client != minuend.terms.client || !GrabMatchesSecond(grab, minuend) {
        return;
      }
      if GrabSupersedesSecond(minuend, grab) {
        p' := p.(deletes := p.deletes + [grab.resource]);
      } else if grab.key.exact == ANY_KEY && grab.mods.exact != any {
        p', n', ok := AddUpdate(p, n, oom, grab.resource, KeyMask, grab.key.pMask, minuend.key.exact);
      } else if grab.mods.exact == any && grab.key.exact != ANY_KEY {
        p', n', ok := AddUpdate(p, n, oom, grab.resource, ModsMask, grab.mods.pMask, minuend.mods.exact);
      } else if minuend.key.exact != ANY_KEY && minuend.mods.exact != any {
        p', n', ok := AddUpdate(p, n, oom, grab.resource, KeyMask, grab.key.pMask, minuend.key.exact);
        if oom(n') {
          ok := false;
        } else {
          var resource := nextId;
          nextId := nextId + 1;
          // the mask, the window's optional record and the resource entry
          if oom(n' + 1) || oom(n' + 2) || oom(n' + 3) {
            ok := false;
          } else {
            var mask := DeleteDetailFromMask(grab.mods.pMask, minuend.mods.exact);
            p' := p'.(adds := p'.adds + [Grab(resource, grab.terms, Detail(any, Some(mask)),
                                              Detail(minuend.key.exact, None))]);
            n' := n' + 4;
          }
        }
      } else if minuend.key.exact == ANY_KEY {
        p', n', ok := AddUpdate(p, n, oom, grab.resource, ModsMask, grab.mods.pMask, minuend.mods.exact);
      } else {
        p', n', ok := AddUpdate(p, n, oom, grab.resource, KeyMask, grab.key.pMask, minuend.key.exact);
      }
    }

    /** The collecting loop over the whole list. */
    method CollectAll(minuend: Grab, oom: nat -> bool) returns (p: Plan, ok: bool)
      requires AllValid(passiveGrabs) && Valid(minuend) && Unmasked(minuend) && passiveGrabs != []
      modifies this`nextId
      ensures ok <==> forall x: nat :: 4 <= x < Needed(passiveGrabs, minuend) ==> !oom(x)
      ensures ok ==> p == PlanFor(passiveGrabs, minuend, old(nextId)) && nextId == old(nextId) + |p.adds|
      ensures nextId >= old(nextId)
    {
      hide PlanStep, Cost, Valid;
      var i, n := 0, 4;
      p, ok := Plan([], [], []), true;
      ghost var list := passiveGrabs;
      while i < |passiveGrabs| && ok
        invariant 0 <= i <= |list| && nextId >= old(nextId)
        invariant ok ==> p == PlanFor(list[..i], minuend, old(nextId)) && n == 4 + TotalCost(list[..i], minuend)
        invariant ok ==> nextId == old(nextId) + |p.adds|
        invariant ok ==> forall x: nat :: 4 <= x < n ==> !oom(x)
        invariant !ok ==> exists x: nat :: 4 <= x < 4 + TotalCost(list[..i], minuend) && oom(x)
      {
        PrefixStep(list, minuend, old(nextId), i);
        p, n, ok := Collect(passiveGrabs[i], minuend, p, n, oom);
        i := i + 1;
      }
      assert list[..|list|] == list;
      if !ok {
        CostGrows(list, minuend, i);
      }
    }

    /** The deletes of a plan. */
    method ApplyDeletes(deletes: seq<nat>)
      requires DistinctIds(passiveGrabs)
      modifies this`passiveGrabs
      ensures passiveGrabs == Without(old(passiveGrabs), ToSet(deletes))
    {
      ghost var list := passiveGrabs;
      WithoutNone(list, {});
      assert ToSet(deletes[..0]) == {};
      for j := 0 to |deletes|
        invariant passiveGrabs == Without(list, ToSet(deletes[..j]))
      {
        hide Without, DistinctIds;
        WithoutDistinct(list, ToSet(deletes[..j]));
        WithoutTwice(list, ToSet(deletes[..j]), {deletes[j]});
        assert ToSet(deletes[..j]) + {deletes[j]} == ToSet(deletes[..j + 1]);
        DeletePassiveGrab(deletes[j]);
      }
      assert deletes[..|deletes|] == deletes;
    }

    /** Carry out the plan: deletes, then adds, then updates. */
    method Apply(p: Plan)
      requires DistinctIds(passiveGrabs)
      modifies this`passiveGrabs
      ensures passiveGrabs == Applied(old(passiveGrabs), p)
    {
      ApplyDeletes(p.deletes);
      ApplyAdds(p.adds);
      ApplyUpdates(p.updates);
    }

    /** Each new grab goes in front. */
    method ApplyAdds(adds: seq<Grab>)
      modifies this`passiveGrabs
      ensures passiveGrabs == Reversed(adds) + old(passiveGrabs)
    {
      for j := 0 to |adds|
        invariant passiveGrabs == Reversed(adds[..j]) + old(passiveGrabs)
      {
        assert adds[..j + 1][..j] == adds[..j];
        passiveGrabs := [adds[j]] + passiveGrabs;
      }
      assert adds[..|adds|] == adds;
    }

    /** Each update reaches the grab it names. */
    method ApplyUpdates(updates: seq<Update>)
      modifies this`passiveGrabs
      ensures passiveGrabs == Each(old(passiveGrabs), updates)
    {
      hide Each, SetMask;
      ghost var list := passiveGrabs;
      EachNone(list);
      assert updates[..0] == [];
      for j := 0 to |updates|
        invariant passiveGrabs == Each(list, updates[..j])
      {
        var grabs, u := passiveGrabs, updates[j];
        EachStep(list, updates, j);
        passiveGrabs := seq(|grabs|, i requires 0 <= i < |grabs| => SetMask(grabs[i], u));
      }
      assert updates[..|updates|] == updates;
    }

    /**
     Take the minuend's pairs away from every grab of its client that it matches. Either all of it happens, or an
     allocation fails and the list is as it was.
     */
    method DeletePassiveGrabFromList(minuend: Grab, oom: nat -> bool) returns (ok: bool)
      requires WindowValid() && Valid(minuend) && Unmasked(minuend)
      modifies this
      ensures WindowValid() && nextId >= old(nextId)
      ensures IdsFrom(old(passiveGrabs), passiveGrabs, old(nextId))
      ensures ok <==> forall x: nat :: x < Needed(old(passiveGrabs), minuend) ==> !oom(x)
      ensures ok ==> passiveGrabs == Applied(old(passiveGrabs), PlanFor(old(passiveGrabs), minuend, old(nextId)))
      ensures ok ==> Subtracted(old(passiveGrabs), passiveGrabs, minuend)
      ensures !ok ==> passiveGrabs == old(passiveGrabs)
    {
      ghost var list, next := passiveGrabs, nextId;
      if |passiveGrabs| == 0 {
        AppliedSubtracts(list, minuend, next);
        return true;
      }
      if oom(0) || oom(1) || oom(2) || oom(3) {
        return false;
      }
      var p;
      p, ok := CollectAll(minuend, oom);
      if !ok {
        return;
      }
      AppliedSubtracts(list, minuend, next);
      AppliedValid(list, minuend, next);
      AppliedIds(list, minuend, next);
      SubtractKeepsExclusive(list, Applied(list, p), minuend);
      Apply(p);
    }

    /** The refusal test of AddPassiveGrabToList. */
    method CheckContest(g: Grab) returns (contested: bool)
      requires AllValid(passiveGrabs) && Valid(g)
      ensures contested <==> Contested(passiveGrabs, g)
    {
      for i := 0 to |passiveGrabs|
        invariant forall j :: 0 <= j < i ==>
                    !(GrabMatchesSecond(g, passiveGrabs[j]) && g.terms.client != passiveGrabs[j].terms.client)
      {
        if GrabMatchesSecond(g, passiveGrabs[i]) && g.terms.client != passiveGrabs[i].terms.client {
          return true;
        }
      }
      return false;
    }

    /** Subtract the first identical grab, if there is one. */
    method RemoveIdentical(g: Grab, oom: nat -> bool)
      requires WindowValid() && Valid(g) && Unmasked(g) && !Contested(passiveGrabs, g)
      modifies this
      ensures WindowValid() && nextId >= old(nextId) && IdsFrom(old(passiveGrabs), passiveGrabs, old(nextId))
      ensures GrabRemoved(old(passiveGrabs), passiveGrabs, g, Replaces(old(passiveGrabs), g, oom))
    {
      var i := 0;
      while i < |passiveGrabs| && !GrabsAreIdentical(g, passiveGrabs[i])
        invariant 0 <= i <= |passiveGrabs|
        invariant forall j :: 0 <= j < i ==> !GrabsAreIdentical(g, passiveGrabs[j])
      {
        i := i + 1;
      }
      FirstIdenticalAt(passiveGrabs, g, i);
      if i < |passiveGrabs| {
        IdenticalClaims(g, passiveGrabs[i]);
        var ignored := DeletePassiveGrabFromList(passiveGrabs[i], oom);
      }
    }

    /**
     Add a grab in front. Another client's matching grab refuses it; the client's own identical grab is removed
     first.
     */
    method AddPassiveGrabToList(terms: Terms, mods: Detail, key: Detail, allowed: bool, optional: bool,
                                resource: bool, oom: nat -> bool)
      returns (status: Status)
      requires WindowValid() && Valid(Grab(nextId, terms, mods, key)) && Unmasked(Grab(nextId, terms, mods, key))
      modifies this
      ensures WindowValid()
      ensures var g := Grab(old(nextId), terms, mods, key);
              && (status == BadAccess <==> Contested(old(passiveGrabs), g))
              && (status == AccessDenied <==> !Contested(old(passiveGrabs), g) && !allowed)
              && (status == Success <==> !Contested(old(passiveGrabs), g) && allowed && optional && resource)
              && ((exists i :: 0 <= i < |old(passiveGrabs)| && Clashes(g, old(passiveGrabs)[i])) ==> status == BadAccess)
              && (status == BadAccess ==>
                    exists i :: 0 <= i < |old(passiveGrabs)|
                                && (Clashes(g, old(passiveGrabs)[i]) || !ClaimsSome(old(passiveGrabs)[i])))
              && (status == BadAccess || status == AccessDenied ==> passiveGrabs == old(passiveGrabs))
              && (status == BadAlloc ==> GrabRemoved(old(passiveGrabs), passiveGrabs, g,
                                                     Replaces(old(passiveGrabs), g, oom)))
              && (status == Success ==>
                    && |passiveGrabs| > 0 && passiveGrabs[0] == g
                    && GrabAdded(old(passiveGrabs), passiveGrabs, g, Replaces(old(passiveGrabs), g, oom)))
    {
      var g := Grab(nextId, terms, mods, key);
      ghost var list := passiveGrabs;
      nextId := nextId + 1;
      var contested := CheckContest(g);
      ContestMeans(list, g);
      if contested {
        return BadAccess;
      }
      if !allowed {
        return AccessDenied;
      }
      Uncontested(list, g);
      RemoveIdentical(g, oom);
      if !optional {
        return BadAlloc;
      }
      AddKeepsExclusive(list, passiveGrabs, g, Replaces(list, g, oom));
      NewFront(list, passiveGrabs, g, nextId);
      ghost var mid := passiveGrabs;
      passiveGrabs := [g] + passiveGrabs;
      if resource {
        return Success;
      }
      DeletePassiveGrab(g.resource);
      SubsetExclusive(list, mid, g, Replaces(list, g, oom));
      return BadAlloc;
    }
  }

  /** The grab put in front has an id of its own, so unlinking it again restores the list. */
  lemma {:induction false} NewFront(before: seq<Grab>, mid: seq<Grab>, g: Grab, next: nat)
    requires AllValid(mid) && DistinctIds(mid) && IdsBelow(mid, next) && Valid(g)
    requires IdsBelow(before, g.resource) && IdsFrom(before, mid, g.resource + 1) && g.resource < next
    ensures AllValid([g] + mid) && DistinctIds([g] + mid) && IdsBelow([g] + mid, next)
    ensures Without([g] + mid, {g.resource}) == mid
  {
    forall w | 0 <= w < |mid|
      ensures mid[w].resource != g.resource
    {
      if mid[w].resource < g.resource + 1 {
        var i :| 0 <= i < |before| && before[i].resource == mid[w].resource;
      }
    }
    FrontDistinct(mid, g);
  }

  lemma {:induction false} FrontDistinct(mid: seq<Grab>, g: Grab)
    requires DistinctIds(mid) && forall w :: 0 <= w < |mid| ==> mid[w].resource != g.resource
    ensures DistinctIds([g] + mid) && Without([g] + mid, {g.resource}) == mid
  {
    hide Without;
    var all := [g] + mid;
    forall i, j | 0 <= i < j < |all|
      ensures all[i].resource != all[j].resource
    {
      assert all[j] == mid[j - 1];
    }
    RemovePieces([], g, mid);
    assert [] + [g] + mid == all && [] + mid == mid;
  }

  lemma {:induction false} SubsetExclusive(before: seq<Grab>, mid: seq<Grab>, g: Grab, replacing: bool)
    requires Valid(g) && Exclusive(before) && GrabRemoved(before, mid, g, replacing)
    ensures Exclusive(mid)
  {
  }

  /** `UPDATE(mask, exact)` */
  method AddUpdate(p: Plan, n: nat, oom: nat -> bool, resource: nat, field: Field, pMask: Option<Words>, exact: nat)
    returns (p': Plan, n': nat, ok: bool)
    requires (pMask.Some? ==> WordsValid(pMask.value)) && exact < 256
    ensures n' == n + 1 && (ok <==> !oom(n))
    ensures p' == if ok then p.(updates := p.updates + [Update(resource, field, DeleteDetailFromMask(pMask, exact))])
                  else p
  {
    n', ok := n + 1, !oom(n);
    p' := p;
    if ok {
      p' := p.(updates := p.updates + [Update(resource, field, DeleteDetailFromMask(pMask, exact))]);
    }
  }

  lemma {:induction false} PrefixStep(list: seq<Grab>, minuend: Grab, next: nat, i: nat)
    requires AllValid(list) && Valid(minuend) && Unmasked(minuend) && i < |list|
    ensures var p := PlanFor(list[..i], minuend, next);
            PlanFor(list[..i + 1], minuend, next) == PlanStep(p, list[i], minuend, next + |p.adds|)
    ensures TotalCost(list[..i + 1], minuend) == TotalCost(list[..i], minuend) + Cost(list[i], minuend)
  {
    var longer := list[..i + 1];
    assert longer[..|longer| - 1] == list[..i] && longer[|longer| - 1] == list[i];
  }

  lemma {:induction false} CostGrows(list: seq<Grab>, minuend: Grab, i: nat)
    requires AllValid(list) && Valid(minuend) && i <= |list|
    ensures TotalCost(list[..i], minuend) <= TotalCost(list, minuend)
    decreases |list| - i
  {
    if i < |list| {
      assert list[..i + 1][..i] == list[..i];
      CostGrows(list, minuend, i + 1);
    } else {
      assert list[..i] == list;
    }
  }

  /** Some other client's grab matches. */
  ghost predicate Contested(list: seq<Grab>, g: Grab)
    requires AllValid(list) && Valid(g)
  {
    exists i :: 0 <= i < |list| && GrabMatchesSecond(g, list[i]) && g.terms.client != list[i].terms.client
  }

  /** Another client's grab of the same grab type, event type and devices claims a pair of `g`. */
  ghost predicate Clashes(g: Grab, h: Grab)
    requires Valid(g) && Valid(h)
  {
    && h.terms.client != g.terms.client && h.terms.grabtype == g.terms.grabtype && h.terms.evtype == g.terms.evtype
    && DevicesMeet(g.terms, h.terms) && Overlap(g, h)
  }

  /** The grab has not been narrowed to nothing. */
  ghost predicate ClaimsSome(g: Grab)
    requires Valid(g)
  {
    exists m: nat, k: nat :: m < 256 && k < 256 && Claims(g, m, k)
  }

  /** A grab clashing with an unmasked one contests it; a grab that contests it clashes with it or claims nothing. */
  lemma {:induction false} ContestMeans(list: seq<Grab>, g: Grab)
    requires AllValid(list) && Valid(g) && Unmasked(g)
    ensures (exists i :: 0 <= i < |list| && Clashes(g, list[i])) ==> Contested(list, g)
    ensures Contested(list, g) ==> exists i :: 0 <= i < |list| && (Clashes(g, list[i]) || !ClaimsSome(list[i]))
  {
    hide Claims, Unmasked, DevicesMeet, Compatible;
    if i :| 0 <= i < |list| && Clashes(g, list[i]) {
      CompatibleMeans(g.terms, list[i].terms);
      var m: nat, k: nat :| m < 256 && k < 256 && Claims(g, m, k) && Claims(list[i], m, k);
      MatchesIffOverlap(g, list[i], m, k, m, k);
    }
    if Contested(list, g) {
      var i :| 0 <= i < |list| && GrabMatchesSecond(g, list[i]) && g.terms.client != list[i].terms.client;
      CompatibleMeans(g.terms, list[i].terms);
      if ClaimsSome(list[i]) {
        var m: nat, k: nat :| m < 256 && k < 256 && Claims(list[i], m, k);
        var m', k' := SomeClaim(g);
        MatchesIffOverlap(g, list[i], m', k', m, k);
      }
    }
  }

  lemma {:induction false} SomeClaim(g: Grab) returns (m: nat, k: nat)
    requires Valid(g) && Unmasked(g)
    ensures m < 256 && k < 256 && Claims(g, m, k)
  {
    m, k := if g.mods.exact < 256 then g.mods.exact else 0, g.key.exact;
  }

  /** The index of the first grab identical to `g`, or the length of the list. */
  function FirstIdentical(list: seq<Grab>, g: Grab): (i: nat)
    requires AllValid(list) && Valid(g)
    ensures i <= |list|
  {
    if |list| == 0 then 0
    else
      var i := FirstIdentical(list[..|list| - 1], g);
      if i < |list| - 1 || GrabsAreIdentical(g, list[|list| - 1]) then i else |list|
  }

  lemma {:induction false} FirstIdenticalAt(list: seq<Grab>, g: Grab, i: nat)
    requires AllValid(list) && Valid(g) && i <= |list|
    requires forall j :: 0 <= j < i ==> !GrabsAreIdentical(g, list[j])
    requires i < |list| ==> GrabsAreIdentical(g, list[i])
    ensures FirstIdentical(list, g) == i
  {
    if |list| != 0 {
      var n := |list| - 1;
      FirstIdenticalAt(list[..n], g, if i < n then i else n);
    }
  }

  /** There is an identical grab, and memory to subtract it. */
  ghost predicate Replaces(list: seq<Grab>, g: Grab, oom: nat -> bool)
    requires AllValid(list) && Valid(g)
  {
    var i := FirstIdentical(list, g);
    i < |list| && forall x: nat :: x < Needed(list, list[i]) ==> !oom(x)
  }

  /** The list after the identical grab, if any, has gone. */
  ghost predicate GrabRemoved(before: seq<Grab>, after: seq<Grab>, g: Grab, replacing: bool)
    requires Valid(g)
  {
    forall t: Terms, m: nat, k: nat :: m < 256 && k < 256 ==>
      (Held(after, t, m, k) <==> Held(before, t, m, k) && !(replacing && Concerns(g, t) && Claims(g, m, k)))
  }

  /** The new grab's pairs are held under its terms; nothing else is gained, and only replaced pairs are lost. */
  ghost predicate GrabAdded(before: seq<Grab>, after: seq<Grab>, g: Grab, replacing: bool)
    requires Valid(g)
  {
    forall t: Terms, m: nat, k: nat :: m < 256 && k < 256 ==>
      (Held(after, t, m, k) <==>
         || (t == g.terms && Claims(g, m, k))
         || (Held(before, t, m, k) && !(replacing && Concerns(g, t) && Claims(g, m, k))))
  }

  /** A grab identical to an unmasked one is unmasked too and claims the same pairs. */
  lemma {:induction false} IdenticalClaims(g: Grab, h: Grab)
    requires Valid(g) && Valid(h) && Unmasked(g) && GrabsAreIdentical(g, h)
    ensures Unmasked(h) && GrabMatchesSecond(g, h)
    ensures forall m: nat, k: nat :: m < 256 && k < 256 ==> (Claims(h, m, k) <==> Claims(g, m, k))
    ensures forall t: Terms :: Compatible(t, h.terms) <==> Compatible(t, g.terms)
  {
  }

  /** No other client holds any of the grab's pairs. */
  ghost predicate Unheld(list: seq<Grab>, g: Grab)
    requires Valid(g)
  {
    forall t: Terms, m: nat, k: nat | m < 256 && k < 256 && t.client != g.terms.client && Compatible(g.terms, t) ::
      Claims(g, m, k) ==> !Held(list, t, m, k)
  }

  /** What no other client's grab matches, no other client holds. */
  lemma {:induction false} Uncontested(list: seq<Grab>, g: Grab)
    requires AllValid(list) && Valid(g) && Unmasked(g) && !Contested(list, g)
    ensures Unheld(list, g)
  {
    forall t: Terms, m: nat, k: nat | m < 256 && k < 256 && t.client != g.terms.client
                                      && Compatible(g.terms, t) && Claims(g, m, k)
      ensures !Held(list, t, m, k)
    {
      if Held(list, t, m, k) {
        var i :| 0 <= i < |list| && Valid(list[i]) && list[i].terms == t && Claims(list[i], m, k);
        MatchesWhenOverlapping(g, list[i], m, k);
      }
    }
  }

  lemma {:induction false} HeldFront(list: seq<Grab>, g: Grab, t: Terms, m: nat, k: nat)
    requires Valid(g) && m < 256 && k < 256
    ensures Held([g] + list, t, m, k) <==> (t == g.terms && Claims(g, m, k)) || Held(list, t, m, k)
  {
    var all := [g] + list;
    if Held(list, t, m, k) {
      var i :| 0 <= i < |list| && Valid(list[i]) && list[i].terms == t && Claims(list[i], m, k);
      assert all[i + 1] == list[i];
    }
    if t == g.terms && Claims(g, m, k) {
      assert all[0] == g;
    }
    if Held(all, t, m, k) {
      var i :| 0 <= i < |all| && Valid(all[i]) && all[i].terms == t && Claims(all[i], m, k);
      if i > 0 {
        assert all[i] == list[i - 1];
      }
    }
  }

  lemma {:induction false} AddKeepsExclusive(before: seq<Grab>, mid: seq<Grab>, g: Grab, replacing: bool)
    requires Valid(g) && Exclusive(before) && GrabRemoved(before, mid, g, replacing)
    requires Unheld(before, g)
    ensures Exclusive([g] + mid) && GrabAdded(before, [g] + mid, g, replacing)
  {
    forall t: Terms, m: nat, k: nat | m < 256 && k < 256
      ensures Held([g] + mid, t, m, k) <==> (t == g.terms && Claims(g, m, k)) || Held(mid, t, m, k)
    {
      HeldFront(mid, g, t, m, k);
    }
    forall s: Terms, t: Terms, m: nat, k: nat | m < 256 && k < 256 && s.client != t.client && Compatible(s, t)
      ensures !(Held([g] + mid, s, m, k) && Held([g] + mid, t, m, k))
    {
      CompatibleSymmetric(s, t);
      assert Held(mid, s, m, k) ==> Held(before, s, m, k);
      assert Held(mid, t, m, k) ==> Held(before, t, m, k);
    }
  }

  lemma {:induction false} WithoutNone(list: seq<Grab>, gone: set<nat>)
    requires forall i :: 0 <= i < |list| ==> list[i].resource !in gone
    ensures Without(list, gone) == list
  {
    if |list| != 0 {
      WithoutNone(list[..|list| - 1], gone);
    }
  }

  lemma {:induction false} WithoutConcat(a: seq<Grab>, b: seq<Grab>, gone: set<nat>)
    ensures Without(a + b, gone) == Without(a, gone) + Without(b, gone)
  {
    if |b| == 0 {
      assert a + b == a;
    } else {
      assert (a + b)[..|a + b| - 1] == a + b[..|b| - 1];
      WithoutConcat(a, b[..|b| - 1], gone);
    }
  }

  lemma {:induction false} RemoveOne(list: seq<Grab>, resource: nat, n: nat)
    requires n <= |list| && (n < |list| ==> list[n].resource == resource)
    requires DistinctIds(list)
    requires forall i :: 0 <= i < n ==> list[i].resource != resource
    ensures Without(list, {resource}) == if n < |list| then list[..n] + list[n + 1..] else list
  {
    if n < |list| {
      RemovePieces(list[..n], list[n], list[n + 1..]);
      assert list == list[..n] + [list[n]] + list[n + 1..];
    } else {
      WithoutNone(list, {resource});
    }
  }

  lemma {:induction false} RemovePieces(a: seq<Grab>, g: Grab, b: seq<Grab>)
    requires forall i :: 0 <= i < |a| ==> a[i].resource != g.resource
    requires forall i :: 0 <= i < |b| ==> b[i].resource != g.resource
    ensures Without(a + [g] + b, {g.resource}) == a + b
  {
    WithoutConcat(a + [g], b, {g.resource});
    WithoutLast(a, g, {g.resource});
    WithoutNone(a, {g.resource});
    WithoutNone(b, {g.resource});
  }

  lemma {:induction false} WithoutLast(list: seq<Grab>, g: Grab, gone: set<nat>)
    ensures Without(list + [g], gone) == if g.resource in gone then Without(list, gone) else Without(list, gone) + [g]
  {
    assert (list + [g])[..|list|] == list;
  }

  lemma {:induction false} WithoutTwice(list: seq<Grab>, a: set<nat>, b: set<nat>)
    ensures Without(Without(list, a), b) == Without(list, a + b)
  {
    if |list| != 0 {
      var n := |list| - 1;
      WithoutTwice(list[..n], a, b);
      if list[n].resource !in a {
        WithoutLast(Without(list[..n], a), list[n], b);
      }
    }
  }

  lemma {:induction false} WithoutMember(list: seq<Grab>, gone: set<nat>, g: Grab)
    ensures g in Without(list, gone) <==> g in list && g.resource !in gone
  {
    if |list| != 0 {
      WithoutMember(list[..|list| - 1], gone, g);
      assert list == list[..|list| - 1] + [list[|list| - 1]];
    }
  }

  lemma {:induction false} WithoutDistinct(list: seq<Grab>, gone: set<nat>)
    requires DistinctIds(list)
    ensures DistinctIds(Without(list, gone))
  {
    if |list| != 0 {
      var n := |list| - 1;
      var rest := Without(list[..n], gone);
      WithoutDistinct(list[..n], gone);
      forall i | 0 <= i < |rest|
        ensures rest[i].resource != list[n].resource
      {
        WithoutMember(list[..n], gone, rest[i]);
      }
    }
  }

  // ---- What the plan contains

  lemma {:induction false} PlanDeletes(list: seq<Grab>, minuend: Grab, next: nat, i: nat)
    requires AllValid(list) && DistinctIds(list) && Valid(minuend) && Unmasked(minuend) && i < |list|
    ensures list[i].resource in PlanFor(list, minuend, next).deletes <==> ActionFor(list[i], minuend) == Delete
  {
    var n := |list| - 1;
    if i < n {
      PlanDeletes(list[..n], minuend, next, i);
    } else {
      PlanDeletesOnly(list[..n], minuend, next, list[n].resource);
    }
  }

  lemma {:induction false} PlanDeletesOnly(list: seq<Grab>, minuend: Grab, next: nat, id: nat)
    requires AllValid(list) && Valid(minuend) && Unmasked(minuend)
    requires forall i :: 0 <= i < |list| ==> list[i].resource != id
    ensures id !in PlanFor(list, minuend, next).deletes
  {
    if |list| != 0 {
      PlanDeletesOnly(list[..|list| - 1], minuend, next, id);
    }
  }

  /** A grab that is not in the list is not touched by the updates. */
  lemma {:induction false} UpdatesElsewhere(list: seq<Grab>, minuend: Grab, next: nat, g: Grab)
    requires AllValid(list) && Valid(minuend) && Unmasked(minuend)
    requires forall i :: 0 <= i < |list| ==> list[i].resource != g.resource
    ensures SetMasks(g, PlanFor(list, minuend, next).updates) == g
  {
    if |list| != 0 {
      UpdatesElsewhere(list[..|list| - 1], minuend, next, g);
      OneMoreUpdate(list, minuend, next, g);
    }
  }

  lemma {:induction false} OneMoreUpdate(list: seq<Grab>, minuend: Grab, next: nat, g: Grab)
    requires AllValid(list) && Valid(minuend) && Unmasked(minuend) && |list| > 0
    ensures var n := |list| - 1;
            var before := SetMasks(g, PlanFor(list[..n], minuend, next).updates);
            SetMasks(g, PlanFor(list, minuend, next).updates) ==
            if ActionFor(list[n], minuend) in {NarrowKey, NarrowMods, Split}
            then SetMask(before, PlanUpdate(list[n], minuend)) else before
  {
    var n := |list| - 1;
    var p := PlanFor(list[..n], minuend, next);
    if ActionFor(list[n], minuend) in {NarrowKey, NarrowMods, Split} {
      var u := PlanUpdate(list[n], minuend);
      assert PlanFor(list, minuend, next).updates == p.updates + [u];
      assert (p.updates + [u])[..|p.updates|] == p.updates;
    }
  }

  /** Each grab of the list gets its own update and no other. */
  lemma {:induction false} UpdatesNarrow(list: seq<Grab>, minuend: Grab, next: nat, i: nat)
    requires AllValid(list) && DistinctIds(list) && Valid(minuend) && Unmasked(minuend) && i < |list|
    ensures SetMasks(list[i], PlanFor(list, minuend, next).updates) == Narrowed(list[i], minuend)
  {
    var n := |list| - 1;
    OneMoreUpdate(list, minuend, next, list[i]);
    if i < n {
      UpdatesNarrow(list[..n], minuend, next, i);
    } else {
      UpdatesElsewhere(list[..n], minuend, next, list[n]);
    }
  }

  /** Every new grab is the split-off half of some grab of the list, with the next free id. */
  lemma {:induction false} AddAt(list: seq<Grab>, minuend: Grab, next: nat, j: nat) returns (i: nat)
    requires AllValid(list) && Valid(minuend) && Unmasked(minuend) && j < |PlanFor(list, minuend, next).adds|
    ensures i < |list| && ActionFor(list[i], minuend) == Split
    ensures PlanFor(list, minuend, next).adds[j] == SplitOff(list[i], minuend, next + j)
  {
    var n := |list| - 1;
    if j < |PlanFor(list[..n], minuend, next).adds| {
      i := AddAt(list[..n], minuend, next, j);
    } else {
      i := n;
    }
  }

  /** Every split produces a new grab. */
  lemma {:induction false} SplitAt(list: seq<Grab>, minuend: Grab, next: nat, i: nat) returns (j: nat)
    requires AllValid(list) && Valid(minuend) && Unmasked(minuend)
    requires i < |list| && ActionFor(list[i], minuend) == Split
    ensures j < |PlanFor(list, minuend, next).adds|
    ensures PlanFor(list, minuend, next).adds[j] == SplitOff(list[i], minuend, next + j)
  {
    var n := |list| - 1;
    if i < n {
      j := SplitAt(list[..n], minuend, next, i);
    } else {
      j := |PlanFor(list[..n], minuend, next).adds|;
    }
  }

  lemma {:induction false} ReversedAt(list: seq<Grab>, i: nat)
    requires i < |list|
    ensures |Reversed(list)| == |list| && Reversed(list)[i] == list[|list| - 1 - i]
  {
    if i > 0 {
      ReversedAt(list[..|list| - 1], i - 1);
    } else if |list| > 1 {
      ReversedAt(list[..|list| - 1], 0);
    }
  }

  // ---- The new list

  /** Survivors, narrowed, are in the new list. */
  lemma {:induction false} SurvivorIn(list: seq<Grab>, minuend: Grab, next: nat, i: nat)
    requires AllValid(list) && DistinctIds(list) && Valid(minuend) && Unmasked(minuend) && i < |list|
    requires ActionFor(list[i], minuend) != Delete
    ensures Narrowed(list[i], minuend) in Applied(list, PlanFor(list, minuend, next))
  {
    var p := PlanFor(list, minuend, next);
    var kept := Without(list, ToSet(p.deletes));
    PlanDeletes(list, minuend, next, i);
    WithoutMember(list, ToSet(p.deletes), list[i]);
    UpdatesNarrow(list, minuend, next, i);
    hide PlanFor, Without, SetMasks, Narrowed, ActionFor, Valid, Unmasked, Reversed;
    var w :| 0 <= w < |kept| && kept[w] == list[i];
    EachBehind(Reversed(p.adds), kept, p.updates, w);
  }

  lemma {:induction false} EachBehind(front: seq<Grab>, kept: seq<Grab>, updates: seq<Update>, w: nat)
    requires w < |kept|
    ensures SetMasks(kept[w], updates) in Each(front + kept, updates)
  {
    assert Each(front + kept, updates)[|front| + w] == SetMasks(kept[w], updates);
  }

  /** Split-off halves are in the new list. */
  lemma {:induction false} SplitIn(list: seq<Grab>, minuend: Grab, next: nat, i: nat) returns (id: nat)
    requires AllValid(list) && IdsBelow(list, next) && Valid(minuend) && Unmasked(minuend) && i < |list|
    requires ActionFor(list[i], minuend) == Split
    ensures SplitOff(list[i], minuend, id) in Applied(list, PlanFor(list, minuend, next))
  {
    var p := PlanFor(list, minuend, next);
    var j := SplitAt(list, minuend, next, i);
    id := next + j;
    var w := |p.adds| - 1 - j;
    ReversedAt(p.adds, w);
    UpdatesElsewhere(list, minuend, next, p.adds[j]);
    var all := Reversed(p.adds) + Without(list, ToSet(p.deletes));
    assert all[w] == p.adds[j];
    assert Applied(list, p)[w] == p.adds[j];
  }

  datatype Origin = Survivor(i: nat) | Half(i: nat, id: nat)

  /** Nothing else is. */
  lemma {:induction false} OriginOf(list: seq<Grab>, minuend: Grab, next: nat, w: nat) returns (o: Origin)
    requires AllValid(list) && DistinctIds(list) && IdsBelow(list, next) && Valid(minuend) && Unmasked(minuend)
    requires w < |Applied(list, PlanFor(list, minuend, next))|
    ensures var g := Applied(list, PlanFor(list, minuend, next))[w];
            && o.i < |list|
            && match o
               case Survivor(i) => ActionFor(list[i], minuend) != Delete && g == Narrowed(list[i], minuend)
               case Half(i, id) => ActionFor(list[i], minuend) == Split && g == SplitOff(list[i], minuend, id)
                                   && id == g.resource >= next
  {
    var p := PlanFor(list, minuend, next);
    var kept := Without(list, ToSet(p.deletes));
    hide PlanFor, Without, Narrowed, SplitOff, Valid, Unmasked, ActionFor, SetMasks, Reversed;
    ReversedLength(p.adds);
    if w < |p.adds| {
      ReversedAt(p.adds, w);
      var j := |p.adds| - 1 - w;
      var i := AddAt(list, minuend, next, j);
      UpdatesElsewhere(list, minuend, next, p.adds[j]);
      o := Half(i, next + j);
    } else {
      var g := kept[w - |p.adds|];
      WithoutMember(list, ToSet(p.deletes), g);
      var i :| 0 <= i < |list| && list[i] == g;
      PlanDeletes(list, minuend, next, i);
      UpdatesNarrow(list, minuend, next, i);
      o := Survivor(i);
    }
  }

  lemma {:induction false} ReversedLength(list: seq<Grab>)
    ensures |Reversed(list)| == |list|
  {
    if |list| > 0 {
      ReversedAt(list, 0);
    }
  }

  /** The plan carried out is exact set subtraction, grab by grab. */
  lemma {:induction false} AppliedSubtracts(list: seq<Grab>, minuend: Grab, next: nat)
    requires AllValid(list) && DistinctIds(list) && IdsBelow(list, next) && Valid(minuend) && Unmasked(minuend)
    ensures Subtracted(list, Applied(list, PlanFor(list, minuend, next)), minuend)
  {
    var after := Applied(list, PlanFor(list, minuend, next));
    forall t: Terms, m: nat, k: nat | m < 256 && k < 256
      ensures Held(after, t, m, k) <==> Held(list, t, m, k) && !(Concerns(minuend, t) && Claims(minuend, m, k))
    {
      if Held(after, t, m, k) {
        HeldAfter(list, minuend, next, t, m, k);
      }
      if Held(list, t, m, k) && !(Concerns(minuend, t) && Claims(minuend, m, k)) {
        HeldBefore(list, minuend, next, t, m, k);
      }
    }
  }

  lemma {:induction false} HeldAfter(list: seq<Grab>, minuend: Grab, next: nat, t: Terms, m: nat, k: nat)
    requires AllValid(list) && DistinctIds(list) && IdsBelow(list, next) && Valid(minuend) && Unmasked(minuend)
    requires m < 256 && k < 256 && Held(Applied(list, PlanFor(list, minuend, next)), t, m, k)
    ensures Held(list, t, m, k) && !(Concerns(minuend, t) && Claims(minuend, m, k))
  {
    var after := Applied(list, PlanFor(list, minuend, next));
    var w :| 0 <= w < |after| && Valid(after[w]) && after[w].terms == t && Claims(after[w], m, k);
    var o := OriginOf(list, minuend, next, w);
    SubtractExact(list[o.i], minuend, m, k);
  }

  lemma {:induction false} HeldBefore(list: seq<Grab>, minuend: Grab, next: nat, t: Terms, m: nat, k: nat)
    requires AllValid(list) && DistinctIds(list) && IdsBelow(list, next) && Valid(minuend) && Unmasked(minuend)
    requires m < 256 && k < 256 && Held(list, t, m, k) && !(Concerns(minuend, t) && Claims(minuend, m, k))
    ensures Held(Applied(list, PlanFor(list, minuend, next)), t, m, k)
  {
    var i :| 0 <= i < |list| && Valid(list[i]) && list[i].terms == t && Claims(list[i], m, k);
    SubtractExact(list[i], minuend, m, k);
    if ActionFor(list[i], minuend) != Delete && Claims(Narrowed(list[i], minuend), m, k) {
      SurvivorIn(list, minuend, next, i);
    } else {
      var id := SplitIn(list, minuend, next, i);
      assert Claims(SplitOff(list[i], minuend, id), m, k);
    }
  }

  /** The new list is again a list of valid grabs with distinct ids. */
  lemma {:induction false} AppliedValid(list: seq<Grab>, minuend: Grab, next: nat)
    requires AllValid(list) && DistinctIds(list) && IdsBelow(list, next) && Valid(minuend) && Unmasked(minuend)
    ensures var p := PlanFor(list, minuend, next);
            var after := Applied(list, p);
            AllValid(after) && DistinctIds(after) && IdsBelow(after, next + |p.adds|)
  {
    var p := PlanFor(list, minuend, next);
    var after := Applied(list, p);
    forall w | 0 <= w < |after|
      ensures Valid(after[w]) && after[w].resource == IdOf(list, p, w) < next + |p.adds|
    {
      var o := OriginOf(list, minuend, next, w);
      OldId(list, minuend, next, w);
    }
    forall v, w | 0 <= v < w < |after|
      ensures after[v].resource != after[w].resource
    {
      OldId(list, minuend, next, v);
      OldId(list, minuend, next, w);
      WithoutDistinct(list, ToSet(p.deletes));
    }
  }

  /** Every grab kept its id or has a new one. */
  ghost predicate IdsFrom(before: seq<Grab>, after: seq<Grab>, next: nat) {
    forall w :: 0 <= w < |after| ==>
      after[w].resource >= next || exists i :: 0 <= i < |before| && before[i].resource == after[w].resource
  }

  lemma {:induction false} AppliedIds(list: seq<Grab>, minuend: Grab, next: nat)
    requires AllValid(list) && DistinctIds(list) && IdsBelow(list, next) && Valid(minuend) && Unmasked(minuend)
    ensures IdsFrom(list, Applied(list, PlanFor(list, minuend, next)), next)
  {
    forall w | 0 <= w < |Applied(list, PlanFor(list, minuend, next))|
      ensures var g := Applied(list, PlanFor(list, minuend, next))[w];
              g.resource >= next || exists i :: 0 <= i < |list| && list[i].resource == g.resource
    {
      var o := OriginOf(list, minuend, next, w);
    }
  }

  /** Updates change no resource ids. */
  function IdOf(list: seq<Grab>, p: Plan, w: nat): nat
    requires w < |Applied(list, p)|
  {
    (Reversed(p.adds) + Without(list, ToSet(p.deletes)))[w].resource
  }

  lemma {:induction false} OldId(list: seq<Grab>, minuend: Grab, next: nat, w: nat)
    requires AllValid(list) && IdsBelow(list, next) && Valid(minuend) && Unmasked(minuend)
    requires w < |Applied(list, PlanFor(list, minuend, next))|
    ensures var p := PlanFor(list, minuend, next);
            && Applied(list, p)[w].resource == IdOf(list, p, w) < next + |p.adds|
            && |Reversed(p.adds)| == |p.adds|
            && (if w < |p.adds| then IdOf(list, p, w) == next + |p.adds| - 1 - w else IdOf(list, p, w) < next)
  {
    var p := PlanFor(list, minuend, next);
    var kept := Without(list, ToSet(p.deletes));
    ReversedLength(p.adds);
    SetMasksId((Reversed(p.adds) + kept)[w], p.updates);
    if w < |p.adds| {
      ReversedAt(p.adds, w);
      var i := AddAt(list, minuend, next, |p.adds| - 1 - w);
    } else {
      WithoutMember(list, ToSet(p.deletes), kept[w - |p.adds|]);
    }
  }

  lemma {:induction false} SetMasksId(g: Grab, updates: seq<Update>)
    ensures SetMasks(g, updates).resource == g.resource
  {
    if |updates| != 0 {
      SetMasksId(g, updates[..|updates| - 1]);
    }
  }

  // ---- What a subtraction leaves alone

  /** A grab the minuend does not concern, or shares no pair with, stays in the list as it is. */
  lemma {:induction false} Untouched(list: seq<Grab>, minuend: Grab, next: nat, i: nat)
    requires AllValid(list) && DistinctIds(list) && Valid(minuend) && Unmasked(minuend) && i < |list|
    requires || !(list[i].terms.client == minuend.terms.client && list[i].terms.grabtype == minuend.terms.grabtype
                  && list[i].terms.evtype == minuend.terms.evtype && DevicesMeet(list[i].terms, minuend.terms))
             || (ClaimsSome(list[i]) && !Overlap(list[i], minuend))
    ensures list[i] in Applied(list, PlanFor(list, minuend, next))
  {
    hide Claims, Unmasked, DevicesMeet, Compatible, Applied, PlanFor;
    CompatibleMeans(list[i].terms, minuend.terms);
    if Compatible(list[i].terms, minuend.terms) && ClaimsSome(list[i]) && !Overlap(list[i], minuend) {
      var m: nat, k: nat :| m < 256 && k < 256 && Claims(list[i], m, k);
      var m', k' := SomeClaim(minuend);
      MatchesIffOverlap(list[i], minuend, m, k, m', k');
    }
    SurvivorIn(list, minuend, next, i);
  }

  lemma {:induction false} WithoutOrder(list: seq<Grab>, gone: set<nat>, v: nat, w: nat) returns (i: nat, j: nat)
    requires v < w < |Without(list, gone)|
    ensures i < j < |list| && list[i] == Without(list, gone)[v] && list[j] == Without(list, gone)[w]
  {
    var n := |list| - 1;
    var rest := Without(list[..n], gone);
    if w < |rest| {
      i, j := WithoutOrder(list[..n], gone, v, w);
    } else {
      WithoutMember(list[..n], gone, rest[v]);
      i :| 0 <= i < n && list[..n][i] == rest[v];
      j := n;
    }
  }

  /** New grabs come first, the kept ones follow in their old order. */
  lemma {:induction false} AppliedOrder(list: seq<Grab>, minuend: Grab, next: nat, v: nat, w: nat)
    requires AllValid(list) && DistinctIds(list) && IdsBelow(list, next) && Valid(minuend) && Unmasked(minuend)
    requires v < w < |Applied(list, PlanFor(list, minuend, next))|
    ensures var after := Applied(list, PlanFor(list, minuend, next));
            && (after[w].resource >= next ==> after[v].resource > after[w].resource)
            && (after[v].resource < next ==>
                  exists i, j :: 0 <= i < j < |list| && list[i].resource == after[v].resource
                                 && list[j].resource == after[w].resource)
  {
    hide PlanFor;
    var p := PlanFor(list, minuend, next);
    OldId(list, minuend, next, v);
    OldId(list, minuend, next, w);
    ReversedLength(p.adds);
    if v >= |p.adds| {
      var i, j := WithoutOrder(list, ToSet(p.deletes), v - |p.adds|, w - |p.adds|);
    }
  }

  /**
   Allocations on a list of one grab that claims everything: the four work arrays, and then one mask for a minuend with
   an exact key or an exact modifier, five things for a minuend with both, and nothing for one that claims everything.
   */
  lemma {:induction false} NeededForOne(grab: Grab, minuend: Grab)
    requires Valid(grab) && Valid(minuend) && Unmasked(grab) && Unmasked(minuend) && grab.terms == minuend.terms
    requires grab.key.exact == 0 && grab.mods.exact == AnyModifier(grab.terms.grabtype)
    ensures var exactKey, exactMods := minuend.key.exact != 0, minuend.mods.exact != grab.mods.exact;
            Needed([grab], minuend) == 4 + if exactKey && exactMods then 5 else if exactKey || exactMods then 1 else 0
  {
    assert [grab][..0] == [];
    assert TotalCost([grab], minuend) == Cost(grab, minuend);
    CompatibleMeans(grab.terms, minuend.terms);
    SomeDevice(grab.terms.device);
  }

  lemma {:induction false} SomeDevice(spec: Device)
    ensures exists id: nat, master: bool :: DeviceIn(spec, id, master)
  {
    var d := if spec.Device? then spec else Device(0, true);
    assert DeviceIn(spec, d.id, d.master);
  }
}
