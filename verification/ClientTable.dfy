/**
 The table of clients (dix/dispatch.c): slot allocation, the bound on used slots and the count of running clients,
 over connects, closes, retained clients and the final kill.
 */
module ClientTable {
  import opened Options

  datatype Phase = Initial | Running | Retained

  datatype CloseDownMode = DestroyAll | RetainPermanent | RetainTemporary

  datatype Client = Client(phase: Phase, gone: bool, mode: CloseDownMode)

  /** How far NextAvailableClient gets. */
  datatype Outcome = Allocated | NoMemory | NoResources

  type Slots = seq<Option<Client>>

  /** Counted in nClients: the connection was set up and the client has not gone. */
  function Authorized(slot: Option<Client>): nat {
    if slot.Some? && slot.value.phase != Initial && !slot.value.gone then 1 else 0
  }

  /** How many clients from slot 1 on count. */
  function CountAuthorized(slots: Slots): nat {
    if |slots| <= 1 then 0
    else CountAuthorized(slots[..|slots| - 1]) + Authorized(slots[|slots| - 1])
  }

  /** A client is gone exactly when it is retained; one that is still connecting has the initial close-down mode. */
  predicate ClientValid(c: Client) {
    (c.gone <==> c.phase == Retained) && (c.phase == Initial ==> c.mode == DestroyAll)
  }

  lemma {:induction false} CountUpdate(slots: Slots, i: nat, slot: Option<Client>)
    requires 1 <= i < |slots|
    ensures CountAuthorized(slots[i := slot]) == CountAuthorized(slots) - Authorized(slots[i]) + Authorized(slot)
  {
    var n := |slots| - 1;
    var updated := slots[i := slot];
    if i == n {
      assert updated[..n] == slots[..n];
    } else {
      assert updated[..n] == slots[..n][i := slot];
      CountUpdate(slots[..n], i, slot);
    }
  }

  lemma {:induction false} CountNone(slots: Slots)
    requires forall i :: 1 <= i < |slots| ==> slots[i].None?
    ensures CountAuthorized(slots) == 0
  {
    if |slots| > 1 {
      CountNone(slots[..|slots| - 1]);
    }
  }

  lemma {:induction false} BelowLeast(slots: Slots, next: nat)
    requires 1 <= next <= |slots| && forall i :: 1 <= i < next ==> slots[i].Some?
    ensures next > 1 ==> slots[1].Some?
  {
  }

  /** The clients, other than the server's own, that are set up and not gone. */
  function RunningClients(slots: Slots): set<nat> {
    set i: nat | 1 <= i < |slots| && slots[i].Some? && slots[i].value.phase == Running
  }

  lemma {:induction false} OneMoreSlot(slots: Slots)
    requires |slots| > 1
    ensures var n := |slots| - 1;
            n !in RunningClients(slots[..n])
            && RunningClients(slots) == RunningClients(slots[..n])
                                        + if slots[n].Some? && slots[n].value.phase == Running then {n} else {}
  {
    var n := |slots| - 1;
    assert forall i :: 0 <= i < n ==> slots[..n][i] == slots[i];
  }

  /** In a table of valid clients nClients counts the running ones. */
  lemma {:induction false} CountsRunning(slots: Slots)
    requires forall i :: 1 <= i < |slots| && slots[i].Some? ==> ClientValid(slots[i].value)
    ensures CountAuthorized(slots) == |RunningClients(slots)|
  {
    if |slots| > 1 {
      hide RunningClients;
      OneMoreSlot(slots);
      CountsRunning(slots[..|slots| - 1]);
    } else {
      assert RunningClients(slots) == {};
    }
  }

  class Clients {
    /** LimitClients slots; slot 0 is the server's own client. */
    var clients: Slots
    var nextFreeClientID: nat
    var currentMaxClients: nat
    var nClients: int

    ghost predicate Valid()
      reads this
    {
      && 1 <= currentMaxClients <= |clients|
      && clients[0].Some?
      && 1 <= nextFreeClientID <= |clients|
      && (forall i :: 1 <= i < nextFreeClientID ==> clients[i].Some?)
      && (nextFreeClientID < |clients| ==> clients[nextFreeClientID].None?)
      && (forall i :: currentMaxClients <= i < |clients| ==> clients[i].None?)
      && clients[currentMaxClients - 1].Some?
      && (forall i :: 1 <= i < |clients| && clients[i].Some? ==> ClientValid(clients[i].value))
      && nClients == CountAuthorized(clients)
    }

    /** The table with only the server client in it. */
    constructor (limit: nat)
      requires 1 <= limit
      ensures Valid() && |clients| == limit && nClients == 0 && nextFreeClientID == 1 && currentMaxClients == 1
      ensures forall i :: 1 <= i < |clients| ==> clients[i].None?
    {
      var server := Client(Running, false, RetainPermanent);
      clients := seq(limit, i => if i == 0 then Some(server) else None);
      nextFreeClientID, currentMaxClients, nClients := 1, 1, 0;
      new;
      CountNone(clients);
    }

    /**
     A new connection takes the least free slot. If the client record is allocated but its resources are not, the
     record is freed and its slot left pointing at it: the table is then wrong.
     */
    method NextAvailableClient(outcome: Outcome) returns (slot: Option<nat>)
      requires Valid()
      modifies this
      ensures slot.Some? <==> old(nextFreeClientID) < |old(clients)| && outcome == Allocated
      ensures slot.Some? ==> slot.value == old(nextFreeClientID)
      ensures slot.Some? ==> clients == old(clients)[slot.value := Some(Client(Initial, false, DestroyAll))]
      ensures slot.None? ==> nextFreeClientID == old(nextFreeClientID) && currentMaxClients == old(currentMaxClients)
      ensures slot.None? ==>
                clients == if outcome == NoResources && nextFreeClientID < |old(clients)|
                           then old(clients)[nextFreeClientID := Some(Client(Initial, false, DestroyAll))]
                           else old(clients)
      ensures nClients == old(nClients)
      ensures Valid() <==> !(outcome == NoResources && old(nextFreeClientID) < |old(clients)|)
    {
      hide CountAuthorized;
      var i := nextFreeClientID;
      if i == |clients| {
        return None;
      }
      if outcome == NoMemory {
        clients := clients[i := None];
        assert clients == old(clients);
        return None;
      }
      assert clients[i - 1].Some? && i <= currentMaxClients;
      CountUpdate(clients, i, Some(Client(Initial, false, DestroyAll)));
      clients := clients[i := Some(Client(Initial, false, DestroyAll))];
      if outcome == NoResources {
        return None;
      }
      if i == currentMaxClients {
        currentMaxClients := currentMaxClients + 1;
      }
      while nextFreeClientID < |clients| && clients[nextFreeClientID].Some?
        invariant 1 <= nextFreeClientID <= |clients|
        invariant forall j :: 1 <= j < nextFreeClientID ==> clients[j].Some?
        modifies this`nextFreeClientID
        decreases |clients| - nextFreeClientID
      {
        nextFreeClientID := nextFreeClientID + 1;
      }
      return Some(i);
    }

    /** The connection is set up: the client counts from now on. */
    method SendConnSetup(i: nat)
      requires Valid() && 1 <= i < |clients| && clients[i].Some? && clients[i].value.phase == Initial
      modifies this`clients, this`nClients
      ensures Valid() && nClients == old(nClients) + 1
      ensures clients == old(clients)[i := Some(old(clients)[i].value.(phase := Running))]
    {
      CountUpdate(clients, i, Some(clients[i].value.(phase := Running)));
      nClients := nClients + 1;
      clients := clients[i := Some(clients[i].value.(phase := Running))];
    }

    /** SetCloseDownMode; only a running client can send the request. */
    method SetCloseDownMode(i: nat, mode: CloseDownMode)
      requires Valid() && 1 <= i < |clients| && clients[i].Some? && clients[i].value.phase == Running
      modifies this`clients
      ensures Valid() && clients == old(clients)[i := Some(old(clients)[i].value.(mode := mode))]
    {
      CountUpdate(clients, i, Some(clients[i].value.(mode := mode)));
      clients := clients[i := Some(clients[i].value.(mode := mode))];
    }

    /**
     Close a client: retain it if its mode says so and it was not retained already, otherwise free its slot and let the
     bound shrink.
     */
    method CloseDownClient(i: nat)
      requires Valid() && 1 <= i < |clients| && clients[i].Some?
      modifies this
      ensures Valid()
      ensures var c := old(clients)[i].value;
              clients == old(clients)[i := if c.gone || c.mode == DestroyAll then None
                                           else Some(Client(Retained, true, c.mode))]
      ensures nClients == old(nClients) - if old(clients)[i].value.phase == Running then 1 else 0
      ensures nextFreeClientID == old(nextFreeClientID) || (nextFreeClientID == i < old(nextFreeClientID))
      ensures currentMaxClients <= old(currentMaxClients)
    {
      hide CountAuthorized;
      var client := clients[i].value;
      var really := client.gone || client.mode == DestroyAll;
      ghost var slots, slot := clients, if really then None else Some(Client(Retained, true, client.mode));
      CountUpdate(slots, i, slot);
      if !client.gone {
        if !really {
          client := client.(phase := Retained);
        }
        client := client.(gone := true);
        if client.phase != Initial {
          nClients := nClients - 1;
        }
        clients := clients[i := Some(client)];
      }
      if really {
        if i < nextFreeClientID {
          nextFreeClientID := i;
        }
        clients := clients[i := None];
        assert clients == slots[i := slot];
        while clients[currentMaxClients - 1].None?
          invariant 1 <= currentMaxClients <= old(currentMaxClients) <= |clients| && clients[0].Some?
          invariant forall j :: currentMaxClients <= j < |clients| ==> clients[j].None?
          modifies this`currentMaxClients
          decreases currentMaxClients
        {
          currentMaxClients := currentMaxClients - 1;
        }
      } else {
        assert clients == slots[i := slot];
      }
    }

    /** Shut down everything but the server's own client. */
    method KillAllClients()
      requires Valid()
      modifies this
      ensures Valid() && nClients == 0 && nextFreeClientID == 1 && currentMaxClients == 1
      ensures forall i :: 1 <= i < |clients| ==> clients[i].None?
      ensures clients[0] == old(clients[0]) && |clients| == |old(clients)|
    {
      hide CountAuthorized;
      var i := 1;
      while i < currentMaxClients
        invariant Valid() && 1 <= i && |clients| == |old(clients)| && clients[0] == old(clients[0])
        invariant forall j :: 1 <= j < i && j < |clients| ==> clients[j].None?
        decreases |clients| - i
      {
        if clients[i].Some? {
          CountUpdate(clients, i, Some(clients[i].value.(mode := DestroyAll)));
          clients := clients[i := Some(clients[i].value.(mode := DestroyAll))];
          CloseDownClient(i);
        }
        i := i + 1;
      }
      CountNone(clients);
      BelowLeast(clients, nextFreeClientID);
    }
  }

  /** A first client whose resources cannot be allocated leaves the table wrong. */
  method FailedConnect() returns (t: Clients)
    ensures fresh(t) && !t.Valid() && |t.clients| == 2 && t.clients[1] == Some(Client(Initial, false, DestroyAll))
    ensures t.nextFreeClientID == 1 && t.currentMaxClients == 1
  {
    t := new Clients(2);
    var slot := t.NextAvailableClient(NoResources);
  }
}
