/**
 Reference-counted colour components (SHAREDCOLOR) and the cells that point at them (dix/colormap.c).
 */
module Sharing {
  import opened Cells

  /** The live SHAREDCOLOR records with their counts; freeing a record removes it. */
  type Live = map<SharedId, int>

  function RefCount(live: Live, id: SharedId): int {
    if id in live then live[id] else 0
  }

  function One(b: bool): nat {
    if b then 1 else 0
  }

  /** How many of a cell's three channel pointers lead to `id`. */
  function CellPointers(e: Entry, id: SharedId): nat {
    if e.fShared then One(e.shco.red == id) + One(e.shco.green == id) + One(e.shco.blue == id) else 0
  }

  function Pointers(cells: seq<Entry>, id: SharedId): nat {
    if |cells| == 0 then 0
    else Pointers(cells[..|cells| - 1], id) + CellPointers(cells[|cells| - 1], id)
  }

  /** Every pointer from a cell is paid for by a count, and no record is kept at zero. */
  ghost predicate Backed(cells: seq<Entry>, live: Live) {
    && (forall id :: id in live ==> live[id] > 0)
    && (forall id: SharedId :: Pointers(cells, id) <= RefCount(live, id))
  }

  /** The part of each count that pointers from these cells do not explain is the same before and after. */
  ghost predicate KeepsBalance(cells: seq<Entry>, live: Live, cells': seq<Entry>, live': Live) {
    forall id: SharedId :: RefCount(live', id) - Pointers(cells', id) == RefCount(live, id) - Pointers(cells, id)
  }

  lemma {:induction false} BalanceRefl(a: seq<Entry>, live: Live)
    ensures KeepsBalance(a, live, a, live)
  {
  }

  lemma {:induction false} BalanceChain(a: seq<Entry>, la: Live, b: seq<Entry>, lb: Live, c: seq<Entry>, lc: Live)
    requires KeepsBalance(a, la, b, lb) && KeepsBalance(b, lb, c, lc)
    ensures KeepsBalance(a, la, c, lc)
  {
  }

  /** `if (--p->refcnt == 0) free(p);` */
  function Drop(live: Live, id: SharedId): Live {
    if id !in live then live
    else if live[id] == 1 then live - {id}
    else live[id := live[id] - 1]
  }

  /** The three drops of FreeCell. */
  function DropCell(live: Live, e: Entry): Live {
    if e.refcnt > 1 || !e.fShared then live
    else Drop(Drop(Drop(live, e.shco.red), e.shco.green), e.shco.blue)
  }

  lemma {:induction false} PointersUpdate(cells: seq<Entry>, i: nat, e: Entry, id: SharedId)
    requires i < |cells|
    ensures Pointers(cells[i := e], id) == Pointers(cells, id) - CellPointers(cells[i], id) + CellPointers(e, id)
  {
    var n := |cells| - 1;
    var updated := cells[i := e];
    if i == n {
      assert updated[..n] == cells[..n];
    } else {
      assert updated[..n] == cells[..n][i := e];
      PointersUpdate(cells[..n], i, e, id);
    }
  }

  lemma {:induction false} PointersAtLeast(cells: seq<Entry>, i: nat, id: SharedId)
    requires i < |cells|
    ensures CellPointers(cells[i], id) <= Pointers(cells, id)
  {
    if i < |cells| - 1 {
      PointersAtLeast(cells[..|cells| - 1], i, id);
    }
  }

  /** Cells that agree on sharing have the same pointers. */
  lemma {:induction false} PointersSame(a: seq<Entry>, b: seq<Entry>, id: SharedId)
    requires |a| == |b|
    requires forall i :: 0 <= i < |a| ==> CellPointers(a[i], id) == CellPointers(b[i], id)
    ensures Pointers(a, id) == Pointers(b, id)
  {
    if |a| != 0 {
      PointersSame(a[..|a| - 1], b[..|b| - 1], id);
    }
  }

  lemma {:induction false} PointersNone(cells: seq<Entry>, id: SharedId)
    requires forall i :: 0 <= i < |cells| ==> CellPointers(cells[i], id) == 0
    ensures Pointers(cells, id) == 0
  {
    if |cells| != 0 {
      PointersNone(cells[..|cells| - 1], id);
    }
  }

  /** Each of the three drops takes one from the count of its component. */
  lemma {:induction false} DropCellCount(live: Live, e: Entry, id: SharedId)
    requires forall x :: x in live ==> live[x] > 0
    requires forall x: SharedId :: CellPointers(e, x) <= RefCount(live, x)
    ensures var live' := DropCell(live, e);
            && RefCount(live', id) == RefCount(live, id) - (if e.refcnt > 1 then 0 else CellPointers(e, id))
            && (id in live' ==> live'[id] > 0)
  {
    if e.refcnt <= 1 && e.fShared {
      var one := Drop(live, e.shco.red);
      var two := Drop(one, e.shco.green);
      assert CellPointers(e, e.shco.red) <= RefCount(live, e.shco.red);
      assert CellPointers(e, e.shco.green) <= RefCount(live, e.shco.green);
      assert CellPointers(e, e.shco.blue) <= RefCount(live, e.shco.blue);
      DropCount(live, e.shco.red, id);
      DropCount(live, e.shco.red, e.shco.green);
      DropCount(live, e.shco.red, e.shco.blue);
      DropCount(one, e.shco.green, id);
      DropCount(one, e.shco.green, e.shco.blue);
      DropCount(two, e.shco.blue, id);
    }
  }

  lemma {:induction false} DropCount(live: Live, id: SharedId, x: SharedId)
    requires RefCount(live, id) >= 1
    ensures RefCount(Drop(live, id), x) == RefCount(live, x) - One(x == id)
    ensures x in Drop(live, id) ==> x in live && (live[x] > 0 ==> Drop(live, id)[x] > 0)
  {
  }

  /**
   Releasing a cell drops exactly the pointers it held: for every component the count minus the pointers left in
   the map is what it was, and a record disappears exactly when its count reaches zero.
   */
  lemma {:induction false} DropCellBalance(cells: seq<Entry>, live: Live, i: nat)
    requires Backed(cells, live) && i < |cells|
    ensures var cells', live' := cells[i := Released(cells[i])], DropCell(live, cells[i]);
            Backed(cells', live') && KeepsBalance(cells, live, cells', live')
  {
    var e := cells[i];
    var cells', live' := cells[i := Released(e)], DropCell(live, e);
    forall id: SharedId
      ensures CellPointers(e, id) <= RefCount(live, id)
    {
      PointersAtLeast(cells, i, id);
    }
    forall id: SharedId
      ensures RefCount(live', id) - Pointers(cells', id) == RefCount(live, id) - Pointers(cells, id)
      ensures id in live' ==> live'[id] > 0
    {
      PointersUpdate(cells, i, Released(e), id);
      DropCellCount(live, e, id);
    }
  }
}
