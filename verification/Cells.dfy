/**
 Colormap cells and the bookkeeping invariant that ties together the cells' reference counts, the free counter
 and the per-client pixel lists (dix/colormap.c).
 */
module Cells {

  /** A colour held by one cell (LOCO). */
  datatype Rgb = Rgb(red: nat, green: nat, blue: nat)

  /** Names of shared colour components; they stand for the addresses of SHAREDCOLOR records. */
  type SharedId = nat

  datatype Shco = Shco(red: SharedId, green: SharedId, blue: SharedId)

  datatype Entry = Entry(refcnt: int, fShared: bool, local: Rgb, shco: Shco)

  const AllocPrivate: int := -1

  const EmptyCell: Entry := Entry(0, false, Rgb(0, 0, 0), Shco(0, 0, 0))

  /** A cell taken by AllocCP. */
  function Claimed(e: Entry): Entry {
    e.(refcnt := AllocPrivate, fShared := false)
  }

  /** What FreeCell leaves in a cell. */
  function Released(e: Entry): Entry {
    if e.refcnt > 1 then e.(refcnt := e.refcnt - 1) else e.(refcnt := 0, fShared := false)
  }

  /** How much FreeCell adds to the free counter. */
  function Freed(e: Entry): nat {
    if e.refcnt > 1 then 0 else 1
  }

  function CountFree(cells: seq<Entry>): nat {
    if |cells| == 0 then 0
    else CountFree(cells[..|cells| - 1]) + (if cells[|cells| - 1].refcnt == 0 then 1 else 0)
  }

  /** How often pixel `v` occurs over all clients' pixel lists. */
  function Holdings(lists: seq<seq<nat>>, v: nat): nat {
    if |lists| == 0 then 0 else multiset(lists[|lists| - 1])[v] + Holdings(lists[..|lists| - 1], v)
  }

  /**
   One cell agrees with the lists: a privately allocated cell has exactly one holder and no creation-time count;
   any other cell's count is its holders plus the count it was given while the map was being created.
   */
  predicate CellAccounts(e: Entry, held: nat, base: nat) {
    && e.refcnt >= AllocPrivate
    && (e.fShared ==> e.refcnt == AllocPrivate)
    && (if e.refcnt == AllocPrivate then held == 1 && base == 0 else e.refcnt == held + base)
  }

  /** The invariant of a whole map. `base` is the creation-time share of each reference count. */
  ghost predicate Accounts(cells: seq<Entry>, free: int, lists: seq<seq<nat>>, base: seq<nat>) {
    && |base| == |cells|
    && free == CountFree(cells)
    && (forall i :: 0 <= i < |cells| ==> CellAccounts(cells[i], Holdings(lists, i), base[i]))
    && (forall v: nat :: v >= |cells| ==> Holdings(lists, v) == 0)
  }

  // ---- Holdings

  lemma {:induction false} HoldingsUpdate(lists: seq<seq<nat>>, c: nat, list: seq<nat>, v: nat)
    requires c < |lists|
    ensures Holdings(lists[c := list], v) == Holdings(lists, v) - multiset(lists[c])[v] + multiset(list)[v]
  {
    var n := |lists| - 1;
    var updated := lists[c := list];
    if c == n {
      assert updated[..n] == lists[..n];
    } else {
      assert updated[..n] == lists[..n][c := list];
      HoldingsUpdate(lists[..n], c, list, v);
    }
  }

  lemma {:induction false} HoldingsAtLeast(lists: seq<seq<nat>>, c: nat, v: nat)
    requires c < |lists|
    ensures multiset(lists[c])[v] <= Holdings(lists, v)
  {
    if c < |lists| - 1 {
      HoldingsAtLeast(lists[..|lists| - 1], c, v);
    }
  }

  lemma {:induction false} HoldingsEmpty(lists: seq<seq<nat>>, v: nat)
    requires forall c :: 0 <= c < |lists| ==> lists[c] == []
    ensures Holdings(lists, v) == 0
  {
    if |lists| != 0 {
      HoldingsEmpty(lists[..|lists| - 1], v);
    }
  }

  // ---- The free counter

  lemma {:induction false} CountFreeUpdate(cells: seq<Entry>, i: nat, e: Entry)
    requires i < |cells|
    ensures CountFree(cells[i := e])
         == CountFree(cells) - (if cells[i].refcnt == 0 then 1 else 0) + (if e.refcnt == 0 then 1 else 0)
  {
    var n := |cells| - 1;
    var updated := cells[i := e];
    if i == n {
      assert updated[..n] == cells[..n];
    } else {
      assert updated[..n] == cells[..n][i := e];
      CountFreeUpdate(cells[..n], i, e);
    }
  }

  lemma {:induction false} CountFreeBound(cells: seq<Entry>)
    ensures CountFree(cells) <= |cells|
    ensures CountFree(cells) == |cells| ==> forall i :: 0 <= i < |cells| ==> cells[i].refcnt == 0
  {
    if |cells| != 0 {
      CountFreeBound(cells[..|cells| - 1]);
    }
  }

  lemma {:induction false} CountFreeNone(cells: seq<Entry>)
    requires forall i :: 0 <= i < |cells| ==> cells[i].refcnt != 0
    ensures CountFree(cells) == 0
  {
    if |cells| != 0 {
      CountFreeNone(cells[..|cells| - 1]);
    }
  }

  lemma {:induction false} CountFreeAll(cells: seq<Entry>)
    requires forall i :: 0 <= i < |cells| ==> cells[i].refcnt == 0
    ensures CountFree(cells) == |cells|
  {
    if |cells| != 0 {
      CountFreeAll(cells[..|cells| - 1]);
    }
  }

  lemma {:induction false} CountFreeSuffix(cells: seq<Entry>, k: nat)
    requires k <= |cells|
    ensures CountFree(cells) == CountFree(cells[..k]) + CountFree(cells[k..])
  {
    if k == |cells| {
      assert cells[..k] == cells;
    } else {
      var n := |cells| - 1;
      CountFreeSuffix(cells[..n], k);
      assert cells[..n][..k] == cells[..k];
      assert cells[..n][k..] == cells[k..][..n - k];
    }
  }

  predicate Distinct(pixels: seq<nat>) {
    forall i, j :: 0 <= i < j < |pixels| ==> pixels[i] != pixels[j]
  }

  /** `after` is `before` with exactly the listed cells claimed. */
  ghost predicate ClaimsExactly(before: seq<Entry>, after: seq<Entry>, pixels: seq<nat>) {
    && |after| == |before|
    && (forall p :: p in pixels ==> p < |before| && before[p].refcnt == 0)
    && (forall i: nat :: i < |before| ==> after[i] == if i in pixels then Claimed(before[i]) else before[i])
  }

  lemma {:induction false} ClaimCountsFree(before: seq<Entry>, after: seq<Entry>, pixels: seq<nat>)
    requires Distinct(pixels) && ClaimsExactly(before, after, pixels)
    ensures CountFree(after) == CountFree(before) - |pixels|
    decreases |pixels|
  {
    if |pixels| == 0 {
      assert after == before;
    } else {
      var n := |pixels| - 1;
      var p, rest := pixels[n], pixels[..n];
      assert pixels == rest + [p];
      assert p in pixels;
      var middle := after[p := before[p]];
      assert p !in rest;
      forall q | q in rest
        ensures q in pixels
      {
      }
      ClaimCountsFree(before, middle, rest);
      assert after == middle[p := after[p]];
      CountFreeUpdate(middle, p, after[p]);
    }
  }

  lemma {:induction false} DistinctMultiset(pixels: seq<nat>, v: nat)
    requires Distinct(pixels)
    ensures multiset(pixels)[v] == if v in pixels then 1 else 0
  {
    if |pixels| != 0 {
      var n := |pixels| - 1;
      assert pixels == pixels[..n] + [pixels[n]];
      DistinctMultiset(pixels[..n], v);
    }
  }

  // ---- Each operation keeps the invariant

  /** AllocPseudo: claimed cells go onto one client's list. */
  lemma {:induction false} ClaimKeepsAccounts(before: seq<Entry>, after: seq<Entry>, free: int, lists: seq<seq<nat>>, base: seq<nat>,
                           client: nat, pixels: seq<nat>)
    requires Accounts(before, free, lists, base) && client < |lists|
    requires Distinct(pixels) && ClaimsExactly(before, after, pixels)
    ensures Accounts(after, free - |pixels|, lists[client := lists[client] + pixels], base)
  {
    var lists' := lists[client := lists[client] + pixels];
    ClaimCountsFree(before, after, pixels);
    forall v: nat
      ensures Holdings(lists', v) == Holdings(lists, v) + if v in pixels then 1 else 0
    {
      HoldingsUpdate(lists, client, lists[client] + pixels, v);
      DistinctMultiset(pixels, v);
    }
  }

  /** FreeCell: one occurrence leaves the lists and the cell is released. */
  lemma {:induction false} ReleaseKeepsAccounts(cells: seq<Entry>, free: int, lists: seq<seq<nat>>, base: seq<nat>,
                             i: nat, lists': seq<seq<nat>>)
    requires Accounts(cells, free, lists, base) && i < |cells|
    requires Holdings(lists, i) >= 1
    requires forall v: nat :: Holdings(lists', v) == Holdings(lists, v) - if v == i then 1 else 0
    ensures Accounts(cells[i := Released(cells[i])], free + Freed(cells[i]), lists', base)
  {
    CountFreeUpdate(cells, i, Released(cells[i]));
  }

  /** FindColor on a match or on a free cell: one occurrence joins the lists. */
  lemma {:induction false} AcquireKeepsAccounts(cells: seq<Entry>, free: int, lists: seq<seq<nat>>, base: seq<nat>,
                             client: nat, i: nat, e: Entry)
    requires Accounts(cells, free, lists, base) && i < |cells| && client < |lists|
    requires cells[i].refcnt >= 0 && e.refcnt == cells[i].refcnt + 1 && !e.fShared
    ensures Accounts(cells[i := e], free - (if cells[i].refcnt == 0 then 1 else 0),
                     lists[client := lists[client] + [i]], base)
  {
    CountFreeUpdate(cells, i, e);
    var lists' := lists[client := lists[client] + [i]];
    forall v: nat
      ensures Holdings(lists', v) == Holdings(lists, v) + if v == i then 1 else 0
    {
      HoldingsUpdate(lists, client, lists[client] + [i], v);
    }
  }
}
