/**
 A colormap of a PseudoColor or GrayScale visual: one table of cells, a free counter, and a pixel list per client
 (dix/colormap.c).
 */
module Colormaps {
  import opened Bits
  import opened Submasks
  import opened Cells
  import opened Sharing
  import opened CellAllocator
  import opened PlaneMasks
  import opened Releases

  /** The allocator's SHAREDCOLOR records, common to all maps. */
  class SharedHeap {
    var live: Live

    constructor ()
      ensures live == map[]
    {
      live := map[];
    }
  }

  /** A 32-bit signed left shift, as `int npix = c << r` computes it. */
  function ShiftInt(c: nat, r: nat): int {
    ToInt(c * Pow2(r))
  }

  function ToInt(n: nat): int {
    var bits := n % 0x1_0000_0000;
    if bits < 0x8000_0000 then bits else bits - 0x1_0000_0000
  }

  class Colormap {
    const nplanes: nat
    const red: array<Entry>
    const heap: SharedHeap
    var freeRed: int
    var clientPixels: seq<seq<nat>>
    var allAllocated: bool
    var beingCreated: bool
    /** The part of each reference count that was given while the map was being created. */
    ghost var base: seq<nat>

    ghost predicate Valid()
      reads this, red, heap
    {
      && 1 <= nplanes <= 16
      && red.Length == Pow2(nplanes)
      && Accounts(red[..], freeRed, clientPixels, base)
      && Backed(red[..], heap.live)
    }

    /** AllocNone: all cells empty. AllocAll: every cell private to `owner` and on its list. */
    constructor (nplanes: nat, clients: nat, heap: SharedHeap, allocAll: bool, owner: nat)
      requires 1 <= nplanes <= 16 && owner < clients
      requires forall id :: id in heap.live ==> heap.live[id] > 0
      ensures Valid() && fresh(red) && this.nplanes == nplanes && this.heap == heap
      ensures heap.live == old(heap.live)
      ensures forall i :: 0 <= i < red.Length ==>
                red[i] == if allAllocated then EmptyCell.(refcnt := AllocPrivate) else EmptyCell
      ensures |clientPixels| == clients && allAllocated == allocAll && beingCreated
      ensures base == seq(Pow2(nplanes), _ => 0)
      ensures forall c :: 0 <= c < clients && !(allocAll && c == owner) ==> clientPixels[c] == []
      ensures allocAll ==> clientPixels[owner] == seq(Pow2(nplanes), (i: nat) => i)
      ensures freeRed == if allocAll then 0 else Pow2(nplanes)
    {
      var size := Pow2(nplanes);
      this.nplanes, this.heap := nplanes, heap;
      var cell := if allocAll then EmptyCell.(refcnt := AllocPrivate) else EmptyCell;
      var cells := new Entry[size](_ => cell);
      red := cells;
      freeRed := if allocAll then 0 else size;
      var none := seq(clients, _ => []);
      var everything := seq(size, (i: nat) => i);
      clientPixels := if allocAll then none[owner := everything] else none;
      allAllocated, beingCreated := allocAll, true;
      base := seq(size, _ => 0);
      new;
      FreshAccounts(cells[..], none, everything, base, allocAll, owner);
      forall id: SharedId
        ensures Pointers(red[..], id) == 0
      {
        PointersNone(red[..], id);
      }
    }

    /** `pmap->flags &= ~CM_BeingCreated` */
    method FinishCreation()
      requires Valid()
      modifies this`beingCreated
      ensures Valid() && !beingCreated
    {
      beingCreated := false;
    }

    /** Release one reference to cell `i`; the last one frees the cell and drops its shared components. */
    method FreeCell(i: nat)
      requires i < red.Length && Backed(red[..], heap.live)
      modifies red, this`freeRed, heap
      ensures red[..] == old(red[..])[i := Released(old(red[i]))]
      ensures freeRed == old(freeRed) + Freed(old(red[i]))
      ensures Backed(red[..], heap.live)
      ensures KeepsBalance(old(red[..]), old(heap.live), red[..], heap.live)
    {
      DropCellBalance(red[..], heap.live, i);
      var pent := red[i];
      if pent.refcnt > 1 {
        red[i] := pent.(refcnt := pent.refcnt - 1);
      } else {
        if pent.fShared {
          heap.live := Drop(heap.live, pent.shco.red);
          heap.live := Drop(heap.live, pent.shco.green);
          heap.live := Drop(heap.live, pent.shco.blue);
          pent := pent.(fShared := false);
        }
        red[i] := pent.(refcnt := 0);
        freeRed := freeRed + 1;
      }
      assert red[..] == old(red[..])[i := Released(old(red[i]))];
      assert heap.live == DropCell(old(heap.live), old(red[i]));
    }

    // ---- Allocating a read-only colour

    /** The k-th cell of the circular scan that starts at `start`. */
    function At(start: nat, k: nat): (i: nat)
      ensures start < red.Length && k < red.Length ==> i == (start + k) % red.Length
    {
      if start + k < red.Length then start + k else start + k - red.Length
    }

    predicate Matches(e: Entry, rgb: Rgb) {
      e.refcnt > 0 && e.local == rgb
    }

    /**
     The search of FindColor: a cell with the colour if there is one, else the first free cell of the circular
     scan. While the map is being created the scan stops at the first free cell.
     */
    method Scan(rgb: Rgb, start: nat) returns (found: bool, foundFree: bool, pixel: nat, ghost k: nat)
      requires red.Length > 0 && start < red.Length
      ensures found || foundFree ==> k < red.Length && pixel == At(start, k)
      ensures found ==> Matches(red[pixel], rgb)
      ensures found ==> forall j: nat :: j < k ==> !Matches(red[At(start, j)], rgb)
      ensures found && beingCreated ==> forall j: nat :: j < k ==> red[At(start, j)].refcnt != 0
      ensures !found && foundFree ==> red[pixel].refcnt == 0
      ensures !found && foundFree ==> forall j: nat :: j < k ==> red[At(start, j)].refcnt != 0
      ensures !found && !(foundFree && beingCreated) ==> forall i :: 0 <= i < red.Length ==> !Matches(red[i], rgb)
      ensures !found && !foundFree ==> forall i :: 0 <= i < red.Length ==> red[i].refcnt != 0
    {
      var size, count := red.Length, red.Length;
      pixel, foundFree := start, false;
      var free := 0;
      ghost var n, f := 0, 0;
      while count > 0
        invariant 0 <= count <= size && n == size - count
        invariant n < size ==> pixel == At(start, n)
        invariant forall j: nat :: j < n ==> !Matches(red[At(start, j)], rgb)
        invariant !foundFree ==> forall j: nat :: j < n ==> red[At(start, j)].refcnt != 0
        invariant foundFree ==> !beingCreated && f < n && free == At(start, f) && red[free].refcnt == 0
        invariant foundFree ==> forall j: nat :: j < f ==> red[At(start, j)].refcnt != 0
      {
        count := count - 1;
        if red[pixel].refcnt > 0 {
          if red[pixel].local == rgb {
            return true, foundFree, pixel, n;
          }
        } else if !foundFree && red[pixel].refcnt == 0 {
          free, foundFree, f := pixel, true, n;
          if beingCreated {
            return false, true, free, n;
          }
        }
        pixel := pixel + 1;
        if pixel >= size {
          pixel := 0;
        }
        n := n + 1;
      }
      forall i | 0 <= i < size
        ensures !Matches(red[i], rgb)
        ensures !foundFree ==> red[i].refcnt != 0
      {
        var j := if i >= start then i - start else i - start + size;
        assert At(start, j) == i;
      }
      return false, foundFree, free, f;
    }

    /** Of the cells in circular order from `start`, `pixel` is the first match, or else the first free one. */
    ghost predicate FirstChoice(cells: seq<Entry>, start: nat, rgb: Rgb, pixel: nat)
      requires |cells| == red.Length && start < |cells|
      reads this`beingCreated
    {
      exists k: nat ::
        && k < |cells| && pixel == At(start, k)
        && (if Matches(cells[pixel], rgb) then forall j: nat :: j < k ==> !Matches(cells[At(start, j)], rgb)
            else && cells[pixel].refcnt == 0
                 && (forall j: nat :: j < k ==> cells[At(start, j)].refcnt != 0)
                 && (!beingCreated ==> forall i :: 0 <= i < |cells| ==> !Matches(cells[i], rgb)))
        && (beingCreated ==> forall j: nat :: j < k ==> cells[At(start, j)].refcnt != 0)
    }

    /** The first half of FindColor: bump the matching cell, or fill in a free one. */
    method PlaceColor(rgb: Rgb, start: nat) returns (ok: bool, matched: bool, pixel: nat)
      requires red.Length > 0
      modifies red, this`freeRed
      ensures ok <==> old(Available(rgb))
      ensures !ok ==> red[..] == old(red[..]) && freeRed == old(freeRed)
      ensures ok ==> pixel < red.Length && red[..] == old(red[..])[pixel := Placed(old(red[..])[pixel], rgb)]
      ensures ok ==> freeRed == old(freeRed) - if matched then 0 else 1
      ensures ok ==> if matched then Matches(old(red[..])[pixel], rgb) else old(red[..])[pixel].refcnt == 0
      ensures ok ==> FirstChoice(old(red[..]), if start >= red.Length then 0 else start, rgb, pixel)
      ensures ok && matched ==> exists i :: 0 <= i < red.Length && Matches(old(red[i]), rgb)
      ensures ok && !matched && !beingCreated ==> forall i :: 0 <= i < red.Length ==> !Matches(old(red[i]), rgb)
    {
      ghost var k;
      var foundFree;
      matched, foundFree, pixel, k := Scan(rgb, if start >= red.Length then 0 else start);
      ok := matched || foundFree;
      assert ok ==> red[..][pixel] == red[pixel];
      assert ok ==> FirstChoice(red[..], if start >= red.Length then 0 else start, rgb, pixel);
      if matched {
        assert Matches(red[pixel], rgb);
        red[pixel] := red[pixel].(refcnt := red[pixel].refcnt + 1);
      } else if foundFree {
        red[pixel] := red[pixel].(fShared := false, refcnt := 1, local := rgb);
        freeRed := freeRed - 1;
      }
    }

    /** What FindColor stores into the cell it picks. */
    function Placed(e: Entry, rgb: Rgb): Entry {
      if e.refcnt > 0 then e.(refcnt := e.refcnt + 1) else e.(fShared := false, refcnt := 1, local := rgb)
    }

    /** The cell after the out-of-memory exit: a match is as before, a free cell is free but keeps the colour. */
    function BackedOut(e: Entry, rgb: Rgb): Entry {
      if e.refcnt > 0 then e else e.(fShared := false, local := rgb)
    }

    /**
     Allocate a shareable cell for a colour. The bookkeeping is kept except in one case: when remembering the pixel
     fails for lack of memory and the colour was already in the map, the free counter ends up one too high.
     */
    method FindColor(rgb: Rgb, start: nat, client: nat, outOfMemory: bool) returns (status: Status, pixel: nat)
      requires Valid() && client < |clientPixels|
      modifies red, this`freeRed, this`clientPixels, this`base
      ensures status == Success <==> old(Available(rgb)) && !(outOfMemory && !beingCreated)
      ensures status == Success ==>
                && pixel < red.Length
                && red[..] == old(red[..])[pixel := Placed(old(red[..])[pixel], rgb)]
                && freeRed == old(freeRed) - (if old(red[..])[pixel].refcnt == 0 then 1 else 0)
                && red[pixel].local == rgb
                && FirstChoice(old(red[..]), if start >= red.Length then 0 else start, rgb, pixel)
                && (old(red[..])[pixel].refcnt == 0 && !beingCreated ==> !old(InUse(rgb)))
                && clientPixels == (if beingCreated then old(clientPixels)
                                    else old(clientPixels)[client := old(clientPixels[client]) + [pixel]])
                && base == (if beingCreated then old(base)[pixel := old(base)[pixel] + 1] else old(base))
      ensures status != Success ==> status == BadAlloc && clientPixels == old(clientPixels) && base == old(base)
      ensures !old(Available(rgb)) ==> red[..] == old(red[..])
      ensures status != Success && old(Available(rgb)) ==>
                && pixel < red.Length
                && red[..] == old(red[..])[pixel := BackedOut(old(red[..])[pixel], rgb)]
                && freeRed == old(freeRed) + if old(InUse(rgb)) then 1 else 0
      ensures Valid() <==> !(outOfMemory && !beingCreated && old(InUse(rgb)))
      ensures KeepsBalance(old(red[..]), old(heap.live), red[..], heap.live)
    {
      hide CountFree, Holdings, Pointers;
      ghost var cells := red[..];
      var ok, matched;
      ok, matched, pixel := PlaceColor(rgb, start);
      if !ok {
        return BadAlloc, pixel;
      }
      ghost var e := Placed(cells[pixel], rgb);
      assert CellAccounts(cells[pixel], Holdings(clientPixels, pixel), base[pixel]);
      SamePointers(cells, pixel, e);
      if beingCreated {
        CreationKeepsAccounts(cells, old(freeRed), clientPixels, base, pixel, e);
        base := base[pixel := base[pixel] + 1];
        return Success, pixel;
      }
      if outOfMemory {
        BackOutAccounts(cells, old(freeRed), clientPixels, base, pixel, e);
        SamePointers(cells, pixel, e.(refcnt := e.refcnt - 1));
        red[pixel] := red[pixel].(refcnt := red[pixel].refcnt - 1);
        if !red[pixel].fShared {
          freeRed := freeRed + 1;
        }
        assert red[..] == cells[pixel := e.(refcnt := e.refcnt - 1)];
        return BadAlloc, pixel;
      }
      AcquireKeepsAccounts(cells, old(freeRed), clientPixels, base, client, pixel, e);
      clientPixels := clientPixels[client := clientPixels[client] + [pixel]];
      return Success, pixel;
    }

    /** The colour is in the map. */
    ghost predicate InUse(rgb: Rgb)
      reads this, red
    {
      exists i :: 0 <= i < red.Length && Matches(red[i], rgb)
    }

    /** The colour is in the map or there is room for it. */
    ghost predicate Available(rgb: Rgb)
      reads this, red
    {
      exists i :: 0 <= i < red.Length && (red[i].refcnt == 0 || Matches(red[i], rgb))
    }

    // ---- Allocating writable cells

    /** Claim `c << r` cells for a client, or report that there is no room. */
    method AllocPseudo(client: nat, c: nat, r: nat, contig: bool, tempFails: bool, listFails: bool)
      returns (status: Status, pixels: seq<nat>, mask: nat, first: nat)
      requires Valid() && client < |clientPixels| && 1 <= c <= 0xFFFF
      modifies red, this`freeRed, this`clientPixels
      ensures Valid() && heap.live == old(heap.live) && base == old(base)
      ensures status == Success || status == BadAlloc
      ensures status == Success ==>
                && |clientPixels| == |old(clientPixels)|
                && clientPixels == old(clientPixels)[client := clientPixels[client]]
                && first == |old(clientPixels[client])| <= |clientPixels[client]|
                && clientPixels[client][..first] == old(clientPixels[client])
                && Eligible(mask, r, nplanes, contig)
                && (r > 0 ==> Preferred(old(red[..]), c, mask, r, nplanes))
                && Allocation(old(red[..]), clientPixels[client][first..], mask, c)
                && ClaimsExactly(old(red[..]), red[..], clientPixels[client][first..])
                && pixels == clientPixels[client][first..][..c]
      ensures status != Success ==> red[..] == old(red[..]) && clientPixels == old(clientPixels)
      ensures status != Success && !tempFails && !listFails ==>
                c * Pow2(r) > old(freeRed) || Hopeless(red[..], c, r, nplanes, contig)
      ensures KeepsBalance(old(red[..]), old(heap.live), red[..], heap.live)
    {
      hide CountFree, Holdings, Pointers;
      ghost var cells := red[..];
      CountFreeBound(cells);
      MapSize(nplanes);
      GuardExact(c, r, freeRed);
      var npix := ShiftInt(c, r);
      if r >= 32 || npix > freeRed || npix < c {
        return BadAlloc, [], 0, 0;
      }
      if tempFails {
        return BadAlloc, [], 0, 0;
      }
      var ok, temp;
      ok, temp, mask := AllocCP(red, nplanes, c, r, contig);
      if !ok {
        return BadAlloc, [], 0, 0;
      }
      if listFails {
        Unclaim(temp, cells);
        return BadAlloc, [], 0, 0;
      }
      ClaimKeepsAccounts(cells, red[..], freeRed, clientPixels, base, client, temp);
      ClaimKeepsPointers(cells, red[..], temp, clientPixels, base);
      first := |clientPixels[client]|;
      ghost var list := clientPixels[client] + temp;
      assert list[first..] == temp && list[..first] == clientPixels[client];
      clientPixels := clientPixels[client := clientPixels[client] + temp];
      freeRed := freeRed - npix;
      return Success, temp[..c], mask, first;
    }

    /** Backing out: the claimed cells go back to unallocated, which is all that claiming had changed. */
    method Unclaim(pixels: seq<nat>, ghost cells: seq<Entry>)
      requires ClaimsExactly(cells, red[..], pixels) && Distinct(pixels)
      requires forall i :: 0 <= i < |cells| && cells[i].refcnt == 0 ==> !cells[i].fShared
      modifies red
      ensures red[..] == cells
    {
      for n := 0 to |pixels|
        invariant forall i: nat :: i < red.Length
                    ==> red[i] == if i in pixels[n..] then Claimed(cells[i]) else cells[i]
      {
        assert pixels[n] in pixels;
        assert pixels[n..] == [pixels[n]] + pixels[n + 1..];
        red[pixels[n]] := red[pixels[n]].(refcnt := 0);
      }
    }

    // ---- Releasing

    /** Release everything a client holds. */
    method FreePixels(client: nat)
      requires Valid() && client < |clientPixels|
      modifies red, this`freeRed, this`clientPixels, heap
      ensures Valid() && base == old(base)
      ensures clientPixels == old(clientPixels)[client := []]
      ensures forall i: nat :: i < red.Length && i !in old(clientPixels[client]) ==> red[i] == old(red[i])
      ensures KeepsBalance(old(red[..]), old(heap.live), red[..], heap.live)
    {
      var list := clientPixels[client];
      assert clientPixels[client := list[0..]] == clientPixels;
      for n := 0 to |list|
        invariant clientPixels == old(clientPixels)
        invariant Accounts(red[..], freeRed, clientPixels[client := list[n..]], base)
        invariant Backed(red[..], heap.live)
        invariant forall i: nat :: i < red.Length && i !in list ==> red[i] == old(red[i])
        invariant KeepsBalance(old(red[..]), old(heap.live), red[..], heap.live)
      {
        ReleaseHead(red[..], freeRed, clientPixels, base, client, list, n);
        ghost var cells := red[..];
        FreeCell(list[n]);
        assert list[n] in list;
        assert forall i: nat :: i < red.Length ==> red[i] == cells[i := cells[i]][i] || i == list[n];
      }
      clientPixels := clientPixels[client := []];
      assert list[|list|..] == [];
    }

    /** The map agrees with the lists once `client`'s list is read as `list`. */
    ghost predicate ValidWith(client: nat, list: seq<nat>)
      requires client < |clientPixels|
      reads this, red, heap
    {
      && Accounts(red[..], freeRed, clientPixels[client := list], base)
      && Backed(red[..], heap.live)
    }

    /** Release one pixel of a client's share. */
    method ReleaseHeld(client: nat, ghost list: seq<nat>, v: nat)
      requires client < |clientPixels| && v in list && v < red.Length && ValidWith(client, list)
      modifies red, this`freeRed, heap
      ensures ValidWith(client, RemoveFirst(list, v))
      ensures red[..] == old(red[..])[v := Released(old(red[v]))]
      ensures KeepsBalance(old(red[..]), old(heap.live), red[..], heap.live)
    {
      ReleaseAny(red[..], freeRed, clientPixels, base, client, list, v);
      FreeCell(v);
    }

    /** One test of FreeCo: find the pixel in the client's list, release the cell, mark the entry. */
    method ZapOne(buf: array<nat>, client: nat, pixTest: nat, status: Status, ghost st: FreeState)
      returns (zaps: nat, status': Status)
      requires client < |clientPixels| && red.Length <= 65536 && buf !in {red as object, heap, this}
      requires st == FreeState(Unzapped(buf[..]), red[..], status) && ValidWith(client, st.list)
      modifies buf, red, this`freeRed, heap
      ensures FreeStep(st, pixTest) == FreeState(Unzapped(buf[..]), red[..], status')
      ensures ValidWith(client, Unzapped(buf[..]))
      ensures |Unzapped(buf[..])| + zaps == |st.list|
      ensures KeepsBalance(old(red[..]), old(heap.live), red[..], heap.live)
    {
      zaps, status' := 0, status;
      if pixTest >= red.Length {
        return 0, BadValue;
      }
      var n := FindFirst(buf, pixTest);
      UnzappedIn(buf[..], pixTest);
      if n < buf.Length {
        ZapFirst(buf[..], pixTest, n);
        RemoveFirstMultiset(st.list, pixTest);
        ReleaseHeld(client, st.list, pixTest);
        ghost var cells := red[..];
        buf[n] := Zapped;
        assert red[..] == cells;
        assert buf[..] == old(buf[..])[n := Zapped];
        zaps := 1;
      } else {
        assert pixTest !in buf[..];
        status' := BadAccess;
      }
    }

    /** All input pixels combined with one submask. */
    method ZapRound(buf: array<nat>, client: nat, pixels: seq<nat>, bits: nat, status: Status,
                    ghost st0: FreeState, ghost tests: seq<nat>)
      returns (zaps: nat, status': Status)
      requires client < |clientPixels| && red.Length <= 65536 && buf !in {red as object, heap, this}
      requires FreeSteps(st0, tests) == FreeState(Unzapped(buf[..]), red[..], status)
      requires ValidWith(client, Unzapped(buf[..]))
      modifies buf, red, this`freeRed, heap
      ensures FreeSteps(st0, tests + WithBits(pixels, bits)) == FreeState(Unzapped(buf[..]), red[..], status')
      ensures ValidWith(client, Unzapped(buf[..]))
      ensures |Unzapped(buf[..])| + zaps == |Unzapped(old(buf[..]))|
      ensures KeepsBalance(old(red[..]), old(heap.live), red[..], heap.live)
    {
      ghost var round := WithBits(pixels, bits);
      assert tests + round[..0] == tests;
      zaps, status' := 0, status;
      for n := 0 to |pixels|
        invariant FreeSteps(st0, tests + round[..n]) == FreeState(Unzapped(buf[..]), red[..], status')
        invariant ValidWith(client, Unzapped(buf[..]))
        invariant |Unzapped(buf[..])| + zaps == |Unzapped(old(buf[..]))|
        invariant KeepsBalance(old(red[..]), old(heap.live), red[..], heap.live)
      {
        NextTest(st0, tests, round, n);
        var z;
        z, status' := ZapOne(buf, client, Or(pixels[n], bits), status',
                             FreeState(Unzapped(buf[..]), red[..], status'));
        zaps := zaps + z;
      }
      assert round[..|pixels|] == round;
    }

    /** All rounds of FreeCo. */
    method ZapAll(buf: array<nat>, client: nat, pixels: seq<nat>, mask: nat, ghost st0: FreeState)
      returns (zapped: nat, status: Status)
      requires client < |clientPixels| && red.Length <= 65536 && buf !in {red as object, heap, this}
      requires st0 == FreeState(Unzapped(buf[..]), red[..], Success) && ValidWith(client, st0.list)
      modifies buf, red, this`freeRed, heap
      ensures FreeSteps(st0, AllTests(pixels, mask)) == FreeState(Unzapped(buf[..]), red[..], status)
      ensures ValidWith(client, Unzapped(buf[..]))
      ensures |Unzapped(buf[..])| + zapped == |st0.list|
      ensures KeepsBalance(old(red[..]), old(heap.live), red[..], heap.live)
    {
      hide And, Or, Ones, Pow2, LowBit, Unzapped, ValidWith, KeepsBalance, Deposit, Tests, WithBits, FreeSteps;
      var bits, lowest := 0, LowBit(mask);
      zapped, status := 0, Success;
      ghost var k := 0;
      DepositZero(mask);
      BalanceRefl(red[..], heap.live);
      TestsNext(st0, pixels, mask, 0);
      while true
        invariant 0 <= k < Pow2(Ones(mask)) && bits == Deposit(k, mask)
        invariant FreeSteps(st0, Tests(pixels, mask, k)) == FreeState(Unzapped(buf[..]), red[..], status)
        invariant ValidWith(client, Unzapped(buf[..]))
        invariant |Unzapped(buf[..])| + zapped == |st0.list|
        invariant KeepsBalance(old(red[..]), old(heap.live), red[..], heap.live)
        decreases Pow2(Ones(mask)) - k
      {
        ghost var cells, live := red[..], heap.live;
        var zaps;
        zaps, status := ZapRound(buf, client, pixels, bits, status, st0, Tests(pixels, mask, k));
        zapped := zapped + zaps;
        BalanceChain(old(red[..]), old(heap.live), cells, live, red[..], heap.live);
        TestsNext(st0, pixels, mask, k);
        if bits == mask {
          LastSubmask(k, mask);
          return;
        }
        bits := NextBits(bits, mask, lowest, k);
        k := k + 1;
      }
    }

    /**
     Release, for each input pixel and each submask of the mask, one reference the client holds. What remains of
     the client's list, the cells and the result are those of running the tests one by one.
     */
    method FreeCo(client: nat, pixels: seq<nat>, mask: nat) returns (status: Status)
      requires Valid() && client < |clientPixels|
      modifies red, this`freeRed, this`clientPixels, heap
      ensures Valid() && base == old(base)
      ensures |clientPixels| == |old(clientPixels)|
      ensures clientPixels == old(clientPixels)[client := clientPixels[client]]
      ensures FreeState(clientPixels[client], red[..], status)
           == FreeSteps(FreeState(old(clientPixels[client]), old(red[..]), Success), AllTests(pixels, mask))
      ensures KeepsBalance(old(red[..]), old(heap.live), red[..], heap.live)
    {
      hide And, Or, Ones, Pow2, Deposit, Unzapped, RemoveFirst, Accounts, Backed, Released;
      if |pixels| == 0 {
        TestsLength(pixels, mask, Pow2(Ones(mask)));
        return Success;
      }
      MapSize(nplanes);
      var list := clientPixels[client];
      var buf := new nat[|list|](i requires 0 <= i < |list| => list[i]);
      assert buf[..] == list;
      ListInMap(red[..], freeRed, clientPixels, base, client);
      UnzappedId(list);
      assert clientPixels[client := list] == clientPixels;
      var zapped;
      zapped, status := ZapAll(buf, client, pixels, mask, FreeState(list, red[..], Success));
      ghost var cells, left := red[..], Unzapped(buf[..]);
      StillWhole(FreeState(list, old(red[..]), Success), AllTests(pixels, mask));
      if zapped != 0 {
        var npixNew := |list| - zapped;
        Compact(buf, npixNew);
        assert red[..] == cells;
        list := buf[..npixNew];
      }
      assert list == left;
      clientPixels := clientPixels[client := list];
      assert red[..] == cells;
    }

    /** FreeColors for this kind of map: planes outside the visual are an error but do not stop the rest. */
    method FreeColors(client: nat, pixels: seq<nat>, mask: nat) returns (status: Status)
      requires Valid() && client < |clientPixels|
      modifies red, this`freeRed, this`clientPixels, heap
      ensures Valid() && base == old(base)
      ensures allAllocated ==> status == BadAccess && red[..] == old(red[..]) && clientPixels == old(clientPixels)
      ensures |clientPixels| == |old(clientPixels)|
      ensures !allAllocated ==>
                var st := FreeSteps(FreeState(old(clientPixels[client]), old(red[..]), Success),
                                    AllTests(pixels, And(mask, Pow2(nplanes) - 1)));
                && red[..] == st.cells
                && clientPixels == old(clientPixels)[client := st.list]
                && status == if mask >= Pow2(nplanes) && |pixels| > 0 then BadValue else st.status
      ensures KeepsBalance(old(red[..]), old(heap.live), red[..], heap.live)
    {
      if allAllocated {
        return BadAccess;
      }
      var rmask := And(mask, Pow2(nplanes) - 1);
      LowMask(mask, nplanes);
      status := FreeCo(client, pixels, rmask);
      if mask != rmask && |pixels| > 0 {
        status := BadValue;
      }
    }

    // ---- Moving a client's share to another map

    /** How far CopyFree has come after `n` pixels of `list`; `cells0` are the source cells it started from. */
    ghost predicate Copying(dst: Colormap, client: nat, list: seq<nat>, n: nat, nalloc: nat,
                            cells0: seq<Entry>, dcells0: seq<Entry>)
      requires client < |clientPixels| && client < |dst.clientPixels| && n <= |list|
      reads this, red, dst, dst.red
    {
      && |cells0| == |dcells0| == red.Length == dst.red.Length
      && Accounts(red[..], freeRed, clientPixels[client := list[n..]], base)
      && Accounts(dst.red[..], dst.freeRed - nalloc, dst.clientPixels[client := list[..n]], dst.base)
      && (forall i :: 0 <= i < red.Length ==> CopiedCell(red[i], dst.red[i], cells0[i], dcells0[i], i in list[..n]))
    }

    /** Copy the cell of one listed pixel and release the source's reference. */
    method CopyOne(dst: Colormap, client: nat, ghost list: seq<nat>, ghost n: nat, v: nat,
                   ghost nalloc: nat, ghost cells0: seq<Entry>, ghost dcells0: seq<Entry>)
      returns (took: nat)
      requires this != dst && red != dst.red && heap == dst.heap
      requires client < |clientPixels| && client < |dst.clientPixels| && n < |list| && v == list[n]
      requires Copying(dst, client, list, n, nalloc, cells0, dcells0)
      requires forall i :: 0 <= i < |cells0| && cells0[i].refcnt == AllocPrivate ==> multiset(list)[i] <= 1
      requires JointlyBacked(red[..], dst.red[..], heap.live)
      modifies red, dst.red, this`freeRed, heap
      ensures Copying(dst, client, list, n + 1, nalloc + took, cells0, dcells0)
      ensures JointlyBacked(red[..], dst.red[..], heap.live)
      ensures JointBalance(old(red[..]), old(dst.red[..]), old(heap.live), red[..], dst.red[..], heap.live)
    {
      hide Pointers, CountFree, Holdings, Accounts, JointlyBacked, JointBalance, CopiedCell;
      ghost var cells, dcells, live := red[..], dst.red[..], heap.live;
      ReleaseHead(cells, freeRed, clientPixels, base, client, list, n);
      AccountedCells(dcells, dst.freeRed - nalloc, dst.clientPixels[client := list[..n]], dst.base);
      NotPrivateYet(cells, freeRed, clientPixels, base, client, dcells, cells0, dcells0, list, n);
      CopyAccounts(dcells, dst.freeRed - nalloc, dst.clientPixels, dst.base, client, list, n, cells[v]);
      CopyPointers(cells, dcells, v, live);
      var pentSrc, pentDst := red[v], dst.red[v];
      took := 0;
      if pentDst.refcnt > 0 {
        dst.red[v] := pentDst.(refcnt := pentDst.refcnt + 1);
      } else {
        took := 1;
        if pentSrc.refcnt > 0 {
          dst.red[v] := pentSrc.(refcnt := 1);
        } else {
          dst.red[v] := pentSrc;
          red[v] := pentSrc.(fShared := false);
        }
      }
      assert dst.red[..] == dcells[v := CopyCell(cells[v], dcells[v])];
      assert red[..] == cells[v := HandedOver(cells[v], dcells[v])];
      ghost var dcells1 := dst.red[..];
      JointToSingle(red[..], dcells1, live);
      FreeCell(v);
      assert dst.red[..] == dcells1;
      ghost var cells1 := cells[v := HandedOver(cells[v], dcells[v])];
      JointRelease(cells1, dcells1, live, red[..], heap.live);
      JointChain(cells, dcells, live, cells1, dcells1, live, red[..], dcells1, heap.live);
      CopiedStep(cells, dcells, cells0, dcells0, list, n);
      assert red[..] == cells[v := Released(cells[v])];
      assert list[..n + 1] == list[..n] + [v];
    }

    /** The loop of CopyFree over the client's pixels. */
    method CopyAll(dst: Colormap, client: nat, list: seq<nat>, ghost cells0: seq<Entry>, ghost dcells0: seq<Entry>)
      returns (nalloc: nat)
      requires this != dst && red != dst.red && heap == dst.heap
      requires client < |clientPixels| && client < |dst.clientPixels|
      requires Copying(dst, client, list, 0, 0, cells0, dcells0)
      requires forall i :: 0 <= i < |cells0| && cells0[i].refcnt == AllocPrivate ==> multiset(list)[i] <= 1
      requires JointlyBacked(red[..], dst.red[..], heap.live)
      modifies red, dst.red, this`freeRed, heap
      ensures Copying(dst, client, list, |list|, nalloc, cells0, dcells0)
      ensures JointlyBacked(red[..], dst.red[..], heap.live)
      ensures JointBalance(old(red[..]), old(dst.red[..]), old(heap.live), red[..], dst.red[..], heap.live)
    {
      nalloc := 0;
      for n := 0 to |list|
        invariant Copying(dst, client, list, n, nalloc, cells0, dcells0)
        invariant JointlyBacked(red[..], dst.red[..], heap.live)
        invariant JointBalance(old(red[..]), old(dst.red[..]), old(heap.live), red[..], dst.red[..], heap.live)
      {
        ghost var cells, dcells, live := red[..], dst.red[..], heap.live;
        var took := CopyOne(dst, client, list, n, list[n], nalloc, cells0, dcells0);
        JointChain(old(red[..]), old(dst.red[..]), old(heap.live), cells, dcells, live,
                   red[..], dst.red[..], heap.live);
        nalloc := nalloc + took;
      }
    }

    /**
     Move everything `client` holds to a new map: its list changes hands as it is, each private cell moves with its
     colour, and each shared cell keeps its colour there with the client's references only.
     */
    method CopyFree(client: nat, dst: Colormap)
      requires this != dst && red != dst.red && heap == dst.heap && nplanes == dst.nplanes
      requires Valid() && dst.Valid() && JointlyBacked(red[..], dst.red[..], heap.live)
      requires client < |clientPixels| && client < |dst.clientPixels| && dst.clientPixels[client] == []
      requires forall i :: 0 <= i < dst.red.Length ==> dst.red[i].refcnt >= 0
      requires forall i :: 0 <= i < red.Length && red[i].refcnt == AllocPrivate ==> dst.red[i].refcnt == 0
      modifies red, dst.red, this`freeRed, this`clientPixels, dst`freeRed, dst`clientPixels, heap
      ensures Valid() && dst.Valid() && JointlyBacked(red[..], dst.red[..], heap.live)
      ensures JointBalance(old(red[..]), old(dst.red[..]), old(heap.live), red[..], dst.red[..], heap.live)
      ensures clientPixels == old(clientPixels)[client := []]
      ensures dst.clientPixels == old(dst.clientPixels)[client := old(clientPixels[client])]
      ensures base == old(base) && dst.base == old(dst.base)
      ensures forall i :: 0 <= i < red.Length ==>
                CopiedCell(red[i], dst.red[i], old(red[i]), old(dst.red[i]), i in old(clientPixels[client]))
    {
      hide Accounts, JointBalance, CopiedCell, Backed, JointlyBacked;
      var list := clientPixels[client];
      ghost var cells0, dcells0 := red[..], dst.red[..];
      CopyStart(red[..], freeRed, clientPixels, base, client, dst.clientPixels);
      NothingCopied(red[..], dst.red[..], list);
      var nalloc := CopyAll(dst, client, list, cells0, dcells0);
      assert list[|list|..] == [] && list[..|list|] == list;
      ghost var cells, dcells := red[..], dst.red[..];
      dst.freeRed := dst.freeRed - nalloc;
      dst.clientPixels := dst.clientPixels[client := list];
      clientPixels := clientPixels[client := []];
      assert red[..] == cells && dst.red[..] == dcells;
      JointToSingle(cells, dcells, heap.live);
      JointToOther(cells, dcells, heap.live);
    }
  }

  /** The scan for a pixel in the client's list. */
  method FindFirst(buf: array<nat>, v: nat) returns (n: nat)
    ensures n <= buf.Length && (n < buf.Length ==> buf[n] == v)
    ensures forall i :: 0 <= i < n ==> buf[i] != v
  {
    n := 0;
    while n < buf.Length && buf[n] != v
      invariant 0 <= n <= buf.Length
      invariant forall i :: 0 <= i < n ==> buf[i] != v
    {
      n := n + 1;
    }
  }

  lemma {:induction false} LastSubmask(k: nat, mask: nat)
    requires k < Pow2(Ones(mask)) && Deposit(k, mask) == mask
    ensures k == Pow2(Ones(mask)) - 1
  {
    DepositLast(mask);
    if k < Pow2(Ones(mask)) - 1 {
      DepositMono(k, Pow2(Ones(mask)) - 1, mask);
    }
  }

  /** In-place compaction of the client's list: the unmarked entries move to the front in order. */
  method Compact(buf: array<nat>, npixNew: nat)
    requires |Unzapped(buf[..])| == npixNew
    modifies buf
    ensures npixNew <= buf.Length && buf[..npixNew] == Unzapped(old(buf[..]))
  {
    hide Unzapped;
    ghost var list := buf[..];
    UnzappedShort(list);
    UnzappedId([]);
    var pptr, cptr := 0, 0;
    assert list[..0] == [];
    while pptr < npixNew
      invariant 0 <= pptr <= cptr <= buf.Length && pptr <= npixNew
      invariant buf[..pptr] == Unzapped(list[..cptr])
      invariant forall i :: cptr <= i < buf.Length ==> buf[i] == list[i]
      decreases buf.Length - cptr
    {
      assert list[..buf.Length] == list;
      UnzappedNext(list, cptr);
      if buf[cptr] != Zapped {
        ghost var done := buf[..pptr];
        buf[pptr] := buf[cptr];
        assert buf[..pptr + 1] == done + [list[cptr]];
        pptr := pptr + 1;
      }
      cptr := cptr + 1;
    }
    UnzappedPrefix(list, cptr);
  }

  // ---- Lemmas about single steps

  lemma {:induction false} MapSize(nplanes: nat)
    requires nplanes <= 16
    ensures Pow2(nplanes) <= 65536
  {
    Pow2Mono(nplanes, 16);
    assert Pow2(8) == 256;
    Pow2Add(8, 8);
  }

  lemma {:induction false} ScaleUp(c: nat, p: nat)
    requires c >= 1 && p >= 1
    ensures c * p >= p && c * p >= c
  {
    assert c * p == (c - 1) * p + p;
    assert c * p == c + c * (p - 1);
  }

  lemma {:induction false} ScaledModulus(x: nat)
    ensures 131072 * x % 0x1_0000_0000 == 131072 * (x % 32768)
  {
    var q, m := x / 32768, x % 32768;
    assert 131072 * x == 0x1_0000_0000 * q + 131072 * m;
  }

  lemma {:induction false} WrappedMultiple(x: nat)
    ensures ToInt(131072 * x) <= 0 || ToInt(131072 * x) >= 131072
  {
    ScaledModulus(x);
  }

  lemma {:induction false} GuardOnValue(n: nat, c: nat, free: int)
    requires 1 <= c <= n && free <= 65536
    requires n < 0x1_0000_0000 || exists x: nat :: n == 131072 * x
    ensures c <= ToInt(n) <= free <==> n <= free
    ensures n <= free ==> ToInt(n) == n
  {
    if n >= 0x1_0000_0000 {
      var x: nat :| n == 131072 * x;
      WrappedMultiple(x);
    }
  }

  /** The overflow guard of AllocPseudo is exact for 16-bit counts on maps of at most 65536 cells. */
  lemma {:induction false} GuardExact(c: nat, r: nat, free: int)
    requires 1 <= c <= 0xFFFF && free <= 65536
    ensures r < 32 && c <= ShiftInt(c, r) <= free <==> c * Pow2(r) <= free
    ensures c * Pow2(r) <= free ==> ShiftInt(c, r) == c * Pow2(r)
  {
    var n := c * Pow2(r);
    ScaleUp(c, Pow2(r));
    if r <= 16 {
      MapSize(r);
      SmallShift(c, Pow2(r));
    } else {
      LargePow(r);
      MulSwap(c, Pow2(r - 17));
    }
    GuardOnValue(n, c, free);
  }

  lemma {:induction false} MulSwap(c: nat, q: nat)
    ensures c * (131072 * q) == 131072 * (c * q)
  {
  }

  lemma {:induction false} SmallShift(c: nat, p: nat)
    requires c <= 0xFFFF && p <= 65536
    ensures c * p < 0x1_0000_0000
  {
    assert c * p <= 0xFFFF * p;
  }

  lemma {:induction false} LargePow(r: nat)
    requires r >= 17
    ensures Pow2(r) == 131072 * Pow2(r - 17)
    ensures Pow2(r) >= 131072
  {
    assert Pow2(8) == 256;
    Pow2Add(8, 8);
    assert Pow2(17) == 131072;
    Pow2Add(17, r - 17);
  }

  /** The out-of-memory exit of FindColor restores the counts exactly when the cell had been free. */
  lemma {:induction false} BackOutAccounts(cells: seq<Entry>, free: int, lists: seq<seq<nat>>, base: seq<nat>, i: nat, e: Entry)
    requires Accounts(cells, free, lists, base) && i < |cells|
    requires cells[i].refcnt >= 0 && e.refcnt == cells[i].refcnt + 1 && !e.fShared
    ensures var taken := if cells[i].refcnt == 0 then 1 else 0;
            Accounts(cells[i := e.(refcnt := e.refcnt - 1)], free - taken + 1, lists, base) <==> cells[i].refcnt == 0
  {
    CountFreeUpdate(cells, i, e.(refcnt := e.refcnt - 1));
  }

  lemma {:induction false} SamePointers(cells: seq<Entry>, i: nat, e: Entry)
    requires i < |cells| && !cells[i].fShared && !e.fShared
    ensures forall id: SharedId :: Pointers(cells[i := e], id) == Pointers(cells, id)
  {
    forall id: SharedId
      ensures Pointers(cells[i := e], id) == Pointers(cells, id)
    {
      PointersUpdate(cells, i, e, id);
    }
  }

  lemma {:induction false} ClaimKeepsPointers(cells: seq<Entry>, after: seq<Entry>, pixels: seq<nat>, lists: seq<seq<nat>>, base: seq<nat>)
    requires ClaimsExactly(cells, after, pixels) && Accounts(cells, CountFree(cells), lists, base)
    ensures forall id: SharedId :: Pointers(after, id) == Pointers(cells, id)
  {
    forall id: SharedId
      ensures Pointers(after, id) == Pointers(cells, id)
    {
      forall i | 0 <= i < |cells|
        ensures CellPointers(after[i], id) == CellPointers(cells[i], id)
      {
        assert CellAccounts(cells[i], Holdings(lists, i), base[i]);
      }
      PointersSame(after, cells, id);
    }
  }

  /** While the map is being created a count may grow without a holder. */
  lemma {:induction false} CreationKeepsAccounts(cells: seq<Entry>, free: int, lists: seq<seq<nat>>, base: seq<nat>, i: nat, e: Entry)
    requires Accounts(cells, free, lists, base) && i < |cells|
    requires cells[i].refcnt >= 0 && e.refcnt == cells[i].refcnt + 1 && !e.fShared
    ensures Accounts(cells[i := e], free - (if cells[i].refcnt == 0 then 1 else 0), lists,
                     base[i := base[i] + 1])
  {
    CountFreeUpdate(cells, i, e);
  }

  /** Releasing the next pixel of a list, with the list shortened by it. */
  lemma {:induction false} ReleaseHead(cells: seq<Entry>, free: int, lists: seq<seq<nat>>, base: seq<nat>, client: nat,
                    list: seq<nat>, n: nat)
    requires client < |lists| && n < |list| && Accounts(cells, free, lists[client := list[n..]], base)
    ensures list[n] < |cells|
    ensures Holdings(lists[client := list[n..]], list[n]) >= 1
    ensures Accounts(cells[list[n] := Released(cells[list[n]])], free + Freed(cells[list[n]]),
                     lists[client := list[n + 1..]], base)
  {
    var now, next := lists[client := list[n..]], lists[client := list[n + 1..]];
    assert list[n..] == [list[n]] + list[n + 1..];
    HoldingsAtLeast(now, client, list[n]);
    forall v: nat
      ensures Holdings(next, v) == Holdings(now, v) - if v == list[n] then 1 else 0
    {
      HoldingsUpdate(lists, client, list[n..], v);
      HoldingsUpdate(lists, client, list[n + 1..], v);
    }
    ReleaseKeepsAccounts(cells, free, now, base, list[n], next);
  }

  /** Releasing a pixel that is somewhere in a client's list. */
  lemma {:induction false} ReleaseAny(cells: seq<Entry>, free: int, lists: seq<seq<nat>>, base: seq<nat>, client: nat,
                   list: seq<nat>, v: nat)
    requires client < |lists| && v in list && v < |cells| && Accounts(cells, free, lists[client := list], base)
    ensures Accounts(cells[v := Released(cells[v])], free + Freed(cells[v]),
                     lists[client := RemoveFirst(list, v)], base)
  {
    var now, next := lists[client := list], lists[client := RemoveFirst(list, v)];
    RemoveFirstMultiset(list, v);
    HoldingsAtLeast(now, client, v);
    forall x: nat
      ensures Holdings(next, x) == Holdings(now, x) - if x == v then 1 else 0
    {
      HoldingsUpdate(lists, client, list, x);
      HoldingsUpdate(lists, client, RemoveFirst(list, v), x);
    }
    ReleaseKeepsAccounts(cells, free, now, base, v, next);
  }

  /** Listed pixels are cells of the map, so none of them looks like the release mark. */
  lemma {:induction false} ListInMap(cells: seq<Entry>, free: int, lists: seq<seq<nat>>, base: seq<nat>, client: nat)
    requires client < |lists| && Accounts(cells, free, lists, base) && |cells| <= 65536
    ensures forall v :: v in lists[client] ==> v < |cells|
    ensures Zapped !in lists[client]
  {
    forall v | v in lists[client]
      ensures v < |cells|
    {
      HoldingsAtLeast(lists, client, v);
    }
  }

  lemma {:induction false} NextTest(st: FreeState, tests: seq<nat>, round: seq<nat>, n: nat)
    requires n < |round|
    ensures FreeSteps(st, tests + round[..n + 1]) == FreeStep(FreeSteps(st, tests + round[..n]), round[n])
  {
    var all := tests + round[..n + 1];
    assert all[..|all| - 1] == tests + round[..n] && all[|all| - 1] == round[n];
  }

  lemma {:induction false} UnzappedShort(list: seq<nat>)
    ensures |Unzapped(list)| <= |list|
  {
    if |list| != 0 {
      UnzappedShort(list[..|list| - 1]);
    }
  }

  lemma {:induction false} UnzappedNext(list: seq<nat>, n: nat)
    requires n < |list|
    ensures Unzapped(list[..n + 1]) == Unzapped(list[..n]) + if list[n] == Zapped then [] else [list[n]]
  {
    assert list[..n + 1][..n] == list[..n];
  }

  lemma {:induction false} UnzappedPrefix(list: seq<nat>, n: nat)
    requires n <= |list| && |Unzapped(list[..n])| == |Unzapped(list)|
    ensures Unzapped(list[..n]) == Unzapped(list)
  {
    assert list == list[..n] + list[n..];
    UnzappedSplit(list[..n], list[n..]);
  }

  /** If no entry was released the list is as it was. */
  lemma {:induction false} StillWhole(st: FreeState, tests: seq<nat>)
    ensures |FreeSteps(st, tests).list| <= |st.list|
    ensures |FreeSteps(st, tests).list| == |st.list| ==> FreeSteps(st, tests).list == st.list
  {
    if |tests| != 0 {
      var before, t := FreeSteps(st, tests[..|tests| - 1]), tests[|tests| - 1];
      StillWhole(st, tests[..|tests| - 1]);
      if t in before.list {
        RemoveFirstMultiset(before.list, t);
      }
    }
  }

  lemma {:induction false} LowMask(mask: nat, n: nat)
    ensures And(mask, Pow2(n) - 1) == mask <==> mask < Pow2(n)
    ensures And(mask, Pow2(n) - 1) < Pow2(n)
  {
    AndSub(mask, Pow2(n) - 1);
    SubBound(And(mask, Pow2(n) - 1), Pow2(n) - 1);
    if mask < Pow2(n) {
      SubAll(mask, n);
      SubAnd(mask, Pow2(n) - 1);
    }
  }

  // ---- Lemmas about CopyFree

  /** The destination cell after CopyFree has met the pixel once more. */
  function CopyCell(src: Entry, dst: Entry): Entry {
    if dst.refcnt > 0 then dst.(refcnt := dst.refcnt + 1)
    else if src.refcnt > 0 then src.(refcnt := 1)
    else src
  }

  /** The source cell just before FreeCell: a private cell's shared components now belong to the copy. */
  function HandedOver(src: Entry, dst: Entry): Entry {
    if dst.refcnt > 0 || src.refcnt > 0 then src else src.(fShared := false)
  }

  /** How a pair of cells relates to the source cell before the copy. */
  predicate CopiedCell(src: Entry, dst: Entry, before: Entry, dst0: Entry, copied: bool) {
    && src.local == before.local
    && (before.refcnt == AllocPrivate && !copied ==> src == before)
    && (src.refcnt == AllocPrivate ==> before.refcnt == AllocPrivate)
    && (dst.refcnt == AllocPrivate ==> before.refcnt == AllocPrivate && copied)
    && (before.refcnt == AllocPrivate && !copied ==> dst.refcnt == 0)
    && (before.refcnt == AllocPrivate && copied ==> dst == before)
    && (if copied then dst0.refcnt == 0 ==> dst.local == before.local else dst == dst0)
  }

  /** Every pointer from either map is paid for by a count. */
  ghost predicate JointlyBacked(a: seq<Entry>, b: seq<Entry>, live: Live) {
    && (forall id :: id in live ==> live[id] > 0)
    && (forall id: SharedId :: Pointers(a, id) + Pointers(b, id) <= RefCount(live, id))
  }

  /** Counts minus the pointers from both maps stay what they were. */
  ghost predicate JointBalance(a: seq<Entry>, b: seq<Entry>, live: Live, a': seq<Entry>, b': seq<Entry>, live': Live) {
    forall id: SharedId :: RefCount(live', id) - Pointers(a', id) - Pointers(b', id)
                        == RefCount(live, id) - Pointers(a, id) - Pointers(b, id)
  }

  lemma {:induction false} MeetsAgain(list: seq<nat>, n: nat)
    requires n < |list|
    ensures list[n] in list[..n] ==> multiset(list)[list[n]] >= 2
  {
    assert list == list[..n] + [list[n]] + list[n + 1..];
  }

  /** Before the first pixel: nothing copied, and private cells are listed at most once. */
  lemma {:induction false} CopyStart(cells: seq<Entry>, free: int, lists: seq<seq<nat>>, base: seq<nat>, client: nat,
                  dlists: seq<seq<nat>>)
    requires client < |lists| && client < |dlists| && Accounts(cells, free, lists, base) && dlists[client] == []
    ensures lists[client := lists[client][0..]] == lists
    ensures dlists[client := lists[client][..0]] == dlists
    ensures forall i :: 0 <= i < |cells| && cells[i].refcnt == AllocPrivate ==> multiset(lists[client])[i] <= 1
  {
    forall i | 0 <= i < |cells| && cells[i].refcnt == AllocPrivate
      ensures multiset(lists[client])[i] <= 1
    {
      HoldingsAtLeast(lists, client, i);
    }
  }

  lemma {:induction false} NothingCopied(cells: seq<Entry>, dcells: seq<Entry>, list: seq<nat>)
    requires |cells| == |dcells|
    requires forall i :: 0 <= i < |dcells| ==> dcells[i].refcnt >= 0
    requires forall i :: 0 <= i < |cells| && cells[i].refcnt == AllocPrivate ==> dcells[i].refcnt == 0
    ensures forall i :: 0 <= i < |cells| ==> CopiedCell(cells[i], dcells[i], cells[i], dcells[i], i in list[..0])
  {
  }

  lemma {:induction false} JointToOther(a: seq<Entry>, b: seq<Entry>, live: Live)
    requires JointlyBacked(a, b, live)
    ensures Backed(b, live)
  {
  }

  /** CopyFree neither loses nor duplicates a reference: the two maps' lists hold together what they held before. */
  lemma {:induction false} CopyConserves(lists: seq<seq<nat>>, dlists: seq<seq<nat>>, client: nat, v: nat)
    requires client < |lists| && client < |dlists| && dlists[client] == []
    ensures Holdings(lists[client := []], v) + Holdings(dlists[client := lists[client]], v)
         == Holdings(lists, v) + Holdings(dlists, v)
  {
    HoldingsUpdate(lists, client, [], v);
    HoldingsUpdate(dlists, client, lists[client], v);
  }

  /** A private source cell is met only once, so its copy is still empty when it is met. */
  lemma {:induction false} NotPrivateYet(cells: seq<Entry>, free: int, lists: seq<seq<nat>>, base: seq<nat>, client: nat,
                      dcells: seq<Entry>, cells0: seq<Entry>, dcells0: seq<Entry>, list: seq<nat>, n: nat)
    requires n < |list| && client < |lists| && |cells| == |dcells| == |cells0| == |dcells0|
    requires list[n] < |cells| && Holdings(lists[client := list[n..]], list[n]) >= 1
    requires Accounts(cells, free, lists[client := list[n..]], base)
    requires forall i :: 0 <= i < |dcells| ==> dcells[i].refcnt >= AllocPrivate
    requires forall i :: 0 <= i < |cells| ==> CopiedCell(cells[i], dcells[i], cells0[i], dcells0[i], i in list[..n])
    requires forall i :: 0 <= i < |cells0| && cells0[i].refcnt == AllocPrivate ==> multiset(list)[i] <= 1
    ensures cells[list[n]].refcnt != 0 && dcells[list[n]].refcnt >= 0
    ensures cells[list[n]].refcnt >= AllocPrivate
    ensures cells[list[n]].fShared ==> cells[list[n]].refcnt == AllocPrivate
    ensures cells[list[n]].refcnt == AllocPrivate ==> dcells[list[n]].refcnt == 0
    ensures cells0[list[n]].refcnt == AllocPrivate ==> list[n] !in list[..n]
  {
    var v := list[n];
    MeetsAgain(list, n);
    assert CellAccounts(cells[v], Holdings(lists[client := list[n..]], v), base[v]);
    assert CopiedCell(cells[v], dcells[v], cells0[v], dcells0[v], v in list[..n]);
  }

  /** The destination's bookkeeping grows by the copied pixel. */
  lemma {:induction false} AccountedCells(cells: seq<Entry>, free: int, lists: seq<seq<nat>>, base: seq<nat>)
    requires Accounts(cells, free, lists, base)
    ensures forall i :: 0 <= i < |cells| ==>
              cells[i].refcnt >= AllocPrivate && (cells[i].fShared ==> cells[i].refcnt == AllocPrivate)
  {
  }

  lemma {:induction false} CopyAccounts(dcells: seq<Entry>, dfree: int, dlists: seq<seq<nat>>, dbase: seq<nat>, client: nat,
                     list: seq<nat>, n: nat, src: Entry)
    requires client < |dlists| && n < |list| && list[n] < |dcells|
    requires Accounts(dcells, dfree, dlists[client := list[..n]], dbase)
    requires dcells[list[n]].refcnt >= 0 && src.refcnt >= AllocPrivate && src.refcnt != 0
    requires src.fShared ==> src.refcnt == AllocPrivate
    requires src.refcnt == AllocPrivate ==> dcells[list[n]].refcnt == 0
    ensures var d := dcells[list[n]];
            Accounts(dcells[list[n] := CopyCell(src, d)], dfree - (if d.refcnt == 0 then 1 else 0),
                     dlists[client := list[..n + 1]], dbase)
  {
    var v, d := list[n], dcells[list[n]];
    var now, next := dlists[client := list[..n]], dlists[client := list[..n + 1]];
    assert list[..n + 1] == list[..n] + [v];
    assert CellAccounts(d, Holdings(now, v), dbase[v]);
    CountFreeUpdate(dcells, v, CopyCell(src, d));
    forall x: nat
      ensures Holdings(next, x) == Holdings(now, x) + if x == v then 1 else 0
    {
      HoldingsUpdate(dlists, client, list[..n], x);
      HoldingsUpdate(dlists, client, list[..n + 1], x);
    }
  }

  /** Handing a private cell over moves its pointers; nothing is dropped. */
  lemma {:induction false} CopyPointers(cells: seq<Entry>, dcells: seq<Entry>, v: nat, live: Live)
    requires v < |cells| == |dcells| && JointlyBacked(cells, dcells, live)
    requires cells[v].refcnt != 0 && (cells[v].fShared ==> cells[v].refcnt == AllocPrivate)
    requires cells[v].refcnt == AllocPrivate ==> dcells[v].refcnt == 0
    requires !dcells[v].fShared && dcells[v].refcnt >= 0
    ensures var cells1, dcells1 := cells[v := HandedOver(cells[v], dcells[v])],
                                   dcells[v := CopyCell(cells[v], dcells[v])];
            JointlyBacked(cells1, dcells1, live) && JointBalance(cells, dcells, live, cells1, dcells1, live)
  {
    var cells1, dcells1 := cells[v := HandedOver(cells[v], dcells[v])], dcells[v := CopyCell(cells[v], dcells[v])];
    forall id: SharedId
      ensures Pointers(cells1, id) + Pointers(dcells1, id) == Pointers(cells, id) + Pointers(dcells, id)
    {
      PointersUpdate(cells, v, HandedOver(cells[v], dcells[v]), id);
      PointersUpdate(dcells, v, CopyCell(cells[v], dcells[v]), id);
    }
  }

  lemma {:induction false} JointToSingle(a: seq<Entry>, b: seq<Entry>, live: Live)
    requires JointlyBacked(a, b, live)
    ensures Backed(a, live)
  {
  }

  lemma {:induction false} JointRelease(a: seq<Entry>, b: seq<Entry>, live: Live, a': seq<Entry>, live': Live)
    requires JointlyBacked(a, b, live) && KeepsBalance(a, live, a', live') && Backed(a', live')
    ensures JointlyBacked(a', b, live') && JointBalance(a, b, live, a', b, live')
  {
  }

  lemma {:induction false} JointChain(a: seq<Entry>, b: seq<Entry>, l: Live, a1: seq<Entry>, b1: seq<Entry>, l1: Live,
                   a2: seq<Entry>, b2: seq<Entry>, l2: Live)
    requires JointBalance(a, b, l, a1, b1, l1) && JointBalance(a1, b1, l1, a2, b2, l2)
    ensures JointBalance(a, b, l, a2, b2, l2)
  {
  }

  /** The per-cell relation after one more pixel. */
  lemma {:induction false} CopiedStep(cells: seq<Entry>, dcells: seq<Entry>, cells0: seq<Entry>, dcells0: seq<Entry>,
                   list: seq<nat>, n: nat)
    requires n < |list| && list[n] < |cells| == |dcells| == |cells0| == |dcells0|
    requires forall i :: 0 <= i < |cells| ==> CopiedCell(cells[i], dcells[i], cells0[i], dcells0[i], i in list[..n])
    requires cells[list[n]].refcnt != 0 && dcells[list[n]].refcnt >= 0 && cells[list[n]].refcnt >= AllocPrivate
    requires cells0[list[n]].refcnt == AllocPrivate ==> list[n] !in list[..n]
    ensures var v := list[n];
            var cells', dcells' := cells[v := Released(cells[v])], dcells[v := CopyCell(cells[v], dcells[v])];
            forall i :: 0 <= i < |cells| ==> CopiedCell(cells'[i], dcells'[i], cells0[i], dcells0[i], i in list[..n + 1])
  {
    var v := list[n];
    var cells', dcells' := cells[v := Released(cells[v])], dcells[v := CopyCell(cells[v], dcells[v])];
    assert list[..n + 1] == list[..n] + [v];
    forall i | 0 <= i < |cells|
      ensures CopiedCell(cells'[i], dcells'[i], cells0[i], dcells0[i], i in list[..n + 1])
    {
      assert CopiedCell(cells[i], dcells[i], cells0[i], dcells0[i], i in list[..n]);
    }
  }

  lemma {:induction false} FreshAccounts(cells: seq<Entry>, none: seq<seq<nat>>, everything: seq<nat>, base: seq<nat>,
                      allocAll: bool, owner: nat)
    requires owner < |none| && forall c :: 0 <= c < |none| ==> none[c] == []
    requires |everything| == |cells| && forall i :: 0 <= i < |cells| ==> everything[i] == i
    requires |base| == |cells| && forall i :: 0 <= i < |cells| ==> base[i] == 0
    requires forall i :: 0 <= i < |cells|
               ==> cells[i] == if allocAll then EmptyCell.(refcnt := AllocPrivate) else EmptyCell
    ensures allocAll ==> Accounts(cells, 0, none[owner := everything], base)
    ensures !allocAll ==> Accounts(cells, |cells|, none, base)
  {
    var lists := none[owner := everything];
    forall v: nat
      ensures Holdings(none, v) == 0
    {
      HoldingsEmpty(none, v);
    }
    forall v: nat
      ensures Holdings(lists, v) == if v < |cells| then 1 else 0
    {
      HoldingsUpdate(none, owner, everything, v);
      DistinctMultiset(everything, v);
      assert v < |cells| ==> everything[v] == v;
    }
    if allocAll {
      CountFreeNone(cells);
    } else {
      CountFreeAll(cells);
    }
  }

  /** A map of two cells, the first of which holds a colour. */
  method MapWithColor(rgb: Rgb) returns (cmap: Colormap)
    ensures fresh(cmap) && fresh(cmap.red) && cmap.Valid() && !cmap.beingCreated && |cmap.clientPixels| == 1
    ensures cmap.red.Length == 2 && cmap.Matches(cmap.red[0], rgb) && cmap.red[0].refcnt == 1
    ensures cmap.red[1] == EmptyCell && cmap.freeRed == 1
  {
    hide Accounts, Backed, KeepsBalance, Pow2;
    var heap := new SharedHeap();
    cmap := new Colormap(1, 1, heap, false, 0);
    TwoCells();
    cmap.FinishCreation();
    ghost var cells := cmap.red[..];
    assert cells[0] == cells[1] == EmptyCell && cmap.red[0].refcnt == 0;
    var status, pixel := cmap.FindColor(rgb, 0, 0, false);
    FirstCell(cmap, cells, rgb, pixel);
  }

  lemma {:induction false} TwoCells()
    ensures Pow2(1) == 2
  {
    assert Pow2(0) == 1;
  }

  lemma {:induction false} FirstCell(cmap: Colormap, cells: seq<Entry>, rgb: Rgb, pixel: nat)
    requires |cells| == cmap.red.Length == 2 && !cmap.beingCreated && cmap.FirstChoice(cells, 0, rgb, pixel)
    requires (cells[0].refcnt == 0 || cmap.Matches(cells[0], rgb)) && !cmap.Matches(cells[1], rgb)
    ensures pixel == 0
  {
    assert cmap.At(0, 0) == 0;
  }

  /** A colour allocated once, then again without memory: two free cells are counted where there is one. */
  method FindColorMiscounts() returns (cmap: Colormap)
    ensures fresh(cmap) && !cmap.Valid() && cmap.red.Length == 2
    ensures cmap.freeRed == 2 && cmap.red[0].refcnt == 1 && cmap.red[1].refcnt == 0
  {
    hide Accounts, Backed, KeepsBalance, Pow2;
    var white := Rgb(65535, 65535, 65535);
    cmap := MapWithColor(white);
    var cells := cmap.red[..];
    assert cells[0] == cmap.red[0] && cells[1] == EmptyCell;
    var status, pixel := cmap.FindColor(white, 0, 0, true);
    assert cells[pixel].refcnt >= 0;
    assert cmap.red[0] == cells[0] && cmap.red[1].refcnt == 0;
  }
}
