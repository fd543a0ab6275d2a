/**
 AllocCP (dix/colormap.c): find `count` wholly free cosets of some plane mask and claim all their cells.
 */
module CellAllocator {
  import opened Bits
  import opened Submasks
  import opened Cells
  import opened PlaneMasks

  // ---- The pixels of a coset

  /** `b` combined with each submask of `mask`, in increasing order. */
  function CosetPixels(b: nat, mask: nat): seq<nat> {
    seq(Pow2(Ones(mask)), (k: nat) => b + Deposit(k, mask))
  }

  /** What the allocation loops append after the bases: the rest of each coset, last base first. */
  function CosetTails(bases: seq<nat>, mask: nat): seq<nat> {
    if |bases| == 0 then []
    else CosetPixels(bases[|bases| - 1], mask)[1..] + CosetTails(bases[..|bases| - 1], mask)
  }

  function AllPixels(bases: seq<nat>, mask: nat): seq<nat> {
    bases + CosetTails(bases, mask)
  }

  /** Coset representatives: increasing, and free of mask bits. */
  predicate Reps(bases: seq<nat>, mask: nat) {
    && (forall i :: 0 <= i < |bases| ==> And(bases[i], mask) == 0)
    && (forall i, j :: 0 <= i < j < |bases| ==> bases[i] < bases[j])
  }

  /** A pixel splits into its coset's representative and a submask, in one way only. */
  lemma {:induction false} CosetSplit(i: nat, b: nat, mask: nat, k: nat)
    requires And(b, mask) == 0 && k < Pow2(Ones(mask))
    ensures i == b + Deposit(k, mask) <==> AndNot(i, mask) == b && Rank(And(i, mask), mask) == k
  {
    DepositSub(k, mask);
    AndSplit(i, mask);
    AndSub(i, mask);
    if i == b + Deposit(k, mask) {
      DisjointSum(b, Deposit(k, mask), mask);
      DepositRank(k, mask);
    } else if AndNot(i, mask) == b && Rank(And(i, mask), mask) == k {
      RankDeposit(And(i, mask), mask);
    }
  }

  lemma {:induction false} CosetMember(i: nat, b: nat, mask: nat)
    requires And(b, mask) == 0
    ensures i in CosetPixels(b, mask) <==> AndNot(i, mask) == b
  {
    var pixels := CosetPixels(b, mask);
    if AndNot(i, mask) == b {
      AndSub(i, mask);
      RankDeposit(And(i, mask), mask);
      var k := Rank(And(i, mask), mask);
      CosetSplit(i, b, mask, k);
      assert pixels[k] == i;
    }
    if i in pixels {
      var k: nat :| k < |pixels| && pixels[k] == i;
      CosetSplit(i, b, mask, k);
    }
  }

  lemma {:induction false} TailPixels(b: nat, mask: nat)
    requires And(b, mask) == 0
    ensures Distinct(CosetPixels(b, mask)[1..])
    ensures forall i: nat :: i in CosetPixels(b, mask)[1..] <==> AndNot(i, mask) == b && i != b
  {
    var pixels := CosetPixels(b, mask);
    DepositZero(mask);
    assert pixels[0] == b;
    forall j, k | 0 <= j < k < |pixels|
      ensures pixels[j] < pixels[k]
    {
      DepositMono(j, k, mask);
    }
    forall i: nat
      ensures i in pixels[1..] <==> AndNot(i, mask) == b && i != b
    {
      CosetMember(i, b, mask);
      if i in pixels && i != b {
        var k :| 0 <= k < |pixels| && pixels[k] == i;
        assert pixels[1..][k - 1] == i;
      }
    }
  }

  lemma {:induction false} TailsExact(bases: seq<nat>, mask: nat)
    requires Reps(bases, mask)
    ensures Distinct(CosetTails(bases, mask))
    ensures forall i: nat :: i in CosetTails(bases, mask) <==> AndNot(i, mask) in bases && AndNot(i, mask) != i
  {
    if |bases| != 0 {
      var n := |bases| - 1;
      var b, rest := bases[n], bases[..n];
      TailsExact(rest, mask);
      TailPixels(b, mask);
      assert bases == rest + [b];
      assert b !in rest;
      DistinctConcat(CosetPixels(b, mask)[1..], CosetTails(rest, mask));
    }
  }

  lemma {:induction false} DistinctConcat(a: seq<nat>, b: seq<nat>)
    requires Distinct(a) && Distinct(b) && forall x :: x in a ==> x !in b
    ensures Distinct(a + b)
  {
    forall i, j | 0 <= i < j < |a + b|
      ensures (a + b)[i] != (a + b)[j]
    {
      if i < |a| <= j {
        assert a[i] in a && b[j - |a|] in b;
      }
    }
  }

  lemma {:induction false} TailsLength(bases: seq<nat>, mask: nat)
    ensures |bases| + |CosetTails(bases, mask)| == |bases| * Pow2(Ones(mask))
  {
    hide Pow2, Ones, Deposit;
    if |bases| != 0 {
      var n := |bases| - 1;
      TailsLength(bases[..n], mask);
      var x := Pow2(Ones(mask));
      assert |CosetPixels(bases[n], mask)[1..]| == x - 1;
      TimesNext(n, x);
    }
  }

  lemma {:induction false} TimesNext(n: nat, x: nat)
    ensures (n + 1) * x == n * x + x
  {
  }

  /** The returned pixels are exactly the `count << planes` cells of the chosen cosets, without repetition. */
  lemma {:induction false} AllPixelsExact(bases: seq<nat>, mask: nat)
    requires Reps(bases, mask)
    ensures Distinct(AllPixels(bases, mask))
    ensures forall i: nat :: i in AllPixels(bases, mask) <==> AndNot(i, mask) in bases
    ensures |AllPixels(bases, mask)| == |bases| * Pow2(Ones(mask))
  {
    TailsExact(bases, mask);
    TailsLength(bases, mask);
    forall i: nat
      ensures i in bases <==> AndNot(i, mask) in bases && AndNot(i, mask) == i
    {
      AndSplit(i, mask);
    }
    DistinctConcat(bases, CosetTails(bases, mask));
  }

  // ---- Searching one mask

  lemma {:induction false} CosetFreeByRank(cells: seq<Entry>, p: nat, mask: nat)
    requires p + mask < |cells|
    requires forall k: nat :: k < Pow2(Ones(mask)) ==> CosetCellFree(cells, p, mask, k)
    ensures CosetFree(cells, p, mask)
  {
    forall s: nat | Sub(s, mask)
      ensures p + s < |cells| && cells[p + s].refcnt == 0
    {
      SubBound(s, mask);
      RankDeposit(s, mask);
      assert CosetCellFree(cells, p, mask, Rank(s, mask));
    }
  }

  ghost predicate CosetCellFree(cells: seq<Entry>, p: nat, mask: nat, k: nat) {
    p + Deposit(k, mask) < |cells| && cells[p + Deposit(k, mask)].refcnt == 0
  }

  lemma {:induction false} CosetNotFree(cells: seq<Entry>, p: nat, mask: nat, k: nat)
    requires !CosetCellFree(cells, p, mask, k)
    ensures !CosetFree(cells, p, mask)
  {
    DepositSub(k, mask);
  }

  lemma {:induction false} ContigNext(k: nat, planes: nat, shift: nat)
    requires planes >= 1 && k + 1 < Pow2(planes)
    ensures Deposit(k + 1, ContigMask(planes, shift)) == Deposit(k, ContigMask(planes, shift)) + Pow2(shift)
  {
    ContigDeposit(k, planes, shift);
    ContigDeposit(k + 1, planes, shift);
    assert (k + 1) * Pow2(shift) == k * Pow2(shift) + Pow2(shift);
  }

  /** The run check of the contiguous search: cells save, save + base, ..., save + mask are all free. */
  method RunFree(red: array<Entry>, save: nat, planes: nat, mask: nat, base: nat, ghost shift: nat)
    returns (free: bool)
    requires planes >= 1 && mask == ContigMask(planes, shift) && base == Pow2(shift) && save + mask < red.Length
    ensures free <==> CosetFree(red[..], save, mask)
  {
    ghost var cells, n := red[..], Pow2(planes);
    ContigShape(planes, shift);
    DepositZero(mask);
    DepositLast(mask);
    var pixel, maxp := save, save + mask + base;
    ghost var k := 0;
    while pixel != maxp && red[pixel].refcnt == 0
      invariant 0 <= k <= n
      invariant k < n ==> pixel == save + Deposit(k, mask) && Sub(Deposit(k, mask), mask) && pixel <= save + mask
      invariant k == n ==> pixel == maxp
      invariant forall j: nat :: j < k ==> CosetCellFree(cells, save, mask, j)
      decreases n - k
    {
      assert CosetCellFree(cells, save, mask, k);
      if k + 1 < n {
        ContigNext(k, planes, shift);
        DepositSub(k + 1, mask);
        SubBound(Deposit(k + 1, mask), mask);
      }
      pixel := pixel + base;
      k := k + 1;
    }
    free := pixel == maxp;
    if free {
      CosetFreeByRank(cells, save, mask);
    } else {
      CosetNotFree(cells, save, mask, k);
    }
  }

  /** Moving on to the next coset skips no representative. */
  lemma {:induction false} NextBases(cells: seq<Entry>, save: nat, planes: nat, shift: nat)
    requires planes >= 1 && And(save, ContigMask(planes, shift)) == 0
    ensures var mask := ContigMask(planes, shift);
            var next := NextCoset(save, mask);
            && next > save && And(next, mask) == 0
            && Bases(cells, mask, next) == Bases(cells, mask, save + 1)
  {
    var mask := ContigMask(planes, shift);
    NextCosetExact(save, planes, shift);
    BasesSkip(cells, mask, save + 1, NextCoset(save, mask));
  }

  /** Representatives at or above `ColormapEntries - mask` do not exist. */
  lemma {:induction false} BasesPast(cells: seq<Entry>, mask: nat, from: nat)
    requires mask < |cells| && from + mask >= |cells|
    ensures |Bases(cells, mask, |cells|)| <= |Bases(cells, mask, from)|
  {
    if from <= |cells| {
      BasesSkip(cells, mask, from, |cells|);
    } else {
      BasesPrefix(cells, mask, |cells|, from);
    }
  }

  /** One mask of the contiguous search: collect the first `count` free cosets, if there are that many. */
  method ContigBases(red: array<Entry>, count: nat, planes: nat, mask: nat, base: nat, ghost shift: nat)
    returns (found: bool, bases: seq<nat>)
    requires count >= 1 && planes >= 1 && mask < red.Length
    requires mask == ContigMask(planes, shift) && base == Pow2(shift)
    ensures found ==> |bases| == count && bases <= Bases(red[..], mask, red.Length)
    ensures !found ==> |Bases(red[..], mask, red.Length)| < count
  {
    ghost var cells := red[..];
    var entries := red.Length - mask;
    var pixel := 0;
    bases := [];
    while pixel < entries
      invariant And(pixel, mask) == 0
      invariant bases == Bases(cells, mask, pixel) && |bases| < count
      decreases entries - pixel
    {
      var save := pixel;
      var free := RunFree(red, save, planes, mask, base, shift);
      if free {
        bases := bases + [save];
        if |bases| == count {
          assert bases == Bases(cells, mask, save + 1);
          BasesPrefix(cells, mask, save + 1, red.Length);
          return true, bases;
        }
      }
      assert bases == Bases(cells, mask, save + 1);
      NextBases(cells, save, planes, shift);
      pixel := save + 1;
      if And(pixel, mask) != 0 {
        pixel := pixel + mask;
      }
    }
    BasesPast(cells, mask, pixel);
    return false, bases;
  }

  /** The coset check of the general search. */
  method CosetCheck(red: array<Entry>, pixel: nat, mask: nat, base: nat) returns (free: bool)
    requires pixel + mask < red.Length && base == LowBit(mask)
    ensures free <==> CosetFree(red[..], pixel, mask)
  {
    hide And, AndNot, LowBit, CosetFree, Sub, Ones, Pow2, Deposit;
    ghost var cells, n := red[..], Pow2(Ones(mask));
    DepositZero(mask);
    DepositLast(mask);
    var maxp := 0;
    ghost var k := 0;
    while red[pixel + maxp].refcnt == 0
      invariant 0 <= k < n && maxp == Deposit(k, mask) && maxp <= mask
      invariant forall j: nat :: j < k ==> CosetCellFree(cells, pixel, mask, j)
      decreases n - k
    {
      if maxp == mask {
        break;
      }
      assert CosetCellFree(cells, pixel, mask, k);
      maxp := NextBits(maxp, mask, base, k);
      k := k + 1;
    }
    free := !(maxp < mask || red[pixel + mask].refcnt != 0);
    if k < n - 1 {
      DepositMono(k, n - 1, mask);
    }
    if free {
      assert CosetCellFree(cells, pixel, mask, n - 1);
      CosetFreeByRank(cells, pixel, mask);
    } else {
      CosetNotFree(cells, pixel, mask, k);
    }
  }

  /** One mask of the general search. */
  method MaskBases(red: array<Entry>, count: nat, mask: nat) returns (found: bool, bases: seq<nat>)
    requires count >= 1 && mask < red.Length
    ensures found ==> |bases| == count && bases <= Bases(red[..], mask, red.Length)
    ensures !found ==> |Bases(red[..], mask, red.Length)| < count
  {
    ghost var cells := red[..];
    var entries := red.Length - mask;
    var base := LowBit(mask);
    bases := [];
    for pixel := 0 to entries
      invariant bases == Bases(cells, mask, pixel) && |bases| < count
    {
      if And(pixel, mask) == 0 {
        var free := CosetCheck(red, pixel, mask, base);
        if free {
          bases := bases + [pixel];
          assert bases == Bases(cells, mask, pixel + 1);
          if |bases| == count {
            BasesPrefix(cells, mask, pixel + 1, red.Length);
            return true, bases;
          }
        }
      }
    }
    BasesPast(cells, mask, entries);
    return false, bases;
  }

  // ---- Claiming the cells

  /** `i` is one of the first `k` pixels of the coset of `b`. */
  predicate InRun(i: nat, b: nat, mask: nat, k: nat) {
    AndNot(i, mask) == b && Rank(And(i, mask), mask) < k
  }

  lemma {:induction false} RunStep(i: nat, b: nat, mask: nat, k: nat)
    requires And(b, mask) == 0 && k < Pow2(Ones(mask))
    ensures InRun(i, b, mask, k + 1) <==> InRun(i, b, mask, k) || i == b + Deposit(k, mask)
  {
    CosetSplit(i, b, mask, k);
  }

  lemma {:induction false} RunFull(i: nat, b: nat, mask: nat)
    ensures InRun(i, b, mask, Pow2(Ones(mask))) <==> AndNot(i, mask) == b
  {
    AndSub(i, mask);
    RankDeposit(And(i, mask), mask);
  }

  /** Claim one coset of a contiguous mask, stepping by `base`. */
  method ClaimRun(red: array<Entry>, b: nat, planes: nat, mask: nat, base: nat, ghost shift: nat)
    returns (rest: seq<nat>)
    requires planes >= 1 && mask == ContigMask(planes, shift) && base == Pow2(shift)
    requires b + mask < red.Length && And(b, mask) == 0
    modifies red
    ensures rest == CosetPixels(b, mask)[1..]
    ensures CosetsTaken(old(red[..]), red[..], [b], mask)
  {
    hide And, AndNot, Ones, Rank;
    ghost var n := Pow2(Ones(mask));
    ContigShape(planes, shift);
    DepositZero(mask);
    DepositLast(mask);
    var pixel, maxp := b, b + mask;
    rest := [];
    ghost var k := 0;
    while true
      invariant 0 <= k < n && pixel == b + Deposit(k, mask) && pixel <= maxp
      invariant rest == CosetPixels(b, mask)[1..k + 1]
      invariant forall i: nat :: i < red.Length
                  ==> red[i] == CellAfter(old(red[i]), InRun(i, b, mask, k))
      decreases n - k
    {
      forall i: nat
        ensures InRun(i, b, mask, k + 1) <==> InRun(i, b, mask, k) || i == pixel
      {
        RunStep(i, b, mask, k);
      }
      red[pixel] := red[pixel].(refcnt := AllocPrivate, fShared := false);
      if pixel == maxp {
        break;
      }
      ContigNext(k, planes, shift);
      DepositSub(k + 1, mask);
      SubBound(Deposit(k + 1, mask), mask);
      pixel := pixel + base;
      k := k + 1;
      rest := rest + [pixel];
    }
    if k < n - 1 {
      DepositMono(k, n - 1, mask);
    }
    forall i: nat
      ensures InRun(i, b, mask, n) <==> AndNot(i, mask) == b
    {
      RunFull(i, b, mask);
    }
  }

  /** Claim one coset of any mask, counting through its submasks. */
  method ClaimCoset(red: array<Entry>, b: nat, mask: nat, base: nat) returns (rest: seq<nat>)
    requires base == LowBit(mask) && b + mask < red.Length && And(b, mask) == 0
    modifies red
    ensures rest == CosetPixels(b, mask)[1..]
    ensures CosetsTaken(old(red[..]), red[..], [b], mask)
  {
    ghost var n := Pow2(Ones(mask));
    DepositZero(mask);
    DepositLast(mask);
    var maxp := 0;
    rest := [];
    ghost var k := 0;
    while true
      invariant 0 <= k < n && maxp == Deposit(k, mask) && maxp <= mask
      invariant rest == CosetPixels(b, mask)[1..k + 1]
      invariant forall i: nat :: i < red.Length
                  ==> red[i] == CellAfter(old(red[i]), InRun(i, b, mask, k))
      decreases n - k
    {
      forall i: nat
        ensures InRun(i, b, mask, k + 1) <==> InRun(i, b, mask, k) || i == b + maxp
      {
        RunStep(i, b, mask, k);
      }
      red[b + maxp] := red[b + maxp].(refcnt := AllocPrivate, fShared := false);
      if maxp == mask {
        break;
      }
      maxp := NextBits(maxp, mask, base, k);
      k := k + 1;
      rest := rest + [b + maxp];
    }
    if k < n - 1 {
      DepositMono(k, n - 1, mask);
    }
    forall i: nat
      ensures InRun(i, b, mask, n) <==> AndNot(i, mask) == b
    {
      RunFull(i, b, mask);
    }
  }

  /** `after` is `before` with exactly the cosets of `bases` claimed. */
  ghost predicate CosetsTaken(before: seq<Entry>, after: seq<Entry>, bases: seq<nat>, mask: nat) {
    && |after| == |before|
    && forall i: nat :: i < |before| ==> after[i] == CellAfter(before[i], AndNot(i, mask) in bases)
  }

  function CellAfter(e: Entry, taken: bool): Entry {
    if taken then Claimed(e) else e
  }

  lemma {:induction false} TakeOneMore(before: seq<Entry>, middle: seq<Entry>, after: seq<Entry>, b: nat, bases: seq<nat>, mask: nat)
    requires CosetsTaken(before, middle, bases, mask) && CosetsTaken(middle, after, [b], mask)
    ensures CosetsTaken(before, after, [b] + bases, mask)
  {
    forall i: nat | i < |before|
      ensures after[i] == CellAfter(before[i], AndNot(i, mask) in [b] + bases)
    {
      assert middle[i] == CellAfter(before[i], AndNot(i, mask) in bases);
    }
  }

  lemma {:induction false} NoneTaken(cells: seq<Entry>, mask: nat)
    ensures CosetsTaken(cells, cells, [], mask)
  {
  }

  lemma {:induction false} TailsUnroll(bases: seq<nat>, mask: nat, count: nat)
    requires count < |bases|
    ensures CosetTails(bases[..count + 1], mask)
         == CosetPixels(bases[count], mask)[1..] + CosetTails(bases[..count], mask)
  {
    var init := bases[..count + 1];
    assert init[..count] == bases[..count] && init[count] == bases[count];
  }

  /** Claim the cosets of all bases, the last base first, and list their pixels. */
  method ClaimAll(red: array<Entry>, bases: seq<nat>, planes: nat, mask: nat, base: nat,
                  contig: bool, ghost shift: nat)
    returns (pixels: seq<nat>)
    requires base == LowBit(mask) && Reps(bases, mask)
    requires contig ==> planes >= 1 && mask == ContigMask(planes, shift) && base == Pow2(shift)
    requires forall i :: 0 <= i < |bases| ==> bases[i] + mask < red.Length
    modifies red
    ensures pixels == AllPixels(bases, mask)
    ensures CosetsTaken(old(red[..]), red[..], bases, mask)
  {
    hide And, AndNot, Ones, Pow2, LowBit, Deposit, CosetsTaken, CosetPixels, ContigMask;
    pixels := bases;
    var count := |bases|;
    assert bases[..count] == bases && bases[count..] == [];
    NoneTaken(red[..], mask);
    hide AllPixels, CosetTails;
    while count > 0
      invariant 0 <= count <= |bases|
      invariant AllPixels(bases, mask) == pixels + CosetTails(bases[..count], mask)
      invariant CosetsTaken(old(red[..]), red[..], bases[count..], mask)
    {
      count := count - 1;
      ghost var middle := red[..];
      var rest;
      if contig {
        rest := ClaimRun(red, bases[count], planes, mask, base, shift);
      } else {
        rest := ClaimCoset(red, bases[count], mask, base);
      }
      TailsUnroll(bases, mask, count);
      TakeOneMore(old(red[..]), middle, red[..], bases[count], bases[count + 1..], mask);
      assert bases[count..] == [bases[count]] + bases[count + 1..];
      pixels := pixels + rest;
    }
    assert bases[0..] == bases;
  }

  // ---- AllocCP

  lemma {:induction false} ClaimOneMore(before: seq<Entry>, after: seq<Entry>, pixels: seq<nat>, p: nat)
    requires ClaimsExactly(before, after, pixels) && p < |before| && p !in pixels && before[p].refcnt == 0
    ensures ClaimsExactly(before, after[p := Claimed(after[p])], pixels + [p])
  {
  }

  /** Extending the scan of single cells by one. */
  lemma {:induction false} SingleBases(cells: seq<Entry>, p: nat)
    requires p < |cells|
    ensures Bases(cells, 0, p + 1) == Bases(cells, 0, p) + if cells[p].refcnt == 0 then [p] else []
  {
    if cells[p].refcnt == 0 {
      forall s: nat | Sub(s, 0)
        ensures s == 0
      {
        SubBound(s, 0);
      }
    } else {
      assert Sub(0, 0) && cells[p + 0].refcnt != 0;
    }
  }

  /** `while (ent->refcnt) ent++;` stops inside the map because a free cell remains. */
  method SkipTaken(red: array<Entry>, from: nat) returns (pixel: nat)
    requires from <= red.Length && CountFree(red[from..]) > 0
    ensures from <= pixel < red.Length && red[pixel].refcnt == 0
    ensures forall i :: from <= i < pixel ==> red[i].refcnt != 0
  {
    pixel := from;
    assert red[from..] == red[..][from..];
    FreeFrom(red[..], pixel);
    while red[pixel].refcnt != 0
      invariant from <= pixel < red.Length && CountFree(red[..][pixel..]) > 0
      invariant forall i :: from <= i < pixel ==> red[i].refcnt != 0
      decreases red.Length - pixel
    {
      FreeFrom(red[..], pixel);
      pixel := pixel + 1;
      FreeFrom(red[..], pixel);
    }
  }

  lemma {:induction false} SinglesSkip(cells: seq<Entry>, from: nat, to: nat)
    requires from <= to < |cells| && cells[to].refcnt == 0
    requires forall i :: from <= i < to ==> cells[i].refcnt != 0
    ensures CountFree(cells[from..]) == CountFree(cells[to + 1..]) + 1
    ensures Bases(cells, 0, to + 1) == Bases(cells, 0, from) + [to]
    decreases |cells| - from
  {
    FreeFrom(cells, from);
    SingleBases(cells, from);
    if from < to {
      SinglesSkip(cells, from + 1, to);
    }
  }

  /** Cells at or beyond the scan position are still as they were. */
  lemma {:induction false} Unscanned(cells: seq<Entry>, after: seq<Entry>, from: nat)
    requires from <= |cells| && ClaimsExactly(cells, after, Bases(cells, 0, from))
    ensures after[from..] == cells[from..]
    ensures forall i: nat :: from <= i ==> i !in Bases(cells, 0, from)
  {
    BasesExact(cells, 0, from);
  }

  /** Take the first `count` unallocated cells. */
  method ClaimSingles(red: array<Entry>, count: nat) returns (pixels: seq<nat>)
    requires count <= CountFree(red[..])
    modifies red
    ensures |pixels| == count && pixels <= Bases(old(red[..]), 0, red.Length)
    ensures ClaimsExactly(old(red[..]), red[..], pixels)
  {
    hide And, CosetFree, CountFree;
    ghost var cells := red[..];
    var pixel := 0;
    pixels := [];
    assert cells[0..] == cells;
    while |pixels| < count
      invariant pixel <= red.Length && |pixels| <= count
      invariant count <= |pixels| + CountFree(cells[pixel..])
      invariant pixels == Bases(cells, 0, pixel)
      invariant ClaimsExactly(cells, red[..], pixels)
      decreases count - |pixels|
    {
      ghost var from := pixel;
      Unscanned(cells, red[..], from);
      assert red[from..] == cells[from..];
      pixel := SkipTaken(red, pixel);
      assert forall i :: from <= i < red.Length ==> red[i] == cells[from..][i - from];
      SinglesSkip(cells, from, pixel);
      ClaimOneMore(cells, red[..], pixels, pixel);
      red[pixel] := red[pixel].(refcnt := AllocPrivate, fShared := false);
      pixels := pixels + [pixel];
      pixel := pixel + 1;
    }
    BasesPrefix(cells, 0, pixel, red.Length);
  }

  /** With an empty mask every coset is a single pixel. */
  lemma {:induction false} NoTails(bases: seq<nat>)
    ensures CosetTails(bases, 0) == []
  {
    if |bases| != 0 {
      NoTails(bases[..|bases| - 1]);
    }
  }

  lemma {:induction false} FreeFrom(cells: seq<Entry>, k: nat)
    requires k <= |cells|
    ensures k == |cells| ==> CountFree(cells[k..]) == 0
    ensures k < |cells| ==>
              CountFree(cells[k..]) == CountFree(cells[k + 1..]) + if cells[k].refcnt == 0 then 1 else 0
  {
    if k < |cells| {
      CountFreeSuffix(cells[k..], 1);
      assert cells[k..][1..] == cells[k + 1..];
      var first := cells[k..][..1];
      assert first == [cells[k]] && first[..0] == [];
    }
  }

  /** A mask of the requested weight inside the map. */
  predicate PlaneMask(mask: nat, planes: nat, nplanes: nat) {
    Ones(mask) == planes && mask < Pow2(nplanes)
  }

  lemma {:induction false} OneBitContig(m: nat, n: nat)
    requires Ones(m) == 1 && m < Pow2(n)
    ensures exists shift: nat :: shift < n && m == ContigMask(1, shift)
  {
    assert n > 0;
    if m % 2 == 1 {
      FewestZero(m / 2);
      assert m == ContigMask(1, 0);
    } else {
      OneBitContig(m / 2, n - 1);
      var shift: nat :| shift < n - 1 && m / 2 == ContigMask(1, shift);
      assert m == ContigMask(1, shift + 1);
    }
  }

  /** With every plane requested, the caller's guard leaves only a wholly free map, which the first try takes. */
  lemma {:induction false} FullMask(cells: seq<Entry>, count: nat, planes: nat)
    requires |cells| == Pow2(planes) && count >= 1 && planes >= 1
    requires count * Pow2(planes) <= CountFree(cells)
    ensures |Bases(cells, ContigMask(planes, 0), |cells|)| >= count
  {
    CountFreeBound(cells);
    OnlyOne(count, Pow2(planes));
    var mask := ContigMask(planes, 0);
    forall s: nat | Sub(s, mask)
      ensures s < |cells|
    {
      SubBound(s, mask);
    }
    BasesExact(cells, mask, |cells|);
    assert 0 in Bases(cells, mask, |cells|);
  }

  lemma {:induction false} OnlyOne(count: nat, n: nat)
    requires count >= 1 && n >= 1 && count * n <= n
    ensures count == 1
  {
    assert (count - 1) * n <= 0;
  }

  /** Prefixes of Bases are representatives of wholly free cosets. */
  lemma {:induction false} BasesReps(cells: seq<Entry>, mask: nat, bases: seq<nat>)
    requires bases <= Bases(cells, mask, |cells|)
    ensures Reps(bases, mask)
    ensures forall b :: b in bases ==> b + mask < |cells| && CosetFree(cells, b, mask)
  {
    BasesExact(cells, mask, |cells|);
    var all := Bases(cells, mask, |cells|);
    forall i | 0 <= i < |bases|
      ensures And(bases[i], mask) == 0 && bases[i] + mask < |cells| && CosetFree(cells, bases[i], mask)
    {
      assert bases[i] == all[i] && all[i] in all;
    }
  }

  /** Claiming the cosets of free bases claims exactly the listed, previously free pixels. */
  lemma {:induction false} CosetsClaimed(before: seq<Entry>, after: seq<Entry>, bases: seq<nat>, mask: nat)
    requires bases <= Bases(before, mask, |before|) && CosetsTaken(before, after, bases, mask)
    ensures ClaimsExactly(before, after, AllPixels(bases, mask))
  {
    BasesReps(before, mask, bases);
    AllPixelsExact(bases, mask);
    var pixels := AllPixels(bases, mask);
    forall p | p in pixels
      ensures p < |before| && before[p].refcnt == 0
    {
      PixelFree(before, p, mask, AndNot(p, mask));
    }
    forall i: nat | i < |before|
      ensures after[i] == if i in pixels then Claimed(before[i]) else before[i]
    {
      assert after[i] == CellAfter(before[i], AndNot(i, mask) in bases);
    }
  }

  lemma {:induction false} PixelFree(cells: seq<Entry>, p: nat, mask: nat, b: nat)
    requires b == AndNot(p, mask) && CosetFree(cells, b, mask)
    ensures p < |cells| && cells[p].refcnt == 0
  {
    AndSplit(p, mask);
    AndSub(p, mask);
    assert Sub(And(p, mask), mask);
  }

  /** `mask` could have been chosen by a request for `planes` planes. */
  ghost predicate Eligible(mask: nat, planes: nat, nplanes: nat, contig: bool) {
    PlaneMask(mask, planes, nplanes) && (contig && planes > 0 ==> IsContig(mask, planes))
  }

  /** No eligible mask has `count` wholly free cosets. */
  ghost predicate Hopeless(cells: seq<Entry>, count: nat, planes: nat, nplanes: nat, contig: bool) {
    forall m: nat :: Eligible(m, planes, nplanes, contig) ==> |Bases(cells, m, |cells|)| < count
  }

  /** The pixels of a successful allocation: the first `count` free bases of `mask`, then the rest of their cosets. */
  ghost predicate Allocation(cells: seq<Entry>, pixels: seq<nat>, mask: nat, count: nat) {
    && Distinct(pixels)
    && |pixels| == count * Pow2(Ones(mask))
    && count <= |pixels|
    && pixels[..count] <= Bases(cells, mask, |cells|)
    && pixels == AllPixels(pixels[..count], mask)
  }

  /** Claim what a search found. */
  method TakeBases(red: array<Entry>, bases: seq<nat>, planes: nat, mask: nat, base: nat,
                   contig: bool, ghost shift: nat)
    returns (pixels: seq<nat>)
    requires bases <= Bases(red[..], mask, red.Length) && base == LowBit(mask)
    requires contig ==> planes >= 1 && mask == ContigMask(planes, shift) && base == Pow2(shift)
    modifies red
    ensures Allocation(old(red[..]), pixels, mask, |bases|)
    ensures ClaimsExactly(old(red[..]), red[..], pixels)
  {
    BasesReps(red[..], mask, bases);
    assert forall i :: 0 <= i < |bases| ==> bases[i] in bases;
    pixels := ClaimAll(red, bases, planes, mask, base, contig, shift);
    CosetsClaimed(old(red[..]), red[..], bases, mask);
    AllPixelsExact(bases, mask);
    assert pixels[..|bases|] == bases;
  }

  /** The contiguous search over all shifts. */
  method ContigSearch(red: array<Entry>, nplanes: nat, count: nat, planes: nat)
    returns (found: bool, bases: seq<nat>, mask: nat, base: nat, ghost shift: nat)
    requires red.Length == Pow2(nplanes) && count >= 1 && 1 <= planes <= nplanes
    ensures found ==> |bases| == count && bases <= Bases(red[..], mask, red.Length)
    ensures found ==> planes + shift <= nplanes && mask == ContigMask(planes, shift) && base == Pow2(shift)
    ensures forall j: nat :: j < (if found then shift else nplanes - planes + 1)
              ==> |Bases(red[..], ContigMask(planes, j), red.Length)| < count
  {
    base := 1;
    mask := Pow2(planes) - 1;
    bases := [];
    var tries := nplanes - (planes - 1);
    shift := 0;
    while tries > 0
      invariant shift + tries == nplanes - planes + 1 && tries >= 0
      invariant mask == ContigMask(planes, shift) && base == Pow2(shift)
      invariant forall j: nat :: j < shift ==> |Bases(red[..], ContigMask(planes, j), red.Length)| < count
    {
      ContigFits(planes, shift, nplanes);
      found, bases := ContigBases(red, count, planes, mask, base, shift);
      if found {
        return;
      }
      mask := mask + mask;
      base := base + base;
      shift := shift + 1;
      tries := tries - 1;
    }
    found := false;
  }

  /** The search over all other masks of the right weight. */
  method GeneralSearch(red: array<Entry>, nplanes: nat, count: nat, planes: nat)
    returns (found: bool, bases: seq<nat>, mask: nat)
    requires red.Length == Pow2(nplanes) && nplanes <= 31 && count >= 1 && 1 <= planes < nplanes
    ensures found ==> |bases| == count && bases <= Bases(red[..], mask, red.Length)
    ensures found ==> PlaneMask(mask, planes, nplanes)
    ensures var end := if found then mask else FinalMask(planes, nplanes) + 1;
            forall m: nat :: FirstMask(planes) <= m < end && Ones(m) == planes ==> |Bases(red[..], m, red.Length)| < count
  {
    var finalmask := FinalMask(planes, nplanes);
    FinalMaskShape(planes, nplanes);
    Pow2Below32(nplanes);
    bases := [];
    mask := FirstMask(planes);
    while mask <= finalmask
      invariant forall m: nat :: FirstMask(planes) <= m < mask && Ones(m) == planes
                  ==> |Bases(red[..], m, red.Length)| < count
      decreases finalmask + 1 - mask
    {
      if HakmemOnes(mask) == planes {
        found, bases := MaskBases(red, count, mask);
        if found {
          return;
        }
      }
      mask := mask + 1;
    }
    found := false;
  }

  /** `m` is tried before `mask`: contiguous masks come first, then the others, the smaller ones first each time. */
  ghost predicate TriedBefore(m: nat, mask: nat, planes: nat) {
    if IsContig(mask, planes) then IsContig(m, planes) && m < mask else IsContig(m, planes) || m < mask
  }

  /** No mask tried before has enough free cosets. */
  ghost predicate Preferred(cells: seq<Entry>, count: nat, mask: nat, planes: nat, nplanes: nat) {
    forall m: nat :: PlaneMask(m, planes, nplanes) && TriedBefore(m, mask, planes) ==> |Bases(cells, m, |cells|)| < count
  }

  lemma {:induction false} ContigMono(planes: nat, i: nat, j: nat)
    requires i <= j
    ensures ContigMask(planes, i) <= ContigMask(planes, j)
  {
    if i < j {
      ContigMono(planes, i, j - 1);
    }
  }

  lemma {:induction false} PreferContig(cells: seq<Entry>, count: nat, planes: nat, nplanes: nat, shift: nat)
    requires forall j: nat :: j < shift ==> |Bases(cells, ContigMask(planes, j), |cells|)| < count
    ensures Preferred(cells, count, ContigMask(planes, shift), planes, nplanes)
  {
    hide Bases, ContigMask, PlaneMask;
    var mask := ContigMask(planes, shift);
    forall m: nat | PlaneMask(m, planes, nplanes) && TriedBefore(m, mask, planes)
      ensures |Bases(cells, m, |cells|)| < count
    {
      assert IsContig(mask, planes);
      var j: nat :| m == ContigMask(planes, j);
      if j >= shift {
        ContigMono(planes, shift, j);
      }
    }
  }

  lemma {:induction false} PreferGeneral(cells: seq<Entry>, count: nat, planes: nat, nplanes: nat, mask: nat)
    requires 1 <= planes < nplanes
    requires forall j: nat :: j <= nplanes - planes ==> |Bases(cells, ContigMask(planes, j), |cells|)| < count
    requires forall m: nat :: FirstMask(planes) <= m < mask && Ones(m) == planes ==> |Bases(cells, m, |cells|)| < count
    requires |Bases(cells, mask, |cells|)| >= count && PlaneMask(mask, planes, nplanes)
    ensures Preferred(cells, count, mask, planes, nplanes)
  {
    hide Bases, ContigMask, Ones;
    forall m: nat | PlaneMask(m, planes, nplanes) && TriedBefore(m, mask, planes)
      ensures |Bases(cells, m, |cells|)| < count
    {
      MaskRange(m, planes, nplanes);
      if j: nat :| m == ContigMask(planes, j) {
        ContigFits(planes, j, nplanes);
      } else if j: nat :| mask == ContigMask(planes, j) {
        ContigFits(planes, j, nplanes);
      }
    }
  }

  /**
   Allocate `count << planes` cells. On success they are the cells of the first `count` free cosets of an eligible
   mask, the first such mask in the order of the search, they were all free and are the only cells changed; on failure nothing changed and no eligible mask has
   `count` free cosets.
   */
  method AllocCP(red: array<Entry>, nplanes: nat, count: nat, planes: nat, contig: bool)
    returns (ok: bool, pixels: seq<nat>, mask: nat)
    requires red.Length == Pow2(nplanes) && nplanes <= 31 && count >= 1
    requires planes <= nplanes ==> count * Pow2(planes) <= CountFree(red[..])
    modifies red
    ensures ok ==> Eligible(mask, planes, nplanes, contig)
    ensures ok && planes > 0 ==> Preferred(old(red[..]), count, mask, planes, nplanes)
    ensures ok ==> Allocation(old(red[..]), pixels, mask, count)
    ensures ok ==> ClaimsExactly(old(red[..]), red[..], pixels)
    ensures ok ==> forall p :: p in pixels ==> red[p].refcnt == -1 && !red[p].fShared
    ensures !ok ==> red[..] == old(red[..])
    ensures !ok ==> Hopeless(red[..], count, planes, nplanes, contig)
  {
    hide Preferred, Bases, LowBit, Deposit;
    ghost var cells := red[..];
    if planes == 0 {
      assert Pow2(0) == 1;
      pixels := ClaimSingles(red, count);
      BasesReps(cells, 0, pixels);
      NoTails(pixels);
      assert pixels[..count] == pixels;
      return true, pixels, 0;
    } else if planes > nplanes {
      TooManyPlanes(cells, count, planes, nplanes, contig);
      return false, [], 0;
    }
    var found, bases, base;
    ghost var shift;
    found, bases, mask, base, shift := ContigSearch(red, nplanes, count, planes);
    if found {
      ContigShape(planes, shift);
      ContigFits(planes, shift, nplanes);
      PreferContig(cells, count, planes, nplanes, shift);
      pixels := TakeBases(red, bases, planes, mask, base, true, shift);
      return true, pixels, mask;
    }
    if planes == nplanes {
      FullMask(cells, count, planes);
    }
    if contig || planes == 1 || nplanes < 3 {
      ContigComplete(cells, count, planes, nplanes, contig);
      return false, [], 0;
    }
    found, bases, mask := GeneralSearch(red, nplanes, count, planes);
    if found {
      PreferGeneral(cells, count, planes, nplanes, mask);
      pixels := TakeBases(red, bases, planes, mask, LowBit(mask), false, 0);
      return true, pixels, mask;
    }
    SearchComplete(cells, count, planes, nplanes);
    return false, [], 0;
  }

  lemma {:induction false} TooManyPlanes(cells: seq<Entry>, count: nat, planes: nat, nplanes: nat, contig: bool)
    requires planes > nplanes
    ensures Hopeless(cells, count, planes, nplanes, contig)
  {
    forall m: nat
      ensures !PlaneMask(m, planes, nplanes)
    {
      if m < Pow2(nplanes) {
        OnesBound(m, nplanes);
      }
    }
  }

  lemma {:induction false} Pow2Below32(n: nat)
    requires n <= 31
    ensures Pow2(n) < 0x1_0000_0000
  {
    Pow2Mono(n, 31);
    HakmemConstants();
    assert Pow2(32) == 2 * Pow2(31);
  }

  lemma {:induction false} ContigComplete(cells: seq<Entry>, count: nat, planes: nat, nplanes: nat, contig: bool)
    requires 1 <= planes < nplanes && (contig || planes == 1)
    requires forall j: nat :: j <= nplanes - planes ==> |Bases(cells, ContigMask(planes, j), |cells|)| < count
    ensures Hopeless(cells, count, planes, nplanes, contig)
  {
    forall m: nat | Eligible(m, planes, nplanes, contig)
      ensures |Bases(cells, m, |cells|)| < count
    {
      if planes == 1 {
        OneBitContig(m, nplanes);
        var shift: nat :| shift < nplanes && m == ContigMask(1, shift);
      } else {
        var shift: nat :| m == ContigMask(planes, shift);
        ContigFits(planes, shift, nplanes);
      }
    }
  }

  lemma {:induction false} SearchComplete(cells: seq<Entry>, count: nat, planes: nat, nplanes: nat)
    requires 1 <= planes < nplanes
    requires forall j: nat :: j <= nplanes - planes ==> |Bases(cells, ContigMask(planes, j), |cells|)| < count
    requires forall m: nat :: FirstMask(planes) <= m <= FinalMask(planes, nplanes) && Ones(m) == planes
               ==> |Bases(cells, m, |cells|)| < count
    ensures Hopeless(cells, count, planes, nplanes, false)
  {
    forall m: nat | Eligible(m, planes, nplanes, false)
      ensures |Bases(cells, m, |cells|)| < count
    {
      MaskRange(m, planes, nplanes);
    }
  }
}
