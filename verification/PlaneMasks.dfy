/**
 Which plane masks the cell allocator tries (dix/colormap.c, AllocCP), and which cosets of a mask are free.
 */
module PlaneMasks {
  import opened Bits
  import opened Cells

  /** `planes` consecutive ones starting at bit `shift`. */
  function ContigMask(planes: nat, shift: nat): nat {
    if shift == 0 then Pow2(planes) - 1 else 2 * ContigMask(planes, shift - 1)
  }

  ghost predicate IsContig(mask: nat, planes: nat) {
    exists shift: nat :: mask == ContigMask(planes, shift)
  }

  /** The smallest and the largest mask of the non-contiguous search. */
  function FirstMask(planes: nat): nat
    requires planes >= 1
  {
    3 * Pow2(planes - 1) - 1
  }

  function FinalMask(planes: nat, depth: nat): nat
    requires 1 <= planes < depth
  {
    var high: nat := Pow2(planes - 1) - 1;
    high * Pow2(depth - planes + 1) + Pow2(depth - planes - 1)
  }

  // ---- The shape of contiguous masks

  lemma {:induction false} OnesAll(n: nat)
    ensures Ones(Pow2(n) - 1) == n
  {
    if n > 0 {
      OnesAll(n - 1);
      assert (Pow2(n) - 1) / 2 == Pow2(n - 1) - 1;
    }
  }

  lemma {:induction false} SubAll(s: nat, n: nat)
    requires s < Pow2(n)
    ensures Sub(s, Pow2(n) - 1)
  {
    if s != 0 {
      assert n > 0;
      SubAll(s / 2, n - 1);
      assert (Pow2(n) - 1) / 2 == Pow2(n - 1) - 1;
    }
  }

  lemma {:induction false} ContigShape(planes: nat, shift: nat)
    requires planes >= 1
    ensures ContigMask(planes, shift) == (Pow2(planes) - 1) * Pow2(shift)
    ensures ContigMask(planes, shift) == Pow2(planes + shift) - Pow2(shift)
    ensures Ones(ContigMask(planes, shift)) == planes
    ensures LowBit(ContigMask(planes, shift)) == Pow2(shift)
  {
    hide Ones, LowBit, ContigMask, Pow2;
    ContigValue(planes, shift);
    ContigBits(planes, shift);
  }

  lemma {:induction false} ContigValue(planes: nat, shift: nat)
    ensures ContigMask(planes, shift) == (Pow2(planes) - 1) * Pow2(shift)
    ensures ContigMask(planes, shift) == Pow2(planes + shift) - Pow2(shift)
  {
    if shift > 0 {
      ContigValue(planes, shift - 1);
      DoubleProduct(Pow2(planes) - 1, Pow2(shift - 1));
      assert Pow2(planes + shift) == 2 * Pow2(planes + (shift - 1));
    }
  }

  lemma {:induction false} DoubleProduct(x: int, y: int)
    ensures 2 * (x * y) == x * (2 * y)
  {
  }

  lemma {:induction false} ContigBits(planes: nat, shift: nat)
    requires planes >= 1
    ensures Ones(ContigMask(planes, shift)) == planes
    ensures LowBit(ContigMask(planes, shift)) == Pow2(shift)
  {
    if shift == 0 {
      OnesAll(planes);
    } else {
      ContigBits(planes, shift - 1);
      Doubled(ContigMask(planes, shift - 1));
    }
  }

  lemma {:induction false} Doubled(x: nat)
    ensures Ones(2 * x) == Ones(x) && LowBit(2 * x) == 2 * LowBit(x)
  {
  }

  lemma {:induction false} ContigDeposit(k: nat, planes: nat, shift: nat)
    requires k < Pow2(planes) && planes >= 1
    ensures Deposit(k, ContigMask(planes, shift)) == k * Pow2(shift)
  {
    hide Deposit, Rank, Sub;
    if shift == 0 {
      SubAll(k, planes);
      RankAll(k, planes);
      RankDeposit(k, Pow2(planes) - 1);
    } else {
      ContigDeposit(k, planes, shift - 1);
      DepositDoubled(k, ContigMask(planes, shift - 1));
      DoubleProduct(k, Pow2(shift - 1));
    }
  }

  lemma {:induction false} DepositDoubled(k: nat, m: nat)
    ensures Deposit(k, 2 * m) == 2 * Deposit(k, m)
  {
    if m == 0 {
      assert Deposit(k, 0) == 0;
    }
  }

  lemma {:induction false} RankAll(s: nat, n: nat)
    requires s < Pow2(n)
    ensures Rank(s, Pow2(n) - 1) == s
  {
    if n > 0 {
      RankAll(s / 2, n - 1);
      assert (Pow2(n) - 1) / 2 == Pow2(n - 1) - 1;
    }
  }

  // ---- The mask range of the non-contiguous search is exact

  lemma {:induction false} FewestBits(m: nat, p: nat)
    requires Ones(m) >= p
    ensures m >= Pow2(p) - 1
  {
    if p > 0 && m != 0 {
      if m % 2 == 1 {
        FewestBits(m / 2, p - 1);
      } else {
        FewestBits(m / 2, p);
      }
    }
  }

  lemma {:induction false} MostBits(m: nat, p: nat, n: nat)
    requires Ones(m) <= p <= n && m < Pow2(n)
    ensures m <= Pow2(n) - Pow2(n - p)
  {
    if p == n || m == 0 {
      Pow2Mono(n - p, n);
    } else if m % 2 == 1 {
      MostBits(m / 2, p - 1, n - 1);
      assert n - 1 - (p - 1) == n - p;
    } else {
      MostBits(m / 2, p, n - 1);
      assert Pow2(n - p) == 2 * Pow2(n - 1 - p);
    }
  }

  /** Below FirstMask the only mask of weight `p` is the lowest contiguous one. */
  lemma {:induction false} BelowFirst(m: nat, p: nat)
    requires p >= 1 && Ones(m) == p && m < FirstMask(p)
    ensures m == ContigMask(p, 0)
  {
    if m % 2 == 0 {
      assert Pow2(p) == 2 * Pow2(p - 1);
      FewestBits(m / 2, p);
    } else if p == 1 {
      FewestZero(m / 2);
    } else {
      assert Pow2(p - 1) == 2 * Pow2(p - 2);
      BelowFirst(m / 2, p - 1);
    }
  }

  lemma {:induction false} FewestZero(m: nat)
    requires Ones(m) == 0
    ensures m == 0
  {
    if m != 0 {
      FewestZero(m / 2);
    }
  }

  lemma {:induction false} FinalMaskShape(p: nat, n: nat)
    requires 1 <= p < n
    ensures FinalMask(p, n) == Pow2(n) - Pow2(n - p + 1) + Pow2(n - p - 1)
    ensures FinalMask(p, n) < Pow2(n)
  {
    Pow2Add(p - 1, n - p + 1);
    assert Pow2(n - p + 1) == 2 * Pow2(n - p) == 4 * Pow2(n - p - 1);
    assert (Pow2(p - 1) - 1) * Pow2(n - p + 1) == Pow2(p - 1) * Pow2(n - p + 1) - Pow2(n - p + 1);
    assert p - 1 + (n - p + 1) == n;
  }

  lemma {:induction false} AboveSecond(m: nat, p: nat, n: nat)
    requires 1 <= p < n && Ones(m) == p
    requires Pow2(n) - Pow2(n - p + 1) + Pow2(n - p - 1) < m < Pow2(n)
    ensures m == Pow2(n) - Pow2(n - p)
    decreases n
  {
    if n == p + 1 {
      assert Pow2(0) == 1 && Pow2(1) == 2 && Pow2(2) == 4;
      OnesAll(n);
    } else {
      var k := n - 1;
      assert Pow2(n) == 2 * Pow2(k);
      assert Pow2(n - p + 1) == 2 * Pow2(k - p + 1);
      assert Pow2(n - p - 1) == 2 * Pow2(k - p - 1);
      assert Pow2(n - p) == 2 * Pow2(k - p);
      if m % 2 == 1 {
        assert k - (p - 1) == k - p + 1;
        MostBits(m / 2, p - 1, k);
      } else {
        AboveSecond(m / 2, p, k);
      }
    }
  }

  /** Above FinalMask the only mask of weight `p` within `n` bits is the highest contiguous one. */
  lemma {:induction false} AboveFinal(m: nat, p: nat, n: nat)
    requires 1 <= p < n && Ones(m) == p && FinalMask(p, n) < m < Pow2(n)
    ensures m == ContigMask(p, n - p)
  {
    FinalMaskShape(p, n);
    AboveSecond(m, p, n);
    ContigShape(p, n - p);
    assert p + (n - p) == n;
  }

  /** Every mask of weight `planes` is contiguous or inside the searched range. */
  lemma {:induction false} MaskRange(m: nat, planes: nat, depth: nat)
    requires 1 <= planes < depth && Ones(m) == planes && m < Pow2(depth)
    ensures (exists shift: nat :: shift <= depth - planes && m == ContigMask(planes, shift))
         || FirstMask(planes) <= m <= FinalMask(planes, depth)
  {
    if m < FirstMask(planes) {
      BelowFirst(m, planes);
    } else if m > FinalMask(planes, depth) {
      AboveFinal(m, planes, depth);
    }
  }

  /** A contiguous mask inside `depth` bits is shifted by at most depth - planes. */
  lemma {:induction false} ContigFits(planes: nat, shift: nat, depth: nat)
    requires planes >= 1
    ensures ContigMask(planes, shift) < Pow2(depth) <==> planes + shift <= depth
  {
    hide ContigMask, Ones, LowBit;
    ContigShape(planes, shift);
    if planes + shift <= depth {
      Pow2Mono(planes + shift, depth);
    } else {
      Pow2Mono(depth, planes + shift - 1);
      Pow2Mono(shift, planes + shift - 1);
      assert Pow2(planes + shift) == 2 * Pow2(planes + shift - 1);
    }
  }

  // ---- Stepping over the cosets of a contiguous mask

  lemma {:induction false} AndLowZero(x: nat, n: nat)
    requires And(x, Pow2(n) - 1) == 0
    ensures And(x + Pow2(n), Pow2(n) - 1) == 0
  {
    if n > 0 {
      assert (Pow2(n) - 1) / 2 == Pow2(n - 1) - 1;
      assert (x + Pow2(n)) / 2 == x / 2 + Pow2(n - 1);
      AndLowZero(x / 2, n - 1);
    }
  }

  /** `pixel = save + 1; if (pixel & mask) pixel += mask;` */
  function NextCoset(save: nat, mask: nat): nat {
    if And(save + 1, mask) == 0 then save + 1 else save + 1 + mask
  }

  ghost predicate StepsTo(save: nat, mask: nat, next: nat) {
    && save < next
    && And(next, mask) == 0
    && forall p: nat :: save < p < next ==> And(p, mask) != 0
  }

  /** The step goes to the next number that avoids the mask, skipping none. */
  lemma {:induction false} NextCosetExact(save: nat, planes: nat, shift: nat)
    requires planes >= 1 && And(save, ContigMask(planes, shift)) == 0
    ensures StepsTo(save, ContigMask(planes, shift), NextCoset(save, ContigMask(planes, shift)))
  {
    if shift == 0 {
      LowCosetStep(save, planes);
    } else {
      var half := ContigMask(planes, shift - 1);
      AndEven(save, half);
      NextCosetExact(save / 2, planes, shift - 1);
      LiftStep(save, half);
    }
  }

  lemma {:induction false} LowCosetStep(save: nat, planes: nat)
    requires planes >= 1 && And(save, Pow2(planes) - 1) == 0
    ensures StepsTo(save, Pow2(planes) - 1, NextCoset(save, Pow2(planes) - 1))
  {
    var mask := Pow2(planes) - 1;
    forall p: nat | save < p < save + Pow2(planes)
      ensures And(p, mask) != 0
    {
      SubAll(p - save, planes);
      DisjointSum(save, p - save, mask);
    }
    assert And(save + 1, mask) != 0;
    AndLowZero(save, planes);
  }

  lemma {:induction false} LiftStep(save: nat, half: nat)
    requires StepsTo(save / 2, half, NextCoset(save / 2, half)) && And(save / 2, half) == 0
    ensures StepsTo(save, 2 * half, NextCoset(save, 2 * half))
  {
    AndEven(save + 1, half);
    if save % 2 == 1 {
      var next := NextCoset(save / 2, half);
      AndEven(2 * next, half);
      forall p: nat | save < p < 2 * next
        ensures And(p, 2 * half) != 0
      {
        AndEven(p, half);
        assert save / 2 < p / 2 < next;
      }
    }
  }

  lemma {:induction false} AndEven(x: nat, m: nat)
    ensures And(x, 2 * m) == 2 * And(x / 2, m)
  {
  }

  // ---- Free cosets

  /** All cells of the coset `p + submasks of mask` are inside the map and unallocated. */
  ghost predicate CosetFree(cells: seq<Entry>, p: nat, mask: nat) {
    && p + mask < |cells|
    && forall s: nat :: Sub(s, mask) ==> p + s < |cells| && cells[p + s].refcnt == 0
  }

  /** The representatives below `limit` of the wholly free cosets of `mask`, in increasing order. */
  ghost function Bases(cells: seq<Entry>, mask: nat, limit: nat): seq<nat> {
    if limit == 0 then [] else
      var below := Bases(cells, mask, limit - 1);
      if And(limit - 1, mask) == 0 && CosetFree(cells, limit - 1, mask) then below + [limit - 1] else below
  }

  lemma {:induction false} BasesExact(cells: seq<Entry>, mask: nat, limit: nat)
    ensures forall p: nat :: p in Bases(cells, mask, limit)
              <==> p < limit && And(p, mask) == 0 && CosetFree(cells, p, mask)
    ensures var b := Bases(cells, mask, limit); forall i, j :: 0 <= i < j < |b| ==> b[i] < b[j]
  {
    hide And, CosetFree;
    if limit > 0 {
      BasesExact(cells, mask, limit - 1);
      var b, c := Bases(cells, mask, limit - 1), Bases(cells, mask, limit);
      forall p: nat
        ensures p in c <==> p < limit && And(p, mask) == 0 && CosetFree(cells, p, mask)
      {
        BasesMember(cells, mask, limit, p);
      }
      forall i, j | 0 <= i < j < |c|
        ensures c[i] < c[j]
      {
        hide And, CosetFree;
        assert c[i] == b[i] && b[i] in b;
      }
    }
  }

  lemma {:induction false} BasesMember(cells: seq<Entry>, mask: nat, limit: nat, p: nat)
    requires limit > 0
    ensures p in Bases(cells, mask, limit) <==>
              || p in Bases(cells, mask, limit - 1)
              || (p == limit - 1 && And(p, mask) == 0 && CosetFree(cells, p, mask))
  {
    hide And, CosetFree;
  }

  lemma {:induction false} BasesSkip(cells: seq<Entry>, mask: nat, from: nat, to: nat)
    requires from <= to
    requires forall p: nat :: from <= p < to ==> And(p, mask) != 0 || !CosetFree(cells, p, mask)
    ensures Bases(cells, mask, to) == Bases(cells, mask, from)
  {
    if from < to {
      BasesSkip(cells, mask, from, to - 1);
    }
  }

  lemma {:induction false} BasesPrefix(cells: seq<Entry>, mask: nat, from: nat, to: nat)
    requires from <= to
    ensures |Bases(cells, mask, from)| <= |Bases(cells, mask, to)|
    ensures Bases(cells, mask, to)[..|Bases(cells, mask, from)|] == Bases(cells, mask, from)
  {
    if from < to {
      BasesPrefix(cells, mask, from, to - 1);
    }
  }
}
