/**
 Natural numbers read as bit sets, low bit first.

 The server's `Pixel` and `Mask` words are unsigned; every value the models below build stays under the
 width they declare, so unbounded naturals represent them without wrap-around.
 */
module Bits {

  function Pow2(n: nat): (r: nat)
    ensures r > 0
  {
    if n == 0 then 1 else 2 * Pow2(n - 1)
  }

  /** `x & y` */
  function And(x: nat, y: nat): nat {
    if x == 0 || y == 0 then 0 else 2 * And(x / 2, y / 2) + (if x % 2 == 1 && y % 2 == 1 then 1 else 0)
  }

  /** `x & ~m` */
  function AndNot(x: nat, m: nat): nat {
    if x == 0 then 0 else 2 * AndNot(x / 2, m / 2) + (if x % 2 == 1 && m % 2 == 0 then 1 else 0)
  }

  /** `x | y` */
  function Or(x: nat, y: nat): nat {
    if x == 0 then y else 2 * Or(x / 2, y / 2) + (if x % 2 == 1 || y % 2 == 1 then 1 else 0)
  }

  /** `x & (~x + 1)`, as os/osdep.h defines lowbit */
  function LowBit(x: nat): nat {
    if x == 0 then 0 else if x % 2 == 1 then 1 else 2 * LowBit(x / 2)
  }

  /** The number of one bits. */
  function Ones(x: nat): nat {
    if x == 0 then 0 else x % 2 + Ones(x / 2)
  }

  /** Every bit of `s` is a bit of `m`. */
  predicate Sub(s: nat, m: nat) {
    s == 0 || (s % 2 <= m % 2 && Sub(s / 2, m / 2))
  }

  /**
   The k-th submask of `m` in increasing order: the bits of `k` dealt out to the bit positions of `m`.
   */
  function Deposit(k: nat, m: nat): nat {
    if m == 0 then 0
    else if m % 2 == 1 then 2 * Deposit(k / 2, m / 2) + k % 2
    else 2 * Deposit(k, m / 2)
  }

  /** The position of `s` among the submasks of `m`. */
  function Rank(s: nat, m: nat): nat {
    if m == 0 then 0
    else if m % 2 == 1 then 2 * Rank(s / 2, m / 2) + s % 2
    else Rank(s / 2, m / 2)
  }

  predicate Bit(mask: nat, s: nat) {
    if s == 0 then mask % 2 == 1 else Bit(mask / 2, s - 1)
  }

  // ---- Powers of two

  lemma {:induction false} Pow2Add(a: nat, b: nat)
    ensures Pow2(a + b) == Pow2(a) * Pow2(b)
  {
    if a == 0 {
    } else {
      Pow2Add(a - 1, b);
      assert Pow2(a + b) == 2 * Pow2(a - 1 + b);
    }
  }

  lemma {:induction false} Pow2Mono(a: nat, b: nat)
    requires a <= b
    ensures Pow2(a) <= Pow2(b)
    ensures a < b ==> 2 * Pow2(a) <= Pow2(b)
  {
    if a == b {
    } else {
      Pow2Mono(a, b - 1);
    }
  }

  lemma {:induction false} Pow2Grows(n: nat)
    ensures n < Pow2(n)
  {
    if n > 0 {
      Pow2Grows(n - 1);
    }
  }

  // ---- And, AndNot, Or and Sub

  lemma {:induction false} AndSplit(x: nat, m: nat)
    ensures And(x, m) + AndNot(x, m) == x
  {
    if x == 0 {
    } else if m == 0 {
      AndSplit(x / 2, 0);
    } else {
      AndSplit(x / 2, m / 2);
    }
  }

  lemma {:induction false} SubIff(x: nat, m: nat)
    ensures Sub(x, m) <==> AndNot(x, m) == 0
  {
    if x != 0 {
      SubIff(x / 2, m / 2);
    }
  }

  lemma {:induction false} SubBound(s: nat, m: nat)
    requires Sub(s, m)
    ensures s <= m
  {
    if s != 0 {
      SubBound(s / 2, m / 2);
    }
  }

  lemma {:induction false} SubRefl(m: nat)
    ensures Sub(m, m)
  {
    if m != 0 {
      SubRefl(m / 2);
    }
  }

  lemma {:induction false} AndNotSub(x: nat, m: nat)
    ensures Sub(AndNot(x, m), x)
    ensures And(AndNot(x, m), m) == 0
  {
    if x != 0 {
      AndNotSub(x / 2, m / 2);
    }
  }

  lemma {:induction false} AndSub(x: nat, m: nat)
    ensures Sub(And(x, m), m) && Sub(And(x, m), x)
  {
    if x != 0 && m != 0 {
      AndSub(x / 2, m / 2);
    }
  }

  lemma {:induction false} AndComm(x: nat, y: nat)
    ensures And(x, y) == And(y, x)
  {
    if x != 0 && y != 0 {
      AndComm(x / 2, y / 2);
    }
  }

  /** Bits outside `m` plus bits of `m` do not carry: the two parts can be read back. */
  lemma {:induction false} DisjointSum(p: nat, s: nat, m: nat)
    requires And(p, m) == 0 && Sub(s, m)
    ensures And(p + s, m) == s && AndNot(p + s, m) == p
    ensures Or(p, s) == p + s
  {
    hide And, AndNot, Or;
    AndNotHalves(p + s, m);
    AndNotHalves(p, m);
    AndHalf(p + s, m);
    AndHalf(p, m);
    OrHalf(p, s);
    if p == 0 {
      SubAnd(s, m);
      AndSplit(s, m);
      OrWithZero(s);
    } else if s == 0 {
      AndSplit(p, m);
      OrWithZero(p);
    } else {
      DisjointSum(p / 2, s / 2, m / 2);
      assert (p + s) / 2 == p / 2 + s / 2;
      assert (p + s) % 2 == p % 2 + s % 2;
    }
  }

  lemma {:induction false} AndHalf(x: nat, m: nat)
    ensures And(x, m) / 2 == And(x / 2, m / 2)
    ensures And(x, m) % 2 == if x % 2 == 1 && m % 2 == 1 then 1 else 0
  {
  }

  lemma {:induction false} OrHalf(x: nat, y: nat)
    ensures Or(x, y) / 2 == Or(x / 2, y / 2)
    ensures Or(x, y) % 2 == if x % 2 == 1 || y % 2 == 1 then 1 else 0
  {
  }

  lemma {:induction false} OrWithZero(x: nat)
    ensures Or(0, x) == x && Or(x, 0) == x
  {
    OrZero(x);
  }

  lemma {:induction false} OrZero(x: nat)
    ensures Or(x, 0) == x
  {
    if x != 0 {
      OrZero(x / 2);
    }
  }

  lemma {:induction false} SubAnd(s: nat, m: nat)
    requires Sub(s, m)
    ensures And(s, m) == s
  {
    if s != 0 {
      SubBound(s, m);
      SubAnd(s / 2, m / 2);
    }
  }

  lemma {:induction false} AndSmaller(p: nat, s: nat, m: nat)
    requires And(p, m) == 0 && Sub(s, m)
    ensures And(p, s) == 0
  {
    if p != 0 && s != 0 {
      SubBound(s, m);
      AndSmaller(p / 2, s / 2, m / 2);
    }
  }

  // ---- LowBit

  lemma {:induction false} LowBitBound(x: nat)
    ensures LowBit(x) <= x
    ensures x > 0 ==> LowBit(x) > 0
  {
    if x != 0 && x % 2 == 0 {
      LowBitBound(x / 2);
    }
  }

  // ---- Submasks in increasing order

  lemma {:induction false} DepositSub(k: nat, m: nat)
    ensures Sub(Deposit(k, m), m)
  {
    hide Sub;
    if m == 0 {
      SubStep(0, 0, 0, 0);
    } else if m % 2 == 1 {
      DepositSub(k / 2, m / 2);
      SubStep(Deposit(k / 2, m / 2), m / 2, k % 2, 1);
    } else {
      DepositSub(k, m / 2);
      SubStep(Deposit(k, m / 2), m / 2, 0, 0);
    }
  }

  lemma {:induction false} SubStep(s: nat, m: nat, d: nat, e: nat)
    requires (s == 0 || Sub(s, m)) && d <= e < 2
    ensures Sub(2 * s + d, 2 * m + e)
  {
    assert (2 * s + d) / 2 == s && (2 * m + e) / 2 == m;
  }

  lemma {:induction false} DepositZero(m: nat)
    ensures Deposit(0, m) == 0
  {
    if m != 0 {
      DepositZero(m / 2);
    }
  }

  lemma {:induction false} DepositLast(m: nat)
    ensures Deposit(Pow2(Ones(m)) - 1, m) == m
  {
    if m == 0 {
    } else if m % 2 == 1 {
      DepositLast(m / 2);
      assert Pow2(Ones(m)) == 2 * Pow2(Ones(m / 2));
      assert (Pow2(Ones(m)) - 1) / 2 == Pow2(Ones(m / 2)) - 1;
    } else {
      DepositLast(m / 2);
    }
  }

  lemma {:induction false} DepositMono(j: nat, k: nat, m: nat)
    requires j < k < Pow2(Ones(m))
    ensures Deposit(j, m) < Deposit(k, m)
  {
    if m == 0 {
    } else if m % 2 == 1 {
      assert Pow2(Ones(m)) == 2 * Pow2(Ones(m / 2));
      if j / 2 < k / 2 {
        DepositMono(j / 2, k / 2, m / 2);
      }
    } else {
      DepositMono(j, k, m / 2);
    }
  }

  /** Rank inverts Deposit, so the 2^Ones(m) deposits are exactly the submasks. */
  lemma {:induction false} RankDeposit(s: nat, m: nat)
    requires Sub(s, m)
    ensures Rank(s, m) < Pow2(Ones(m))
    ensures Deposit(Rank(s, m), m) == s
  {
    if m == 0 {
      SubBound(s, m);
    } else {
      RankDeposit(s / 2, m / 2);
      if m % 2 == 1 {
        var r := Rank(s / 2, m / 2);
        assert Rank(s, m) == 2 * r + s % 2 && Rank(s, m) / 2 == r;
        assert Pow2(Ones(m)) == 2 * Pow2(Ones(m / 2));
      }
    }
  }

  lemma {:induction false} DepositRank(k: nat, m: nat)
    requires k < Pow2(Ones(m))
    ensures Rank(Deposit(k, m), m) == k
  {
    if m == 0 {
    } else if m % 2 == 1 {
      assert Pow2(Ones(m)) == 2 * Pow2(Ones(m / 2));
      DepositRank(k / 2, m / 2);
      assert Deposit(k, m) / 2 == Deposit(k / 2, m / 2);
    } else {
      DepositRank(k, m / 2);
    }
  }

  // ---- Carries: what one `bits += bits & ~mask` does

  /** All bits of `x` above its lowest one lie in `m`. */
  predicate CarryState(x: nat, m: nat) {
    x > 0 && LowBit(x) <= x && Sub(x - LowBit(x), m)
  }

  lemma {:induction false} IncrementCarry(c: nat, m: nat)
    requires Sub(c, m)
    ensures CarryState(c + 1, m)
  {
    LowBitBound(c + 1);
    if c % 2 == 1 {
      IncrementCarry(c / 2, m / 2);
      assert (c + 1) / 2 == c / 2 + 1;
    }
  }

  lemma {:induction false} BaseCarry(b: nat, m: nat)
    requires Sub(b, m) && m != 0
    ensures CarryState(b + LowBit(m), m)
  {
    if m % 2 == 1 {
      IncrementCarry(b, m);
    } else {
      BaseCarry(b / 2, m / 2);
      LiftCarry(b / 2 + LowBit(m / 2), m);
      assert b + LowBit(m) == 2 * (b / 2 + LowBit(m / 2));
    }
  }

  lemma {:induction false} LiftCarry(x: nat, m: nat)
    requires CarryState(x, m / 2)
    ensures CarryState(2 * x, m)
  {
    LowBitBound(2 * x);
    assert (2 * x - LowBit(2 * x)) / 2 == x - LowBit(x);
  }

  lemma {:induction false} StepCarry(x: nat, m: nat)
    requires CarryState(x, m)
    ensures CarryState(x + LowBit(x), m)
  {
    if x % 2 == 1 {
      assert Sub(x / 2, m / 2);
      IncrementCarry(x / 2, m / 2);
      LiftCarry(x / 2 + 1, m);
      assert x + LowBit(x) == 2 * (x / 2 + 1);
    } else {
      LowBitBound(x / 2);
      assert (x - LowBit(x)) / 2 == x / 2 - LowBit(x / 2);
      StepCarry(x / 2, m / 2);
      LiftCarry(x / 2 + LowBit(x / 2), m);
      assert x + LowBit(x) == 2 * (x / 2 + LowBit(x / 2));
    }
  }

  lemma {:induction false} StrayIsLowBit(x: nat, m: nat)
    requires CarryState(x, m) && AndNot(x, m) != 0
    ensures AndNot(x, m) == LowBit(x)
  {
    if x % 2 == 1 {
      SubIff(x / 2, m / 2);
    } else {
      LowBitBound(x / 2);
      assert (x - LowBit(x)) / 2 == x / 2 - LowBit(x / 2);
      StrayIsLowBit(x / 2, m / 2);
    }
  }

  /** No submask lies in [x, x + LowBit(x)) when the low bit of `x` is outside the mask. */
  lemma {:induction false} StepSkips(x: nat, s: nat, m: nat)
    requires CarryState(x, m) && AndNot(x, m) != 0 && Sub(s, m) && x <= s
    ensures x + LowBit(x) <= s
  {
    if x % 2 == 1 {
      SubIff(x / 2, m / 2);
    } else {
      LowBitBound(x / 2);
      assert (x - LowBit(x)) / 2 == x / 2 - LowBit(x / 2);
      StepSkips(x / 2, s / 2, m / 2);
    }
  }

  lemma {:induction false} BaseSkips(b: nat, s: nat, m: nat)
    requires Sub(b, m) && Sub(s, m) && b < s && m != 0
    ensures b + LowBit(m) <= s
  {
    if m % 2 == 0 {
      BaseSkips(b / 2, s / 2, m / 2);
    }
  }

  // ---- Single bits

  lemma {:induction false} BitAnd(mask: nat, s: nat)
    ensures And(mask, Pow2(s)) != 0 <==> Bit(mask, s)
  {
    if s > 0 {
      BitAnd(mask / 2, s - 1);
      if mask == 0 {
        BitZero(s);
      }
    }
  }

  lemma {:induction false} BitZero(s: nat)
    ensures !Bit(0, s)
  {
    if s > 0 {
      BitZero(s - 1);
    }
  }

  lemma {:induction false} BitAndNot(m: nat, d: nat, s: nat)
    ensures Bit(AndNot(m, Pow2(d)), s) <==> Bit(m, s) && s != d
  {
    hide AndNot, Pow2;
    AndNotHalves(m, Pow2(d));
    Pow2Halves(d);
    if d == 0 {
      AndSplit(m / 2, 0);
      AndZero(m / 2);
    } else if s > 0 {
      BitAndNot(m / 2, d - 1, s - 1);
    }
  }

  lemma {:induction false} AndZero(x: nat)
    ensures And(x, 0) == 0
  {
  }

  lemma {:induction false} AndNotHalves(x: nat, m: nat)
    ensures AndNot(x, m) / 2 == AndNot(x / 2, m / 2)
    ensures AndNot(x, m) % 2 == if x % 2 == 1 && m % 2 == 0 then 1 else 0
  {
  }

  lemma {:induction false} Pow2Halves(n: nat)
    ensures n == 0 ==> Pow2(n) / 2 == 0 && Pow2(n) % 2 == 1
    ensures n > 0 ==> Pow2(n) / 2 == Pow2(n - 1) && Pow2(n) % 2 == 0
  {
  }

  lemma {:induction false} BitAllOnes(n: nat, s: nat)
    ensures Bit(Pow2(n) - 1, s) <==> s < n
  {
    if n == 0 {
      BitZero(s);
    } else if s > 0 {
      BitAllOnes(n - 1, s - 1);
      assert (Pow2(n) - 1) / 2 == Pow2(n - 1) - 1;
    }
  }

  // ---- The bits below a position

  /** The bits of `mask` below position `s`. */
  function Low(mask: nat, s: nat): nat {
    if s == 0 then 0 else mask % 2 + 2 * Low(mask / 2, s - 1)
  }

  lemma {:induction false} LowNext(mask: nat, s: nat)
    ensures Low(mask, s + 1) == Low(mask, s) + if Bit(mask, s) then Pow2(s) else 0
    ensures Ones(Low(mask, s + 1)) == Ones(Low(mask, s)) + if Bit(mask, s) then 1 else 0
    ensures Low(mask, s) < Pow2(s)
  {
    if s > 0 {
      LowNext(mask / 2, s - 1);
      assert Low(mask, s) / 2 == Low(mask / 2, s - 1);
      assert Low(mask, s + 1) / 2 == Low(mask / 2, s);
    } else {
      assert Low(mask, 1) == mask % 2;
    }
  }

  lemma {:induction false} LowOfZero(s: nat)
    ensures Low(0, s) == 0
  {
    if s > 0 {
      LowOfZero(s - 1);
    }
  }

  lemma {:induction false} LowWidth(mask: nat, s: nat)
    requires mask < Pow2(s)
    ensures Low(mask, s) == mask
  {
    if s > 0 {
      LowWidth(mask / 2, s - 1);
    }
  }

  /** The position of the lowest one. */
  function LowPos(x: nat): nat
    requires x > 0
  {
    if x % 2 == 1 then 0 else 1 + LowPos(x / 2)
  }

  lemma {:induction false} LowPosExact(x: nat)
    requires x > 0
    ensures LowBit(x) == Pow2(LowPos(x)) && Bit(x, LowPos(x)) && Low(x, LowPos(x)) == 0
    ensures AndNot(x, LowBit(x)) == x - LowBit(x)
  {
    if x % 2 == 0 {
      LowPosExact(x / 2);
    } else {
      assert AndNot(x / 2, 0) == x / 2 by { AndSplit(x / 2, 0); }
    }
  }

  /** The bits of `mask` from position `p` on, seen from position `q`. */
  lemma {:induction false} LowSplit(mask: nat, p: nat, q: nat)
    requires p <= q
    ensures Low(mask, p) <= mask
    ensures Low(mask, q) == Low(mask, p) + Low(mask - Low(mask, p), q)
    ensures Bit(mask, q) <==> Bit(mask - Low(mask, p), q)
  {
    if p > 0 {
      LowSplit(mask / 2, p - 1, q - 1);
      assert (mask - Low(mask, p)) / 2 == mask / 2 - Low(mask / 2, p - 1);
      assert (mask - Low(mask, p)) % 2 == 0;
    }
  }

  /** A number that has no bits below `p` has its lowest one at or above it. */
  lemma {:induction false} LowPosAbove(x: nat, p: nat)
    requires x > 0 && Low(x, p) == 0
    ensures p <= LowPos(x)
  {
    if p > 0 {
      LowPosAbove(x / 2, p - 1);
    }
  }

  lemma {:induction false} LowIsAnd(mask: nat, p: nat)
    ensures And(mask, Pow2(p) - 1) == Low(mask, p)
  {
    if p > 0 {
      LowIsAnd(mask / 2, p - 1);
      assert (Pow2(p) - 1) / 2 == Pow2(p - 1) - 1;
      if mask == 0 {
        LowOfZero(p);
      }
    }
  }

  /** The remainder after taking out the low bits has none of them left. */
  lemma {:induction false} LowOfRest(mask: nat, p: nat)
    ensures Low(mask, p) <= mask && Low(mask - Low(mask, p), p) == 0
  {
    LowSplit(mask, p, p);
  }

  lemma {:induction false} LowIsRemainder(x: nat, n: nat)
    ensures Low(x, n) == x % Pow2(n)
  {
    if n > 0 {
      LowIsRemainder(x / 2, n - 1);
      HalfRemainder(x, Pow2(n - 1));
    }
  }

  lemma {:induction false} HalfRemainder(x: nat, p: nat)
    requires p > 0
    ensures x % (2 * p) == x % 2 + 2 * (x / 2 % p)
  {
    var q, r := x / 2 / p, x / 2 % p;
    TwiceTimes(p, q);
    OneRemainder(x, 2 * p, q, x % 2 + 2 * r);
  }

  lemma {:induction false} TwiceTimes(p: nat, q: nat)
    ensures 2 * p * q == 2 * (q * p)
  {
  }

  lemma {:induction false} OneRemainder(x: nat, d: nat, q: nat, r: nat)
    requires r < d && x == d * q + r
    ensures x % d == r
  {
    var e := x / d - q;
    assert d * (x / d) + x % d == x;
    DistributeTimes(d, x / d, q);
    assert d * e == r - x % d;
    TimesAtLeast(d, e);
  }

  lemma {:induction false} DistributeTimes(d: int, a: int, b: int)
    ensures d * (a - b) == d * a - d * b
  {
  }

  lemma {:induction false} TimesAtLeast(d: int, e: int)
    requires d >= 0
    ensures e >= 1 ==> d * e >= d
    ensures e <= -1 ==> d * e <= -d
    ensures e == 0 ==> d * e == 0
  {
  }
}
