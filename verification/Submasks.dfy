/**
 Counting through the submasks of a plane mask, and counting its ones: the two bit tricks of the colormap
 allocator (dix/colormap.c).
 */
module Submasks {
  import opened Bits

  /**
   One round of GetNextBitsOrBreak: `bits` is the k-th submask of `mask` and is not the last one; the result is
   the (k+1)-th. The inner loop pushes a carry through the holes of the mask.
   */
  method NextBits(bits: nat, mask: nat, base: nat, ghost k: nat) returns (next: nat)
    requires bits == Deposit(k, mask) && k < Pow2(Ones(mask)) && bits != mask && base == LowBit(mask)
    ensures k + 1 < Pow2(Ones(mask))
    ensures next == Deposit(k + 1, mask)
    ensures bits < next <= mask
  {
    hide Deposit, AndNot, Sub, Ones, Pow2, CarryState, LowBit;
    DepositLast(mask);
    DepositSub(k, mask);
    SubBound(bits, mask);
    ghost var target := Deposit(k + 1, mask);
    DepositSub(k + 1, mask);
    DepositMono(k, k + 1, mask);
    LowBitBound(mask);
    BaseCarry(bits, mask);
    BaseSkips(bits, target, mask);
    next := bits + base;
    while AndNot(next, mask) != 0
      invariant bits < next <= target
      invariant CarryState(next, mask)
      decreases target - next
    {
      StepCarry(next, mask);
      StepSkips(next, target, mask);
      StrayIsLowBit(next, mask);
      LowBitBound(next);
      next := next + AndNot(next, mask);
    }
    SubIff(next, mask);
    NoSubmaskBetween(next, k, mask);
    SubBound(target, mask);
  }

  /** A submask that is above the k-th and at most the (k+1)-th is the (k+1)-th. */
  lemma {:induction false} NoSubmaskBetween(s: nat, k: nat, mask: nat)
    requires Sub(s, mask) && k + 1 < Pow2(Ones(mask))
    requires Deposit(k, mask) < s <= Deposit(k + 1, mask)
    ensures s == Deposit(k + 1, mask)
  {
    RankDeposit(s, mask);
    var r := Rank(s, mask);
    if r < k {
      DepositMono(r, k, mask);
    } else if k + 1 < r {
      DepositMono(k + 1, r, mask);
    }
  }

  /** All submasks, in the order the macro produces them. */
  function AllSubmasks(mask: nat): seq<nat> {
    seq(Pow2(Ones(mask)), (k: nat) => Deposit(k, mask))
  }

  /**
   The whole `while (1) { visit(bits); GetNextBitsOrBreak(bits, mask, base); }` idiom: it terminates, and it
   visits every submask once, in increasing order.
   */
  method CountSubmasks(mask: nat) returns (visited: seq<nat>)
    ensures visited == AllSubmasks(mask)
  {
    var bits, base := 0, LowBit(mask);
    ghost var k := 0;
    visited := [];
    DepositZero(mask);
    DepositLast(mask);
    while true
      invariant k < Pow2(Ones(mask)) && bits == Deposit(k, mask)
      invariant visited == seq(k, (i: nat) => Deposit(i, mask))
      decreases Pow2(Ones(mask)) - k
    {
      visited := visited + [bits];
      if bits == mask {
        assert k == Pow2(Ones(mask)) - 1 by {
          if k < Pow2(Ones(mask)) - 1 {
            DepositMono(k, Pow2(Ones(mask)) - 1, mask);
          }
        }
        break;
      }
      bits := NextBits(bits, mask, base, k);
      k := k + 1;
    }
  }

  /** The visited values are the submasks, each exactly once, increasing. */
  lemma {:induction false} SubmasksExact(mask: nat)
    ensures |AllSubmasks(mask)| == Pow2(Ones(mask))
    ensures forall i, j :: 0 <= i < j < |AllSubmasks(mask)| ==> AllSubmasks(mask)[i] < AllSubmasks(mask)[j]
    ensures forall s: nat :: s in AllSubmasks(mask) <==> Sub(s, mask)
  {
    var v := AllSubmasks(mask);
    forall i, j | 0 <= i < j < |v|
      ensures v[i] < v[j]
    {
      DepositMono(i, j, mask);
    }
    forall s: nat
      ensures s in v <==> Sub(s, mask)
    {
      if Sub(s, mask) {
        RankDeposit(s, mask);
        assert v[Rank(s, mask)] == s;
      }
      if s in v {
        var i :| 0 <= i < |v| && v[i] == s;
        DepositSub(i, mask);
      }
    }
  }

  // ---- The population count of HAKMEM item 169

  const THREES: nat := 0xDB6DB6DB  // octal 33333333333
  const SEVENS: nat := 0xC71C71C7  // octal 30707070707

  /** The three "magic statements" that filter masks by weight. */
  function HakmemOnes(mask: nat): (r: nat)
    requires mask < 0x1_0000_0000
    ensures r == Ones(mask)
  {
    hide And, Ones;
    HakmemExact(mask);
    var half := And(mask / 2, THREES);
    var quarter := And(half / 2, THREES);
    var digits := mask - half - quarter;
    And(digits + digits / 8, SEVENS) % 63
  }

  /** The word whose low `n` octal digits are all 3. */
  function Threes(n: nat): nat {
    if n == 0 then 0 else 8 * Threes(n - 1) + 3
  }

  /** `n` octal digit pairs 07 below a leading digit 3. */
  function Sevens(n: nat): nat {
    if n == 0 then 3 else 64 * Sevens(n - 1) + 7
  }

  /** Each octal digit divided by 2, by 4, and replaced by its number of ones. */
  function Halves(x: nat): nat {
    if x == 0 then 0 else 8 * Halves(x / 8) + x % 8 / 2
  }

  function Quarters(x: nat): nat {
    if x == 0 then 0 else 8 * Quarters(x / 8) + x % 8 / 4
  }

  function DigitOnes(x: nat): nat {
    if x == 0 then 0 else 8 * DigitOnes(x / 8) + Ones(x % 8)
  }

  function Both(d: nat, e: nat): nat {
    if d == 1 && e == 1 then 1 else 0
  }

  lemma {:induction false} AndHalves(a: nat, b: nat, d: nat, e: nat)
    requires d < 2 && e < 2
    ensures And(2 * a + d, 2 * b + e) == 2 * And(a, b) + Both(d, e)
  {
    assert (2 * a + d) / 2 == a && (2 * b + e) / 2 == b;
  }

  lemma {:induction false} AndBits(a: nat, b: nat, d2: nat, d1: nat, d0: nat, e2: nat, e1: nat, e0: nat)
    requires d2 < 2 && d1 < 2 && d0 < 2 && e2 < 2 && e1 < 2 && e0 < 2
    ensures And(8 * a + 4 * d2 + 2 * d1 + d0, 8 * b + 4 * e2 + 2 * e1 + e0)
         == 8 * And(a, b) + 4 * Both(d2, e2) + 2 * Both(d1, e1) + Both(d0, e0)
  {
    hide And;
    AndHalves(4 * a + 2 * d2 + d1, 4 * b + 2 * e2 + e1, d0, e0);
    AndHalves(2 * a + d2, 2 * b + e2, d1, e1);
    AndHalves(a, b, d2, e2);
    assert 2 * (4 * a + 2 * d2 + d1) + d0 == 8 * a + 4 * d2 + 2 * d1 + d0;
    assert 2 * (4 * b + 2 * e2 + e1) + e0 == 8 * b + 4 * e2 + 2 * e1 + e0;
    assert 2 * (2 * a + d2) + d1 == 4 * a + 2 * d2 + d1;
    assert 2 * (2 * b + e2) + e1 == 4 * b + 2 * e2 + e1;
  }

  /** The three bits of an octal digit. */
  lemma {:induction false} OctalBits(d: nat) returns (d2: nat, d1: nat, d0: nat)
    requires d < 8
    ensures d2 < 2 && d1 < 2 && d0 < 2 && d == 4 * d2 + 2 * d1 + d0
    ensures d / 2 == 2 * d2 + d1 && d / 4 == d2
  {
    d2 := d / 4;
    d1 := d / 2 - 2 * d2;
    d0 := d - 2 * (d / 2);
  }

  lemma {:induction false} AndOctal(a: nat, b: nat, d: nat, e: nat)
    requires d < 8 && e < 8
    ensures And(8 * a + d, 8 * b + e) == 8 * And(a, b) + And(d, e)
  {
    var d2, d1, d0 := OctalBits(d);
    var e2, e1, e0 := OctalBits(e);
    AndBits(a, b, d2, d1, d0, e2, e1, e0);
    AndBits(0, 0, d2, d1, d0, e2, e1, e0);
  }

  /** Masking one octal digit with 7 keeps it, with 3 drops its top bit, with 0 clears it. */
  lemma {:induction false} AndDigit(d: nat)
    requires d < 8
    ensures And(d, 7) == d && And(d, 0) == 0
    ensures And(d, 3) == if d < 4 then d else d - 4
  {
    var d2, d1, d0 := OctalBits(d);
    AndBits(0, 0, d2, d1, d0, 1, 1, 1);
    AndBits(0, 0, d2, d1, d0, 0, 1, 1);
  }

  lemma {:induction false} OnesHalf(a: nat, d: nat)
    requires d < 2
    ensures Ones(2 * a + d) == Ones(a) + d
  {
    assert (2 * a + d) / 2 == a;
  }

  lemma {:induction false} OnesBits(q: nat, d2: nat, d1: nat, d0: nat)
    requires d2 < 2 && d1 < 2 && d0 < 2
    ensures Ones(8 * q + 4 * d2 + 2 * d1 + d0) == Ones(q) + d2 + d1 + d0
  {
    hide Ones;
    OnesHalf(4 * q + 2 * d2 + d1, d0);
    OnesHalf(2 * q + d2, d1);
    OnesHalf(q, d2);
    assert 2 * (4 * q + 2 * d2 + d1) + d0 == 8 * q + 4 * d2 + 2 * d1 + d0;
    assert 2 * (2 * q + d2) + d1 == 4 * q + 2 * d2 + d1;
  }

  lemma {:induction false} OnesOctal(q: nat, d: nat)
    requires d < 8
    ensures Ones(8 * q + d) == Ones(q) + Ones(d)
    ensures Ones(d) == d - d / 2 - d / 4 && Ones(d) <= 3
    ensures d < 4 ==> Ones(d) <= 2
  {
    var d2, d1, d0 := OctalBits(d);
    OnesBits(q, d2, d1, d0);
    OnesBits(0, d2, d1, d0);
    assert Ones(0) == 0;
  }

  lemma {:induction false} Pow2By3(n: nat)
    ensures Pow2(n + 3) == 8 * Pow2(n)
  {
    assert Pow2(n + 3) == 2 * Pow2(n + 2);
    assert Pow2(n + 2) == 2 * Pow2(n + 1);
  }

  lemma {:induction false} AndNone(x: nat, y: nat)
    requires x == 0 || y == 0
    ensures And(x, y) == 0
  {
  }

  lemma {:induction false} HalvesExact(x: nat, n: nat)
    requires x < Pow2(3 * n)
    ensures And(x / 2, Threes(n)) == Halves(x)
  {
    hide And;
    if n == 0 || x == 0 {
      AndNone(x / 2, Threes(n));
    } else {
      var q, d := x / 8, x % 8;
      Pow2By3(3 * (n - 1));
      HalvesExact(q, n - 1);
      assert x / 2 == 8 * (q / 2) + (4 * (q % 2) + d / 2);
      AndOctal(q / 2, Threes(n - 1), 4 * (q % 2) + d / 2, 3);
      AndDigit(4 * (q % 2) + d / 2);
    }
  }

  lemma {:induction false} QuartersExact(x: nat, n: nat)
    requires x < Pow2(3 * n)
    ensures And(Halves(x) / 2, Threes(n)) == Quarters(x)
  {
    hide And;
    if n == 0 || x == 0 {
      AndNone(Halves(x) / 2, Threes(n));
    } else {
      var q, d := x / 8, x % 8;
      Pow2By3(3 * (n - 1));
      QuartersExact(q, n - 1);
      var h := Halves(q);
      assert Halves(x) / 2 == 8 * (h / 2) + (4 * (h % 2) + d / 4);
      AndOctal(h / 2, Threes(n - 1), 4 * (h % 2) + d / 4, 3);
      AndDigit(4 * (h % 2) + d / 4);
    }
  }

  lemma {:induction false} DigitsAdd(x: nat)
    ensures DigitOnes(x) + Halves(x) + Quarters(x) == x
  {
    if x != 0 {
      DigitsAdd(x / 8);
      OnesOctal(0, x % 8);
    }
  }

  lemma {:induction false} DigitOnesLow(x: nat)
    ensures DigitOnes(x) % 8 <= 3
  {
    hide Ones;
    OnesOctal(0, x % 8);
  }

  /** Adding each digit to its right neighbour, two digits at a time. */
  lemma {:induction false} AddNeighbours(s: nat, o1: nat, o0: nat, rest: nat)
    requires s % 8 <= 3 && o1 <= 3 && o0 <= 3
    ensures var w := 64 * s + 8 * o1 + o0;
            And(w + w / 8, 64 * rest + 7) == 64 * And(s + s / 8, rest) + o0 + o1
  {
    hide And;
    var w := 64 * s + 8 * o1 + o0;
    assert w / 8 == 8 * s + o1;
    var high, low := s + s / 8, s % 8 + o1;
    assert w + w / 8 == 8 * (8 * high + low) + (o0 + o1);
    AndOctal(8 * high + low, 8 * rest, o0 + o1, 7);
    AndOctal(high, rest, low, 0);
    AndDigit(o0 + o1);
    AndDigit(low);
  }

  lemma {:induction false} CastOut63(a: nat, b: nat, c: nat)
    requires a % 63 == b % 63
    ensures (64 * a + c) % 63 == (b + c) % 63
  {
    var i, j := a / 63, b / 63;
    assert 64 * a + c == 63 * (a + i - j) + (b + c);
    AddMultiple(b + c, a + i - j);
  }

  lemma {:induction false} AddMultiple(x: int, k: int)
    ensures (63 * k + x) % 63 == x % 63
  {
  }

  /** The words that have `n` digit pairs below a leading digit of two bits. */
  function PairLimit(n: nat): nat {
    if n == 0 then 4 else 64 * PairLimit(n - 1)
  }

  lemma {:induction false} DigitOnesPair(q: nat, d1: nat, d0: nat)
    requires d1 < 8 && d0 < 8
    ensures DigitOnes(64 * q + 8 * d1 + d0) == 64 * DigitOnes(q) + 8 * Ones(d1) + Ones(d0)
    ensures Ones(64 * q + 8 * d1 + d0) == Ones(q) + Ones(d1) + Ones(d0)
    ensures Ones(d1) <= 3 && Ones(d0) <= 3
  {
    hide Ones;
    var y := 8 * q + d1;
    OnesOctal(y, d0);
    OnesOctal(q, d1);
    assert (8 * y + d0) / 8 == y && y / 8 == q;
    assert 8 * y + d0 == 64 * q + 8 * d1 + d0;
    assert DigitOnes(y) == 8 * DigitOnes(q) + Ones(d1);
  }

  /** Adding neighbouring digits and casting out 63s sums the digits. */
  lemma {:induction false} CastOut(x: nat, n: nat)
    requires x < PairLimit(n)
    ensures And(DigitOnes(x) + DigitOnes(x) / 8, Sevens(n)) % 63 == Ones(x) % 63
  {
    hide And, Ones, DigitOnes;
    if n == 0 {
      CastOutLow(x);
    } else {
      var q, d1, d0 := SplitPair(x);
      CastOut(q, n - 1);
      CastOutPair(q, d1, d0, Sevens(n - 1));
    }
  }

  lemma {:induction false} CastOutLow(x: nat)
    requires x < 4
    ensures And(DigitOnes(x) + DigitOnes(x) / 8, 3) % 63 == Ones(x) % 63
  {
    OnesOctal(0, x);
    AndDigit(Ones(x));
    assert DigitOnes(x) == Ones(x);
  }

  lemma {:induction false} CastOutPair(q: nat, d1: nat, d0: nat, rest: nat)
    requires d1 < 8 && d0 < 8 && And(DigitOnes(q) + DigitOnes(q) / 8, rest) % 63 == Ones(q) % 63
    ensures var x := 64 * q + 8 * d1 + d0;
            And(DigitOnes(x) + DigitOnes(x) / 8, 64 * rest + 7) % 63 == Ones(x) % 63
  {
    hide And, Ones, DigitOnes;
    DigitOnesPair(q, d1, d0);
    DigitOnesLow(q);
    AddNeighbours(DigitOnes(q), Ones(d1), Ones(d0), rest);
    CastOut63(And(DigitOnes(q) + DigitOnes(q) / 8, rest), Ones(q), Ones(d0) + Ones(d1));
  }

  lemma {:induction false} SplitPair(x: nat) returns (q: nat, d1: nat, d0: nat)
    ensures d1 < 8 && d0 < 8 && x == 64 * q + 8 * d1 + d0
  {
    var y := x / 8;
    q, d1, d0 := y / 8, y % 8, x % 8;
  }

  lemma {:induction false} OnesBound(x: nat, n: nat)
    requires x < Pow2(n)
    ensures Ones(x) <= n
  {
    if n != 0 {
      OnesBound(x / 2, n - 1);
    }
  }

  lemma {:induction false} HakmemExact(mask: nat)
    requires mask < 0x1_0000_0000
    ensures var half := And(mask / 2, THREES);
            var quarter := And(half / 2, THREES);
            var digits := mask - half - quarter;
            digits >= 0 && And(digits + digits / 8, SEVENS) % 63 == Ones(mask)
  {
    hide And, Ones;
    HakmemConstants();
    HalvesExact(mask, 11);
    QuartersExact(mask, 11);
    DigitsAdd(mask);
    CastOut(mask, 5);
    OnesBound(mask, 32);
  }

  lemma {:induction false} HakmemConstants()
    ensures Threes(11) == THREES && Sevens(5) == SEVENS
    ensures PairLimit(5) == Pow2(32) == 0x1_0000_0000 && Pow2(33) == 0x2_0000_0000
  {
    assert Pow2(8) == 256;
    Pow2Add(8, 8);
    Pow2Add(16, 16);
    assert PairLimit(3) == 0x10_0000;
    assert Threes(5) == 0x36DB;
    assert Threes(8) == 0x6DB6DB;
    assert Sevens(3) == 0xC71C7;
  }
}
