/**
 What FreeColors asks for and what it leaves (dix/colormap.c, FreeCo), on values.
 */
module Releases {
  import opened Bits
  import opened Submasks
  import opened Cells

  datatype Status = Success | BadValue | BadAccess | BadAlloc

  /** `~((Pixel) 0)`, the mark put on a list entry whose pixel has been released. */
  const Zapped: nat := 0xFFFF_FFFF

  /** The pixels FreeCo looks for: for each submask of the mask, each input pixel with it. */
  function Tests(pixels: seq<nat>, mask: nat, k: nat): seq<nat> {
    if k == 0 then [] else Tests(pixels, mask, k - 1) + WithBits(pixels, Deposit(k - 1, mask))
  }

  function WithBits(pixels: seq<nat>, bits: nat): seq<nat> {
    seq(|pixels|, i requires 0 <= i < |pixels| => Or(pixels[i], bits))
  }

  function AllTests(pixels: seq<nat>, mask: nat): seq<nat> {
    Tests(pixels, mask, Pow2(Ones(mask)))
  }

  function RemoveFirst(list: seq<nat>, v: nat): seq<nat> {
    if |list| == 0 then [] else if list[0] == v then list[1..] else [list[0]] + RemoveFirst(list[1..], v)
  }

  datatype FreeState = FreeState(list: seq<nat>, cells: seq<Entry>, status: Status)

  /** One test of FreeCo. */
  function FreeStep(st: FreeState, t: nat): FreeState {
    if t >= |st.cells| then st.(status := BadValue)
    else if t in st.list then
      FreeState(RemoveFirst(st.list, t), st.cells[t := Released(st.cells[t])], st.status)
    else st.(status := BadAccess)
  }

  function FreeSteps(st: FreeState, tests: seq<nat>): FreeState {
    if |tests| == 0 then st else FreeStep(FreeSteps(st, tests[..|tests| - 1]), tests[|tests| - 1])
  }

  lemma {:induction false} TestsNext(st: FreeState, pixels: seq<nat>, mask: nat, k: nat)
    ensures Tests(pixels, mask, k + 1) == Tests(pixels, mask, k) + WithBits(pixels, Deposit(k, mask))
    ensures FreeSteps(st, Tests(pixels, mask, 0)) == st
  {
  }

  // ---- RemoveFirst takes one occurrence and keeps the order of the rest

  lemma {:induction false} RemoveFirstMultiset(list: seq<nat>, v: nat)
    requires v in list
    ensures multiset(RemoveFirst(list, v)) == multiset(list) - multiset{v}
    ensures |RemoveFirst(list, v)| == |list| - 1
  {
    assert list == [list[0]] + list[1..];
    if list[0] != v {
      RemoveFirstMultiset(list[1..], v);
      assert multiset(RemoveFirst(list, v)) == multiset([list[0]]) + multiset(RemoveFirst(list[1..], v));
    }
  }

  lemma {:induction false} RemoveFirstAt(list: seq<nat>, v: nat, k: nat)
    requires k < |list| && list[k] == v && forall i :: 0 <= i < k ==> list[i] != v
    ensures RemoveFirst(list, v) == list[..k] + list[k + 1..]
  {
    if k > 0 {
      RemoveFirstAt(list[1..], v, k - 1);
    }
  }

  // ---- What a whole call releases

  /** How many of the requested pixels are `v`. */
  function Demand(tests: seq<nat>, v: nat): nat {
    multiset(tests)[v]
  }

  function Left(held: nat, asked: nat): nat {
    if asked <= held then held - asked else 0
  }

  /**
   Each pixel of the map leaves the list as often as it was asked for, or as often as it was there, whichever is
   less; the call succeeds exactly when every request was inside the map and was met.
   */
  lemma {:induction false} FreeStepsExact(st: FreeState, tests: seq<nat>, v: nat)
    ensures var st' := FreeSteps(st, tests);
            && |st'.cells| == |st.cells|
            && multiset(st'.list)[v] == Left(multiset(st.list)[v], if v < |st.cells| then Demand(tests, v) else 0)
  {
    if |tests| != 0 {
      var n := |tests| - 1;
      var t, before := tests[n], FreeSteps(st, tests[..n]);
      FreeStepsExact(st, tests[..n], v);
      assert tests == tests[..n] + [t];
      if t < |st.cells| && t in before.list {
        RemoveFirstMultiset(before.list, t);
      }
    }
  }

  lemma {:induction false} FreeStepsStatus(st: FreeState, tests: seq<nat>)
    requires st.status == Success
    ensures FreeSteps(st, tests).status == Success
       <==> forall v :: v in tests ==> v < |st.cells| && Demand(tests, v) <= multiset(st.list)[v]
  {
    if |tests| != 0 {
      var n := |tests| - 1;
      var t, rest := tests[n], tests[..n];
      var before := FreeSteps(st, rest);
      FreeStepsStatus(st, rest);
      FreeStepsExact(st, rest, t);
      assert tests == rest + [t];
      forall v
        ensures Demand(tests, v) == Demand(rest, v) + if v == t then 1 else 0
      {
      }
      if before.status == Success && t < |st.cells| && t in before.list {
        forall v | v in tests
          ensures v < |st.cells| && Demand(tests, v) <= multiset(st.list)[v]
        {
          if v != t {
            assert v in rest;
          }
        }
      } else if forall v :: v in tests ==> v < |st.cells| && Demand(tests, v) <= multiset(st.list)[v] {
        assert t in tests;
        forall v | v in rest
          ensures v < |st.cells| && Demand(rest, v) <= multiset(st.list)[v]
        {
          assert v in tests;
        }
        assert false;
      }
    }
  }

  /** Request `k` asks for a pixel outside the map, or for one more than the list had left. */
  predicate Fails(list: seq<nat>, size: nat, tests: seq<nat>, k: nat)
    requires k < |tests|
  {
    tests[k] >= size || Demand(tests[..k + 1], tests[k]) > multiset(list)[tests[k]]
  }

  /** Which error a call reports: the last failing request decides. */
  lemma {:induction false} LastFailureDecides(st: FreeState, tests: seq<nat>, k: nat)
    requires st.status == Success && k < |tests| && Fails(st.list, |st.cells|, tests, k)
    requires forall j :: k < j < |tests| ==> !Fails(st.list, |st.cells|, tests, j)
    ensures FreeSteps(st, tests).status == if tests[k] >= |st.cells| then BadValue else BadAccess
  {
    hide Fails, FreeSteps;
    var n := |tests| - 1;
    LastStep(st, tests);
    if k < n {
      forall j | k <= j < n
        ensures Fails(st.list, |st.cells|, tests, j) <==> Fails(st.list, |st.cells|, tests[..n], j)
      {
        SameFailure(st.list, |st.cells|, tests, n, j);
      }
      LastFailureDecides(st, tests[..n], k);
    }
  }

  lemma {:induction false} SameFailure(list: seq<nat>, size: nat, tests: seq<nat>, n: nat, k: nat)
    requires k < n <= |tests|
    ensures Fails(list, size, tests, k) <==> Fails(list, size, tests[..n], k)
  {
    assert tests[..n][..k + 1] == tests[..k + 1];
  }

  lemma {:induction false} LastStep(st: FreeState, tests: seq<nat>)
    requires |tests| > 0
    ensures var n := |tests| - 1;
            FreeSteps(st, tests).status == if !Fails(st.list, |st.cells|, tests, n) then FreeSteps(st, tests[..n]).status
                                           else if tests[n] >= |st.cells| then BadValue else BadAccess
  {
    var n := |tests| - 1;
    var t, rest := tests[n], tests[..n];
    var before := FreeSteps(st, rest);
    FreeStepsExact(st, rest, t);
    assert tests[..n + 1] == rest + [t];
    assert t in before.list <==> multiset(before.list)[t] > 0;
  }

  /** Requests inside the map never report BadValue. */
  lemma {:induction false} InsideNoBadValue(st: FreeState, tests: seq<nat>)
    requires st.status == Success && forall t :: t in tests ==> t < |st.cells|
    ensures |FreeSteps(st, tests).cells| == |st.cells|
    ensures FreeSteps(st, tests).status in {Success, BadAccess}
  {
    if |tests| != 0 {
      var rest, t := tests[..|tests| - 1], tests[|tests| - 1];
      assert tests == rest + [t];
      assert t in tests && forall v :: v in rest ==> v in tests;
      InsideNoBadValue(st, rest);
    }
  }

  /** Requests that are held often enough, or are outside the map, never report BadAccess. */
  lemma {:induction false} HeldNoBadAccess(st: FreeState, tests: seq<nat>)
    requires st.status == Success
    requires forall t :: t in tests && t < |st.cells| ==> Demand(tests, t) <= multiset(st.list)[t]
    ensures FreeSteps(st, tests).status in {Success, BadValue}
  {
    if |tests| != 0 {
      var n := |tests| - 1;
      var t, rest := tests[n], tests[..n];
      assert tests == rest + [t];
      forall v | v in rest && v < |st.cells|
        ensures Demand(rest, v) <= multiset(st.list)[v]
      {
        assert v in tests && Demand(rest, v) <= Demand(tests, v);
      }
      HeldNoBadAccess(st, rest);
      FreeStepsExact(st, rest, t);
      assert t in tests && Demand(tests, t) == Demand(rest, t) + 1;
    }
  }

  /** The list with, from the front, as many occurrences of each pixel struck out as `asked` says. */
  function Strike(list: seq<nat>, asked: multiset<nat>): seq<nat> {
    if |list| == 0 then []
    else if asked[list[0]] > 0 then Strike(list[1..], asked - multiset{list[0]})
    else [list[0]] + Strike(list[1..], asked)
  }

  /** The requests inside the map. */
  function Inside(tests: seq<nat>, size: nat): multiset<nat> {
    if |tests| == 0 then multiset{}
    else Inside(tests[..|tests| - 1], size) + if tests[|tests| - 1] < size then multiset{tests[|tests| - 1]} else multiset{}
  }

  lemma {:induction false} StrikeOneMore(list: seq<nat>, asked: multiset<nat>, v: nat)
    ensures Strike(list, asked + multiset{v})
         == if v in Strike(list, asked) then RemoveFirst(Strike(list, asked), v) else Strike(list, asked)
  {
    if |list| != 0 {
      var h, t := list[0], list[1..];
      if asked[h] > 0 {
        assert asked + multiset{v} - multiset{h} == asked - multiset{h} + multiset{v};
        StrikeOneMore(t, asked - multiset{h}, v);
      } else if h == v {
        assert asked + multiset{v} - multiset{h} == asked;
        assert ([h] + Strike(t, asked))[1..] == Strike(t, asked);
      } else {
        StrikeOneMore(t, asked, v);
        assert ([h] + Strike(t, asked))[1..] == Strike(t, asked);
      }
    }
  }

  /** Whatever the order of the requests, the list keeps its entries in order, without the first ones asked for. */
  lemma {:induction false} FreeStepsList(st: FreeState, tests: seq<nat>)
    ensures FreeSteps(st, tests).list == Strike(st.list, Inside(tests, |st.cells|))
    ensures |FreeSteps(st, tests).cells| == |st.cells|
  {
    if |tests| == 0 {
      StrikeNone(st.list);
    } else {
      var n := |tests| - 1;
      var t, asked := tests[n], Inside(tests[..n], |st.cells|);
      FreeStepsList(st, tests[..n]);
      if t < |st.cells| {
        StrikeOneMore(st.list, asked, t);
      } else {
        assert asked + multiset{} == asked;
      }
    }
  }

  lemma {:induction false} StrikeNone(list: seq<nat>)
    ensures Strike(list, multiset{}) == list
  {
    if |list| != 0 {
      StrikeNone(list[1..]);
    }
  }

  /** Releasing changes no colour, and a cell that stays allocated stays as shared as it was. */
  lemma {:induction false} FreeStepsColours(st: FreeState, tests: seq<nat>, i: nat)
    requires i < |st.cells|
    ensures |FreeSteps(st, tests).cells| == |st.cells|
    ensures var e, e' := st.cells[i], FreeSteps(st, tests).cells[i];
            && e'.local == e.local && e'.shco == e.shco && (e'.fShared ==> e.fShared)
            && (e'.refcnt != 0 ==> e'.fShared == e.fShared) && (e' == e || e'.refcnt >= 0)
  {
    if |tests| != 0 {
      FreeStepsColours(st, tests[..|tests| - 1], i);
    }
  }

  predicate TestAt(pixels: seq<nat>, mask: nat, t: nat, i: nat, j: nat) {
    i < |pixels| && t == Or(pixels[i], Deposit(j, mask))
  }

  lemma {:induction false} TestMember(pixels: seq<nat>, mask: nat, k: nat, t: nat)
    ensures t in Tests(pixels, mask, k) <==> exists i: nat, j: nat :: j < k && TestAt(pixels, mask, t, i, j)
  {
    if k != 0 {
      TestMember(pixels, mask, k - 1, t);
      var last := WithBits(pixels, Deposit(k - 1, mask));
      if t in last {
        var i :| 0 <= i < |last| && last[i] == t;
        assert TestAt(pixels, mask, t, i, k - 1);
      }
      if i: nat, j: nat :| j < k && TestAt(pixels, mask, t, i, j) {
        assert j == k - 1 ==> last[i] == t;
        assert j < k - 1 ==> t in Tests(pixels, mask, k - 1);
      }
    }
  }

  predicate Combines(p: nat, s: nat, mask: nat, t: nat) {
    Sub(s, mask) && t == Or(p, s)
  }

  /** FreeCo asks for `p | s` for every input pixel `p` and every submask `s`, and for nothing else. */
  lemma {:induction false} TestsCover(pixels: seq<nat>, mask: nat, t: nat)
    ensures t in AllTests(pixels, mask) <==> exists p: nat, s: nat :: p in pixels && Combines(p, s, mask, t)
    ensures |AllTests(pixels, mask)| == Pow2(Ones(mask)) * |pixels|
  {
    var n := Pow2(Ones(mask));
    TestMember(pixels, mask, n, t);
    if t in AllTests(pixels, mask) {
      var i: nat, j: nat :| j < n && TestAt(pixels, mask, t, i, j);
      DepositSub(j, mask);
      assert pixels[i] in pixels && Combines(pixels[i], Deposit(j, mask), mask, t);
    }
    if p: nat, s: nat :| p in pixels && Combines(p, s, mask, t) {
      RankDeposit(s, mask);
      var i :| 0 <= i < |pixels| && pixels[i] == p;
      assert TestAt(pixels, mask, t, i, Rank(s, mask));
    }
    TestsLength(pixels, mask, n);
  }

  lemma {:induction false} TestsLength(pixels: seq<nat>, mask: nat, k: nat)
    ensures |Tests(pixels, mask, k)| == k * |pixels|
  {
    if k != 0 {
      TestsLength(pixels, mask, k - 1);
      assert k * |pixels| == (k - 1) * |pixels| + |pixels|;
    }
  }

  // ---- The marked list

  /** The entries that are not marked, in order. */
  function Unzapped(list: seq<nat>): seq<nat> {
    if |list| == 0 then []
    else Unzapped(list[..|list| - 1]) + if list[|list| - 1] == Zapped then [] else [list[|list| - 1]]
  }

  lemma {:induction false} UnzappedSplit(a: seq<nat>, b: seq<nat>)
    ensures Unzapped(a + b) == Unzapped(a) + Unzapped(b)
  {
    if |b| == 0 {
      assert a + b == a;
    } else {
      var n := |b| - 1;
      assert (a + b)[..|a| + n] == a + b[..n];
      UnzappedSplit(a, b[..n]);
    }
  }

  lemma {:induction false} UnzappedId(list: seq<nat>)
    requires Zapped !in list
    ensures Unzapped(list) == list
  {
    if |list| != 0 {
      UnzappedId(list[..|list| - 1]);
    }
  }

  lemma {:induction false} UnzappedIn(list: seq<nat>, v: nat)
    ensures v in Unzapped(list) <==> v in list && v != Zapped
  {
    if |list| != 0 {
      UnzappedIn(list[..|list| - 1], v);
      assert list == list[..|list| - 1] + [list[|list| - 1]];
    }
  }

  lemma {:induction false} UnzappedAround(a: seq<nat>, v: nat, b: seq<nat>)
    ensures Unzapped(a + [v] + b) == Unzapped(a) + (if v == Zapped then [] else [v]) + Unzapped(b)
  {
    UnzappedSplit(a + [v], b);
    UnzappedSplit(a, [v]);
    assert [v][..0] == [];
  }

  /** Marking the first match removes the first match. */
  lemma {:induction false} ZapFirst(list: seq<nat>, v: nat, k: nat)
    requires k < |list| && list[k] == v != Zapped && forall i :: 0 <= i < k ==> list[i] != v
    ensures Unzapped(list[k := Zapped]) == RemoveFirst(Unzapped(list), v)
    ensures v in Unzapped(list)
  {
    var a, b := list[..k], list[k + 1..];
    assert list == a + [v] + b;
    assert list[k := Zapped] == a + [Zapped] + b;
    UnzappedAround(a, v, b);
    UnzappedAround(a, Zapped, b);
    UnzappedIn(a, v);
    var u, w := Unzapped(a), Unzapped(b);
    FirstAfter(u, v, w);
  }

  lemma {:induction false} FirstAfter(u: seq<nat>, v: nat, w: seq<nat>)
    requires v !in u
    ensures RemoveFirst(u + [v] + w, v) == u + w
  {
    var l := u + [v] + w;
    assert l[|u|] == v && forall i :: 0 <= i < |u| ==> l[i] == u[i] && u[i] in u;
    RemoveFirstAt(l, v, |u|);
    assert l[..|u|] == u && l[|u| + 1..] == w;
  }
}
