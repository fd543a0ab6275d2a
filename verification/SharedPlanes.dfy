/**
 AllocColorPlanes on a single-table map: splitting the plane mask into three, and giving every new cell one shared
 component per channel (dix/colormap.c, AllocColorPlanes and AllocShared).
 */
module SharedPlanes {
  import opened Bits
  import opened Submasks
  import opened Cells
  import opened Sharing
  import opened CellAllocator
  import opened PlaneMasks
  import opened Releases
  import opened Colormaps

  // ---- Splitting a mask

  lemma {:induction false} LowAll(mask: nat, s: nat)
    requires Ones(Low(mask, s)) >= Ones(mask)
    ensures Low(mask, s) == mask
  {
    if s == 0 {
      FewestZero(mask);
    } else if mask == 0 {
      LowOfZero(s);
    } else {
      assert Low(mask, s) / 2 == Low(mask / 2, s - 1);
      LowAll(mask / 2, s - 1);
    }
  }

  lemma {:induction false} LowParts(mask: nat, s: nat, t: nat)
    requires s <= t
    ensures Low(mask, s) <= Low(mask, t)
    ensures And(Low(mask, s), Low(mask, t) - Low(mask, s)) == 0
    ensures Ones(Low(mask, t)) == Ones(Low(mask, s)) + Ones(Low(mask, t) - Low(mask, s))
  {
    hide Ones, And;
    NoPart(Low(mask, t));
    if s > 0 {
      LowParts(mask / 2, s - 1, t - 1);
      PartsStep(Low(mask / 2, s - 1), Low(mask / 2, t - 1), mask % 2);
    }
  }

  lemma {:induction false} NoPart(x: nat)
    ensures And(0, x) == 0 && Ones(0) == 0
  {
  }

  lemma {:induction false} PartsStep(a: nat, b: nat, d: nat)
    requires d < 2 && a <= b && And(a, b - a) == 0 && Ones(b) == Ones(a) + Ones(b - a)
    ensures And(d + 2 * a, d + 2 * b - (d + 2 * a)) == 0
    ensures Ones(d + 2 * b) == Ones(d + 2 * a) + Ones(d + 2 * b - (d + 2 * a))
  {
    hide Ones, And;
    OnesStep(a, d);
    OnesStep(b, d);
    OnesStep(b - a, 0);
    AndEven(2 * a + d, b - a);
    assert d + 2 * b - (d + 2 * a) == 2 * (b - a) + 0;
  }

  lemma {:induction false} OnesStep(x: nat, d: nat)
    requires d < 2
    ensures Ones(2 * x + d) == Ones(x) + d
  {
  }

  lemma {:induction false} OrHigh(x: nat, s: nat)
    requires x < Pow2(s)
    ensures Or(x, Pow2(s)) == x + Pow2(s)
  {
    AndHigh(x, s);
    SubRefl(Pow2(s));
    DisjointSum(x, Pow2(s), Pow2(s));
  }

  lemma {:induction false} AndHigh(x: nat, s: nat)
    requires x < Pow2(s)
    ensures And(x, Pow2(s)) == 0
  {
    if s > 0 {
      AndHigh(x / 2, s - 1);
    }
  }

  /** One of the three loops: move the next `n` bits of the mask, from position `s` on, into a mask of their own. */
  method TakeBits(mask: nat, shift: nat, n: nat, ghost s: nat, ghost width: nat)
    returns (taken: nat, shift': nat, ghost t: nat)
    requires shift == Pow2(s) && mask < Pow2(width) && Ones(Low(mask, s)) + n <= Ones(mask)
    ensures s <= t && shift' == Pow2(t)
    ensures taken == Low(mask, t) - Low(mask, s)
    ensures Ones(Low(mask, t)) == Ones(Low(mask, s)) + n
  {
    hide Ones, And, Or, Bit;
    taken, shift', t := 0, shift, s;
    LowNext(mask, s);
    for i := 0 to n
      invariant s <= t && shift' == Pow2(t)
      invariant Low(mask, s) <= Low(mask, t) && taken == Low(mask, t) - Low(mask, s)
      invariant Ones(Low(mask, t)) == Ones(Low(mask, s)) + i
    {
      BitAnd(mask, t);
      while And(mask, shift') == 0
        invariant s <= t && shift' == Pow2(t)
        invariant Low(mask, s) <= Low(mask, t) && taken == Low(mask, t) - Low(mask, s)
        invariant Ones(Low(mask, t)) == Ones(Low(mask, s)) + i
        invariant And(mask, shift') != 0 <==> Bit(mask, t)
        decreases if t < width then width - t else 0
      {
        if t >= width {
          Pow2Mono(width, t);
          LowWidth(mask, t);
        }
        LowNext(mask, t);
        shift' := shift' + shift';
        t := t + 1;
        BitAnd(mask, t);
      }
      LowNext(mask, t);
      OrHigh(taken, t);
      taken := Or(taken, shift');
      shift' := shift' + shift';
      t := t + 1;
    }
  }

  /** Three plane masks. */
  datatype Planes = Planes(red: nat, green: nat, blue: nat)

  /** The masks are pairwise disjoint, cover `mask`, and have the requested weights; the red bits are the lowest. */
  ghost predicate Splits(p: Planes, mask: nat, r: nat, g: nat, b: nat) {
    && And(p.red, p.green) == 0 && And(p.red + p.green, p.blue) == 0
    && p.red + p.green + p.blue == mask
    && Ones(p.red) == r && Ones(p.green) == g && Ones(p.blue) == b
    && exists s: nat, t: nat :: s <= t && p.red == Low(mask, s) && p.red + p.green == Low(mask, t)
  }

  method SplitMask(mask: nat, r: nat, g: nat, b: nat, ghost width: nat) returns (p: Planes)
    requires Ones(mask) == r + g + b && mask < Pow2(width)
    ensures Splits(p, mask, r, g, b)
  {
    hide And, Sub;
    ghost var s, t, u;
    var shift := 1;
    var rmask, gmask, bmask;
    rmask, shift, s := TakeBits(mask, shift, r, 0, width);
    gmask, shift, t := TakeBits(mask, shift, g, s, width);
    bmask, shift, u := TakeBits(mask, shift, b, t, width);
    p := Planes(rmask, gmask, bmask);
    LowAll(mask, u);
    LowParts(mask, s, t);
    LowParts(mask, t, u);
  }

  // ---- The three channels

  datatype Channel = Red | Green | Blue

  function Own(p: Planes, ch: Channel): nat {
    match ch case Red => p.red case Green => p.green case Blue => p.blue
  }

  /** The mask bits of the two other channels, which `basemask` clears. */
  function Others(p: Planes, ch: Channel): nat {
    match ch
    case Red => p.green + p.blue
    case Green => p.red + p.blue
    case Blue => p.red + p.green
  }

  function OthersOr(p: Planes, ch: Channel): nat {
    match ch
    case Red => Or(p.green, p.blue)
    case Green => Or(p.red, p.blue)
    case Blue => Or(p.red, p.green)
  }

  function Whole(p: Planes): nat {
    p.red + p.green + p.blue
  }

  predicate Disjoint(p: Planes) {
    And(p.red, p.green) == 0 && And(p.red + p.green, p.blue) == 0
  }

  lemma {:induction false} AndAdd(x: nat, y: nat, m: nat)
    requires And(x, y) == 0
    ensures And(x + y, m) == And(x, m) + And(y, m)
    ensures Ones(x + y) == Ones(x) + Ones(y)
    ensures AndNot(m, y) == AndNot(m, x + y) + And(m, x)
    decreases x + y + m
  {
    if x == 0 || y == 0 {
      AndSplit(m, x);
      AndNotZero(m);
    } else {
      assert (x + y) / 2 == x / 2 + y / 2 && (x + y) % 2 == x % 2 + y % 2;
      AndAdd(x / 2, y / 2, m / 2);
    }
  }

  lemma {:induction false} AndNotZero(m: nat)
    ensures AndNot(m, 0) == m
  {
    if m != 0 {
      AndNotZero(m / 2);
    }
  }

  lemma {:induction false} ChannelsDisjoint(p: Planes, ch: Channel)
    requires Disjoint(p)
    ensures And(Own(p, ch), Others(p, ch)) == 0
    ensures Own(p, ch) + Others(p, ch) == Whole(p)
    ensures OthersOr(p, ch) == Others(p, ch)
    ensures Ones(Others(p, ch)) == Ones(Whole(p)) - Ones(Own(p, ch))
    ensures Ones(Whole(p)) == Ones(p.red) + Ones(p.green) + Ones(p.blue)
  {
    hide And, Or, Ones, AndNot, Sub;
    AndAdd(p.red, p.green, p.blue);
    AndAdd(p.red + p.green, p.blue, 0);
    PairDisjoint(p.red, p.green);
    PairDisjoint(p.red, p.blue);
    PairDisjoint(p.green, p.blue);
    AndAdd(p.green, p.blue, p.red);
    AndAdd(p.red, p.blue, p.green);
    AndComm(p.green + p.blue, p.red);
    AndComm(p.red + p.blue, p.green);
    AndComm(p.red + p.green, p.blue);
    AndAdd(Own(p, ch), Others(p, ch), 0);
  }

  lemma {:induction false} PairDisjoint(x: nat, y: nat)
    requires And(x, y) == 0
    ensures And(y, x) == 0 && Or(x, y) == x + y
  {
    AndComm(x, y);
    SubRefl(y);
    DisjointSum(x, y, y);
  }

  /** The test `(*cptr & basemask) == (common | bits)` picks one coset and one value of the channel's bits. */
  lemma {:induction false} Selects(i: nat, base: nat, bits: nat, p: Planes, ch: Channel)
    requires Disjoint(p) && And(base, Whole(p)) == 0 && Sub(bits, Own(p, ch))
    ensures AndNot(i, OthersOr(p, ch)) == Or(AndNot(base, OthersOr(p, ch)), bits)
       <==> AndNot(i, Whole(p)) == base && And(i, Own(p, ch)) == bits
  {
    hide And, AndNot, Or, Sub, Ones;
    var own, others := Own(p, ch), Others(p, ch);
    ChannelsDisjoint(p, ch);
    AndAdd(own, others, base);
    AndComm(base, Whole(p));
    AndComm(base, own);
    AndComm(base, others);
    AndSplit(base, others);
    DisjointSum(base, bits, own);
    AndAdd(own, others, i);
    AndSub(i, own);
    AndNotSub(i, Whole(p));
    AndAdd(own, others, AndNot(i, Whole(p)));
    AndComm(AndNot(i, Whole(p)), Whole(p));
    AndComm(AndNot(i, Whole(p)), own);
    DisjointSum(AndNot(i, Whole(p)), And(i, own), own);
  }

  // ---- Handing out the shared components

  function SetChannel(e: Entry, ch: Channel, id: SharedId): Entry {
    match ch
    case Red => e.(fShared := true, shco := e.shco.(red := id))
    case Green => e.(shco := e.shco.(green := id))
    case Blue => e.(shco := e.shco.(blue := id))
  }

  function IdAt(ids: seq<SharedId>, n: nat): SharedId {
    if n < |ids| then ids[n] else 0
  }

  /** Which of the channel's components a cell gets. */
  function RankIn(i: nat, p: Planes, ch: Channel): nat {
    Rank(And(i, Own(p, ch)), Own(p, ch))
  }

  function Width(p: Planes, ch: Channel): nat {
    Pow2(Ones(Own(p, ch)))
  }

  /** Where the channel's components start in the block of records of one base pixel. */
  function Start(p: Planes, ch: Channel): nat {
    match ch case Red => 0 case Green => Width(p, Red) case Blue => Width(p, Red) + Width(p, Green)
  }

  function Block(p: Planes): nat {
    Width(p, Red) + Width(p, Green) + Width(p, Blue)
  }

  /** Where the block of the j-th base pixel starts. */
  function At(p: Planes, j: nat): nat {
    if j == 0 then 0 else At(p, j - 1) + Block(p)
  }

  lemma {:induction false} RankInBound(i: nat, p: Planes, ch: Channel)
    ensures RankIn(i, p, ch) < Width(p, ch)
    ensures Deposit(RankIn(i, p, ch), Own(p, ch)) == And(i, Own(p, ch))
  {
    AndSub(i, Own(p, ch));
    RankDeposit(And(i, Own(p, ch)), Own(p, ch));
  }

  /** The innermost loop: every new cell whose pixel passes the test gets the component. */
  method Paint(red: array<Entry>, first: seq<nat>, others: nat, target: nat, ch: Channel, id: SharedId)
    requires forall q :: q in first ==> q < red.Length
    modifies red
    ensures forall i: nat :: i < red.Length ==>
              red[i] == if i in first && AndNot(i, others) == target then SetChannel(old(red[i]), ch, id) else old(red[i])
  {
    for z := 0 to |first|
      invariant forall i: nat :: i < red.Length ==>
                  red[i] == if i in first[..z] && AndNot(i, others) == target then SetChannel(old(red[i]), ch, id)
                            else old(red[i])
    {
      assert first[..z + 1] == first[..z] + [first[z]];
      assert first[z] in first;
      if AndNot(first[z], others) == target {
        red[first[z]] := SetChannel(red[first[z]], ch, id);
      }
    }
    assert first[..|first|] == first;
  }

  ghost predicate Among(ids: seq<SharedId>, from: nat, to: nat, x: SharedId) {
    exists n :: from <= n < to && n < |ids| && ids[n] == x
  }

  /** `live'` is `live` with the records ids[from..to] at `count`. */
  ghost predicate Counted(live: Live, live': Live, ids: seq<SharedId>, from: nat, to: nat, count: nat) {
    && from <= to <= |ids|
    && (forall n :: from <= n < to ==> ids[n] in live' && live'[ids[n]] == count)
    && (forall x: SharedId :: !Among(ids, from, to, x) ==> RefCount(live', x) == RefCount(live, x))
    && (forall x: SharedId :: !Among(ids, from, to, x) ==> (x in live' <==> x in live))
  }

  /** The cells after the first `k` values of the channel's bits. */
  ghost predicate PaintedUpTo(before: seq<Entry>, after: seq<Entry>, first: seq<nat>, base: nat, p: Planes,
                              ch: Channel, ids: seq<SharedId>, at: nat, k: nat) {
    && |after| == |before|
    && forall i: nat :: i < |before| ==>
         after[i] == if i in first && AndNot(i, Whole(p)) == base && RankIn(i, p, ch) < k
                     then SetChannel(before[i], ch, IdAt(ids, at + RankIn(i, p, ch))) else before[i]
  }

  lemma {:induction false} PaintStep(before: seq<Entry>, middle: seq<Entry>, after: seq<Entry>, first: seq<nat>, base: nat, p: Planes,
                  ch: Channel, ids: seq<SharedId>, at: nat, k: nat)
    requires PaintedUpTo(before, middle, first, base, p, ch, ids, at, k) && |after| == |middle|
    requires Disjoint(p) && And(base, Whole(p)) == 0 && k < Width(p, ch)
    requires forall i: nat :: i < |middle| ==>
               after[i] == if i in first && AndNot(i, OthersOr(p, ch))
                                             == Or(AndNot(base, OthersOr(p, ch)), Deposit(k, Own(p, ch)))
                           then SetChannel(middle[i], ch, IdAt(ids, at + k)) else middle[i]
    ensures PaintedUpTo(before, after, first, base, p, ch, ids, at, k + 1)
  {
    DepositSub(k, Own(p, ch));
    DepositRank(k, Own(p, ch));
    forall i: nat | i < |before|
      ensures after[i] == if i in first && AndNot(i, Whole(p)) == base && RankIn(i, p, ch) < k + 1
                          then SetChannel(before[i], ch, IdAt(ids, at + RankIn(i, p, ch))) else before[i]
    {
      Selects(i, base, Deposit(k, Own(p, ch)), p, ch);
      RankInBound(i, p, ch);
    }
  }

  /** One channel of one base pixel: a record for each value of the channel's bits. */
  method PaintChannel(red: array<Entry>, heap: SharedHeap, first: seq<nat>, base: nat, p: Planes, ch: Channel,
                      ids: seq<SharedId>, at: nat, count: nat)
    returns (next: nat)
    requires Disjoint(p) && And(base, Whole(p)) == 0 && at + Width(p, ch) <= |ids|
    requires forall q :: q in first ==> q < red.Length
    requires forall m, n :: 0 <= m < n < |ids| ==> ids[m] != ids[n]
    modifies red, heap
    ensures next == at + Width(p, ch)
    ensures PaintedUpTo(old(red[..]), red[..], first, base, p, ch, ids, at, Width(p, ch))
    ensures Counted(old(heap.live), heap.live, ids, at, next, count)
  {
    hide And, AndNot, Or, LowBit;
    var own, basemask := Own(p, ch), OthersOr(p, ch);
    var common := AndNot(base, basemask);
    var bits, lowest := 0, LowBit(own);
    ghost var k, n := 0, Width(p, ch);
    next := at;
    DepositZero(own);
    while true
      invariant 0 <= k < n && bits == Deposit(k, own) && next == at + k
      invariant PaintedUpTo(old(red[..]), red[..], first, base, p, ch, ids, at, k)
      invariant Counted(old(heap.live), heap.live, ids, at, next, count)
      decreases n - k
    {
      ghost var middle, live := red[..], heap.live;
      var pshared := ids[next];
      heap.live := heap.live[pshared := count];
      assert red[..] == middle;
      CountedStep(old(heap.live), live, ids, at, next, count);
      next := next + 1;
      Paint(red, first, basemask, Or(common, bits), ch, pshared);
      PaintStep(old(red[..]), middle, red[..], first, base, p, ch, ids, at, k);
      if bits == own {
        LastSubmask(k, own);
        return;
      }
      bits := NextBits(bits, own, lowest, k);
      k := k + 1;
    }
  }

  lemma {:induction false} CountedStep(live0: Live, live: Live, ids: seq<SharedId>, from: nat, to: nat, count: nat)
    requires Counted(live0, live, ids, from, to, count) && to < |ids|
    requires forall m, n :: 0 <= m < n < |ids| ==> ids[m] != ids[n]
    ensures Counted(live0, live[ids[to] := count], ids, from, to + 1, count)
  {
  }

  /** The count AllocShared gives a channel's records; the two branches for an empty mask both use `g + b`. */
  function Count(p: Planes, ch: Channel): nat {
    match ch
    case Red => Pow2(Ones(p.green) + Ones(p.blue))
    case Green => if p.green != 0 then Pow2(Ones(p.red) + Ones(p.blue)) else Pow2(Ones(p.green) + Ones(p.blue))
    case Blue => if p.blue != 0 then Pow2(Ones(p.red) + Ones(p.green)) else Pow2(Ones(p.green) + Ones(p.blue))
  }

  /** The record for the k-th value of a channel's bits, in the block that starts at `at`. */
  function Record(ids: seq<SharedId>, at: nat, p: Planes, ch: Channel, k: nat): SharedId {
    IdAt(ids, at + Start(p, ch) + k)
  }

  function Component(ids: seq<SharedId>, at: nat, i: nat, p: Planes, ch: Channel): SharedId {
    Record(ids, at, p, ch, RankIn(i, p, ch))
  }

  function Components(ids: seq<SharedId>, at: nat, i: nat, p: Planes): Shco {
    Shco(Component(ids, at, i, p, Red), Component(ids, at, i, p, Green), Component(ids, at, i, p, Blue))
  }

  /** The records of the block at `at` have their counts. */
  ghost predicate BlockCounts(live: Live, ids: seq<SharedId>, at: nat, p: Planes) {
    forall ch: Channel, k: nat :: k < Width(p, ch) ==> RefCount(live, Record(ids, at, p, ch, k)) == Count(p, ch)
  }

  function SharedCell(e: Entry, ids: seq<SharedId>, at: nat, i: nat, p: Planes): Entry {
    e.(fShared := true, shco := Components(ids, at, i, p))
  }

  /** The first `c` base pixels have their components. */
  ghost predicate Shares(before: seq<Entry>, after: seq<Entry>, ppix: seq<nat>, c: nat, first: seq<nat>, p: Planes,
                         ids: seq<SharedId>)
    requires c <= |ppix|
  {
    && |after| == |before|
    && (forall i: nat, j: nat :: i < |before| && j < c && i in first && AndNot(i, Whole(p)) == ppix[j]
          ==> after[i] == SharedCell(before[i], ids, At(p, j), i, p))
    && (forall i: nat :: i < |before| && !(i in first && AndNot(i, Whole(p)) in ppix[..c]) ==> after[i] == before[i])
  }

  lemma {:induction false} BlockBefore(p: Planes, j: nat, c: nat)
    requires j < c
    ensures At(p, j) + Block(p) <= At(p, c)
    decreases c
  {
    if j < c - 1 {
      BlockBefore(p, j, c - 1);
    }
  }

  /** There are `(c << r) + (c << g) + (c << b)` records. */
  lemma {:induction false} RecordTotal(p: Planes, c: nat)
    ensures At(p, c) == c * Width(p, Red) + c * Width(p, Green) + c * Width(p, Blue)
  {
    if c > 0 {
      RecordTotal(p, c - 1);
      OneMore(c - 1, Width(p, Red), Width(p, Green), Width(p, Blue));
    }
  }

  lemma {:induction false} OneMore(c: nat, x: nat, y: nat, z: nat)
    ensures (c + 1) * x + (c + 1) * y + (c + 1) * z == c * x + c * y + c * z + (x + y + z)
  {
  }

  /** A record's position tells its base pixel. */
  lemma {:induction false} BlockUnique(p: Planes, j: nat, x: nat, j': nat, x': nat)
    requires x < Block(p) && x' < Block(p) && At(p, j) + x == At(p, j') + x'
    ensures j == j' && x == x'
  {
    if j < j' {
      BlockBefore(p, j, j');
    } else if j' < j {
      BlockBefore(p, j', j);
    }
  }

  /** The three channels of one base pixel. */
  method PaintBase(red: array<Entry>, heap: SharedHeap, first: seq<nat>, base: nat, p: Planes, ids: seq<SharedId>,
                   at: nat)
    returns (next: nat)
    requires Disjoint(p) && And(base, Whole(p)) == 0 && at + Block(p) <= |ids|
    requires forall q :: q in first ==> q < red.Length
    requires forall m, n :: 0 <= m < n < |ids| ==> ids[m] != ids[n]
    modifies red, heap
    ensures next == at + Block(p)
    ensures forall i: nat :: i < red.Length ==>
              red[i] == if i in first && AndNot(i, Whole(p)) == base then SharedCell(old(red[i]), ids, at, i, p)
                        else old(red[i])
    ensures BlockCounts(heap.live, ids, at, p)
    ensures forall x: SharedId :: !Among(ids, at, next, x) ==> RefCount(heap.live, x) == RefCount(old(heap.live), x)
    ensures forall x: SharedId :: x in heap.live <==> x in old(heap.live) || Among(ids, at, next, x)
  {
    hide RefCount, Pow2, Ones, Count, Counted, Among, PaintedUpTo, And, AndNot, Rank;
    ghost var l0, c0 := heap.live, red[..];
    var g0 := PaintChannel(red, heap, first, base, p, Red, ids, at, Count(p, Red));
    ghost var l1, c1 := heap.live, red[..];
    var b0 := PaintChannel(red, heap, first, base, p, Green, ids, g0, Count(p, Green));
    ghost var l2, c2 := heap.live, red[..];
    next := PaintChannel(red, heap, first, base, p, Blue, ids, b0, Count(p, Blue));
    ghost var c3 := red[..];
    forall i: nat | i < red.Length
      ensures c3[i] == if i in first && AndNot(i, Whole(p)) == base then SharedCell(c0[i], ids, at, i, p) else c0[i]
    {
      PaintedFully(c0, c1, first, base, p, Red, ids, at, i);
      PaintedFully(c1, c2, first, base, p, Green, ids, g0, i);
      PaintedFully(c2, c3, first, base, p, Blue, ids, b0, i);
    }
    ThreeRanges(l0, l1, l2, heap.live, ids, at, g0, b0, next, Count(p, Red), Count(p, Green), Count(p, Blue));
    forall ch: Channel, k: nat | k < Width(p, ch)
      ensures RefCount(heap.live, Record(ids, at, p, ch, k)) == Count(p, ch)
    {
      assert at <= at + Start(p, ch) + k < next;
    }
    assert forall i: nat :: i < red.Length ==> red[i] == c3[i] && old(red[i]) == c0[i];
  }

  lemma {:induction false} PaintedFully(before: seq<Entry>, after: seq<Entry>, first: seq<nat>, base: nat, p: Planes, ch: Channel,
                     ids: seq<SharedId>, from: nat, i: nat)
    requires PaintedUpTo(before, after, first, base, p, ch, ids, from, Width(p, ch)) && i < |before|
    ensures |after| == |before|
    ensures after[i] == if i in first && AndNot(i, Whole(p)) == base
                        then SetChannel(before[i], ch, IdAt(ids, from + RankIn(i, p, ch))) else before[i]
  {
    RankInBound(i, p, ch);
  }

  lemma {:induction false} ThreeRanges(l0: Live, l1: Live, l2: Live, l3: Live, ids: seq<SharedId>, at: nat, g0: nat, b0: nat, next: nat,
                    r: nat, g: nat, b: nat)
    requires forall m, n :: 0 <= m < n < |ids| ==> ids[m] != ids[n]
    requires at <= g0 <= b0 <= next <= |ids|
    requires Counted(l0, l1, ids, at, g0, r) && Counted(l1, l2, ids, g0, b0, g) && Counted(l2, l3, ids, b0, next, b)
    ensures forall n: nat :: at <= n < next ==> RefCount(l3, ids[n]) == if n < g0 then r else if n < b0 then g else b
    ensures forall x: SharedId :: !Among(ids, at, next, x) ==> RefCount(l3, x) == RefCount(l0, x)
    ensures forall x: SharedId :: x in l3 <==> x in l0 || Among(ids, at, next, x)
  {
    forall n: nat | at <= n < next
      ensures RefCount(l3, ids[n]) == if n < g0 then r else if n < b0 then g else b
    {
      if n < g0 {
        OutsideSlice(ids, n, g0, b0);
        OutsideSlice(ids, n, b0, next);
      } else if n < b0 {
        OutsideSlice(ids, n, b0, next);
      }
    }
    forall x: SharedId
      ensures x in l3 <==> x in l0 || Among(ids, at, next, x)
      ensures !Among(ids, at, next, x) ==> RefCount(l3, x) == RefCount(l0, x)
    {
      ThreeRangesOne(l0, l1, l2, l3, ids, at, g0, b0, next, r, g, b, x);
    }
  }

  lemma {:induction false} ThreeRangesOne(l0: Live, l1: Live, l2: Live, l3: Live, ids: seq<SharedId>, at: nat, g0: nat, b0: nat,
                       next: nat, r: nat, g: nat, b: nat, x: SharedId)
    requires at <= g0 <= b0 <= next <= |ids|
    requires Counted(l0, l1, ids, at, g0, r) && Counted(l1, l2, ids, g0, b0, g) && Counted(l2, l3, ids, b0, next, b)
    ensures x in l3 <==> x in l0 || Among(ids, at, next, x)
    ensures !Among(ids, at, next, x) ==> RefCount(l3, x) == RefCount(l0, x)
  {
    assert Among(ids, at, next, x) <==> Among(ids, at, g0, x) || Among(ids, g0, b0, x) || Among(ids, b0, next, x);
    InCounted(l0, l1, ids, at, g0, r, x);
    InCounted(l1, l2, ids, g0, b0, g, x);
    InCounted(l2, l3, ids, b0, next, b, x);
  }

  lemma {:induction false} OutsideSlice(ids: seq<SharedId>, n: nat, from: nat, to: nat)
    requires forall m, n :: 0 <= m < n < |ids| ==> ids[m] != ids[n]
    requires n < |ids| && from <= to <= |ids| && !(from <= n < to)
    ensures !Among(ids, from, to, ids[n])
  {
  }

  lemma {:induction false} InCounted(live: Live, live': Live, ids: seq<SharedId>, from: nat, to: nat, count: nat, x: SharedId)
    requires Counted(live, live', ids, from, to, count)
    ensures x in live' <==> x in live || Among(ids, from, to, x)
  {
  }

  /**
   Allocating the records, last slot first; `got` calls succeed. On a failure the records already allocated are
   freed again.
   */
  method AllocRecords(heap: SharedHeap, ids: seq<SharedId>, got: nat) returns (ok: bool)
    requires forall m, n :: 0 <= m < n < |ids| ==> ids[m] != ids[n]
    requires forall n :: 0 <= n < |ids| ==> ids[n] !in heap.live
    modifies heap
    ensures ok <==> got >= |ids|
    ensures ok ==> forall x: SharedId :: RefCount(heap.live, x) == RefCount(old(heap.live), x)
    ensures ok ==> forall x: SharedId :: x in heap.live <==> x in old(heap.live) || Among(ids, 0, |ids|, x)
    ensures !ok ==> heap.live == old(heap.live)
  {
    var z := |ids|;
    while z > 0
      invariant 0 <= z <= |ids| && |ids| - z <= got
      invariant forall x: SharedId :: RefCount(heap.live, x) == RefCount(old(heap.live), x)
      invariant forall x: SharedId :: x in heap.live <==> x in old(heap.live) || Among(ids, z, |ids|, x)
    {
      if |ids| - z == got {
        while z < |ids|
          invariant 0 <= z <= |ids|
          invariant forall x: SharedId :: RefCount(heap.live, x) == RefCount(old(heap.live), x)
          invariant forall x: SharedId :: x in heap.live <==> x in old(heap.live) || Among(ids, z, |ids|, x)
        {
          OutsideSlice(ids, z, z + 1, |ids|);
          heap.live := heap.live - {ids[z]};
          z := z + 1;
        }
        assert forall x: SharedId :: x in heap.live <==> x in old(heap.live);
        SameCounts(old(heap.live), heap.live);
        return false;
      }
      z := z - 1;
      heap.live := heap.live[ids[z] := 0];
    }
    return true;
  }

  lemma {:induction false} SameCounts(a: Live, b: Live)
    requires forall x: SharedId :: RefCount(a, x) == RefCount(b, x)
    requires forall x: SharedId :: x in a <==> x in b
    ensures a == b
  {
    forall x | x in a
      ensures b[x] == a[x]
    {
      assert RefCount(a, x) == RefCount(b, x);
    }
  }

  /**
   AllocShared: on success every new cell carries one component per channel, chosen by its channel bits; on failure
   nothing has changed.
   */
  method AllocShared(red: array<Entry>, heap: SharedHeap, ppix: seq<nat>, p: Planes, first: seq<nat>,
                     ids: seq<SharedId>, got: nat)
    returns (ok: bool)
    requires Disjoint(p) && Reps(ppix, Whole(p)) && |ids| == At(p, |ppix|)
    requires forall q :: q in first ==> q < red.Length
    requires forall m, n :: 0 <= m < n < |ids| ==> ids[m] != ids[n]
    requires forall n :: 0 <= n < |ids| ==> ids[n] !in heap.live
    modifies red, heap
    ensures ok <==> got >= |ids|
    ensures ok ==> Shares(old(red[..]), red[..], ppix, |ppix|, first, p, ids)
    ensures ok ==> BlocksCounted(old(heap.live), heap.live, p, ids, |ppix|)
    ensures !ok ==> red[..] == old(red[..]) && heap.live == old(heap.live)
  {
    hide And, AndNot, Pow2, Ones, Rank, BlockCounts, RefCount, Shares, Among, Disjoint, Block;
    ghost var cells := red[..];
    SharesNone(cells, ppix, first, p, ids);
    NoneAmong(ids);
    ok := AllocRecords(heap, ids, got);
    assert red[..] == cells;
    if !ok {
      return;
    }
    var at := 0;
    for c := 0 to |ppix|
      invariant at == At(p, c)
      invariant Shares(cells, red[..], ppix, c, first, p, ids)
      invariant BlocksCounted(old(heap.live), heap.live, p, ids, c)
    {
      BlockBefore(p, c, |ppix|);
      ghost var middle, live := red[..], heap.live;
      at := PaintBase(red, heap, first, ppix[c], p, ids, at);
      SharesStep(cells, middle, red[..], ppix, c, first, p, ids);
      forall j: nat | j < c + 1
        ensures BlockCounts(heap.live, ids, At(p, j), p)
      {
        if j < c {
          BlockBefore(p, j, c);
          BlockKept(live, heap.live, ids, At(p, j), At(p, c), at, p);
        }
      }
      forall x: SharedId
        ensures !Among(ids, 0, at, x) ==> RefCount(heap.live, x) == RefCount(old(heap.live), x)
        ensures x in heap.live <==> x in old(heap.live) || Among(ids, 0, |ids|, x)
      {
        OtherRecords(old(heap.live), live, heap.live, ids, At(p, c), at, x);
      }
    }
  }

  /** All records exist; those of the first `c` base pixels have their counts, the others still have none. */
  ghost predicate BlocksCounted(live: Live, live': Live, p: Planes, ids: seq<SharedId>, c: nat) {
    && At(p, c) <= |ids|
    && (forall j: nat :: j < c ==> BlockCounts(live', ids, At(p, j), p))
    && (forall x: SharedId :: !Among(ids, 0, At(p, c), x) ==> RefCount(live', x) == RefCount(live, x))
    && (forall x: SharedId :: x in live' <==> x in live || Among(ids, 0, |ids|, x))
  }

  lemma {:induction false} SharesNone(cells: seq<Entry>, ppix: seq<nat>, first: seq<nat>, p: Planes, ids: seq<SharedId>)
    ensures Shares(cells, cells, ppix, 0, first, p, ids)
  {
  }

  lemma {:induction false} NoneAmong(ids: seq<SharedId>)
    ensures forall x: SharedId :: !Among(ids, 0, 0, x)
  {
  }

  lemma {:induction false} SharesStep(before: seq<Entry>, middle: seq<Entry>, after: seq<Entry>, ppix: seq<nat>, c: nat, first: seq<nat>,
                   p: Planes, ids: seq<SharedId>)
    requires c < |ppix| && Reps(ppix, Whole(p)) && Shares(before, middle, ppix, c, first, p, ids)
    requires |after| == |middle|
    requires forall i: nat :: i < |middle| ==>
               after[i] == if i in first && AndNot(i, Whole(p)) == ppix[c]
                           then SharedCell(middle[i], ids, At(p, c), i, p) else middle[i]
    ensures Shares(before, after, ppix, c + 1, first, p, ids)
  {
    assert ppix[..c + 1] == ppix[..c] + [ppix[c]];
    assert ppix[c] !in ppix[..c];
    forall i: nat, j: nat | i < |before| && j < c + 1 && i in first && AndNot(i, Whole(p)) == ppix[j]
      ensures after[i] == SharedCell(before[i], ids, At(p, j), i, p)
    {
      if j < c {
        assert ppix[j] == ppix[..c][j];
      } else {
        assert middle[i] == before[i];
      }
    }
  }

  lemma {:induction false} OtherRecords(live0: Live, live: Live, live': Live, ids: seq<SharedId>, lo: nat, hi: nat, x: SharedId)
    requires lo <= hi <= |ids|
    requires !Among(ids, 0, lo, x) ==> RefCount(live, x) == RefCount(live0, x)
    requires !Among(ids, lo, hi, x) ==> RefCount(live', x) == RefCount(live, x)
    requires x in live <==> x in live0 || Among(ids, 0, |ids|, x)
    requires x in live' <==> x in live || Among(ids, lo, hi, x)
    ensures !Among(ids, 0, hi, x) ==> RefCount(live', x) == RefCount(live0, x)
    ensures x in live' <==> x in live0 || Among(ids, 0, |ids|, x)
  {
    assert Among(ids, 0, hi, x) <==> Among(ids, 0, lo, x) || Among(ids, lo, hi, x);
    assert Among(ids, lo, hi, x) ==> Among(ids, 0, |ids|, x);
  }

  lemma {:induction false} BlockKept(live: Live, live': Live, ids: seq<SharedId>, at: nat, lo: nat, hi: nat, p: Planes)
    requires forall m, n :: 0 <= m < n < |ids| ==> ids[m] != ids[n]
    requires BlockCounts(live, ids, at, p) && at + Block(p) <= lo <= hi <= |ids|
    requires forall x: SharedId :: !Among(ids, lo, hi, x) ==> RefCount(live', x) == RefCount(live, x)
    ensures BlockCounts(live', ids, at, p)
  {
    forall ch: Channel, k: nat | k < Width(p, ch)
      ensures RefCount(live', Record(ids, at, p, ch, k)) == Count(p, ch)
    {
      OutsideSlice(ids, at + Start(p, ch) + k, lo, hi);
    }
  }

  // ---- The counts are right exactly when the red mask is empty or the other two are not

  /** A component that exactly the cells of `pixels` point at, once each. */
  lemma {:induction false} PointersOf(cells: seq<Entry>, id: SharedId, pixels: seq<nat>)
    requires Distinct(pixels) && forall q :: q in pixels ==> q < |cells|
    requires forall i: nat :: i < |cells| ==> CellPointers(cells[i], id) == if i in pixels then 1 else 0
    ensures Pointers(cells, id) == |pixels|
    decreases |pixels|
  {
    if |pixels| == 0 {
      PointersNone(cells, id);
    } else {
      var n := |pixels| - 1;
      var q, rest := pixels[n], pixels[..n];
      assert pixels == rest + [q] && q in pixels && q !in rest;
      assert forall v :: v in rest ==> v in pixels;
      PointersUpdate(cells, q, EmptyCell, id);
      PointersOf(cells[q := EmptyCell], id, rest);
    }
  }

  /** The cells that get a given component are one coset of the two other channels' masks. */
  lemma {:induction false} ComponentCoset(base: nat, p: Planes, ch: Channel, k: nat)
    requires Disjoint(p) && And(base, Whole(p)) == 0 && k < Width(p, ch)
    ensures var pixels := CosetPixels(base + Deposit(k, Own(p, ch)), Others(p, ch));
            && Distinct(pixels) && |pixels| == Pow2(Ones(Others(p, ch)))
            && forall i: nat :: i in pixels <==> AndNot(i, Whole(p)) == base && RankIn(i, p, ch) == k
  {
    var own, others, bits := Own(p, ch), Others(p, ch), Deposit(k, Own(p, ch));
    DepositSub(k, own);
    DepositRank(k, own);
    CosetAvoids(base, bits, p, ch);
    var a := base + bits;
    var pixels := CosetPixels(a, others);
    forall i, j | 0 <= i < j < |pixels|
      ensures pixels[i] != pixels[j]
    {
      DepositMono(i, j, others);
    }
    forall i: nat
      ensures i in pixels <==> AndNot(i, Whole(p)) == base && RankIn(i, p, ch) == k
    {
      CosetMember(i, a, others);
      Selects(i, base, bits, p, ch);
      RankInBound(i, p, ch);
    }
  }

  lemma {:induction false} CosetAvoids(base: nat, bits: nat, p: Planes, ch: Channel)
    requires Disjoint(p) && And(base, Whole(p)) == 0 && Sub(bits, Own(p, ch))
    ensures And(base + bits, Others(p, ch)) == 0
    ensures Or(AndNot(base, OthersOr(p, ch)), bits) == base + bits
    ensures OthersOr(p, ch) == Others(p, ch)
  {
    hide And, Or, AndNot, Sub;
    var own, others := Own(p, ch), Others(p, ch);
    ChannelsDisjoint(p, ch);
    AndAdd(own, others, base);
    AndComm(base, Whole(p));
    AndComm(base, own);
    AndComm(base, others);
    AndSplit(base, others);
    DisjointSum(base, bits, own);
    AndSmaller(base, bits, own);
    AndAdd(base, bits, others);
    AndComm(own, others);
    AndSmaller(others, bits, own);
    AndComm(others, bits);
  }

  /** Positions of records tell base pixel, channel and value apart. */
  lemma {:induction false} RecordUnique(ids: seq<SharedId>, p: Planes, c: nat, j: nat, ch: Channel, k: nat, j': nat, ch': Channel, k': nat)
    requires forall m, n :: 0 <= m < n < |ids| ==> ids[m] != ids[n]
    requires |ids| == At(p, c) && j < c && j' < c && k < Width(p, ch) && k' < Width(p, ch')
    ensures Record(ids, At(p, j), p, ch, k) == Record(ids, At(p, j'), p, ch', k')
       <==> j == j' && ch == ch' && k == k'
    ensures Among(ids, 0, |ids|, Record(ids, At(p, j), p, ch, k))
  {
    BlockBefore(p, j, c);
    BlockBefore(p, j', c);
    InBlock(p, ch, k);
    InBlock(p, ch', k');
    var n, n' := At(p, j) + Start(p, ch) + k, At(p, j') + Start(p, ch') + k';
    SameSlot(ids, n, n');
    if n == n' {
      PositionUnique(p, j, ch, k, j', ch', k');
    }
  }

  lemma {:induction false} SameSlot(ids: seq<SharedId>, n: nat, n': nat)
    requires forall m, n :: 0 <= m < n < |ids| ==> ids[m] != ids[n]
    requires n < |ids| && n' < |ids|
    ensures IdAt(ids, n) == IdAt(ids, n') <==> n == n'
    ensures Among(ids, 0, |ids|, IdAt(ids, n))
  {
    assert n < n' ==> ids[n] != ids[n'];
    assert n' < n ==> ids[n'] != ids[n];
  }

  lemma {:induction false} InBlock(p: Planes, ch: Channel, k: nat)
    requires k < Width(p, ch)
    ensures Start(p, ch) + k < Block(p)
  {
  }

  lemma {:induction false} PositionUnique(p: Planes, j: nat, ch: Channel, k: nat, j': nat, ch': Channel, k': nat)
    requires k < Width(p, ch) && k' < Width(p, ch')
    requires At(p, j) + Start(p, ch) + k == At(p, j') + Start(p, ch') + k'
    ensures j == j' && ch == ch' && k == k'
  {
    InBlock(p, ch, k);
    InBlock(p, ch', k');
    BlockUnique(p, j, Start(p, ch) + k, j', Start(p, ch') + k');
  }

  lemma {:induction false} Locate(p: Planes, c: nat, n: nat) returns (j: nat, ch: Channel, k: nat)
    requires n < At(p, c)
    ensures j < c && k < Width(p, ch) && n == At(p, j) + Start(p, ch) + k
  {
    if n < At(p, c - 1) {
      j, ch, k := Locate(p, c - 1, n);
    } else {
      j := c - 1;
      var x := n - At(p, j);
      if x < Width(p, Red) {
        ch, k := Red, x;
      } else if x < Width(p, Red) + Width(p, Green) {
        ch, k := Green, x - Width(p, Red);
      } else {
        ch, k := Blue, x - Width(p, Red) - Width(p, Green);
      }
    }
  }

  /** What AllocShared starts from: new unshared cells, whole cosets, and records that nothing points at. */
  ghost predicate ReadyToShare(before: seq<Entry>, live: Live, ppix: seq<nat>, first: seq<nat>, p: Planes,
                               ids: seq<SharedId>) {
    && Disjoint(p) && Reps(ppix, Whole(p)) && |ids| == At(p, |ppix|)
    && (forall m, n :: 0 <= m < n < |ids| ==> ids[m] != ids[n])
    && (forall n :: 0 <= n < |ids| ==> ids[n] !in live)
    && Backed(before, live)
    && (forall j :: 0 <= j < |ppix| ==> ppix[j] + Whole(p) < |before|)
    && (forall i: nat :: i in first <==> i < |before| && AndNot(i, Whole(p)) in ppix)
    && (forall i: nat :: i in first && i < |before| ==> !before[i].fShared)
  }

  lemma {:induction false} RecordPointers(before: seq<Entry>, after: seq<Entry>, live: Live, ppix: seq<nat>, first: seq<nat>, p: Planes,
                       ids: seq<SharedId>, j: nat, ch: Channel, k: nat)
    requires ReadyToShare(before, live, ppix, first, p, ids)
    requires Shares(before, after, ppix, |ppix|, first, p, ids)
    requires j < |ppix| && k < Width(p, ch)
    ensures Pointers(after, Record(ids, At(p, j), p, ch, k)) == Pow2(Ones(Others(p, ch)))
  {
    hide Sub, Pow2, Ones, Deposit, Rank, CellPointers;
    var id := Record(ids, At(p, j), p, ch, k);
    ComponentCoset(ppix[j], p, ch, k);
    var pixels := CosetPixels(ppix[j] + Deposit(k, Own(p, ch)), Others(p, ch));
    forall q | q in pixels
      ensures q < |after|
    {
      AndSplit(q, Whole(p));
      AndSub(q, Whole(p));
      SubBound(And(q, Whole(p)), Whole(p));
    }
    RecordUnique(ids, p, |ppix|, j, ch, k, j, ch, k);
    forall i: nat | i < |after|
      ensures CellPointers(after[i], id) == if i in pixels then 1 else 0
    {
      CellRecordPointers(before, after, live, ppix, first, p, ids, j, ch, k, i);
    }
    PointersOf(after, id, pixels);
  }

  lemma {:induction false} CellRecordPointers(before: seq<Entry>, after: seq<Entry>, live: Live, ppix: seq<nat>, first: seq<nat>,
                           p: Planes, ids: seq<SharedId>, j: nat, ch: Channel, k: nat, i: nat)
    requires ReadyToShare(before, live, ppix, first, p, ids)
    requires Shares(before, after, ppix, |ppix|, first, p, ids)
    requires j < |ppix| && k < Width(p, ch) && i < |after|
    ensures CellPointers(after[i], Record(ids, At(p, j), p, ch, k))
         == if AndNot(i, Whole(p)) == ppix[j] && RankIn(i, p, ch) == k then 1 else 0
  {
    var id := Record(ids, At(p, j), p, ch, k);
    assert ppix[..|ppix|] == ppix;
    RecordUnique(ids, p, |ppix|, j, ch, k, j, ch, k);
    if i in first {
      var j' :| 0 <= j' < |ppix| && ppix[j'] == AndNot(i, Whole(p));
      assert after[i] == SharedCell(before[i], ids, At(p, j'), i, p);
      ComponentHits(before[i], ids, p, |ppix|, j, ch, k, j', i);
      assert j != j' ==> ppix[j] != ppix[j'];
    } else {
      PointersAtLeast(before, i, id);
    }
  }

  lemma {:induction false} ComponentHits(e: Entry, ids: seq<SharedId>, p: Planes, c: nat, j: nat, ch: Channel, k: nat, j': nat, i: nat)
    requires forall m, n :: 0 <= m < n < |ids| ==> ids[m] != ids[n]
    requires |ids| == At(p, c) && j < c && j' < c && k < Width(p, ch)
    ensures CellPointers(SharedCell(e, ids, At(p, j'), i, p), Record(ids, At(p, j), p, ch, k))
         == if j == j' && RankIn(i, p, ch) == k then 1 else 0
  {
    forall ch': Channel
      ensures Component(ids, At(p, j'), i, p, ch') == Record(ids, At(p, j), p, ch, k)
         <==> j == j' && ch == ch' && RankIn(i, p, ch) == k
    {
      RankInBound(i, p, ch');
      RecordUnique(ids, p, c, j', ch', RankIn(i, p, ch'), j, ch, k);
    }
  }

  /** Components other than the new ones have the same pointers as before. */
  lemma {:induction false} OtherPointers(before: seq<Entry>, after: seq<Entry>, live: Live, ppix: seq<nat>, first: seq<nat>, p: Planes,
                      ids: seq<SharedId>, x: SharedId)
    requires ReadyToShare(before, live, ppix, first, p, ids)
    requires Shares(before, after, ppix, |ppix|, first, p, ids)
    requires !Among(ids, 0, |ids|, x)
    ensures Pointers(after, x) == Pointers(before, x)
  {
    assert ppix[..|ppix|] == ppix;
    forall i: nat | i < |after|
      ensures CellPointers(after[i], x) == CellPointers(before[i], x)
    {
      if i in first {
        var j :| 0 <= j < |ppix| && ppix[j] == AndNot(i, Whole(p));
        forall ch: Channel
          ensures Component(ids, At(p, j), i, p, ch) != x
        {
          RankInBound(i, p, ch);
          RecordUnique(ids, p, |ppix|, j, ch, RankIn(i, p, ch), j, ch, RankIn(i, p, ch));
        }
        assert after[i].shco == Components(ids, At(p, j), i, p);
      }
    }
    PointersSame(after, before, x);
  }

  /** The guard of the branches that count wrongly. */
  predicate CountsRight(p: Planes) {
    p.red == 0 || (p.green != 0 && p.blue != 0)
  }

  lemma {:induction false} CountPerChannel(p: Planes, ch: Channel)
    requires Disjoint(p)
    ensures CountsRight(p) ==> Count(p, ch) == Pow2(Ones(Others(p, ch)))
    ensures !CountsRight(p) && p.green == 0 ==> Count(p, Green) < Pow2(Ones(Others(p, Green)))
    ensures !CountsRight(p) && p.blue == 0 ==> Count(p, Blue) < Pow2(Ones(Others(p, Blue)))
  {
    hide And, Pow2, Ones, Disjoint;
    OthersOnes(p);
    OnesZero(p.red);
    OnesZero(p.green);
    OnesZero(p.blue);
    Pow2Less(Ones(p.blue), Ones(p.red));
    Pow2Less(Ones(p.green), Ones(p.red));
  }

  lemma {:induction false} OthersOnes(p: Planes)
    requires Disjoint(p)
    ensures Ones(p.green + p.blue) == Ones(p.green) + Ones(p.blue)
    ensures Ones(p.red + p.blue) == Ones(p.red) + Ones(p.blue)
    ensures Ones(p.red + p.green) == Ones(p.red) + Ones(p.green)
  {
    hide And, Ones, Disjoint, OthersOr;
    ChannelsDisjoint(p, Red);
    ChannelsDisjoint(p, Green);
    ChannelsDisjoint(p, Blue);
  }

  lemma {:induction false} OnesZero(x: nat)
    ensures Ones(x) == 0 <==> x == 0
  {
    if Ones(x) == 0 {
      FewestZero(x);
    }
  }

  lemma {:induction false} Pow2Less(n: nat, d: nat)
    ensures d > 0 ==> Pow2(n) < Pow2(d + n)
  {
    Pow2Mono(n, d + n);
  }

  /**
   Every component's count is the number of cells that point at it if and only if the red mask is empty or the green
   and blue masks are both non-empty; otherwise some component is counted too low.
   */
  lemma {:induction false} SharedCounts(before: seq<Entry>, after: seq<Entry>, live: Live, live': Live, ppix: seq<nat>, first: seq<nat>,
                     p: Planes, ids: seq<SharedId>)
    requires ReadyToShare(before, live, ppix, first, p, ids) && |ppix| >= 1
    requires Shares(before, after, ppix, |ppix|, first, p, ids)
    requires BlocksCounted(live, live', p, ids, |ppix|)
    ensures Backed(after, live') <==> CountsRight(p)
    ensures KeepsBalance(before, live, after, live') <==> CountsRight(p)
  {
    if CountsRight(p) {
      forall x: SharedId
        ensures RefCount(live', x) - Pointers(after, x) == RefCount(live, x) - Pointers(before, x)
        ensures x in live' ==> live'[x] > 0
      {
        BalancedAt(before, after, live, live', ppix, first, p, ids, x);
      }
    } else {
      var ch := if p.green == 0 then Green else Blue;
      var id := Record(ids, At(p, 0), p, ch, 0);
      CountPerChannel(p, ch);
      RecordPointers(before, after, live, ppix, first, p, ids, 0, ch, 0);
      RecordUnique(ids, p, |ppix|, 0, ch, 0, 0, ch, 0);
      assert BlockCounts(live', ids, At(p, 0), p);
      assert RefCount(live', id) == Count(p, ch) < Pointers(after, id);
      assert RefCount(live, id) == 0;
    }
  }

  lemma {:induction false} BalancedAt(before: seq<Entry>, after: seq<Entry>, live: Live, live': Live, ppix: seq<nat>, first: seq<nat>,
                   p: Planes, ids: seq<SharedId>, x: SharedId)
    requires ReadyToShare(before, live, ppix, first, p, ids) && CountsRight(p)
    requires Shares(before, after, ppix, |ppix|, first, p, ids)
    requires BlocksCounted(live, live', p, ids, |ppix|)
    ensures RefCount(live', x) - Pointers(after, x) == RefCount(live, x) - Pointers(before, x)
    ensures x in live' ==> live'[x] > 0
  {
    hide Pointers, Pow2, Ones, Shares, Disjoint, Reps, AndNot;
    if Among(ids, 0, |ids|, x) {
      var n: nat :| n < |ids| && ids[n] == x;
      var j, ch, k := Locate(p, |ppix|, n);
      assert x == Record(ids, At(p, j), p, ch, k);
      RecordPointers(before, after, live, ppix, first, p, ids, j, ch, k);
      CountPerChannel(p, ch);
      assert BlockCounts(live', ids, At(p, j), p);
      assert RefCount(live', x) == Count(p, ch);
      assert RefCount(live, x) == 0;
    } else {
      OtherPointers(before, after, live, ppix, first, p, ids, x);
      assert RefCount(live', x) == RefCount(live, x);
    }
  }

  /** Two new cells share a channel's component exactly when they differ only in the other channels' bits. */
  lemma {:induction false} SharedComponents(ids: seq<SharedId>, p: Planes, ppix: seq<nat>, ch: Channel, i: nat, j: nat, i': nat, j': nat)
    requires Disjoint(p) && Reps(ppix, Whole(p)) && |ids| == At(p, |ppix|)
    requires forall m, n :: 0 <= m < n < |ids| ==> ids[m] != ids[n]
    requires j < |ppix| && AndNot(i, Whole(p)) == ppix[j] && j' < |ppix| && AndNot(i', Whole(p)) == ppix[j']
    ensures Component(ids, At(p, j), i, p, ch) == Component(ids, At(p, j'), i', p, ch)
       <==> AndNot(i, Others(p, ch)) == AndNot(i', Others(p, ch))
  {
    RankInBound(i, p, ch);
    RankInBound(i', p, ch);
    RecordUnique(ids, p, |ppix|, j, ch, RankIn(i, p, ch), j', ch, RankIn(i', p, ch));
    AndSub(i', Own(p, ch));
    CosetAvoids(ppix[j'], And(i', Own(p, ch)), p, ch);
    Selects(i, ppix[j'], And(i', Own(p, ch)), p, ch);
    Selects(i', ppix[j'], And(i', Own(p, ch)), p, ch);
    assert j < j' ==> ppix[j] < ppix[j'];
    assert j' < j ==> ppix[j'] < ppix[j];
  }

  /** Two cells have one red component exactly if they differ in green and blue bits only, and so on. */
  ghost predicate SharedByBits(cells: seq<Entry>, p: Planes, i: nat, j: nat)
    requires i < |cells| && j < |cells|
  {
    && cells[i].fShared && cells[j].fShared
    && (cells[i].shco.red == cells[j].shco.red <==> AndNot(i, p.green + p.blue) == AndNot(j, p.green + p.blue))
    && (cells[i].shco.green == cells[j].shco.green <==> AndNot(i, p.red + p.blue) == AndNot(j, p.red + p.blue))
    && (cells[i].shco.blue == cells[j].shco.blue <==> AndNot(i, p.red + p.green) == AndNot(j, p.red + p.green))
    && cells[i].shco.red != cells[j].shco.green && cells[i].shco.red != cells[j].shco.blue
    && cells[i].shco.green != cells[j].shco.blue
  }

  /** The components of two cells after AllocShared, channel by channel. */
  lemma {:induction false} SharedPair(before: seq<Entry>, after: seq<Entry>, ppix: seq<nat>, first: seq<nat>, p: Planes,
                                      ids: seq<SharedId>, i: nat, j: nat, i': nat, j': nat)
    requires Disjoint(p) && Reps(ppix, Whole(p)) && |ids| == At(p, |ppix|)
    requires forall m, n :: 0 <= m < n < |ids| ==> ids[m] != ids[n]
    requires Shares(before, after, ppix, |ppix|, first, p, ids) && i < |before| && i' < |before|
    requires i in first && j < |ppix| && AndNot(i, Whole(p)) == ppix[j]
    requires i' in first && j' < |ppix| && AndNot(i', Whole(p)) == ppix[j']
    ensures |after| == |before| && SharedByBits(after, p, i, i')
    ensures after[i].local == before[i].local && after[i].refcnt == before[i].refcnt
  {
    hide Component, Disjoint, Reps, Whole, AndNot;
    forall ch: Channel
      ensures Component(ids, At(p, j), i, p, ch) == Component(ids, At(p, j'), i', p, ch)
         <==> AndNot(i, Others(p, ch)) == AndNot(i', Others(p, ch))
    {
      SharedComponents(ids, p, ppix, ch, i, j, i', j');
    }
    ChannelsDiffer(ids, p, |ppix|, i, j, i', j', Red, Green);
    ChannelsDiffer(ids, p, |ppix|, i, j, i', j', Red, Blue);
    ChannelsDiffer(ids, p, |ppix|, i, j, i', j', Green, Blue);
  }

  /** All new cells: private as AllocPseudo left them, with their old colours and the components their bits say. */
  ghost predicate NewCellsShare(old': seq<Entry>, cells: seq<Entry>, all: seq<nat>, p: Planes) {
    && |cells| == |old'|
    && (forall i :: i in all ==> i < |cells| && cells[i].refcnt == -1 && cells[i].local == old'[i].local)
    && (forall i, j :: i in all && j in all ==> SharedByBits(cells, p, i, j))
  }

  lemma {:induction false} AllShared(old': seq<Entry>, before: seq<Entry>, after: seq<Entry>, live: Live, ppix: seq<nat>,
                                     first: seq<nat>, p: Planes, ids: seq<SharedId>)
    requires ClaimsExactly(old', before, first) && ReadyToShare(before, live, ppix, first, p, ids)
    requires Shares(before, after, ppix, |ppix|, first, p, ids)
    ensures NewCellsShare(old', after, first, p)
  {
    hide Disjoint, Reps, Whole, AndNot, SharedByBits, Shares, Backed;
    SameSize(before, after, ppix, first, p, ids);
    forall i, i' | i in first && i' in first
      ensures i < |after| && i' < |after| && SharedByBits(after, p, i, i')
      ensures |after| == |old'| && after[i].refcnt == -1 && after[i].local == old'[i].local
    {
      var j: nat :| j < |ppix| && ppix[j] == AndNot(i, Whole(p));
      var j': nat :| j' < |ppix| && ppix[j'] == AndNot(i', Whole(p));
      SharedPair(before, after, ppix, first, p, ids, i, j, i', j');
    }
  }

  lemma {:induction false} SameSize(before: seq<Entry>, after: seq<Entry>, ppix: seq<nat>, first: seq<nat>, p: Planes,
                                    ids: seq<SharedId>)
    requires Shares(before, after, ppix, |ppix|, first, p, ids)
    ensures |after| == |before|
  {
  }

  lemma {:induction false} ChannelsDiffer(ids: seq<SharedId>, p: Planes, c: nat, i: nat, j: nat, i': nat, j': nat,
                                          ch: Channel, ch': Channel)
    requires |ids| == At(p, c) && j < c && j' < c && ch != ch'
    requires forall m, n :: 0 <= m < n < |ids| ==> ids[m] != ids[n]
    ensures Component(ids, At(p, j), i, p, ch) != Component(ids, At(p, j'), i', p, ch')
  {
    hide Record, RankIn, Width;
    RankInBound(i, p, ch);
    RankInBound(i', p, ch');
    RecordUnique(ids, p, c, j, ch, RankIn(i, p, ch), j', ch', RankIn(i', p, ch'));
  }

  // ---- Backing out of a failed AllocColorPlanes

  /** `cells` are `before` with the pixels in `rest` still claimed. */
  ghost predicate StillClaimed(before: seq<Entry>, cells: seq<Entry>, rest: seq<nat>) {
    && |cells| == |before| && Distinct(rest)
    && (forall v :: v in rest ==> v < |before|)
    && (forall i: nat :: i < |before| ==> cells[i] == if i in rest then Claimed(before[i]) else before[i])
  }

  lemma {:induction false} RemoveLater(a: seq<nat>, b: seq<nat>, v: nat)
    requires v !in a
    ensures RemoveFirst(a + b, v) == a + RemoveFirst(b, v)
  {
    if |a| == 0 {
      assert a + b == b;
    } else {
      assert (a + b)[1..] == a[1..] + b;
      RemoveLater(a[1..], b, v);
    }
  }

  lemma {:induction false} RemoveDistinct(rest: seq<nat>, v: nat)
    requires Distinct(rest) && v in rest
    ensures Distinct(RemoveFirst(rest, v))
    ensures forall x :: x in RemoveFirst(rest, v) <==> x in rest && x != v
  {
    var h, t := rest[0], rest[1..];
    assert rest == [h] + t;
    assert h !in t;
    if h != v {
      RemoveDistinct(t, v);
      DistinctConcat([h], RemoveFirst(t, v));
    }
  }

  /** Releasing pixels that an old list does not hold eats only into the new part and restores its cells. */
  lemma {:induction false} BackOutSteps(before: seq<Entry>, st: FreeState, tests: seq<nat>, held: seq<nat>,
                                        fresh': seq<nat>)
    returns (rest: seq<nat>)
    requires st.list == held + fresh' && StillClaimed(before, st.cells, fresh')
    requires forall t :: t in tests ==> t !in held
    requires forall v :: v in fresh' ==> before[v].refcnt == 0 && !before[v].fShared
    ensures FreeSteps(st, tests).list == held + rest
    ensures StillClaimed(before, FreeSteps(st, tests).cells, rest)
    ensures forall v :: v in rest ==> v in fresh'
  {
    rest := fresh';
    if |tests| != 0 {
      var n := |tests| - 1;
      var t := tests[n];
      rest := BackOutSteps(before, st, tests[..n], held, fresh');
      assert t in tests;
      if t < |before| && t in rest {
        RemoveLater(held, rest, t);
        RemoveDistinct(rest, t);
        rest := RemoveFirst(rest, t);
      }
    }
  }

  /** FreeColors on the pixels just allocated asks for each of them. */
  lemma {:induction false} AsksForAll(bases: seq<nat>, mask: nat, v: nat)
    requires Reps(bases, mask)
    ensures v in AllTests(bases, mask) <==> v in AllPixels(bases, mask)
  {
    hide And, AndNot, Or, Sub, AllTests, AllPixels, Ones, Pow2;
    AllPixelsExact(bases, mask);
    TestsCover(bases, mask, v);
    AndSplit(v, mask);
    AndSub(v, mask);
    AndNotSub(v, mask);
    if v in AllPixels(bases, mask) {
      DisjointSum(AndNot(v, mask), And(v, mask), mask);
      assert Combines(AndNot(v, mask), And(v, mask), mask, v);
    }
    if b: nat, s: nat :| b in bases && Combines(b, s, mask, v) {
      DisjointSum(b, s, mask);
    }
  }

  /** Freeing a whole allocation right after making it leaves the list and the cells as they were. */
  lemma {:induction false} BackOut(before: seq<Entry>, cells: seq<Entry>, held: seq<nat>, pixels: seq<nat>, mask: nat, c: nat)
    requires Allocation(before, pixels, mask, c) && ClaimsExactly(before, cells, pixels)
    requires forall v :: v in held ==> v < |before| && before[v].refcnt != 0
    requires forall i :: 0 <= i < |before| && before[i].refcnt == 0 ==> !before[i].fShared
    ensures var st := FreeSteps(FreeState(held + pixels, cells, Success), AllTests(pixels[..c], mask));
            st.list == held && st.cells == before
  {
    var st0, tests := FreeState(held + pixels, cells, Success), AllTests(pixels[..c], mask);
    BasesReps(before, mask, pixels[..c]);
    forall v
      ensures v in tests <==> v in pixels
    {
      AsksForAll(pixels[..c], mask, v);
    }
    var rest := BackOutSteps(before, st0, tests, held, pixels);
    if |rest| != 0 {
      var v := rest[0];
      assert v in rest && v in pixels && v !in held;
      FreeStepsExact(st0, tests, v);
      DistinctMultiset(pixels, v);
      DistinctMultiset(rest, v);
      assert false;
    }
    assert held + rest == held;
    assert FreeSteps(st0, tests).cells == before;
  }

  /** Equal cells and equal balance mean equal counts. */
  lemma {:induction false} SameLive(cells: seq<Entry>, live: Live, live': Live)
    requires Backed(cells, live) && Backed(cells, live') && KeepsBalance(cells, live, cells, live')
    ensures live == live'
  {
    forall x: SharedId
      ensures RefCount(live, x) == RefCount(live', x)
      ensures x in live <==> x in live'
    {
      assert RefCount(live', x) - Pointers(cells, x) == RefCount(live, x) - Pointers(cells, x);
    }
    SameCounts(live, live');
  }

  /** What the new part of the client's list looks like to AllocShared. */
  lemma {:induction false} Ready(before: seq<Entry>, cells: seq<Entry>, live: Live, pixels: seq<nat>, c: nat, mask: nat, p: Planes,
              ids: seq<SharedId>)
    requires Allocation(before, pixels, mask, c) && ClaimsExactly(before, cells, pixels) && Backed(cells, live)
    requires Disjoint(p) && Whole(p) == mask && |ids| == At(p, c)
    requires forall m, n :: 0 <= m < n < |ids| ==> ids[m] != ids[n]
    requires forall n :: 0 <= n < |ids| ==> ids[n] !in live
    ensures ReadyToShare(cells, live, pixels[..c], pixels, p, ids)
  {
    var bases := pixels[..c];
    BasesReps(before, mask, bases);
    AllPixelsExact(bases, mask);
    assert forall j :: 0 <= j < |bases| ==> bases[j] in bases;
    forall i: nat
      ensures i in pixels <==> i < |cells| && AndNot(i, mask) in bases
      ensures i in pixels && i < |cells| ==> !cells[i].fShared
    {
    }
  }

  /** The error exit: FreeColors takes back everything AllocPseudo gave. */
  method Undo(cmap: Colormap, client: nat, pixels: seq<nat>, mask: nat, ghost before: seq<Entry>,
              ghost lists: seq<seq<nat>>, ghost all: seq<nat>)
    requires cmap.Valid() && client < |lists| && cmap.clientPixels == lists[client := lists[client] + all]
    requires mask < Pow2(cmap.nplanes) && |pixels| <= |all| && pixels == all[..|pixels|]
    requires Allocation(before, all, mask, |pixels|) && ClaimsExactly(before, cmap.red[..], all)
    requires forall v :: v in lists[client] ==> v < |before| && before[v].refcnt != 0
    requires forall i :: 0 <= i < |before| && before[i].refcnt == 0 ==> !before[i].fShared
    modifies cmap.red, cmap`freeRed, cmap`clientPixels, cmap.heap
    ensures cmap.Valid() && cmap.base == old(cmap.base)
    ensures KeepsBalance(old(cmap.red[..]), old(cmap.heap.live), cmap.red[..], cmap.heap.live)
    ensures !cmap.allAllocated ==> cmap.red[..] == before && cmap.clientPixels == lists
  {
    hide And, Or, Ones, Pow2, Accounts, Backed, FreeSteps, Tests, RemoveFirst, Allocation, ClaimsExactly;
    LowMask(mask, cmap.nplanes);
    BackOut(before, cmap.red[..], lists[client], all, mask, |pixels|);
    var ignored := cmap.FreeColors(client, pixels, mask);
    assert lists[client := lists[client] + all][client := lists[client]] == lists;
  }

  /** The new cells of a successful AllocColorPlanes: claimed, then given their components. */
  ghost predicate NewPlanes(before: seq<Entry>, after: seq<Entry>, all: seq<nat>, colors: nat, p: Planes, mask: nat,
                            ids: seq<SharedId>) {
    && Allocation(before, all, mask, colors)
    && exists claimed: seq<Entry> ::
         ClaimsExactly(before, claimed, all) && Shares(claimed, after, all[..colors], colors, all, p, ids)
  }

  /**
   Allocate `colors` pixels with r, g and b planes. On success the plane mask splits into three masks of those
   weights and every new cell has its three components, whose counts match their pointers exactly when CountsRight.
   When the shared records cannot be allocated, everything goes back to what it was.
   */
  method AllocColorPlanes(cmap: Colormap, client: nat, colors: nat, r: nat, g: nat, b: nat, contig: bool,
                          tempFails: bool, listFails: bool, ids: seq<SharedId>, got: nat)
    returns (status: Status, pixels: seq<nat>, p: Planes, mask: nat, first: nat)
    requires cmap.Valid() && client < |cmap.clientPixels| && 1 <= colors <= 0xFFFF
    requires |ids| == colors * Pow2(r) + colors * Pow2(g) + colors * Pow2(b)
    requires forall m, n :: 0 <= m < n < |ids| ==> ids[m] != ids[n]
    requires forall n :: 0 <= n < |ids| ==> ids[n] !in cmap.heap.live
    modifies cmap.red, cmap`freeRed, cmap`clientPixels, cmap.heap
    ensures Accounts(cmap.red[..], cmap.freeRed, cmap.clientPixels, cmap.base) && cmap.base == old(cmap.base)
    ensures status == Success || status == BadAlloc
    ensures status == Success ==>
              && Eligible(mask, r + g + b, cmap.nplanes, contig) && Splits(p, mask, r, g, b)
              && (r + g + b > 0 ==> Preferred(old(cmap.red[..]), colors, mask, r + g + b, cmap.nplanes))
              && |cmap.clientPixels| == |old(cmap.clientPixels)|
              && cmap.clientPixels == old(cmap.clientPixels)[client := cmap.clientPixels[client]]
              && first == |old(cmap.clientPixels[client])| <= |cmap.clientPixels[client]|
              && cmap.clientPixels[client][..first] == old(cmap.clientPixels[client])
              && NewPlanes(old(cmap.red[..]), cmap.red[..], cmap.clientPixels[client][first..], colors, p, mask, ids)
              && pixels == cmap.clientPixels[client][first..][..colors]
              && NewCellsShare(old(cmap.red[..]), cmap.red[..], cmap.clientPixels[client][first..], p)
    ensures status == Success ==> (cmap.Valid() <==> CountsRight(p))
    ensures status == Success ==>
              (KeepsBalance(old(cmap.red[..]), old(cmap.heap.live), cmap.red[..], cmap.heap.live) <==> CountsRight(p))
    ensures status != Success && !tempFails && !listFails && got >= |ids| ==>
              || colors * Pow2(r + g + b) > old(cmap.freeRed)
              || Hopeless(old(cmap.red[..]), colors, r + g + b, cmap.nplanes, contig)
    ensures status != Success ==> cmap.Valid()
    ensures status != Success && (!cmap.allAllocated || old(cmap.freeRed) == 0) ==>
              && cmap.red[..] == old(cmap.red[..]) && cmap.clientPixels == old(cmap.clientPixels)
              && cmap.heap.live == old(cmap.heap.live)
  {
    hide And, AndNot, Rank, Accounts, Backed, Pow2;
    ghost var cells, lists, live, free := cmap.red[..], cmap.clientPixels, cmap.heap.live, cmap.freeRed;
    BackOutReady(cells, free, lists, cmap.base, client);
    p := Planes(0, 0, 0);
    status, pixels, mask, first := cmap.AllocPseudo(client, colors, r + g + b, contig, tempFails, listFails);
    if status != Success {
      return;
    }
    p := SplitMask(mask, r, g, b, cmap.nplanes);
    RecordTotal(p, colors);
    var all := cmap.clientPixels[client][first..];
    ghost var claimed := cmap.red[..];
    TakesFree(cells, claimed, free, lists, cmap.base, all, mask, colors);
    Ready(cells, claimed, live, all, colors, mask, p, ids);
    var ok := AllocShared(cmap.red, cmap.heap, pixels, p, all, ids, got);
    if !ok {
      assert cmap.clientPixels[client] == lists[client] + all;
      Undo(cmap, client, pixels, mask, cells, lists, all);
      if !cmap.allAllocated {
        BalanceChain(cells, live, claimed, live, cells, cmap.heap.live);
        SameLive(cells, live, cmap.heap.live);
      }
      return BadAlloc, pixels, p, mask, first;
    }
    SharedCounts(claimed, cmap.red[..], live, cmap.heap.live, pixels, all, p, ids);
    AllShared(cells, claimed, cmap.red[..], live, pixels, all, p, ids);
    SharingKeepsAccounts(claimed, cmap.red[..], cmap.freeRed, cmap.clientPixels, cmap.base, pixels, all, p, ids);
    BalanceFrom(cells, live, claimed, cmap.red[..], cmap.heap.live);
  }

  /** A map without free cells gives none. */
  lemma {:induction false} TakesFree(before: seq<Entry>, after: seq<Entry>, free: int, lists: seq<seq<nat>>, base: seq<nat>,
                  pixels: seq<nat>, mask: nat, count: nat)
    requires Accounts(before, free, lists, base) && count >= 1
    requires Allocation(before, pixels, mask, count) && ClaimsExactly(before, after, pixels)
    ensures free > 0
  {
    ClaimCountsFree(before, after, pixels);
  }

  /** Balance can be measured from either of two balanced states. */
  lemma {:induction false} BalanceFrom(a: seq<Entry>, live: Live, b: seq<Entry>, c: seq<Entry>, live': Live)
    requires KeepsBalance(a, live, b, live)
    ensures KeepsBalance(a, live, c, live') <==> KeepsBalance(b, live, c, live')
  {
  }

  /** Pixels on a list are allocated, and unallocated cells are not shared. */
  lemma {:induction false} BackOutReady(cells: seq<Entry>, free: int, lists: seq<seq<nat>>, base: seq<nat>, client: nat)
    requires Accounts(cells, free, lists, base) && client < |lists|
    ensures forall v :: v in lists[client] ==> v < |cells| && cells[v].refcnt != 0
    ensures forall i :: 0 <= i < |cells| && cells[i].refcnt == 0 ==> !cells[i].fShared
  {
    forall v | v in lists[client]
      ensures v < |cells| && cells[v].refcnt != 0
    {
      HoldingsAtLeast(lists, client, v);
      if v < |cells| {
        assert CellAccounts(cells[v], Holdings(lists, v), base[v]);
      }
    }
    forall i | 0 <= i < |cells| && cells[i].refcnt == 0
      ensures !cells[i].fShared
    {
      assert CellAccounts(cells[i], Holdings(lists, i), base[i]);
    }
  }

  lemma {:induction false} SharingKeepsAccounts(before: seq<Entry>, after: seq<Entry>, free: int, lists: seq<seq<nat>>, base: seq<nat>,
                             ppix: seq<nat>, first: seq<nat>, p: Planes, ids: seq<SharedId>)
    requires Accounts(before, free, lists, base) && Shares(before, after, ppix, |ppix|, first, p, ids)
    requires forall i: nat :: i < |before| && i in first ==> before[i].refcnt == AllocPrivate
    ensures Accounts(after, free, lists, base)
  {
    assert ppix[..|ppix|] == ppix;
    forall i: nat | i < |before|
      ensures after[i].refcnt == before[i].refcnt
      ensures CellAccounts(after[i], Holdings(lists, i), base[i])
    {
      assert CellAccounts(before[i], Holdings(lists, i), base[i]);
      if i in first && AndNot(i, Whole(p)) in ppix {
        var j :| 0 <= j < |ppix| && ppix[j] == AndNot(i, Whole(p));
      }
    }
    CountFreeSame(before, after);
  }

  lemma {:induction false} CountFreeSame(a: seq<Entry>, b: seq<Entry>)
    requires |a| == |b| && forall i: nat :: i < |a| ==> a[i].refcnt == b[i].refcnt
    ensures CountFree(a) == CountFree(b)
  {
    if |a| != 0 {
      CountFreeSame(a[..|a| - 1], b[..|b| - 1]);
    }
  }

  /** One colour with one red plane and no others, in a map of two empty cells: the counts come out wrong. */
  method RedPlaneMiscounts() returns (cmap: Colormap)
    ensures fresh(cmap) && !cmap.Valid() && cmap.red.Length == 2
  {
    var heap := new SharedHeap();
    cmap := new Colormap(1, 1, heap, false, 0);
    assert Pow2(0) == 1 && Pow2(1) == 2;
    ghost var cells := cmap.red[..];
    EmptyPairFits(cells);
    var status, pixels, p, mask, first := AllocColorPlanes(cmap, 0, 1, 1, 0, 0, false, false, false, [1, 2, 3, 4], 4);
    OnesZero(p.red);
    OnesZero(p.green);
  }

  lemma {:induction false} EmptyPairFits(cells: seq<Entry>)
    requires |cells| == 2 && cells[0].refcnt == cells[1].refcnt == 0
    ensures !Hopeless(cells, 1, 1, 1, false)
  {
    assert Pow2(0) == 1 && Pow2(1) == 2 && Ones(0) == 0 && Ones(1) == 1 && And(0, 1) == 0;
    forall s: nat | Sub(s, 1)
      ensures s <= 1
    {
      SubBound(s, 1);
    }
    BasesExact(cells, 1, 2);
    assert CosetFree(cells, 0, 1);
    assert 0 in Bases(cells, 1, 2);
    assert Eligible(1, 1, 1, false);
  }
}
