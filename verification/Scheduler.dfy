/**
 The request scheduler (dix/dispatch.c, SmartScheduleClient and the penalty step of Dispatch).
 */
module Scheduler {
  import opened Options

  const SMART_MIN_PRIORITY: int := -20
  const SMART_MAX_PRIORITY: int := 20
  const LEVELS: nat := 41

  datatype Client = Client(index: nat, priority: int, smartPriority: int, startTick: int, stopTick: int)

  predicate InRange(c: Client) {
    SMART_MIN_PRIORITY <= c.smartPriority <= SMART_MAX_PRIORITY
  }

  predicate AllInRange(cs: seq<Client>) {
    forall i :: 0 <= i < |cs| ==> InRange(cs[i])
  }

  /** Clients which have not run in a while go up towards 0. */
  function Praised(c: Client, now: int, idle: int): Client {
    if now - c.stopTick >= idle && c.smartPriority < 0 then c.(smartPriority := c.smartPriority + 1) else c
  }

  function AllPraised(cs: seq<Client>, now: int, idle: int): (r: seq<Client>)
    ensures |r| == |cs|
  {
    seq(|cs|, i requires 0 <= i < |cs| => Praised(cs[i], now, idle))
  }

  /** `(index - last) & 0xff` */
  function Robin(index: int, last: int): (r: int)
    ensures 0 <= r < 256
  {
    (index - last) % 256
  }

  function Level(c: Client): nat
    requires InRange(c)
  {
    c.smartPriority - SMART_MIN_PRIORITY
  }

  /** The comparison that makes `b` replace `a` as the best so far. */
  predicate Better(a: Client, b: Client, last: seq<int>)
    requires InRange(a) && InRange(b) && |last| == LEVELS
  {
    || b.priority > a.priority
    || (b.priority == a.priority
        && (|| b.smartPriority > a.smartPriority
            || (b.smartPriority == a.smartPriority
                && Robin(b.index, last[Level(b)]) > Robin(a.index, last[Level(a)]))))
  }

  lemma {:induction false} BetterTransitive(a: Client, b: Client, c: Client, last: seq<int>)
    requires InRange(a) && InRange(b) && InRange(c) && |last| == LEVELS
    ensures Better(a, b, last) && Better(b, c, last) ==> Better(a, c, last)
    ensures Better(a, b, last) && !Better(c, b, last) ==> Better(a, c, last)
    ensures !Better(b, a, last) && Better(b, c, last) ==> Better(a, c, last)
  {
  }

  /** The first of the lexicographically largest (priority, smart priority, robin). */
  ghost predicate IsFirstBest(cs: seq<Client>, last: seq<int>, best: nat)
    requires AllInRange(cs) && |last| == LEVELS
  {
    && best < |cs|
    && (forall i :: 0 <= i < |cs| ==> !Better(cs[best], cs[i], last))
    && (forall i :: 0 <= i < best ==> Better(cs[i], cs[best], last))
  }

  /** The choice on the fields: the first of the largest by priority, then smart priority, then robin distance. */
  predicate IsLargest(cs: seq<Client>, last: seq<int>, best: nat) {
    && best < |cs|
    && (forall i :: 0 <= i < |cs| ==> cs[i].priority <= cs[best].priority)
    && (forall i :: 0 <= i < |cs| && cs[i].priority == cs[best].priority ==>
          cs[i].smartPriority <= cs[best].smartPriority)
    && 0 <= cs[best].smartPriority + 20 < |last|
    && (forall i :: 0 <= i < |cs| && cs[i].priority == cs[best].priority
                    && cs[i].smartPriority == cs[best].smartPriority ==>
          var l := last[cs[best].smartPriority + 20];
          && (cs[i].index - l) % 256 <= (cs[best].index - l) % 256
          && (i < best ==> (cs[i].index - l) % 256 < (cs[best].index - l) % 256))
  }

  /** Praise and choice on the fields; only the chosen client's start tick may be set. */
  lemma {:induction false} ChoiceMeans(cs: seq<Client>, last: seq<int>, best: nat, now: int, idle: int, tick: int)
    requires var praised := AllPraised(cs, now, idle);
             AllInRange(praised) && |last| == LEVELS && IsFirstBest(praised, last, best)
    ensures best < |cs|
    ensures var praised := AllPraised(cs, now, idle);
            IsLargest(praised[best := praised[best].(startTick := tick)], last, best)
    ensures forall i :: 0 <= i < |cs| ==>
              AllPraised(cs, now, idle)[i] == cs[i].(smartPriority := cs[i].smartPriority
                + if now - cs[i].stopTick >= idle && cs[i].smartPriority < 0 then 1 else 0)
  {
    var praised := AllPraised(cs, now, idle);
    forall i | 0 <= i < |cs|
      ensures !Better(praised[best], praised[i], last) && (i < best ==> Better(praised[i], praised[best], last))
    {
    }
  }

  class SmartScheduler {
    /** ready_clients, in list order. */
    var ready: seq<Client>
    var lastIndex: array<int>
    /** SmartLastClient, named by its index. */
    var lastClient: Option<nat>
    var slice: int
    const interval: int
    const maxSlice: int
    var latencyLimited: nat
    /** All calls so far, and the last indices before the first of them. */
    ghost var log: seq<Call>
    ghost const start: seq<int>

    ghost predicate Valid()
      reads this, lastIndex
    {
      && lastIndex.Length == LEVELS && AllInRange(ready) && 0 < interval <= slice && slice <= maxSlice + interval
      && |start| == LEVELS && AreCalls(log, start) && lastIndex[..] == LastAfter(log, start)
    }

    constructor (interval: int, maxSlice: int)
      requires 0 < interval
      requires 0 <= maxSlice
      ensures Valid() && ready == [] && fresh(lastIndex) && log == []
    {
      this.interval, this.maxSlice := interval, maxSlice;
      log, start := [], seq(LEVELS, _ => 0);
      ready, lastClient, slice, latencyLimited := [], None, interval, 0;
      lastIndex := new int[LEVELS](_ => 0);
    }

    /** The loop over the ready clients: praise each, and remember the best so far. */
    method PickBest(now: int, idle: int) returns (best: nat)
      requires Valid() && ready != []
      modifies this`ready
      ensures ready == AllPraised(old(ready), now, idle) && AllInRange(ready)
      ensures IsFirstBest(ready, lastIndex[..], best)
    {
      hide Robin;
      ghost var cs0, last := ready, lastIndex[..];
      ghost var praised := AllPraised(ready, now, idle);
      best := 0;
      var bestRobin := 0;
      var i := 0;
      while i < |ready|
        invariant 0 <= i <= |ready| == |cs0|
        invariant AllInRange(praised[..i]) && AllInRange(ready)
        invariant forall j :: 0 <= j < |ready| ==> ready[j] == if j < i then praised[j] else cs0[j]
        invariant i > 0 ==> IsFirstBest(praised[..i], last, best)
        invariant i > 0 ==> bestRobin == Robin(praised[best].index, last[Level(praised[best])])
      {
        var pClient := ready[i];
        if now - pClient.stopTick >= idle {
          if pClient.smartPriority < 0 {
            pClient := pClient.(smartPriority := pClient.smartPriority + 1);
          }
        }
        ready := ready[i := pClient];
        assert praised[..i + 1] == praised[..i] + [pClient];
        var robin := Robin(pClient.index, lastIndex[pClient.smartPriority - SMART_MIN_PRIORITY]);
        if i > 0 {
          OneMore(praised[..i], pClient, last, best);
        }
        if i == 0
           || pClient.priority > ready[best].priority
           || (pClient.priority == ready[best].priority
               && (pClient.smartPriority > ready[best].smartPriority
                   || (pClient.smartPriority == ready[best].smartPriority && robin > bestRobin)))
        {
          best, bestRobin := i, robin;
        }
        i := i + 1;
      }
      assert praised[..|ready|] == praised && ready == praised;
    }

    /** Pick the client to run. It is called only when some client is ready. */
    method SmartScheduleClient(now: int) returns (best: nat)
      requires Valid() && ready != []
      modifies this, lastIndex
      ensures Valid() && lastIndex == old(lastIndex) && latencyLimited == old(latencyLimited)
      ensures var praised := AllPraised(old(ready), now, 2 * old(slice));
              && AllInRange(praised) && IsFirstBest(praised, old(lastIndex[..]), best)
              && lastIndex[..] == old(lastIndex[..])[Level(praised[best]) := praised[best].index]
              && ready == praised[best := if old(lastClient) != Some(praised[best].index)
                                          then praised[best].(startTick := now) else praised[best]]
              && lastClient == Some(praised[best].index)
      ensures best < |ready| == |old(ready)|
      ensures forall i :: 0 <= i < |ready| ==>
                ready[i] == old(ready)[i].(
                  smartPriority := old(ready)[i].smartPriority
                    + (if now - old(ready)[i].stopTick >= 2 * old(slice) && old(ready)[i].smartPriority < 0 then 1 else 0),
                  startTick := if i == best && old(lastClient) != Some(old(ready)[i].index) then now
                               else old(ready)[i].startTick)
      ensures IsLargest(ready, old(lastIndex[..]), best)
      ensures slice == if |ready| > 1 || latencyLimited > 0 then interval
                       else if now - ready[best].startTick > 1000 && old(slice) < maxSlice then old(slice) + interval
                       else old(slice)
      ensures log == old(log) + [Call(AllPraised(old(ready), now, 2 * old(slice)), best)]
    {
      hide Better, IsFirstBest, IsLargest, Robin, AreCalls, LastAfter, AllPraised;
      ghost var call, last := Call(AllPraised(ready, now, 2 * slice), 0), lastIndex[..];
      best := PickBest(now, 2 * slice);
      ChoiceMeans(old(ready), last, best, now, 2 * slice, now);
      ChoiceMeans(old(ready), last, best, now, 2 * slice, ready[best].startTick);
      assert ready[best := ready[best].(startTick := ready[best].startTick)] == ready;
      call := call.(best := best);
      OneMoreCall(log, start, call);
      log := log + [call];
      lastIndex[ready[best].smartPriority - SMART_MIN_PRIORITY] := ready[best].index;
      if lastClient != Some(ready[best].index) {
        lastClient := Some(ready[best].index);
        ready := ready[best := ready[best].(startTick := now)];
      }
      if |ready| == 1 && latencyLimited == 0 {
        if now - ready[best].startTick > 1000 && slice < maxSlice {
          slice := slice + interval;
        }
      } else {
        slice := interval;
      }
    }

    /** A client that used up its slice goes down one level. */
    method Penalize(k: nat)
      requires Valid() && k < |ready|
      modifies this`ready
      ensures Valid() && |ready| == |old(ready)| && forall i :: 0 <= i < |ready| && i != k ==> ready[i] == old(ready)[i]
      ensures ready[k] == old(ready)[k].(smartPriority := ready[k].smartPriority)
      ensures ready[k].smartPriority == (if old(ready)[k].smartPriority == SMART_MIN_PRIORITY
                                         then SMART_MIN_PRIORITY else old(ready)[k].smartPriority - 1)
    {
      if ready[k].smartPriority > SMART_MIN_PRIORITY {
        ready := ready[k := ready[k].(smartPriority := ready[k].smartPriority - 1)];
      }
    }
  }

  /** Extending the search by one client. */
  lemma {:induction false} OneMore(cs: seq<Client>, c: Client, last: seq<int>, best: nat)
    requires AllInRange(cs) && InRange(c) && |last| == LEVELS && IsFirstBest(cs, last, best)
    ensures AllInRange(cs + [c])
    ensures IsFirstBest(cs + [c], last, if Better(cs[best], c, last) then |cs| else best)
  {
    var all := cs + [c];
    forall i | 0 <= i < |cs|
      ensures Better(cs[best], c, last) ==> Better(cs[i], c, last)
    {
      assert !Better(cs[best], cs[i], last);
      BetterTransitive(cs[i], cs[best], c, last);
    }
  }

  // ---- Runs of the scheduler

  /** One call of SmartScheduleClient: the praised clients it compares and the place it picks. */
  datatype Call = Call(ready: seq<Client>, best: nat)

  ghost predicate IsCall(c: Call, last: seq<int>)
    requires |last| == LEVELS
  {
    AllInRange(c.ready) && c.best < |c.ready| && IsFirstBest(c.ready, last, c.best)
  }

  /** SmartLastIndex after a call. */
  function Turn(c: Call, last: seq<int>): (r: seq<int>)
    requires |last| == LEVELS && AllInRange(c.ready) && c.best < |c.ready|
    ensures |r| == LEVELS
  {
    last[Level(c.ready[c.best]) := c.ready[c.best].index]
  }

  ghost predicate AreCalls(calls: seq<Call>, last: seq<int>)
    requires |last| == LEVELS
  {
    calls == [] || (IsCall(calls[0], last) && AreCalls(calls[1..], Turn(calls[0], last)))
  }

  ghost function LastAfter(calls: seq<Call>, last: seq<int>): (r: seq<int>)
    requires |last| == LEVELS && AreCalls(calls, last)
    ensures |r| == LEVELS
  {
    if calls == [] then last else LastAfter(calls[1..], Turn(calls[0], last))
  }

  lemma {:induction false} OneMoreCall(calls: seq<Call>, last: seq<int>, c: Call)
    requires |last| == LEVELS && AreCalls(calls, last) && IsCall(c, LastAfter(calls, last))
    ensures AreCalls(calls + [c], last)
    ensures LastAfter(calls + [c], last) == Turn(c, LastAfter(calls, last))
  {
    if calls == [] {
      assert [c][1..] == [];
    } else {
      OneMoreCall(calls[1..], Turn(calls[0], last), c);
      assert (calls + [c])[1..] == calls[1..] + [c];
    }
  }

  /** Cutting a run: what comes after the first `n` calls is a run again. */
  lemma {:induction false} CallsFrom(calls: seq<Call>, last: seq<int>, n: nat)
    requires |last| == LEVELS && AreCalls(calls, last) && n <= |calls|
    ensures AreCalls(calls[..n], last) && AreCalls(calls[n..], LastAfter(calls[..n], last))
  {
    hide IsFirstBest, AllInRange, Turn;
    if n == 0 {
      assert calls[0..] == calls && calls[..0] == [];
    } else {
      CallsFrom(calls[1..], Turn(calls[0], last), n - 1);
      assert calls[..n][1..] == calls[1..][..n - 1] && calls[..n][0] == calls[0];
      assert calls[1..][n - 1..] == calls[n..];
    }
  }

  // ---- Waiting at one level

  /** A selection among ready clients of one level: the first of the largest robin distances from the last index. */
  predicate Selects(ready: seq<int>, last: int, at: nat) {
    && at < |ready|
    && (forall i :: 0 <= i < |ready| ==> Robin(ready[i], last) <= Robin(ready[at], last))
    && (forall i :: 0 <= i < at ==> Robin(ready[i], last) < Robin(ready[at], last))
  }

  /** The indices of the clients at one level, in list order. */
  function AtLevel(cs: seq<Client>, level: int): seq<int> {
    if cs == [] then []
    else (if cs[0].smartPriority == level then [cs[0].index] else []) + AtLevel(cs[1..], level)
  }

  lemma {:induction false} AtLevelFrom(cs: seq<Client>, level: int, k: nat) returns (i: nat)
    requires k < |AtLevel(cs, level)|
    ensures i < |cs| && cs[i].smartPriority == level && cs[i].index == AtLevel(cs, level)[k]
  {
    if cs[0].smartPriority == level {
      if k == 0 {
        i := 0;
      } else {
        var n := AtLevelFrom(cs[1..], level, k - 1);
        i := n + 1;
      }
    } else {
      var n := AtLevelFrom(cs[1..], level, k);
      i := n + 1;
    }
  }

  lemma {:induction false} AtLevelAround(cs: seq<Client>, level: int, k: nat)
    requires k < |cs| && cs[k].smartPriority == level
    ensures AtLevel(cs, level) == AtLevel(cs[..k], level) + [cs[k].index] + AtLevel(cs[k + 1..], level)
  {
    if k > 0 {
      AtLevelAround(cs[1..], level, k - 1);
      assert cs[..k][1..] == cs[1..][..k - 1] && cs[1..][k..] == cs[k + 1..];
    }
  }

  /** The round a call means for the level of the client it picks. */
  function RoundOf(c: Call): Round
    requires c.best < |c.ready|
  {
    var level := c.ready[c.best].smartPriority;
    Round(AtLevel(c.ready, level), |AtLevel(c.ready[..c.best], level)|)
  }

  /** The clients at the level all have one fixed priority. */
  predicate OnePriority(cs: seq<Client>, level: int, priority: int) {
    forall i :: 0 <= i < |cs| && cs[i].smartPriority == level ==> cs[i].priority == priority
  }

  /** If its clients have one priority, a call selects within the level of the client it picks. */
  lemma {:induction false} OneLevel(c: Call, last: seq<int>, priority: int)
    requires |last| == LEVELS && IsCall(c, last) && OnePriority(c.ready, c.ready[c.best].smartPriority, priority)
    ensures var r, x := RoundOf(c), c.ready[c.best];
            Selects(r.ready, last[Level(x)], r.at) && r.ready[r.at] == x.index
  {
    hide Robin;
    var r, x := RoundOf(c), c.ready[c.best];
    var before, after := c.ready[..c.best], c.ready[c.best + 1..];
    AtLevelAround(c.ready, x.smartPriority, c.best);
    forall k | 0 <= k < |r.ready|
      ensures Robin(r.ready[k], last[Level(x)]) <= Robin(x.index, last[Level(x)])
      ensures k < r.at ==> Robin(r.ready[k], last[Level(x)]) < Robin(x.index, last[Level(x)])
    {
      if k < r.at {
        var i := AtLevelFrom(before, x.smartPriority, k);
        assert Better(c.ready[i], x, last);
      } else if k > r.at {
        var i := AtLevelFrom(after, x.smartPriority, k - r.at - 1);
        assert !Better(x, c.ready[c.best + 1 + i], last);
      }
    }
  }

  /** A run of selections: who was ready each time, and which place was chosen. */
  datatype Round = Round(ready: seq<int>, at: nat)

  predicate IsRun(rounds: seq<Round>, last: int) {
    rounds == [] ||
    (Selects(rounds[0].ready, last, rounds[0].at) && IsRun(rounds[1..], rounds[0].ready[rounds[0].at]))
  }

  function ChosenAt(r: Round): int
    requires r.at < |r.ready|
  {
    r.ready[r.at]
  }

  /** The rounds of those calls that pick a client at `level`. */
  ghost function RoundsAt(calls: seq<Call>, level: int): seq<Round>
  {
    if calls == [] then []
    else
      (if calls[0].best < |calls[0].ready| && calls[0].ready[calls[0].best].smartPriority == level then [RoundOf(calls[0])] else [])
      + RoundsAt(calls[1..], level)
  }

  lemma {:induction false} RunFirst(r: Round, rest: seq<Round>, last: int)
    requires Selects(r.ready, last, r.at) && IsRun(rest, r.ready[r.at])
    ensures IsRun([r] + rest, last)
  {
    assert ([r] + rest)[1..] == rest;
  }

  /**
   The calls of one scheduler that pick from one level form a run of selections there, however many calls for other
   levels lie between them.
   */
  lemma {:induction false} CallsAreRun(calls: seq<Call>, last: seq<int>, level: int, priority: int)
    requires |last| == LEVELS && AreCalls(calls, last) && SMART_MIN_PRIORITY <= level <= SMART_MAX_PRIORITY
    requires forall i :: 0 <= i < |calls| ==> OnePriority(calls[i].ready, level, priority)
    ensures IsRun(RoundsAt(calls, level), last[level - SMART_MIN_PRIORITY])
  {
    hide OnePriority, IsFirstBest, RoundOf, Selects;
    if calls != [] {
      var rest := calls[1..];
      forall i | 0 <= i < |rest|
        ensures OnePriority(rest[i].ready, level, priority)
      {
        assert rest[i] == calls[i + 1];
      }
      CallsAreRun(rest, Turn(calls[0], last), level, priority);
      if calls[0].ready[calls[0].best].smartPriority == level {
        OneLevel(calls[0], last, priority);
        RunFirst(RoundOf(calls[0]), RoundsAt(rest, level), last[level - SMART_MIN_PRIORITY]);
      } else {
        assert RoundsAt(calls, level) == RoundsAt(rest, level);
      }
    }
  }

  /** A client with the same index modulo 256 stands before `c`. */
  predicate TwinBefore(ready: seq<int>, c: int) {
    exists i :: 0 <= i < |ready| && ready[i] % 256 == c % 256 && ready[i] != c && c !in ready[..i]
  }

  predicate StaysReady(rounds: seq<Round>, c: int) {
    forall i :: 0 <= i < |rounds| ==> c in rounds[i].ready
  }

  ghost predicate IsChosen(rounds: seq<Round>, c: int) {
    exists i :: 0 <= i < |rounds| && rounds[i].at < |rounds[i].ready| && ChosenAt(rounds[i]) == c
  }

  /** Being passed over brings a client strictly closer to the front. */
  lemma {:induction false} PassedOver(c: int, b: int, last: int)
    requires Robin(c, last) <= Robin(b, last) && c % 256 != b % 256
    ensures Robin(c, b) > Robin(c, last)
  {
    var rc, rb := Robin(c, last), Robin(b, last);
    var qc, qb := (c - last) / 256, (b - last) / 256;
    assert c - b == 256 * (qc - qb) + (rc - rb);
    if rc == rb {
      SameResidue(c, b, qc - qb);
    } else {
      Residue(c - b, qc - qb - 1, rc - rb + 256);
    }
  }

  lemma {:induction false} Residue(x: int, q: int, r: int)
    requires x == 256 * q + r && 0 <= r < 256
    ensures x % 256 == r
  {
  }

  lemma {:induction false} SameResidue(c: int, b: int, q: int)
    requires c - b == 256 * q
    ensures c % 256 == b % 256
  {
    Residue(c, b / 256 + q, b % 256);
  }

  lemma {:induction false} Congruent(a: int, b: int, last: int)
    requires a % 256 == b % 256
    ensures Robin(a, last) == Robin(b, last)
  {
    var q := b / 256 - a / 256;
    assert b - a == 256 * q;
    SameRobin(a, b, last, q);
  }

  /** When the choice falls on the residue of `c`, it falls on `c` itself exactly if no twin stands before it. */
  lemma {:induction false} FirstOfTwins(r: Round, last: int, c: int)
    requires Selects(r.ready, last, r.at) && c in r.ready && ChosenAt(r) % 256 == c % 256
    ensures ChosenAt(r) == c <==> !TwinBefore(r.ready, c)
  {
    hide Robin;
    if TwinBefore(r.ready, c) {
      var i :| 0 <= i < |r.ready| && r.ready[i] % 256 == c % 256 && r.ready[i] != c && c !in r.ready[..i];
      Congruent(r.ready[i], c, last);
    } else if ChosenAt(r) != c {
      assert c in r.ready[..r.at];
      var j :| 0 <= j < r.at && r.ready[j] == c;
      Congruent(c, ChosenAt(r), last);
    }
  }

  /** The residue of `c` is served. */
  predicate ServedAt(rounds: seq<Round>, i: nat, c: int) {
    i < |rounds| && rounds[i].at < |rounds[i].ready| && ChosenAt(rounds[i]) % 256 == c % 256
  }

  /**
   While a client stays ready its residue is served within 256 rounds, sooner the further it is from the last index,
   and then the client itself is chosen exactly if no twin stands before it.
   */
  lemma {:induction false} ResidueServed(rounds: seq<Round>, last: int, c: int) returns (i: nat)
    requires IsRun(rounds, last) && StaysReady(rounds, c) && |rounds| >= 256 - Robin(c, last)
    ensures i < 256 - Robin(c, last) && ServedAt(rounds, i, c)
    ensures ChosenAt(rounds[i]) == c <==> !TwinBefore(rounds[i].ready, c)
    decreases |rounds|
  {
    hide TwinBefore;
    var r, rest := rounds[0], rounds[1..];
    var b := ChosenAt(r);
    if b % 256 == c % 256 {
      i := 0;
      FirstOfTwins(r, last, c);
    } else {
      var k :| 0 <= k < |r.ready| && r.ready[k] == c;
      PassedOver(c, b, last);
      assert forall j :: 0 <= j < |rest| ==> rest[j] == rounds[j + 1];
      var n := ResidueServed(rest, b, c);
      i := n + 1;
    }
  }

  /** The selection of each round of a run. */
  lemma {:induction false} RunSelects(rounds: seq<Round>, last: int, i: nat) returns (before: int)
    requires IsRun(rounds, last) && i < |rounds|
    ensures Selects(rounds[i].ready, before, rounds[i].at)
  {
    if i == 0 {
      before := last;
    } else {
      before := RunSelects(rounds[1..], ChosenAt(rounds[0]), i - 1);
    }
  }

  /** Over any run a ready client is chosen exactly if its residue is served in a round with no twin before it. */
  lemma {:induction false} ChosenExactly(rounds: seq<Round>, last: int, c: int)
    requires IsRun(rounds, last) && StaysReady(rounds, c)
    ensures IsChosen(rounds, c) <==> exists i: nat :: ServedAt(rounds, i, c) && !TwinBefore(rounds[i].ready, c)
  {
    hide TwinBefore, Selects, IsRun;
    forall i: nat | ServedAt(rounds, i, c)
      ensures ChosenAt(rounds[i]) == c <==> !TwinBefore(rounds[i].ready, c)
    {
      var before := RunSelects(rounds, last, i);
      FirstOfTwins(rounds[i], before, c);
    }
    if IsChosen(rounds, c) {
      var i :| 0 <= i < |rounds| && rounds[i].at < |rounds[i].ready| && ChosenAt(rounds[i]) == c;
      assert ServedAt(rounds, i, c);
    }
  }

  /**
   A client that stays ready, with a twin before it in all rounds or in none, is chosen if and only if it is in none:
   then at most 255 others come first, fewer the further it is from the last index.
   */
  lemma {:induction false} BoundedWaiting(rounds: seq<Round>, last: int, c: int, twin: bool)
    requires IsRun(rounds, last) && StaysReady(rounds, c) && |rounds| >= 256 - Robin(c, last)
    requires forall i :: 0 <= i < |rounds| ==> TwinBefore(rounds[i].ready, c) == twin
    ensures IsChosen(rounds, c) <==> !twin
  {
    hide TwinBefore, Robin, IsRun;
    var i := ResidueServed(rounds, last, c);
    ChosenExactly(rounds, last, c);
  }

  ghost predicate PickedAt(calls: seq<Call>, level: int, c: int) {
    exists i :: 0 <= i < |calls| && calls[i].best < |calls[i].ready|
                && var x := calls[i].ready[calls[i].best]; x.index == c && x.smartPriority == level
  }

  lemma {:induction false} PickedIsChosen(calls: seq<Call>, last: seq<int>, level: int, c: int)
    requires |last| == LEVELS && AreCalls(calls, last)
    ensures PickedAt(calls, level, c) <==> IsChosen(RoundsAt(calls, level), c)
  {
    hide IsFirstBest, AllInRange, Turn, PickedAt, IsChosen, AtLevel, RoundOf, RoundsAt;
    if calls == [] {
      NoPicks(level, c);
    } else {
      var rest := calls[1..];
      PickedIsChosen(rest, Turn(calls[0], last), level, c);
      PickedSplit(calls, level, c);
      PickedFirst(calls[0], level, c);
      RoundsSplit(calls, level);
      ChosenSplit(RoundsAt([calls[0]], level), RoundsAt(rest, level), c);
    }
  }

  lemma {:induction false} NoPicks(level: int, c: int)
    ensures !PickedAt([], level, c) && !IsChosen(RoundsAt([], level), c)
  {
  }

  lemma {:induction false} RoundsSplit(calls: seq<Call>, level: int)
    requires calls != []
    ensures RoundsAt(calls, level) == RoundsAt([calls[0]], level) + RoundsAt(calls[1..], level)
  {
    hide RoundOf;
    assert [calls[0]][1..] == [];
  }

  lemma {:induction false} PickedFirst(call: Call, level: int, c: int)
    requires call.best < |call.ready|
    ensures PickedAt([call], level, c) <==> IsChosen(RoundsAt([call], level), c)
  {
    hide AtLevel;
    assert [call][1..] == [];
    AtLevelAround(call.ready, call.ready[call.best].smartPriority, call.best);
    if call.ready[call.best].smartPriority == level {
      assert RoundsAt([call], level) == [RoundOf(call)];
      assert ChosenAt(RoundOf(call)) == call.ready[call.best].index;
      if PickedAt([call], level, c) {
        assert ChosenAt(RoundsAt([call], level)[0]) == c;
      }
      if call.ready[call.best].index == c {
        assert [call][0] == call;
      }
    }
  }

  lemma {:induction false} PickedSplit(calls: seq<Call>, level: int, c: int)
    requires calls != []
    ensures PickedAt(calls, level, c) <==> PickedAt([calls[0]], level, c) || PickedAt(calls[1..], level, c)
  {
    assert calls == [calls[0]] + calls[1..];
    if PickedAt(calls[1..], level, c) {
      var i :| 0 <= i < |calls[1..]| && calls[1..][i].best < |calls[1..][i].ready|
               && var x := calls[1..][i].ready[calls[1..][i].best]; x.index == c && x.smartPriority == level;
      assert calls[i + 1] == calls[1..][i];
    }
  }

  lemma {:induction false} ChosenSplit(a: seq<Round>, b: seq<Round>, c: int)
    ensures IsChosen(a + b, c) <==> IsChosen(a, c) || IsChosen(b, c)
  {
    if IsChosen(a, c) {
      var i :| 0 <= i < |a| && a[i].at < |a[i].ready| && ChosenAt(a[i]) == c;
      assert (a + b)[i] == a[i];
    }
    if IsChosen(b, c) {
      var i :| 0 <= i < |b| && b[i].at < |b[i].ready| && ChosenAt(b[i]) == c;
      assert (a + b)[|a| + i] == b[i];
    }
  }

  lemma {:induction false} RoundFromCall(calls: seq<Call>, level: int, k: nat) returns (i: nat)
    requires k < |RoundsAt(calls, level)|
    ensures i < |calls| && RoundsAt(calls, level)[k].ready == AtLevel(calls[i].ready, level)
  {
    var rest := calls[1..];
    if calls[0].best < |calls[0].ready| && calls[0].ready[calls[0].best].smartPriority == level {
      if k == 0 {
        i := 0;
      } else {
        var n := RoundFromCall(rest, level, k - 1);
        i := n + 1;
      }
    } else {
      var n := RoundFromCall(rest, level, k);
      i := n + 1;
    }
  }

  /**
   Fairness of the scheduler itself: take any stretch of its calls in which client `c` is always ready at one level
   whose clients have one priority, with a twin before it there always or never. If 256 of the calls pick from
   that level, `c` is picked if and only if it has no such twin.
   */
  lemma {:induction false} SchedulerServes(s: SmartScheduler, from: nat, level: int, priority: int, c: int, twin: bool)
    requires s.Valid() && from <= |s.log| && SMART_MIN_PRIORITY <= level <= SMART_MAX_PRIORITY
    requires forall i :: from <= i < |s.log| ==>
               var ready := AtLevel(s.log[i].ready, level);
               OnePriority(s.log[i].ready, level, priority) && c in ready && TwinBefore(ready, c) == twin
    requires |RoundsAt(s.log[from..], level)| >= 256
    ensures PickedAt(s.log[from..], level, c) <==> !twin
  {
    hide TwinBefore, OnePriority, AtLevel, IsRun;
    CallsFrom(s.log, s.start, from);
    var calls, last := s.log[from..], LastAfter(s.log[..from], s.start);
    CallsAreRun(calls, last, level, priority);
    var rounds := RoundsAt(calls, level);
    forall k | 0 <= k < |rounds|
      ensures c in rounds[k].ready && TwinBefore(rounds[k].ready, c) == twin
    {
      var i := RoundFromCall(calls, level, k);
      assert calls[i] == s.log[from + i];
    }
    PickedIsChosen(calls, last, level, c);
    BoundedWaiting(rounds, last[level - SMART_MIN_PRIORITY], c, twin);
  }

  /** Two ready clients with the indices 1 and 257: the second is never chosen, however long it waits. */
  lemma {:induction false} TwinStarves(n: nat) returns (rounds: seq<Round>)
    requires n >= 256
    ensures |rounds| == n && forall i :: 0 <= i < n ==> rounds[i].ready == [1, 257]
    ensures IsRun(rounds, 0) && !IsChosen(rounds, 257)
  {
    rounds := seq(n, i => Round([1, 257], 0));
    SameChoice(n, 0);
  }

  lemma {:induction false} SameChoice(n: nat, last: int)
    ensures IsRun(seq(n, i => Round([1, 257], 0)), last)
  {
    var rounds := seq(n, i => Round([1, 257], 0));
    if n > 0 {
      SameRobin(1, 257, last, 1);
      SameChoice(n - 1, 1);
      assert rounds[1..] == seq(n - 1, i => Round([1, 257], 0));
    }
  }

  lemma {:induction false} SameRobin(a: int, b: int, last: int, q: int)
    requires b - a == 256 * q
    ensures Robin(a, last) == Robin(b, last)
  {
    Residue(b - last, (a - last) / 256 + q, (a - last) % 256);
  }
}
