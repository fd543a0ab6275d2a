/**
 Passive grabs as sets of (modifier combination, key) pairs (dix/grabs.c): a detail is an exact value, or "any" minus
 the cleared bits of a 256-bit mask.
 */
module GrabAlgebra {
  import opened Options
  import opened Bits

  /** MasksPerDetailMask words of 32 bits. */
  type Words = seq<nat>

  const WORDS: nat := 8

  datatype Detail = Detail(exact: nat, pMask: Option<Words>)

  datatype GrabType = Core | Xi | Xi2

  datatype Device = AllDevices | AllMasterDevices | Device(id: nat, master: bool)

  /** Everything about a grab that decides whom it concerns, and not which pairs it covers. */
  datatype Terms = Terms(client: nat, device: Device, modifierDevice: Device, grabtype: GrabType, evtype: nat,
                         params: nat)

  datatype Grab = Grab(resource: nat, terms: Terms, mods: Detail, key: Detail)

  function AnyModifier(t: GrabType): nat {
    if t == Xi2 then 0x8000_0000 else 0x8000
  }

  /** AnyKey and XIAnyKeycode */
  const ANY_KEY: nat := 0

  // ---- Detail masks

  predicate WordsValid(w: Words) {
    |w| == WORDS
  }

  predicate GetBit(w: Words, i: nat)
    requires WordsValid(w) && i < 256
  {
    And(w[i / 32], Pow2(i % 32)) != 0
  }

  function ClearBit(w: Words, i: nat): Words
    requires WordsValid(w) && i < 256
  {
    w[i / 32 := AndNot(w[i / 32], Pow2(i % 32))]
  }

  function AllOnes(): Words {
    var all := Pow2(32) - 1;
    [all, all, all, all, all, all, all, all]
  }

  /** A copy of the mask, or of the full mask, with one bit cleared. */
  function DeleteDetailFromMask(pMask: Option<Words>, detail: nat): (w: Words)
    requires (pMask.Some? ==> WordsValid(pMask.value)) && detail < 256
    ensures WordsValid(w)
    ensures forall i: nat :: i < 256 ==>
              (GetBit(w, i) <==> i != detail && (pMask.Some? ==> GetBit(pMask.value, i)))
  {
    AllOnesBits();
    var from := if pMask.Some? then pMask.value else AllOnes();
    ClearBitExact(from, detail);
    ClearBit(from, detail)
  }

  lemma {:induction false} AllOnesBits()
    ensures forall i: nat :: i < 256 ==> GetBit(AllOnes(), i)
  {
    forall i: nat | i < 256
      ensures GetBit(AllOnes(), i)
    {
      assert AllOnes()[i / 32] == Pow2(32) - 1;
      BitAnd(Pow2(32) - 1, i % 32);
      BitAllOnes(32, i % 32);
    }
  }

  lemma {:induction false} ClearBitExact(w: Words, detail: nat)
    requires WordsValid(w) && detail < 256
    ensures forall i: nat :: i < 256 ==> (GetBit(ClearBit(w, detail), i) <==> i != detail && GetBit(w, i))
  {
    forall i: nat | i < 256
      ensures GetBit(ClearBit(w, detail), i) <==> i != detail && GetBit(w, i)
    {
      var word, bit := w[i / 32], i % 32;
      BitAnd(word, bit);
      if i / 32 == detail / 32 {
        BitAnd(AndNot(word, Pow2(detail % 32)), bit);
        BitAndNot(word, detail % 32, bit);
      }
    }
  }

  /** A detail holds "any", possibly with exceptions, or an exact value inside the masks' range. */
  predicate DetailValid(d: Detail, any: nat) {
    if d.exact == any then d.pMask.Some? ==> WordsValid(d.pMask.value) else d.exact < 256 && d.pMask.None?
  }

  predicate Covers(d: Detail, any: nat, v: nat)
    requires DetailValid(d, any) && v < 256
  {
    if d.exact == any then d.pMask.None? || GetBit(d.pMask.value, v) else d.exact == v
  }

  predicate Valid(g: Grab) {
    DetailValid(g.mods, AnyModifier(g.terms.grabtype)) && DetailValid(g.key, ANY_KEY)
  }

  predicate Unmasked(g: Grab) {
    g.mods.pMask.None? && g.key.pMask.None?
  }

  /** The pairs a grab denotes. */
  predicate Claims(g: Grab, m: nat, k: nat)
    requires Valid(g) && m < 256 && k < 256
  {
    Covers(g.mods, AnyModifier(g.terms.grabtype), m) && Covers(g.key, ANY_KEY, k)
  }

  /** An unmasked grab claims the pairs its exact values name; AnyModifier and AnyKey stand for all. */
  lemma {:induction false} ClaimsMeans(g: Grab, m: nat, k: nat)
    requires Valid(g) && Unmasked(g) && m < 256 && k < 256
    ensures Claims(g, m, k) <==>
              && (g.mods.exact == m || g.mods.exact == if g.terms.grabtype == Xi2 then 0x8000_0000 else 0x8000)
              && (g.key.exact == k || g.key.exact == 0)
  {
  }

  // ---- The comparisons

  predicate IsInGrabMask(first: Detail, second: Detail, exception: nat)
    requires DetailValid(first, exception) && DetailValid(second, exception)
  {
    first.exact == exception &&
    (first.pMask.None? || (second.exact != exception && GetBit(first.pMask.value, second.exact)))
  }

  predicate IdenticalExactDetails(first: nat, second: nat, exception: nat) {
    first != exception && second != exception && first == second
  }

  predicate DetailSupersedesSecond(first: Detail, second: Detail, exception: nat)
    requires DetailValid(first, exception) && DetailValid(second, exception)
  {
    IsInGrabMask(first, second, exception) || IdenticalExactDetails(first.exact, second.exact, exception)
  }

  predicate GrabSupersedesSecond(first: Grab, second: Grab)
    requires Valid(first) && Valid(second) && first.terms.grabtype == second.terms.grabtype
  {
    && DetailSupersedesSecond(first.mods, second.mods, AnyModifier(first.terms.grabtype))
    && DetailSupersedesSecond(first.key, second.key, ANY_KEY)
  }

  /** The device, grab type and event type tests of GrabMatchesSecond; core grabs ignore the devices. */
  predicate Compatible(a: Terms, b: Terms) {
    && a.grabtype == b.grabtype
    && (if a.grabtype == Xi2 then
          if a.device == AllDevices || b.device == AllDevices then true
          else if a.device == AllMasterDevices then b.device == AllMasterDevices || b.device.master
          else if b.device == AllMasterDevices then a.device.master
          else a.device == b.device
        else a.grabtype == Core || (a.device == b.device && a.modifierDevice == b.modifierDevice))
    && a.evtype == b.evtype
  }

  predicate GrabMatchesSecond(first: Grab, second: Grab)
    requires Valid(first) && Valid(second)
  {
    var any := AnyModifier(first.terms.grabtype);
    && Compatible(first.terms, second.terms)
    && (|| GrabSupersedesSecond(first, second)
        || GrabSupersedesSecond(second, first)
        || (DetailSupersedesSecond(second.key, first.key, ANY_KEY)
            && DetailSupersedesSecond(first.mods, second.mods, any))
        || (DetailSupersedesSecond(first.key, second.key, ANY_KEY)
            && DetailSupersedesSecond(second.mods, first.mods, any)))
  }

  predicate GrabsAreIdentical(first: Grab, second: Grab)
    requires Valid(first) && Valid(second)
  {
    var any := AnyModifier(first.terms.grabtype);
    && first.terms.grabtype == second.terms.grabtype
    && first.terms.device == second.terms.device
    && first.terms.modifierDevice == second.terms.modifierDevice
    && first.terms.evtype == second.terms.evtype
    && DetailSupersedesSecond(first.key, second.key, ANY_KEY)
    && DetailSupersedesSecond(second.key, first.key, ANY_KEY)
    && DetailSupersedesSecond(first.mods, second.mods, any)
    && DetailSupersedesSecond(second.mods, first.mods, any)
  }

  // ---- What the comparisons mean

  /** A grab on `spec` concerns the device `id`, which is a master or a slave. */
  predicate DeviceIn(spec: Device, id: nat, master: bool) {
    match spec
    case AllDevices => true
    case AllMasterDevices => master
    case Device(i, m) => i == id && m == master
  }

  /** XI2 grabs with equal event types are compatible exactly if some device is concerned by both. */
  lemma {:induction false} Xi2Devices(a: Terms, b: Terms)
    requires a.grabtype == Xi2 && b.grabtype == Xi2 && a.evtype == b.evtype
    ensures Compatible(a, b) <==>
              exists id: nat, master: bool :: DeviceIn(a.device, id, master) && DeviceIn(b.device, id, master)
  {
    if Compatible(a, b) {
      var d := if a.device.Device? then a.device else if b.device.Device? then b.device else Device(0, true);
      assert DeviceIn(a.device, d.id, d.master) && DeviceIn(b.device, d.id, d.master);
    }
  }

  /** XI1 grabs with equal event types are compatible exactly if both their devices are the same. */
  lemma {:induction false} XiDevices(a: Terms, b: Terms)
    requires a.grabtype == Xi && b.grabtype == Xi && a.evtype == b.evtype
    ensures Compatible(a, b) <==> a.device == b.device && a.modifierDevice == b.modifierDevice
  {
  }

  /** Core grabs with equal event types are compatible on any devices. */
  lemma {:induction false} CoreDevices(a: Terms, b: Terms)
    requires a.grabtype == Core && b.grabtype == Core && a.evtype == b.evtype
    ensures Compatible(a, b)
  {
  }

  /** Grabs for different event types, or of different grab types, are never compatible. */
  lemma {:induction false} OtherEvents(a: Terms, b: Terms)
    requires a.grabtype != b.grabtype || a.evtype != b.evtype
    ensures !Compatible(a, b)
  {
  }

  /** The devices of two grabs of one type clash. */
  ghost predicate DevicesMeet(a: Terms, b: Terms) {
    match a.grabtype
    case Core => true
    case Xi => a.device == b.device && a.modifierDevice == b.modifierDevice
    case Xi2 => exists id: nat, master: bool :: DeviceIn(a.device, id, master) && DeviceIn(b.device, id, master)
  }

  lemma {:induction false} CompatibleMeans(a: Terms, b: Terms)
    ensures Compatible(a, b) <==> a.grabtype == b.grabtype && a.evtype == b.evtype && DevicesMeet(a, b)
  {
    if a.grabtype == b.grabtype == Xi2 && a.evtype == b.evtype {
      Xi2Devices(a, b);
    }
  }

  /** For an unmasked grab, "identical" means the same grab type, devices, event type and details. */
  lemma {:induction false} IdenticalMeans(g: Grab, h: Grab)
    requires Valid(g) && Valid(h) && Unmasked(g)
    ensures GrabsAreIdentical(g, h) <==>
              && g.terms.grabtype == h.terms.grabtype && g.terms.evtype == h.terms.evtype
              && g.terms.device == h.terms.device && g.terms.modifierDevice == h.terms.modifierDevice
              && g.mods == h.mods && g.key == h.key
  {
  }

  /** Against an unmasked detail, "one supersedes the other" misses no overlap. */
  lemma {:induction false} DetailsOverlap(first: Detail, second: Detail, any: nat, v: nat)
    requires DetailValid(first, any) && DetailValid(second, any) && v < 256
    requires first.pMask.None? || second.pMask.None?
    requires Covers(first, any, v) && Covers(second, any, v)
    ensures DetailSupersedesSecond(first, second, any) || DetailSupersedesSecond(second, first, any)
  {
  }

  /** A value that both details cover, if one supersedes the other. */
  function Meet(first: Detail, second: Detail, any: nat, v: nat, w: nat): nat {
    if first.exact != any then first.exact
    else if second.exact != any then second.exact
    else if first.pMask.None? then w else v
  }

  ghost predicate Overlap(first: Grab, second: Grab)
    requires Valid(first) && Valid(second)
  {
    exists m: nat, k: nat :: m < 256 && k < 256 && Claims(first, m, k) && Claims(second, m, k)
  }

  /** For grabs that claim anything at all, matching an unmasked grab means sharing a pair with it. */
  lemma {:induction false} MatchesIffOverlap(first: Grab, second: Grab, m: nat, k: nat, m': nat, k': nat)
    requires Valid(first) && Valid(second) && m < 256 && k < 256 && m' < 256 && k' < 256
    requires Compatible(first.terms, second.terms) && (Unmasked(first) || Unmasked(second))
    requires Claims(first, m, k) && Claims(second, m', k')
    ensures GrabMatchesSecond(first, second) <==> Overlap(first, second)
  {
    var any := AnyModifier(first.terms.grabtype);
    if GrabMatchesSecond(first, second) {
      var x, y := Meet(first.mods, second.mods, any, m, m'), Meet(first.key, second.key, ANY_KEY, k, k');
      assert Claims(first, x, y) && Claims(second, x, y);
    } else if Overlap(first, second) {
      var x: nat, y: nat :| x < 256 && y < 256 && Claims(first, x, y) && Claims(second, x, y);
      MatchesWhenOverlapping(first, second, x, y);
    }
  }

  lemma {:induction false} CompatibleSymmetric(a: Terms, b: Terms)
    ensures Compatible(a, b) <==> Compatible(b, a)
  {
  }

  /** A compatible grab that does not match an unmasked one shares no pair with it. */
  lemma {:induction false} MatchesWhenOverlapping(first: Grab, second: Grab, m: nat, k: nat)
    requires Valid(first) && Valid(second) && m < 256 && k < 256
    requires Compatible(first.terms, second.terms) && (Unmasked(first) || Unmasked(second))
    requires Claims(first, m, k) && Claims(second, m, k)
    ensures GrabMatchesSecond(first, second)
  {
    DetailsOverlap(first.mods, second.mods, AnyModifier(first.terms.grabtype), m);
    DetailsOverlap(first.key, second.key, ANY_KEY, k);
  }

  /** What an unmasked grab supersedes, it covers. */
  lemma {:induction false} SupersedesCovers(first: Grab, second: Grab, m: nat, k: nat)
    requires Valid(first) && Valid(second) && m < 256 && k < 256
    requires first.terms.grabtype == second.terms.grabtype && GrabSupersedesSecond(first, second)
    requires Unmasked(first) && Claims(second, m, k)
    ensures Claims(first, m, k)
  {
  }

  /** Two masked grabs can overlap unnoticed; the code relies on never comparing two of them. */
  lemma {:induction false} MaskedOverlapUnnoticed()
    ensures exists first: Grab, second: Grab ::
              && Valid(first) && Valid(second) && Compatible(first.terms, second.terms)
              && Claims(first, 0, 9) && Claims(second, 0, 9) && !GrabMatchesSecond(first, second)
  {
    hide GetBit, DeleteDetailFromMask, Valid, Claims, GrabMatchesSecond, Compatible;
    var t := Terms(1, AllDevices, AllDevices, Core, 2, 0);
    TwoMasksNeverMatch(t, t.(client := 2), DeleteDetailFromMask(None, 10), DeleteDetailFromMask(None, 11), 0, 9);
  }

  /** Neither of two masked "any key" details supersedes the other, whatever their masks. */
  lemma {:induction false} TwoMasksNeverMatch(t: Terms, u: Terms, k1: Words, k2: Words, m: nat, k: nat)
    requires t.grabtype == u.grabtype == Core && t.evtype == u.evtype && m < 256 && k < 256
    requires WordsValid(k1) && WordsValid(k2) && GetBit(k1, k) && GetBit(k2, k)
    ensures var first := Grab(1, t, Detail(AnyModifier(Core), None), Detail(ANY_KEY, Some(k1)));
            var second := Grab(2, u, Detail(AnyModifier(Core), None), Detail(ANY_KEY, Some(k2)));
            && Valid(first) && Valid(second) && Compatible(t, u)
            && Claims(first, m, k) && Claims(second, m, k) && !GrabMatchesSecond(first, second)
  {
    hide GetBit;
  }

  // ---- Taking one unmasked grab away from another

  datatype Action = Keep | Delete | NarrowKey | NarrowMods | Split

  /** The branch DeletePassiveGrabFromList takes for one grab of the list. */
  function ActionFor(grab: Grab, minuend: Grab): (a: Action)
    requires Valid(grab) && Valid(minuend)
  {
    var any := AnyModifier(minuend.terms.grabtype);
    if grab.terms.client != minuend.terms.client || !GrabMatchesSecond(grab, minuend) then Keep
    else if GrabSupersedesSecond(minuend, grab) then Delete
    else if grab.key.exact == ANY_KEY && grab.mods.exact != any then NarrowKey
    else if grab.mods.exact == any && grab.key.exact != ANY_KEY then NarrowMods
    else if minuend.key.exact != ANY_KEY && minuend.mods.exact != any then Split
    else if minuend.key.exact == ANY_KEY then NarrowMods
    else NarrowKey
  }

  /** A masked detail is an "any", and the value cleared is an exact one: no mask is ever indexed out of range. */
  lemma {:induction false} ActionSound(grab: Grab, minuend: Grab)
    requires Valid(grab) && Valid(minuend) && Unmasked(minuend)
    ensures var a, any := ActionFor(grab, minuend), AnyModifier(minuend.terms.grabtype);
            && (a != Keep ==> grab.terms.grabtype == minuend.terms.grabtype)
            && (a == NarrowKey || a == Split ==> grab.key.exact == ANY_KEY && minuend.key.exact < 256)
            && (a == NarrowMods || a == Split ==> grab.mods.exact == any && minuend.mods.exact < 256)
            && (a == Split ==> minuend.key.exact != ANY_KEY)
  {
  }

  /** The grab after the update of its masks. */
  function Narrowed(grab: Grab, minuend: Grab): (g: Grab)
    requires Valid(grab) && Valid(minuend) && Unmasked(minuend)
    ensures Valid(g) && g.terms == grab.terms && g.resource == grab.resource
  {
    ActionSound(grab, minuend);
    match ActionFor(grab, minuend)
    case NarrowMods =>
      grab.(mods := grab.mods.(pMask := Some(DeleteDetailFromMask(grab.mods.pMask, minuend.mods.exact))))
    case NarrowKey | Split =>
      grab.(key := grab.key.(pMask := Some(DeleteDetailFromMask(grab.key.pMask, minuend.key.exact))))
    case Keep | Delete => grab
  }

  /** The second half of a split: the minuend's key with the remaining modifiers. */
  function SplitOff(grab: Grab, minuend: Grab, resource: nat): (g: Grab)
    requires Valid(grab) && Valid(minuend) && Unmasked(minuend) && ActionFor(grab, minuend) == Split
    ensures Valid(g) && g.terms == grab.terms && g.resource == resource
  {
    ActionSound(grab, minuend);
    Grab(resource, grab.terms,
         Detail(AnyModifier(minuend.terms.grabtype),
                Some(DeleteDetailFromMask(grab.mods.pMask, minuend.mods.exact))),
         Detail(minuend.key.exact, None))
  }

  predicate Concerns(minuend: Grab, t: Terms) {
    t.client == minuend.terms.client && Compatible(t, minuend.terms)
  }

  /** A subtraction concerns the minuend's client, grab type and event type, on clashing devices, and nobody else. */
  lemma {:induction false} ConcernsMeans(minuend: Grab, t: Terms)
    ensures Concerns(minuend, t) <==>
              && t.client == minuend.terms.client && t.grabtype == minuend.terms.grabtype
              && t.evtype == minuend.terms.evtype && DevicesMeet(t, minuend.terms)
  {
    CompatibleMeans(t, minuend.terms);
  }

  /** What one grab of the list has become. */
  predicate ResultClaims(grab: Grab, minuend: Grab, m: nat, k: nat)
    requires Valid(grab) && Valid(minuend) && Unmasked(minuend) && m < 256 && k < 256
  {
    var a := ActionFor(grab, minuend);
    || (a != Delete && Claims(Narrowed(grab, minuend), m, k))
    || (a == Split && Claims(SplitOff(grab, minuend, 0), m, k))
  }

  /** Deleting, narrowing and splitting all compute the same thing: the pairs of the grab minus the minuend's. */
  lemma {:induction false} SubtractExact(grab: Grab, minuend: Grab, m: nat, k: nat)
    requires Valid(grab) && Valid(minuend) && Unmasked(minuend) && m < 256 && k < 256
    ensures ResultClaims(grab, minuend, m, k)
       <==> Claims(grab, m, k) && !(Concerns(minuend, grab.terms) && Claims(minuend, m, k))
  {
    ActionSound(grab, minuend);
    var a := ActionFor(grab, minuend);
    if a == Keep {
      if Concerns(minuend, grab.terms) && Claims(grab, m, k) && Claims(minuend, m, k) {
        MatchesWhenOverlapping(grab, minuend, m, k);
      }
    } else if a == Delete {
      if Claims(grab, m, k) {
        SupersedesCovers(minuend, grab, m, k);
      }
    }
  }
}
