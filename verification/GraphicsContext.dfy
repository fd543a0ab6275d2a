/**
 Decoding graphics-context attributes (dix/gc.c): ChangeGCXIDs turns resource ids into pointers at positions it counts
 from the mask, ChangeGC consumes the values one by one; both must mean the same slot.
 */
module GraphicsContext {
  import opened Options
  import opened Bits

  /** GCLastBit, the bit of GCArcMode. */
  const LAST_BIT: nat := 22

  const FUNCTION: nat := 0
  const LINE_WIDTH: nat := 4
  const LINE_STYLE: nat := 5
  const CAP_STYLE: nat := 6
  const JOIN_STYLE: nat := 7
  const FILL_STYLE: nat := 8
  const FILL_RULE: nat := 9
  const TILE: nat := 10
  const STIPPLE: nat := 11
  const TILE_X: nat := 12
  const TILE_Y: nat := 13
  const FONT: nat := 14
  const SUBWINDOW_MODE: nat := 15
  const GRAPHICS_EXPOSURES: nat := 16
  const CLIP_X: nat := 17
  const CLIP_Y: nat := 18
  const CLIP_MASK: nat := 19
  const DASH_OFFSET: nat := 20
  const DASH_LIST: nat := 21
  const ARC_MODE: nat := 22

  /** A ChangeGCVal: a word, or a pointer to a pixmap or font, which may be null. */
  datatype Slot = Word(val: int) | Pointer(target: Option<nat>)

  datatype Status = Success | BadValue | BadMatch | Failed(code: nat)

  /** The entries of xidfields. */
  predicate IsXid(bit: nat) {
    bit == TILE || bit == STIPPLE || bit == FONT || bit == CLIP_MASK
  }

  /** Where the value for `bit` is: as many values come before it as there are ones below it. */
  function Offset(mask: nat, bit: nat): nat {
    Ones(Low(mask, bit))
  }

  lemma {:induction false} OffsetGrows(mask: nat, b: nat, c: nat)
    requires b < c
    ensures Offset(mask, b) + (if Bit(mask, b) then 1 else 0) <= Offset(mask, c)
    decreases c
  {
    LowNext(mask, c - 1);
    if b < c - 1 {
      OffsetGrows(mask, b, c - 1);
    }
  }

  /** Different attributes have different slots, all of them inside the value list. */
  lemma {:induction false} OffsetsApart(mask: nat, b: nat, c: nat)
    requires Bit(mask, b) && Bit(mask, c)
    ensures Offset(mask, b) == Offset(mask, c) <==> b == c
    ensures Offset(mask, b) < Ones(mask)
  {
    if b < c {
      OffsetGrows(mask, b, c);
    } else if c < b {
      OffsetGrows(mask, c, b);
    }
    Pow2Grows(mask);
    var width := if b < mask then mask else b + 1;
    Pow2Mono(mask, width);
    LowWidth(mask, width);
    OffsetGrows(mask, b, width);
  }

  // ---- What an attribute makes of its word

  function Signed16(v: int): int {
    var w := v % 0x1_0000;
    if w < 0x8000 then w else w - 0x1_0000
  }

  /** The value stored for a word, after the C conversion; None if it is out of range. */
  function Convert(bit: nat, v: int): Option<int> {
    if bit == FUNCTION then (if v % 256 <= 15 then Some(v % 256) else None)
    else if bit == LINE_WIDTH then Some(v % 0x1_0000)
    else if bit == LINE_STYLE || bit == JOIN_STYLE then (if 0 <= v <= 2 then Some(v) else None)
    else if bit == CAP_STYLE || bit == FILL_STYLE then (if 0 <= v <= 3 then Some(v) else None)
    else if bit == FILL_RULE || bit == SUBWINDOW_MODE || bit == GRAPHICS_EXPOSURES || bit == ARC_MODE then
      (if 0 <= v <= 1 then Some(v) else None)
    else if bit == TILE_X || bit == TILE_Y || bit == CLIP_X || bit == CLIP_Y || bit == DASH_OFFSET then Some(Signed16(v))
    else if bit == DASH_LIST then (if v % 256 != 0 then Some(v % 256) else None)
    else Some(v)
  }

  /** `fits(bit, p)`: a pixmap has the depth and screen the attribute asks for. */
  function Accept(bit: nat, slot: Slot, fits: (nat, nat) -> bool): Option<Slot> {
    match slot
    case Word(v) =>
      (match Convert(bit, v)
       case None => None
       case Some(w) => Some(Word(w)))
    case Pointer(None) => if bit == STIPPLE || bit == CLIP_MASK then Some(slot) else None
    case Pointer(Some(p)) => if bit == FONT || fits(bit, p) then Some(slot) else None
  }

  // ---- The attributes one by one, by bit number

  /** The words refused for an attribute. */
  predicate WordRefused(bit: nat, v: int) {
    match bit
    case 0 => v % 256 > 15
    case 5 => v < 0 || v > 2
    case 6 => v < 0 || v > 3
    case 7 => v < 0 || v > 2
    case 8 => v < 0 || v > 3
    case 9 => v < 0 || v > 1
    case 15 => v < 0 || v > 1
    case 16 => v < 0 || v > 1
    case 21 => v % 256 == 0
    case 22 => v < 0 || v > 1
    case _ => false
  }

  /** `s` is what an attribute stores for the word `v`: truncated to 8, 16 or signed 16 bits, or as it is. */
  predicate WordStored(bit: nat, v: int, s: int) {
    if bit == 0 || bit == 21 then 0 <= s < 256 && (v - s) % 256 == 0
    else if bit == 4 then 0 <= s < 65536 && (v - s) % 65536 == 0
    else if bit == 12 || bit == 13 || bit == 17 || bit == 18 || bit == 20 then
      -32768 <= s < 32768 && (v - s) % 65536 == 0
    else s == v
  }

  /** Tile (10), stipple (11), font (14) and clip mask (19): only stipple and clip mask may be null. */
  predicate Refuses(bit: nat, slot: Slot, fits: (nat, nat) -> bool) {
    match slot
    case Word(v) => WordRefused(bit, v)
    case Pointer(None) => bit != 11 && bit != 19
    case Pointer(Some(p)) => bit != 14 && !fits(bit, p)
  }

  predicate Stores(bit: nat, slot: Slot, after: Slot) {
    match slot
    case Word(v) => after.Word? && WordStored(bit, v, after.val)
    case Pointer(target) => after == slot
  }

  lemma {:induction false} AcceptMeans(bit: nat, slot: Slot, fits: (nat, nat) -> bool)
    ensures Accept(bit, slot, fits).None? <==> Refuses(bit, slot, fits)
    ensures Accept(bit, slot, fits).Some? ==> Stores(bit, slot, Accept(bit, slot, fits).value)
  {
    if slot.Word? {
      Truncated(slot.val);
    }
  }

  lemma {:induction false} Truncated(v: int)
    ensures -32768 <= Signed16(v) < 32768 && (v - Signed16(v)) % 65536 == 0
    ensures (v - v % 256) % 256 == 0 && (v - v % 65536) % 65536 == 0
  {
    var q := v / 65536;
    MultipleOf(v - Signed16(v), 65536, if v % 65536 < 32768 then q else q + 1);
    MultipleOf(v - v % 65536, 65536, q);
    MultipleOf(v - v % 256, 256, v / 256);
  }

  lemma {:induction false} MultipleOf(x: int, d: int, q: int)
    requires (d == 256 || d == 65536) && x == d * q
    ensures x % d == 0
  {
  }

  /** The selected attributes below `p` have taken their own slots, none of them refused; the others are unchanged. */
  ghost predicate TookSlots(before: seq<Slot>, after: seq<Slot>, mask: nat, vals: seq<Slot>, fits: (nat, nat) -> bool,
                            p: nat) {
    && |after| == |before|
    && forall b: nat :: b < |before| ==>
         if b < p && Bit(mask, b)
         then Offset(mask, b) < |vals| && !Refuses(b, vals[Offset(mask, b)], fits)
              && Stores(b, vals[Offset(mask, b)], after[b])
         else after[b] == before[b]
  }

  lemma {:induction false} AppliedMeans(before: seq<Slot>, after: seq<Slot>, mask: nat, vals: seq<Slot>,
                                        fits: (nat, nat) -> bool, p: nat)
    requires AppliedBelow(before, after, mask, vals, fits, p)
    ensures TookSlots(before, after, mask, vals, fits, p)
  {
    hide Accept, Refuses, Stores, Bit, Low, Ones;
    forall b: nat | b < |before| && b < p && Bit(mask, b)
      ensures !Refuses(b, vals[Offset(mask, b)], fits) && Stores(b, vals[Offset(mask, b)], after[b])
    {
      AcceptMeans(b, vals[Offset(mask, b)], fits);
    }
  }

  // ---- The effect of a change, attribute by attribute

  predicate Accepted(mask: nat, vals: seq<Slot>, fits: (nat, nat) -> bool, bit: nat)
    requires Offset(mask, bit) < |vals|
  {
    Accept(bit, vals[Offset(mask, bit)], fits).Some?
  }

  /** No attribute below position `p` is refused. */
  ghost predicate AllAccepted(mask: nat, vals: seq<Slot>, fits: (nat, nat) -> bool, p: nat)
    requires Ones(mask) <= |vals|
  {
    forall b: nat :: b < p && Bit(mask, b) ==> InList(mask, vals, b) && Accepted(mask, vals, fits, b)
  }

  predicate InList(mask: nat, vals: seq<Slot>, bit: nat) {
    Offset(mask, bit) < |vals|
  }

  /** `after` is `before` with the attributes below `p` that the mask selects set from their own slots. */
  ghost predicate AppliedBelow(before: seq<Slot>, after: seq<Slot>, mask: nat, vals: seq<Slot>,
                               fits: (nat, nat) -> bool, p: nat)
  {
    && |after| == |before|
    && forall b: nat :: b < |before| ==>
         if b < p && Bit(mask, b) then InList(mask, vals, b)
                                       && Accept(b, vals[Offset(mask, b)], fits) == Some(after[b])
         else after[b] == before[b]
  }

  class GC {
    var attrs: seq<Slot>

    ghost predicate Valid()
      reads this
    {
      |attrs| == LAST_BIT + 1
    }

    constructor ()
      ensures Valid()
    {
      attrs := seq(LAST_BIT + 1, i => Word(0));
    }

    /**
     The consuming loop. The attributes are set from the slots counted by the ones below their bits, up to the first
     one that is refused or unknown; with no refusal all selected attributes are set.
     */
    method ChangeGC(mask: nat, vals: seq<Slot>, fits: (nat, nat) -> bool) returns (status: Status, ghost p: nat)
      requires Valid() && Ones(mask) <= |vals|
      modifies this
      ensures Valid() && AppliedBelow(old(attrs), attrs, mask, vals, fits, p)
      ensures TookSlots(old(attrs), attrs, mask, vals, fits, p)
      ensures status != Success && p <= LAST_BIT ==>
                InList(mask, vals, p) && Refuses(p, vals[Offset(mask, p)], fits)
      ensures AllAccepted(mask, vals, fits, p)
      ensures status == Success ==> forall b: nat :: b >= p ==> !Bit(mask, b)
      ensures status != Success ==> Bit(mask, p) && (p <= LAST_BIT ==> InList(mask, vals, p)
                                                                       && !Accepted(mask, vals, fits, p))
      ensures status == BadMatch <==> status != Success && p <= LAST_BIT && vals[Offset(mask, p)].Pointer?
      ensures status == Success || status == BadValue || status == BadMatch
    {
      hide Low, Ones, Bit, AndNot, LowBit, Pow2, LowPos, Accept, TookSlots, Refuses, Stores;
      var left, cursor := mask, 0;
      p, status := 0, Success;
      Start(mask);
      while left != 0
        invariant Valid() && p <= LAST_BIT + 1
        invariant Low(mask, p) <= mask && left == mask - Low(mask, p) && cursor == Offset(mask, p)
        invariant AppliedBelow(old(attrs), attrs, mask, vals, fits, p) && AllAccepted(mask, vals, fits, p)
        decreases left
      {
        var index2, bit := LowBit(left), LowPos(left);
        NextBit(mask, p, left);
        left := AndNot(left, index2);
        SkipTo(old(attrs), attrs, mask, vals, fits, p, bit);
        p := bit;
        AppliedMeans(old(attrs), attrs, mask, vals, fits, p);
        if bit > LAST_BIT {
          return BadValue, p;
        }
        var slot := vals[cursor];
        cursor := cursor + 1;
        match Accept(bit, slot, fits)
        case None =>
          AcceptMeans(bit, slot, fits);
          status := if slot.Pointer? then BadMatch else BadValue;
          return;
        case Some(v) =>
          SetOne(old(attrs), attrs, mask, vals, fits, bit, v);
          attrs := attrs[bit := v];
          p := bit + 1;
      }
      NoneLeft(mask, p);
      AppliedMeans(old(attrs), attrs, mask, vals, fits, p);
    }

    /** Look one resource id up, if the mask selects the attribute. */
    method ResolveField(mask: nat, vals: seq<Slot>, bit: nat, lookup: (nat, nat) -> Found)
      returns (status: Status, vals': seq<Slot>)
      requires IsXid(bit) && Ones(mask) <= |vals|
      requires Bit(mask, bit) ==> InList(mask, vals, bit) && vals[Offset(mask, bit)].Word?
                                  && vals[Offset(mask, bit)].val >= 0
      ensures |vals'| == |vals|
      ensures !Bit(mask, bit) ==> status == Success && vals' == vals
      ensures Bit(mask, bit) ==>
                var w := vals[Offset(mask, bit)].val;
                match Resolve(bit, w, lookup)
                case None => status == Failed(lookup(bit, w).code) && vals' == vals
                case Some(slot) => status == Success && vals' == vals[Offset(mask, bit) := slot]
    {
      BitAnd(mask, bit);
      LowIsAnd(mask, bit);
      if And(mask, Pow2(bit)) == 0 {
        return Success, vals;
      }
      var offset := Ones(And(mask, Pow2(bit) - 1));
      if bit == CLIP_MASK && vals[offset].val == 0 {
        return Success, vals[offset := Pointer(None)];
      }
      var id := vals[offset].val;
      match lookup(bit, id)
      case Missing(code) => return Failed(code), vals;
      case Object(p) => return Success, vals[offset := Pointer(Some(p))];
    }

    /** The words copied into slots, then the four kinds of resource ids replaced by pointers. */
    method ResolveAll(mask: nat, words: seq<nat>, lookup: (nat, nat) -> Found)
      returns (status: Status, vals: seq<Slot>)
      requires Ones(mask) <= |words|
      ensures |vals| == Ones(mask)
      ensures status == Success ==> forall b: nat :: Bit(mask, b) ==> Resolved(mask, words, vals, lookup, b)
      ensures status == Success || status.Failed?
      ensures status != Success <==> AnyUnresolved(mask, words, lookup)
    {
      hide Low, Ones, Bit;
      vals := seq(Ones(mask), i requires 0 <= i < Ones(mask) => Word(words[i]));
      var fields := [TILE, STIPPLE, FONT, CLIP_MASK];
      Copied(mask, words, vals, lookup);
      status := Success;
      for i := 0 to 4
        invariant |vals| == Ones(mask) && status == Success
        invariant HalfResolved(mask, words, vals, lookup, fields[..i])
        invariant forall j :: 0 <= j < i && Bit(mask, fields[j]) ==> !Unresolved(mask, words, lookup, fields[j])
      {
        HalfStep(mask, words, vals, lookup, fields, i);
        var next;
        status, next := ResolveField(mask, vals, fields[i], lookup);
        if status != Success {
          assert Bit(mask, fields[i]) && Unresolved(mask, words, lookup, fields[i]);
          return;
        }
        vals := next;
      }
      assert fields[..4] == fields;
      FullyResolved(mask, words, vals, lookup);
      assert forall b :: IsXid(b) ==> b in fields;
    }

    /**
     Change attributes given as words and resource ids. Every selected attribute is set from the client's word at its
     own position, resolved to a pointer if the attribute is a pixmap or a font.
     */
    method ChangeGCXIDs(mask: nat, words: seq<nat>, lookup: (nat, nat) -> Found, fits: (nat, nat) -> bool)
      returns (status: Status, ghost vals: seq<Slot>, ghost p: nat)
      requires Valid() && Ones(mask) <= |words|
      modifies this
      ensures Valid()
      ensures mask >= Pow2(LAST_BIT + 1) ==> status == BadValue && attrs == old(attrs)
      ensures status.Failed? <==> mask < Pow2(LAST_BIT + 1) && AnyUnresolved(mask, words, lookup)
      ensures status.Failed? ==> attrs == old(attrs)
      ensures mask < Pow2(LAST_BIT + 1) && !status.Failed? ==>
                && |vals| == Ones(mask)
                && (forall b: nat :: Bit(mask, b) ==> Resolved(mask, words, vals, lookup, b))
                && AppliedBelow(old(attrs), attrs, mask, vals, fits, p)
                && (status == Success ==> forall b: nat :: b >= p ==> !Bit(mask, b))
                && (status != Success ==> Bit(mask, p) && InList(mask, vals, p) && !Accepted(mask, vals, fits, p))
      ensures mask < Pow2(LAST_BIT + 1) && !status.Failed? ==>
                && TookWords(old(attrs), attrs, mask, words, lookup, p)
                && (status != Success ==> Bit(mask, p) && Offset(mask, p) < |words|
                                          && WordRefuses(p, words[Offset(mask, p)], lookup, fits))
      ensures status.Failed? ==> exists b: nat :: Bit(mask, b) && Offset(mask, b) < |words|
                                                  && IdFails(b, words[Offset(mask, b)], lookup)
    {
      vals, p := [], 0;
      AllBits(mask);
      if AndNot(mask, Pow2(LAST_BIT + 1) - 1) != 0 {
        return BadValue, vals, p;
      }
      hide Low, Ones, Bit, AndNot, Pow2, TookSlots, Refuses, Stores, Accept;
      var slots;
      status, slots := ResolveAll(mask, words, lookup);
      vals := slots;
      if status != Success {
        ghost var b: nat :| Bit(mask, b) && Unresolved(mask, words, lookup, b);
        ResolveMeans(b, words[Offset(mask, b)], lookup);
        return;
      }
      status, p := ChangeGC(mask, slots, fits);
      TookMeans(old(attrs), attrs, mask, words, slots, lookup, fits, p);
      if Bit(mask, p) {
        BitBelow(mask, p, LAST_BIT + 1);
        if status != Success {
          RefusalMeans(mask, words, slots, lookup, fits, p);
        }
      }
    }
  }

  datatype Found = Object(p: nat) | Missing(code: nat)

  /** What an id becomes; an unresolvable one stops the request. None is allowed for the clip mask. */
  function Resolve(bit: nat, id: int, lookup: (nat, nat) -> Found): Option<Slot> {
    if bit == CLIP_MASK && id == 0 then Some(Pointer(None))
    else if id < 0 then None
    else match lookup(bit, id)
      case Missing(code) => None
      case Object(p) => Some(Pointer(Some(p)))
  }

  /** Bits 10, 11, 14 and 19 take resource ids; only the clip mask may be None. */
  predicate TakesId(bit: nat) {
    bit == 10 || bit == 11 || bit == 14 || bit == 19
  }

  predicate IdFails(bit: nat, id: nat, lookup: (nat, nat) -> Found) {
    TakesId(bit) && !(bit == 19 && id == 0) && lookup(bit, id).Missing?
  }

  lemma {:induction false} ResolveMeans(bit: nat, id: nat, lookup: (nat, nat) -> Found)
    ensures IsXid(bit) <==> TakesId(bit)
    ensures IsXid(bit) ==> (Resolve(bit, id, lookup).None? <==> IdFails(bit, id, lookup))
    ensures IsXid(bit) && !IdFails(bit, id, lookup) ==>
              Resolve(bit, id, lookup) == Some(Pointer(if bit == 19 && id == 0 then None else Some(lookup(bit, id).p)))
  {
  }

  /** The selected attributes below `p` come from the client's own words: ids looked up, other words truncated. */
  ghost predicate TookWords(before: seq<Slot>, after: seq<Slot>, mask: nat, words: seq<nat>,
                            lookup: (nat, nat) -> Found, p: nat) {
    && |after| == |before|
    && forall b: nat :: b < |before| ==>
         if b < p && Bit(mask, b) then Offset(mask, b) < |words| && TookWord(b, words[Offset(mask, b)], lookup, after[b])
         else after[b] == before[b]
  }

  predicate TookWord(bit: nat, w: nat, lookup: (nat, nat) -> Found, after: Slot) {
    if !TakesId(bit) then after.Word? && WordStored(bit, w, after.val)
    else if bit == 19 && w == 0 then after == Pointer(None)
    else lookup(bit, w).Object? && after == Pointer(Some(lookup(bit, w).p))
  }

  /** A word out of range, or a pixmap that does not fit. */
  predicate WordRefuses(bit: nat, w: nat, lookup: (nat, nat) -> Found, fits: (nat, nat) -> bool) {
    if !TakesId(bit) then WordRefused(bit, w)
    else bit != 14 && !(bit == 19 && w == 0) && lookup(bit, w).Object? && !fits(bit, lookup(bit, w).p)
  }

  lemma {:induction false} TookMeans(before: seq<Slot>, after: seq<Slot>, mask: nat, words: seq<nat>, vals: seq<Slot>,
                                     lookup: (nat, nat) -> Found, fits: (nat, nat) -> bool, p: nat)
    requires TookSlots(before, after, mask, vals, fits, p)
    requires forall b: nat :: Bit(mask, b) ==> Resolved(mask, words, vals, lookup, b)
    ensures TookWords(before, after, mask, words, lookup, p)
  {
    hide Bit, Low, Ones, WordStored, WordRefused, Resolve;
    forall b: nat | b < |before| && b < p && Bit(mask, b)
      ensures Offset(mask, b) < |words| && TookWord(b, words[Offset(mask, b)], lookup, after[b])
    {
      assert Resolved(mask, words, vals, lookup, b);
      ResolveMeans(b, words[Offset(mask, b)], lookup);
    }
  }

  lemma {:induction false} RefusalMeans(mask: nat, words: seq<nat>, vals: seq<Slot>, lookup: (nat, nat) -> Found,
                                        fits: (nat, nat) -> bool, p: nat)
    requires Resolved(mask, words, vals, lookup, p) && Refuses(p, vals[Offset(mask, p)], fits)
    ensures WordRefuses(p, words[Offset(mask, p)], lookup, fits)
  {
    hide Bit, Low, Ones, WordRefused, Resolve;
    ResolveMeans(p, words[Offset(mask, p)], lookup);
  }

  predicate Unresolved(mask: nat, words: seq<nat>, lookup: (nat, nat) -> Found, bit: nat) {
    IsXid(bit) && Offset(mask, bit) < |words| && Resolve(bit, words[Offset(mask, bit)], lookup).None?
  }

  ghost predicate AnyUnresolved(mask: nat, words: seq<nat>, lookup: (nat, nat) -> Found) {
    exists b: nat :: Bit(mask, b) && Unresolved(mask, words, lookup, b)
  }

  /** The slot of `bit` holds the client's word at that position, as a pointer where the attribute needs one. */
  predicate Resolved(mask: nat, words: seq<nat>, vals: seq<Slot>, lookup: (nat, nat) -> Found, bit: nat) {
    var o := Offset(mask, bit);
    && o < |vals| && o < |words|
    && (if IsXid(bit) then Resolve(bit, words[o], lookup) == Some(vals[o]) else vals[o] == Word(words[o]))
  }

  /** The same while only the fields in `done` have been looked up. */
  ghost predicate HalfResolved(mask: nat, words: seq<nat>, vals: seq<Slot>, lookup: (nat, nat) -> Found, done: seq<nat>) {
    forall b: nat :: Bit(mask, b) ==>
      if b in done then Resolved(mask, words, vals, lookup, b)
      else Offset(mask, b) < |vals| && Offset(mask, b) < |words| && vals[Offset(mask, b)] == Word(words[Offset(mask, b)])
  }

  lemma {:induction false} Copied(mask: nat, words: seq<nat>, vals: seq<Slot>, lookup: (nat, nat) -> Found)
    requires |vals| == Ones(mask) <= |words| && forall i :: 0 <= i < |vals| ==> vals[i] == Word(words[i])
    ensures HalfResolved(mask, words, vals, lookup, [])
  {
    hide Low, Ones, Bit;
    forall b: nat | Bit(mask, b)
      ensures Offset(mask, b) < |vals|
    {
      OffsetsApart(mask, b, b);
    }
  }

  /** Looking up one more field disturbs no other slot. */
  lemma {:induction false} HalfStep(mask: nat, words: seq<nat>, vals: seq<Slot>, lookup: (nat, nat) -> Found,
                                    fields: seq<nat>, i: nat)
    requires |vals| == Ones(mask) <= |words| && i < |fields| && IsXid(fields[i])
    requires fields[i] !in fields[..i] && HalfResolved(mask, words, vals, lookup, fields[..i])
    ensures Bit(mask, fields[i]) ==>
              && InList(mask, vals, fields[i]) && Offset(mask, fields[i]) < |words|
              && vals[Offset(mask, fields[i])] == Word(words[Offset(mask, fields[i])])
    ensures Bit(mask, fields[i]) ==>
              forall slot :: Resolve(fields[i], words[Offset(mask, fields[i])], lookup) == Some(slot) ==>
                HalfResolved(mask, words, vals[Offset(mask, fields[i]) := slot], lookup, fields[..i + 1])
    ensures !Bit(mask, fields[i]) ==> HalfResolved(mask, words, vals, lookup, fields[..i + 1])
  {
    hide Low, Ones, Bit;
    var f := fields[i];
    assert fields[..i + 1] == fields[..i] + [f];
    if Bit(mask, f) {
      forall slot | Resolve(f, words[Offset(mask, f)], lookup) == Some(slot)
        ensures HalfResolved(mask, words, vals[Offset(mask, f) := slot], lookup, fields[..i + 1])
      {
        forall b: nat | Bit(mask, b)
          ensures var vals' := vals[Offset(mask, f) := slot];
                  if b in fields[..i + 1] then Resolved(mask, words, vals', lookup, b)
                  else Offset(mask, b) < |vals'| && Offset(mask, b) < |words|
                       && vals'[Offset(mask, b)] == Word(words[Offset(mask, b)])
        {
          OffsetsApart(mask, b, f);
        }
      }
    }
  }

  lemma {:induction false} FullyResolved(mask: nat, words: seq<nat>, vals: seq<Slot>, lookup: (nat, nat) -> Found)
    requires HalfResolved(mask, words, vals, lookup, [TILE, STIPPLE, FONT, CLIP_MASK])
    ensures forall b: nat :: Bit(mask, b) ==> Resolved(mask, words, vals, lookup, b)
  {
  }

  lemma {:induction false} AllBits(mask: nat)
    ensures AndNot(mask, Pow2(LAST_BIT + 1) - 1) != 0 <==> mask >= Pow2(LAST_BIT + 1)
  {
    hide And, AndNot, Low;
    LowIsAnd(mask, LAST_BIT + 1);
    AndSplit(mask, Pow2(LAST_BIT + 1) - 1);
    LowNext(mask, LAST_BIT + 1);
    if mask < Pow2(LAST_BIT + 1) {
      LowWidth(mask, LAST_BIT + 1);
    }
  }

  lemma {:induction false} BitBelow(mask: nat, b: nat, n: nat)
    requires Bit(mask, b) && mask < Pow2(n)
    ensures b < n
  {
    if n == 0 {
      BitZero(b);
    } else if b > 0 {
      BitBelow(mask / 2, b - 1, n - 1);
    }
  }

  // ---- One round of the consuming loop

  lemma {:induction false} Start(mask: nat)
    ensures Low(mask, 0) == 0 && Offset(mask, 0) == 0
  {
  }

  lemma {:induction false} NextBit(mask: nat, p: nat, left: nat)
    requires Low(mask, p) <= mask && left == mask - Low(mask, p) && left != 0
    ensures var q := LowPos(left);
            && p <= q && Bit(mask, q)
            && (forall b: nat :: p <= b < q ==> !Bit(mask, b))
            && Low(mask, q + 1) <= mask && AndNot(left, LowBit(left)) == mask - Low(mask, q + 1) < left
            && Offset(mask, q) == Offset(mask, p) && Offset(mask, q + 1) == Offset(mask, q) + 1
            && Offset(mask, q) < Ones(mask)
  {
    hide Low, Ones, Bit, AndNot, LowBit, LowPos;
    var q := LowPos(left);
    LowPosExact(left);
    LowOfRest(mask, p);
    LowPosAbove(left, p);
    LowSplit(mask, p, q);
    LowSplit(mask, q + 1, q + 1);
    LowNext(mask, q);
    OffsetsApart(mask, q, q);
    forall b: nat | p <= b < q
      ensures !Bit(mask, b)
    {
      OffsetMono(mask, p, b);
      OffsetGrows(mask, b, q);
    }
  }

  lemma {:induction false} OffsetMono(mask: nat, b: nat, c: nat)
    requires b <= c
    ensures Offset(mask, b) <= Offset(mask, c)
  {
    if b < c {
      OffsetGrows(mask, b, c);
    }
  }

  lemma {:induction false} SkipTo(before: seq<Slot>, after: seq<Slot>, mask: nat, vals: seq<Slot>,
                                  fits: (nat, nat) -> bool, p: nat, q: nat)
    requires p <= q && Ones(mask) <= |vals| && (forall b: nat :: p <= b < q ==> !Bit(mask, b))
    requires AppliedBelow(before, after, mask, vals, fits, p) && AllAccepted(mask, vals, fits, p)
    ensures AppliedBelow(before, after, mask, vals, fits, q) && AllAccepted(mask, vals, fits, q)
  {
    hide Low, Ones, Bit, Accept;
  }

  lemma {:induction false} SetOne(before: seq<Slot>, after: seq<Slot>, mask: nat, vals: seq<Slot>,
                                  fits: (nat, nat) -> bool, bit: nat, v: Slot)
    requires bit < |before| && Ones(mask) <= |vals| && Bit(mask, bit) && InList(mask, vals, bit)
    requires Accept(bit, vals[Offset(mask, bit)], fits) == Some(v)
    requires AppliedBelow(before, after, mask, vals, fits, bit) && AllAccepted(mask, vals, fits, bit)
    ensures AppliedBelow(before, after[bit := v], mask, vals, fits, bit + 1) && AllAccepted(mask, vals, fits, bit + 1)
  {
    hide Low, Ones, Bit, Accept;
  }

  lemma {:induction false} NoneLeft(mask: nat, p: nat)
    requires Low(mask, p) == mask
    ensures forall b: nat :: b >= p ==> !Bit(mask, b)
  {
    forall b: nat | b >= p
      ensures !Bit(mask, b)
    {
      LowSplit(mask, p, b);
      BitZero(b);
    }
  }
}
