/**
  Storage sizes of the hash table: when a request for more entries is refused,
  needs nothing, or makes the storage grow, and to how many buckets.
  Sizes are those of the LP64 data model.
  */
module HashSize {
  import opened HashView

  const UINT_RANGE: nat := 0x1_0000_0000

  // One in five buckets is kept free in indirect storage.
  const INV_KEEP_FREE: nat := 5

  // Bytes of the storage embedded in the table head.
  const DIRECT_BYTES: nat := 39

  /** Bytes of one bucket: key, value, and the two link indices. */
  function EntryBytes(kind: Kind): nat {
    match kind
    case Plain => 16
    case OrderedMap => 24
    case KeySet => 8
  }

  /** Bytes of a bucket together with its DIB. */
  function SlotBytes(kind: Kind): nat { EntryBytes(kind) + 1 }

  function DirectBuckets(kind: Kind): nat { DIRECT_BYTES / SlotBytes(kind) }

  function Pow2(s: nat): (p: nat)
    ensures p > 0
  {
    if s == 0 then 1 else 2 * Pow2(s - 1)
  }

  function Log2(x: nat): nat {
    if x < 2 then 0 else 1 + Log2(x / 2)
  }

  function Log2RoundUp(x: nat): nat
    requires x > 0
  {
    if x == 1 then 0 else Log2(x - 1) + 1
  }

  lemma {:induction false} Log2Bounds(x: nat)
    requires x > 0
    ensures Pow2(Log2(x)) <= x < Pow2(Log2(x) + 1)
  {
    if x >= 2 { Log2Bounds(x / 2); }
  }

  /** Rounding up gives the smallest power of two that is large enough. */
  lemma RoundUpIsLeast(x: nat, s: nat)
    requires x > 0
    ensures Pow2(s) >= x <==> s >= Log2RoundUp(x)
  {
    if x > 1 {
      Log2Bounds(x - 1);
      if s >= Log2RoundUp(x) { Pow2Grows(Log2RoundUp(x), s); } else { Pow2Grows(s, Log2(x - 1)); }
    } else {
      Pow2Grows(0, s);
    }
  }

  lemma {:induction false} Pow2Grows(a: nat, b: nat)
    requires a <= b
    ensures Pow2(a) <= Pow2(b)
    ensures a < b ==> 2 * Pow2(a) <= Pow2(b)
    decreases b
  {
    if a < b { Pow2Grows(a, b - 1); }
  }

  datatype Plan = Reject | Enough | Grow(shift: nat)

  /** What `entries` stored entries and `add` more ask of a storage of `buckets` buckets. */
  function PlanResize(kind: Kind, indirect: bool, buckets: nat, entries: nat, add: nat): Plan {
    var wanted := (entries + add) % UINT_RANGE;
    if wanted < add then Reject
    else if !indirect && wanted <= DirectBuckets(kind) then Enough
    else
      var needed := (wanted + wanted / (INV_KEEP_FREE - 1)) % UINT_RANGE;
      if needed < wanted then Reject
      else if needed > UINT_MAX / SlotBytes(kind) then Reject
      else if needed <= buckets then Enough
      else
        var bytes := needed * SlotBytes(kind);
        Grow(Log2RoundUp(if bytes > 2 * DIRECT_BYTES then bytes else 2 * DIRECT_BYTES))
  }

  lemma WrapsOnce(x: nat, y: nat)
    requires x <= UINT_MAX && y <= UINT_MAX
    ensures (x + y) % UINT_RANGE == if x + y < UINT_RANGE then x + y else x + y - UINT_RANGE
  {
  }

  /** The same plan in numbers that do not wrap around. */
  lemma PlanIs(kind: Kind, indirect: bool, buckets: nat, entries: nat, add: nat)
    requires entries <= UINT_MAX && add <= UINT_MAX
    ensures var wanted := entries + add;
      var needed := wanted + wanted / 4;
      var bytes := needed * SlotBytes(kind);
      PlanResize(kind, indirect, buckets, entries, add) ==
        if wanted > UINT_MAX then Reject
        else if !indirect && wanted <= DirectBuckets(kind) then Enough
        else if needed > UINT_MAX / SlotBytes(kind) then Reject
        else if needed <= buckets then Enough
        else Grow(Log2RoundUp(if bytes > 78 then bytes else 78))
  {
    hide SlotBytes, DirectBuckets, Log2RoundUp;
    WrapsOnce(entries, add);
    var wanted := entries + add;
    if wanted <= UINT_MAX {
      WrapsOnce(wanted, wanted / 4);
      SlotsBelow(kind);
    }
  }

  lemma SlotsBelow(kind: Kind)
    ensures UINT_MAX / SlotBytes(kind) <= UINT_MAX
  {
  }

  function BucketsFor(kind: Kind, shift: nat): nat { Pow2(shift) / SlotBytes(kind) }

  /** What matters of a storage: whether it is a block of its own, and its number of buckets. */
  datatype Size = Size(indirect: bool, buckets: nat)

  /** `e` entries have room: in the table head, or with a quarter more buckets than entries. */
  predicate Roomy(kind: Kind, size: Size, e: nat) {
    (!size.indirect && e <= DirectBuckets(kind)) || e + e / 4 <= size.buckets
  }

  /** The bytes for `e` entries and their free buckets can be counted in 32 bits. */
  predicate Sizable(kind: Kind, e: nat) { (e + e / 4) * SlotBytes(kind) <= UINT_MAX }

  /** `e` entries have room or can get it. */
  predicate CanStore(kind: Kind, size: Size, e: nat, allocOk: bool) {
    Roomy(kind, size, e) || (Sizable(kind, e) && allocOk)
  }

  function ShiftFor(kind: Kind, e: nat): nat {
    var bytes := (e + e / 4) * SlotBytes(kind);
    Log2RoundUp(if bytes > 78 then bytes else 78)
  }

  /** The storage after room for `e` entries has been asked for. */
  function SizeAfter(kind: Kind, size: Size, e: nat, allocOk: bool): Size {
    if !Roomy(kind, size, e) && Sizable(kind, e) && allocOk then Size(true, BucketsFor(kind, ShiftFor(kind, e)))
    else size
  }

  /** The storage for `e` entries is the least power of two that holds them, and at least 128 bytes. */
  lemma GrownIs(kind: Kind, e: nat)
    ensures var s, bytes := ShiftFor(kind, e), (e + e / 4) * SlotBytes(kind);
      && bytes <= Pow2(s) && 128 <= Pow2(s) && (s > 7 ==> Pow2(s) < 2 * bytes)
      && BucketsFor(kind, s) * SlotBytes(kind) <= Pow2(s) < (BucketsFor(kind, s) + 1) * SlotBytes(kind)
      && BucketsFor(kind, s) >= e + e / 4
  {
    hide Pow2, Log2RoundUp, SlotBytes;
    var s, bytes := ShiftFor(kind, e), (e + e / 4) * SlotBytes(kind);
    var most := if bytes > 78 then bytes else 78;
    Pow2Values();
    SixBits();
    RoundUpIsLeast(most, s);
    RoundUpIsLeast(most, 6);
    RoundUpIsLeast(most, 7);
    RoundUpIsLeast(most, s - 1);
    Pow2Grows(7, s);
    Halved(s);
    FloorDiv(kind, Pow2(s), e + e / 4);
    SlotsFit(kind, Pow2(s));
  }

  lemma Halved(s: nat)
    ensures s > 0 ==> Pow2(s) == 2 * Pow2(s - 1)
  {
  }

  lemma SlotsFit(kind: Kind, bytes: nat)
    ensures bytes / SlotBytes(kind) * SlotBytes(kind) <= bytes < (bytes / SlotBytes(kind) + 1) * SlotBytes(kind)
  {
    match kind
    case Plain =>
    case OrderedMap =>
    case KeySet =>
  }

  /** The plan in terms of room and bytes. */
  lemma PlanDecides(kind: Kind, size: Size, entries: nat, add: nat)
    requires entries <= UINT_MAX && add <= UINT_MAX && size.buckets <= UINT_MAX / SlotBytes(kind)
    ensures var plan, e := PlanResize(kind, size.indirect, size.buckets, entries, add), entries + add;
      && (plan.Enough? <==> Roomy(kind, size, e))
      && (plan.Reject? <==> !Roomy(kind, size, e) && !Sizable(kind, e))
      && (plan.Grow? ==> plan.shift == ShiftFor(kind, e))
  {
    hide PlanResize, Log2RoundUp, SlotBytes;
    PlanIs(kind, size.indirect, size.buckets, entries, add);
    var e := entries + add;
    OverLimit(kind, e + e / 4);
    DirectIsSmall(kind);
    SlotsBelow(kind);
  }

  lemma OverLimit(kind: Kind, needed: nat)
    ensures needed > UINT_MAX / SlotBytes(kind) <==> needed * SlotBytes(kind) > UINT_MAX
    ensures needed > UINT_MAX ==> needed * SlotBytes(kind) > UINT_MAX
  {
    match kind
    case Plain =>
    case OrderedMap =>
    case KeySet =>
  }

  lemma DirectIsSmall(kind: Kind)
    ensures DirectBuckets(kind) <= 4 && UINT_MAX / SlotBytes(kind) >= 100
  {
  }

  /** The embedded storage has two, one or four buckets. */
  lemma Embedded()
    ensures DirectBuckets(Plain) == 2 && DirectBuckets(OrderedMap) == 1 && DirectBuckets(KeySet) == 4
    ensures SlotBytes(Plain) == 17 && SlotBytes(OrderedMap) == 25 && SlotBytes(KeySet) == 9
  {
  }

  /** The storage is the embedded one, or a power of two of at least 128 bytes. */
  ghost predicate Storage(kind: Kind, indirect: bool, buckets: nat, shift: nat) {
    if indirect then 7 <= shift <= 31 && buckets == BucketsFor(kind, shift)
    else buckets == DirectBuckets(kind)
  }

  /** `1 << shift` is defined for a 32-bit operand. */
  predicate Shiftable(plan: Plan) { plan.Grow? ==> plan.shift <= 31 }

  lemma Pow2Values()
    ensures Pow2(7) == 128 && Pow2(31) == 0x8000_0000 && Pow2(32) == UINT_RANGE
  {
    assert Pow2(8) == 256; assert Pow2(12) == 4096; assert Pow2(16) == 65536;
    assert Pow2(20) == 0x10_0000; assert Pow2(24) == 0x100_0000; assert Pow2(28) == 0x1000_0000;
  }

  lemma BucketsInRange(kind: Kind, shift: nat)
    requires 7 <= shift <= 31
    ensures 5 <= BucketsFor(kind, shift) <= UINT_MAX / SlotBytes(kind) < IDX_PUT
  {
    hide Pow2;
    Pow2Values();
    Pow2Grows(7, shift);
    Pow2Grows(shift, 31);
    SharesInRange(kind, Pow2(shift));
  }

  lemma SharesInRange(kind: Kind, bytes: nat)
    requires 128 <= bytes <= 0x8000_0000
    ensures 5 <= bytes / SlotBytes(kind) <= UINT_MAX / SlotBytes(kind) < IDX_PUT
  {
  }

  lemma StorageInRange(kind: Kind, indirect: bool, buckets: nat, shift: nat)
    requires Storage(kind, indirect, buckets, shift)
    ensures 1 <= buckets < IDX_PUT
    ensures indirect ==> 5 <= buckets
  {
    if indirect { BucketsInRange(kind, shift); }
  }

  /** If nothing needs to grow, the requested entries fit; indirect storage even keeps a bucket free. */
  lemma EnoughFits(kind: Kind, indirect: bool, buckets: nat, shift: nat, entries: nat, add: nat)
    requires Storage(kind, indirect, buckets, shift) && entries <= buckets && add <= UINT_MAX
    requires PlanResize(kind, indirect, buckets, entries, add).Enough?
    ensures entries + add <= buckets
    ensures indirect ==> entries + add < buckets
  {
    StorageInRange(kind, indirect, buckets, shift);
    PlanIs(kind, indirect, buckets, entries, add);
    hide PlanResize;
  }

  /**
    Growing at least doubles the bucket count, makes room for the requested
    entries with a bucket to spare, and puts the new DIB bytes behind the old ones.
    */
  lemma GrowDoubles(kind: Kind, indirect: bool, buckets: nat, shift: nat, entries: nat, add: nat)
    requires Storage(kind, indirect, buckets, shift) && entries <= buckets && add <= UINT_MAX
    requires var plan := PlanResize(kind, indirect, buckets, entries, add); plan.Grow? && plan.shift <= 31
    ensures var plan := PlanResize(kind, indirect, buckets, entries, add);
            var grown := BucketsFor(kind, plan.shift);
            && Storage(kind, true, grown, plan.shift)
            && 2 * buckets <= grown < IDX_PUT
            && entries + add < grown
            && SlotBytes(kind) * buckets <= EntryBytes(kind) * grown
  {
    var s := PlanResize(kind, indirect, buckets, entries, add).shift;
    StorageInRange(kind, indirect, buckets, shift);
    GrowCovers(kind, indirect, buckets, entries, add);
    GrownFits(kind, indirect, buckets, shift, entries + add, s);
  }

  lemma GrownFits(kind: Kind, indirect: bool, buckets: nat, shift: nat, total: nat, s: nat)
    requires Storage(kind, indirect, buckets, shift) && 7 <= s <= 31
    requires total + total / 4 > buckets && Pow2(s) >= (total + total / 4) * SlotBytes(kind)
    ensures var grown := BucketsFor(kind, s);
            && 2 * buckets <= grown < IDX_PUT && total < grown
            && SlotBytes(kind) * buckets <= EntryBytes(kind) * grown
  {
    BucketsInRange(kind, s);
    FloorDiv(kind, Pow2(s), total + total / 4);
    MoreSlots(kind, total + total / 4, buckets + 1);
    Doubles(kind, indirect, buckets, shift, s);
  }

  lemma Doubles(kind: Kind, indirect: bool, buckets: nat, shift: nat, s: nat)
    requires Storage(kind, indirect, buckets, shift) && s >= 7
    requires Pow2(s) >= (buckets + 1) * SlotBytes(kind)
    ensures 2 * buckets <= BucketsFor(kind, s)
    ensures SlotBytes(kind) * buckets <= EntryBytes(kind) * BucketsFor(kind, s)
  {
    hide Pow2;
    if indirect {
      ShiftRises(kind, buckets, shift, s);
      DoubledBytes(kind, shift, s);
    } else {
      SixBits();
      DirectShare(kind);
      DoubledBytes(kind, 6, s);
    }
  }

  lemma DirectShare(kind: Kind)
    ensures DirectBuckets(kind) <= 64 / SlotBytes(kind)
  {
  }

  lemma MoreSlots(kind: Kind, a: nat, b: nat)
    requires a >= b
    ensures a * SlotBytes(kind) >= b * SlotBytes(kind)
  {
  }

  lemma FloorDiv(kind: Kind, p: nat, q: nat)
    requires p >= q * SlotBytes(kind)
    ensures q <= p / SlotBytes(kind)
  {
    match kind
    case Plain =>
    case OrderedMap =>
    case KeySet =>
  }

  /** The grown storage covers the requested entries and their share of free buckets. */
  lemma GrowCovers(kind: Kind, indirect: bool, buckets: nat, entries: nat, add: nat)
    requires entries <= UINT_MAX && add <= UINT_MAX
    requires PlanResize(kind, indirect, buckets, entries, add).Grow?
    ensures var s := PlanResize(kind, indirect, buckets, entries, add).shift;
            var needed := entries + add + (entries + add) / 4;
            && s >= 7 && needed > buckets && Pow2(s) >= needed * SlotBytes(kind)
  {
    hide PlanResize, Pow2, Log2RoundUp, SlotBytes;
    PlanIs(kind, indirect, buckets, entries, add);
    var s := PlanResize(kind, indirect, buckets, entries, add).shift;
    var bytes := (entries + add + (entries + add) / 4) * SlotBytes(kind);
    var most := if bytes > 78 then bytes else 78;
    RoundUpIsLeast(most, s);
    RoundUpIsLeast(most, 6);
    Pow2Values();
    assert Pow2(6) == 64 by { SixBits(); }
  }

  lemma SixBits()
    ensures Pow2(6) == 64
  {
  }

  /** More buckets than a power of two of storage holds need a larger power of two. */
  lemma ShiftRises(kind: Kind, buckets: nat, shift: nat, s: nat)
    requires buckets == BucketsFor(kind, shift) && Pow2(s) >= (buckets + 1) * SlotBytes(kind)
    ensures shift < s
  {
    if s <= shift { Pow2Grows(s, shift); }
  }

  lemma DoubledBytes(kind: Kind, shift: nat, s: nat)
    requires shift < s
    ensures 2 * BucketsFor(kind, shift) <= BucketsFor(kind, s)
    ensures SlotBytes(kind) * BucketsFor(kind, shift) <= EntryBytes(kind) * BucketsFor(kind, s)
  {
    Pow2Grows(shift, s);
  }

  /** The shift is representable exactly when the storage asked for is at most two gigabytes. */
  lemma ShiftableIff(kind: Kind, indirect: bool, buckets: nat, entries: nat, add: nat)
    requires PlanResize(kind, indirect, buckets, entries, add).Grow?
    ensures var wanted := (entries + add) % UINT_RANGE;
            var needed := wanted + wanted / (INV_KEEP_FREE - 1);
            Shiftable(PlanResize(kind, indirect, buckets, entries, add)) <==>
            needed * SlotBytes(kind) <= 0x8000_0000
  {
    hide Pow2, Log2RoundUp, SlotBytes;
    var wanted := (entries + add) % UINT_RANGE;
    var bytes := (wanted + wanted / 4) % UINT_RANGE * SlotBytes(kind);
    Pow2Values();
    RoundUpIsLeast(if bytes > 78 then bytes else 78, 31);
    WrapsOnce(wanted, wanted / 4);
  }
}
