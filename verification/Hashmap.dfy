/**
  The hash table itself: open addressing over a bucket array and a DIB array,
  Robin Hood insertion, backward-shift deletion, in-place rehashing, and for
  ordered maps a doubly linked list threaded through the bucket indices.
  */
module Hashmap {
  import opened RobinHood
  import opened HashView
  import opened HashSteps
  import opened HashSize
  import opened HashSpec

  ghost predicate SameClasses(before: seq<nat>, after: seq<nat>) {
    && |before| == |after|
    && forall i :: 0 <= i < |before| ==>
                     if Placed(before[i]) then Placed(after[i]) else after[i] == before[i]
  }

  /** Bucket `i` is reached from `idx` in `t` steps, where `n` steps lead back to `idx`. */
  ghost predicate Stands(n: nat, idx: nat, i: nat, t: nat)
    requires idx < n
  {
    i < n && if t < n then Dist(n, i, idx) == t else i == idx
  }

  /** Every bucket at least `from` and less than `to` steps after `idx` holds an entry away from home. */
  ghost predicate Crowded(dibs: seq<nat>, idx: nat, from: nat, to: nat)
    requires idx < |dibs|
  {
    forall i :: 0 <= i < |dibs| && from <= Dist(|dibs|, i, idx) < to ==>
      dibs[i] != 0 && dibs[i] != DIB_RAW_FREE
  }

  /** Each entry stayed where it was or moved one bucket back. */
  ghost predicate BackByOne(n: nat, before: seq<nat>, after: seq<nat>) {
    && |before| == |after|
    && forall k :: 0 <= k < |before| ==>
                     before[k] < n && (after[k] == before[k] || after[k] == PrevIdx(n, before[k]))
  }

  /** As `BackByOne`, where entries `t` or more steps after `idx` have not moved. */
  ghost predicate ShiftedUpTo(n: nat, idx: nat, t: nat, before: seq<nat>, after: seq<nat>)
    requires idx < n
  {
    && |before| == |after|
    && forall k :: 0 <= k < |before| ==>
                     && before[k] < n && before[k] != idx && (after[k] == idx || after[k] in before)
                     && (after[k] == before[k] ||
                         (Dist(n, before[k], idx) < t && after[k] == PrevIdx(n, before[k])))
  }

  lemma StandsNext(n: nat, idx: nat, i: nat, t: nat)
    requires idx < n && 1 <= t < n && Stands(n, idx, i, t)
    ensures Stands(n, idx, NextIdx(n, i), t + 1) && i != idx
  {
  }

  lemma CrowdedOnward(dibs: seq<nat>, idx: nat, i: nat, t: nat)
    requires idx < |dibs| && 1 <= t < |dibs| && Stands(|dibs|, idx, i, t)
    requires Crowded(dibs, idx, 1, t) && dibs[i] != 0 && dibs[i] != DIB_RAW_FREE
    ensures Crowded(dibs, idx, 1, t + 1)
  {
    forall x | 0 <= x < |dibs| && 1 <= Dist(|dibs|, x, idx) < t + 1
      ensures dibs[x] != 0 && dibs[x] != DIB_RAW_FREE
    {
      if Dist(|dibs|, x, idx) == t { assert x == i; }
    }
  }

  lemma CrowdedAfter(before: seq<nat>, after: seq<nat>, idx: nat, prev: nat, t: nat, reach: nat)
    requires idx < |before| == |after| && prev < |before| && 1 <= t
    requires after == before[prev := after[prev]] && Dist(|before|, prev, idx) < t
    requires Crowded(before, idx, t, reach)
    ensures Crowded(after, idx, t, reach) && Crowded(after, idx, t + 1, reach)
  {
  }

  /** One shift at bucket `left`, `t` steps after the removed one, into `prev`. */
  lemma ShiftedOnward(n: nat, idx: nat, t: nat, before: seq<nat>, after: seq<nat>, q: nat, prev: nat, left: nat)
    requires idx < n && prev < n && 1 <= t < n && Stands(n, idx, left, t) && left == NextIdx(n, prev)
    requires ShiftedUpTo(n, idx, t, before, after) && q < |after| && after[q] == left
    requires prev == idx || prev in before
    ensures ShiftedUpTo(n, idx, t + 1, before, after[q := prev]) && left in before
  {
    assert before[q] == left;
  }

  /** The state `v` of the shift loop, `t` steps after bucket `idx`, where the live buckets were `was`. */
  ghost predicate Shifting(v: View, order: seq<nat>, idx: nat, right: nat, reach: nat, t: nat,
                           was: seq<nat>, prev: nat, left: nat)
  {
    var holds :=
      var n := |v.ents|;
      && Holed(v, order, prev) && left == NextIdx(n, prev)
      && idx < n && right < n && 1 <= t && Stands(n, idx, left, t) && Dist(n, prev, idx) == t - 1
      && Crowded(v.dibs, idx, t, reach)
      && (v.dibs[right] == 0 || v.dibs[right] == DIB_RAW_FREE)
      && (prev == right ==> v.dibs[left] <= 1)
      && ShiftedUpTo(n, idx, t, was, order)
      && (prev == idx || prev in was);
    holds
  }

  lemma ShiftingStarts(v: View, order: seq<nat>, idx: nat, right: nat, reach: nat)
    requires Holed(v, order, idx) && right < |v.ents|
    requires v.dibs[right] == 0 || v.dibs[right] == DIB_RAW_FREE
    requires right == idx ==> v.dibs[NextIdx(|v.ents|, idx)] <= 1
    requires Crowded(v.dibs, idx, 1, reach)
    ensures Shifting(v, order, idx, right, reach, 1, order, idx, NextIdx(|v.ents|, idx))
  {
  }

  lemma ShiftingEnds(v: View, order: seq<nat>, idx: nat, right: nat, reach: nat, t: nat, was: seq<nat>, prev: nat)
    requires Shifting(v, order, idx, right, reach, t, was, prev, right)
    ensures Holed(v, order, prev) && !ShiftDue(v, prev) && BackByOne(|v.ents|, was, order)
    ensures forall k :: 0 <= k < |order| ==> order[k] == idx || order[k] in was
  {
  }

  lemma ShiftingDue(v: View, order: seq<nat>, idx: nat, right: nat, reach: nat, t: nat,
                    was: seq<nat>, prev: nat, left: nat)
    requires Shifting(v, order, idx, right, reach, t, was, prev, left) && t < reach <= |v.ents|
    ensures left != prev && v.dibs[left] != 0 && v.dibs[left] != DIB_RAW_FREE
  {
    StandsNext(|v.ents|, idx, left, t);
  }

  lemma ShiftingOn(v: View, order: seq<nat>, idx: nat, right: nat, reach: nat, t: nat,
                   was: seq<nat>, prev: nat, left: nat, w: View, q: nat)
    requires Shifting(v, order, idx, right, reach, t, was, prev, left)
    requires t < reach <= |v.ents| && Stands(|v.ents|, idx, right, reach)
    requires q < |order| && order[q] == left && |w.ents| == |v.ents|
    requires Holed(w, order[q := prev], left)
    requires w.dibs == v.dibs[prev := w.dibs[prev]] && (v.dibs[left] <= 1 ==> w.dibs[prev] == 0)
    ensures Shifting(w, order[q := prev], idx, right, reach, t + 1, was, left, NextIdx(|v.ents|, left))
  {
    StandsNext(|v.ents|, idx, left, t);
    ShiftedOnward(|v.ents|, idx, t, was, order, q, prev, left);
    CrowdedAfter(v.dibs, w.dibs, idx, prev, t, reach);
  }

  lemma ClassesChain(a: seq<nat>, b: seq<nat>, c: seq<nat>, spot: nat)
    requires SameClasses(a, b)
    ensures SameClasses(b, c) ==> SameClasses(a, c)
    ensures PlacedAlso(b, c, spot) ==> spot < |a| == |b| && PlacedAlso(a, c, spot) && a[spot] == b[spot]
  {
  }

  lemma DisplaceKeepsClasses(v: View, order: seq<nat>, i: nat, d: nat, w: View)
    requires Sized(v) && i < |v.ents| && IDX_PUT in order && i in order && Placed(v.dibs[i])
    requires Exchanged(v, order, i, d, w)
    ensures SameClasses(v.dibs, w.dibs)
  {
  }

  /** No bucket less than `d` steps after the home `start` of `key` holds an equal key. */
  ghost predicate NotBefore(v: View, order: seq<nat>, start: nat, key: Ptr, d: nat)
    requires start < |v.ents|
  {
    forall k :: 0 <= k < |order| && order[k] < |v.ents| && v.ops.canon(v.ents[order[k]].kv.key) == v.ops.canon(key) ==>
      Dist(|v.ents|, order[k], start) >= d
  }

  /** The scan misses nothing when it stops early. */
  lemma ScanMisses(v: View, order: seq<nat>, start: nat, key: Ptr, i: nat, d: nat) returns (p: int)
    requires AtRest(v, order) && start == Home(v, key)
    requires d <= |v.ents| && Stands(|v.ents|, start, i, d) && NotBefore(v, order, start, key, d)
    requires v.dibs[i] == DIB_RAW_FREE || TrueDib(v, i) < d
    ensures p == -1 == Pos(v.ops, Items(v, order), key)
  {
    p := Pos(v.ops, Items(v, order), key);
    if p >= 0 {
      var j := order[p];
      assert At(v, j) == v.ents[j];
      TrueDibIsAway(v, j);
      assert Homes(v)[j] == start;
      NoEarlyStop(Homes(v), j, i);
      TrueDibIsAway(v, i);
      assert false;
    }
  }

  lemma ScanGoesOn(v: View, order: seq<nat>, start: nat, key: Ptr, i: nat, d: nat)
    requires AtRest(v, order) && start == Home(v, key)
    requires d <= |v.ents| && Stands(|v.ents|, start, i, d) && NotBefore(v, order, start, key, d)
    requires v.dibs[i] != DIB_RAW_FREE && TrueDib(v, i) >= d
    requires TrueDib(v, i) != d || v.ops.canon(v.ents[i].kv.key) != v.ops.canon(key)
    ensures d < |v.ents| && Stands(|v.ents|, start, NextIdx(|v.ents|, i), d + 1)
    ensures NotBefore(v, order, start, key, d + 1)
  {
    TrueDibIsAway(v, i);
    forall k | 0 <= k < |order| && order[k] < |v.ents| && v.ops.canon(v.ents[order[k]].kv.key) == v.ops.canon(key)
      ensures Dist(|v.ents|, order[k], start) >= d + 1
    {
      assert At(v, order[k]) == v.ents[order[k]];
    }
  }

  class HashmapBase {
    const ops: HashOps
    const kind: Kind

    // Bucket and DIB storage.
    var buckets: array<Entry>
    var dibs: array<nat>
    var indirect: bool
    var hashKey: nat
    var nEntries: nat
    var lowest: nat         // below this index all buckets are free (indirect storage only)

    // Ends of the insertion-order list (ordered maps only).
    var head: nat
    var tail: nat

    // The swap slots of the operation under way.
    var swapPut: Entry
    var swapTmp: Entry

    // Live virtual buckets in insertion order, and the logarithm of the storage size.
    ghost var order: seq<nat>
    ghost var shift: nat

    /** The memory of the table as a value. */
    ghost function Now(): View
      reads `buckets, `dibs, `hashKey, `swapPut, `swapTmp, `head, `tail, buckets, dibs
    {
      View(ops, hashKey, kind, buckets[..], dibs[..], swapPut, swapTmp, head, tail)
    }

    /** The stored pairs in insertion order: the abstract value of the table. */
    ghost function Contents(): seq<Pair>
      reads `buckets, `dibs, `hashKey, `swapPut, `swapTmp, `head, `tail, `order, buckets, dibs
    {
      Items(Now(), order)
    }

    ghost function Repr(): set<object>
      reads this
    {
      {this, buckets, dibs}
    }

    // ---------- elementary steps ----------

    function Fetch(i: nat): (e: Entry)
      requires i < buckets.Length || i == IDX_PUT || i == IDX_TMP
      requires buckets.Length == dibs.Length
      reads this, buckets, dibs
      ensures e == At(Now(), i)
    {
      if i < buckets.Length then buckets[i] else if i == IDX_PUT then swapPut else swapTmp
    }

    method StoreAt(i: nat, e: Entry)
      requires buckets.Length == dibs.Length <= IDX_PUT && VirtualIdx(Now(), i)
      modifies buckets, `swapPut, `swapTmp
      ensures Now() == Store(old(Now()), i, e)
    {
      if i < buckets.Length {
        buckets[i] := e;
      } else if i == IDX_PUT {
        swapPut := e;
      } else {
        swapTmp := e;
      }
    }

    method SetNextAt(i: nat, x: nat)
      requires buckets.Length == dibs.Length <= IDX_PUT && VirtualIdx(Now(), i)
      modifies buckets, `swapPut, `swapTmp
      ensures Now() == SetNext(old(Now()), i, x)
    {
      StoreAt(i, Fetch(i).(next := x));
    }

    method SetPrevAt(i: nat, x: nat)
      requires buckets.Length == dibs.Length <= IDX_PUT && VirtualIdx(Now(), i)
      modifies buckets, `swapPut, `swapTmp
      ensures Now() == SetPrev(old(Now()), i, x)
    {
      StoreAt(i, Fetch(i).(prev := x));
    }

    ghost predicate LinkOk(i: nat)
      reads this, buckets, dibs
    {
      i == IDX_NIL || VirtualIdx(Now(), i)
    }

    method RelinkNeighbours(e: Entry, from: nat, to: nat)
      requires buckets.Length == dibs.Length <= IDX_PUT && LinkOk(e.next) && LinkOk(e.prev)
      modifies buckets, `swapPut, `swapTmp, `head, `tail
      ensures Now() == Relink(old(Now()), e, from, to)
    {
      ghost var v := Now();
      if e.next != IDX_NIL { SetPrevAt(e.next, to); }
      ghost var v2 := Now();
      assert v2 == if e.next != IDX_NIL then SetPrev(v, e.next, to) else v;
      if e.prev != IDX_NIL { SetNextAt(e.prev, to); }
      ghost var v3 := Now();
      assert v3 == if e.prev != IDX_NIL then SetNext(v2, e.prev, to) else v2;
      if head == from { head := to; }
      if tail == from { tail := to; }
    }

    method BucketMoveEntry(from: nat, to: nat)
      requires buckets.Length == dibs.Length <= IDX_PUT
      requires from != to && VirtualIdx(Now(), from) && VirtualIdx(Now(), to)
      requires kind.OrderedMap? ==> LinkOk(At(Now(), from).next) && LinkOk(At(Now(), from).prev)
      modifies buckets, `swapPut, `swapTmp, `head, `tail
      ensures Now() == MoveEntry(old(Now()), from, to)
    {
      var e := Fetch(from);
      StoreAt(to, e);
      if kind.OrderedMap? {
        RelinkNeighbours(e, from, to);
      }
    }

    method BucketSetDib(i: nat, d: nat)
      requires buckets.Length == dibs.Length && i < dibs.Length
      modifies dibs
      ensures Now() == SetDib(old(Now()), i, RawDib(d)) && dibs[i] == if d < 0xfd then d else 0xfd
    {
      dibs[i] := if d < DIB_RAW_OVERFLOW then d else DIB_RAW_OVERFLOW;
    }

    function BucketHash(key: Ptr): (h: nat)
      requires 0 < buckets.Length == dibs.Length
      reads this, buckets, dibs
      ensures h == Home(Now(), key)
    {
      ops.hash(ops.canon(key), hashKey) % buckets.Length
    }

    /** In a table whose bytes are right: how far the entry is from its home. */
    function CalculateDib(i: nat): (d: nat)
      requires i < buckets.Length == dibs.Length
      reads this, buckets, dibs
      ensures d == TrueDib(Now(), i)
      ensures Sized(Now()) && DibsTrue(Now()) && Placed(dibs[i]) ==>
        d == Dist(buckets.Length, i, Home(Now(), buckets[i].kv.key)) == Away(Homes(Now()), i)
    {
      if dibs[i] < DIB_RAW_OVERFLOW then dibs[i]
      else Dist(buckets.Length, i, BucketHash(buckets[i].kv.key))
    }

    /** Moves a listed entry to an unlisted virtual bucket. */
    method MoveListed(ghost k: nat, from: nat, to: nat)
      requires buckets.Length == dibs.Length <= IDX_PUT
      requires k < |order| && order[k] == from && from != to && VirtualIdx(Now(), to)
      requires forall j :: 0 <= j < |order| ==> VirtualIdx(Now(), order[j])
      requires kind.OrderedMap? ==> Linked(Now(), order) && Distinct(order) && to !in order
      modifies buckets, `swapPut, `swapTmp, `head, `tail, `order
      ensures Now() == MoveEntry(old(Now()), from, to)
      ensures order == old(order)[k := to]
      ensures kind.OrderedMap? ==> Linked(Now(), order)
      ensures forall j :: 0 <= j < |order| ==> VirtualIdx(Now(), order[j])
    {
      ghost var v := Now();
      if kind.OrderedMap? {
        LinksInRange(v, order, k);
        MoveKeepsList(v, order, k, to);
      }
      MoveKeepsPairs(v, from, to);
      BucketMoveEntry(from, to);
      order := order[k := to];
    }

    // ---------- insertion ----------

    /** Displaces the wealthier entry of bucket `i`, which becomes the held entry. */
    method Displace(i: nat, d: nat)
      requires Inv(Now(), order) && IDX_PUT in order && i < buckets.Length && i in order
      modifies buckets, dibs, `swapPut, `swapTmp, `head, `tail, `order
      ensures order == Swapped(old(order), i)
      ensures Now() == Exchange(SetDib(old(Now()), i, RawDib(d)), i)
    {
      ghost var k, p := IndexIn(order, IDX_PUT), IndexIn(order, i);
      ghost var v, o := Now(), order;
      BucketSetDib(i, d);
      if kind.OrderedMap? { LinkedFrame(v, Now(), order); }
      hide Inv, Linked, Exchange;
      SwapHeld(k, p, i);
    }

    /** Swaps bucket `i` with swap slot `IDX_PUT`; both are listed. */
    method SwapHeld(ghost k: nat, ghost p: nat, i: nat)
      requires buckets.Length == dibs.Length && Slots(Now(), order) && i < buckets.Length
      requires k < |order| && p < |order| && order[k] == IDX_PUT && order[p] == i
      requires kind.OrderedMap? ==> Linked(Now(), order)
      modifies buckets, `swapPut, `swapTmp, `head, `tail, `order
      ensures Now() == Exchange(old(Now()), i) && order == old(order)[k := i][p := IDX_PUT]
    {
      hide Linked, MoveEntry;
      MoveListed(p, i, IDX_TMP);
      MoveListed(k, IDX_PUT, i);
      MoveListed(p, IDX_TMP, IDX_PUT);
      assert order == old(order)[k := i][p := IDX_PUT];
    }

    /** Puts the held entry into bucket `i`, whose entry waits to be rehashed and becomes the held one. */
    method LandOnWaiting(i: nat, d: nat)
      requires Inv(Now(), order) && IDX_PUT in order && i < buckets.Length && i in order
      modifies buckets, dibs, `swapPut, `swapTmp, `head, `tail, `order
      ensures order == Swapped(old(order), i)
      ensures Now() ==
        MoveEntry(MoveEntry(SetDib(MoveEntry(old(Now()), i, IDX_TMP), i, RawDib(d)), IDX_PUT, i), IDX_TMP, IDX_PUT)
    {
      ghost var k, p := IndexIn(order, IDX_PUT), IndexIn(order, i);
      hide Inv, Linked;
      InvSlots(Now(), order);
      LandMarked(k, p, i, d);
    }

    method LandMarked(ghost k: nat, ghost p: nat, i: nat, d: nat)
      requires buckets.Length == dibs.Length && Slots(Now(), order) && i < buckets.Length
      requires k < |order| && p < |order| && order[k] == IDX_PUT && order[p] == i
      requires kind.OrderedMap? ==> Linked(Now(), order)
      modifies buckets, dibs, `swapPut, `swapTmp, `head, `tail, `order
      ensures order == old(order)[k := i][p := IDX_PUT]
      ensures Now() ==
        MoveEntry(MoveEntry(SetDib(MoveEntry(old(Now()), i, IDX_TMP), i, RawDib(d)), IDX_PUT, i), IDX_TMP, IDX_PUT)
    {
      hide Linked, MoveEntry;
      MoveListed(p, i, IDX_TMP);
      ghost var v := Now();
      BucketSetDib(i, d);
      if kind.OrderedMap? { LinkedFrame(v, Now(), order); }
      MoveListed(k, IDX_PUT, i);
      MoveListed(p, IDX_TMP, IDX_PUT);
      assert order == old(order)[k := i][p := IDX_PUT];
    }

    /** Puts the held entry into the free bucket `i`. */
    method LandOnFree(i: nat, d: nat)
      requires Inv(Now(), order) && IDX_PUT in order && i < buckets.Length && i !in order
      modifies buckets, dibs, `swapPut, `swapTmp, `head, `tail, `order
      ensures order == Settled(old(order), i)
      ensures Now() == Landed(old(Now()), i, d)
    {
      ghost var v := Now();
      BucketSetDib(i, d);
      if kind.OrderedMap? { LinkedFrame(v, Now(), order); }
      MoveListed(IndexIn(order, IDX_PUT), IDX_PUT, i);
    }

    /** One turn of the probe loop at a bucket that is placed. */
    method ProbeBucket(idx: nat, distance: nat, ghost f: nat) returns (distance': nat)
      requires Probing(Now(), order, idx, distance) && StopsAt(Now(), f, idx, distance)
      requires Placed(dibs[idx])
      modifies buckets, dibs, `swapPut, `swapTmp, `head, `tail, `order
      ensures var idx' := NextIdx(buckets.Length, idx);
              && Probing(Now(), order, idx', distance' + 1) && StopsAt(Now(), f, idx', distance' + 1)
              && Dist(buckets.Length, f, idx') < Dist(buckets.Length, f, idx)
      ensures Contents() == old(Contents())
      ensures SameClasses(old(dibs[..]), dibs[..])
    {
      ghost var v, o := Now(), order;
      var dib := CalculateDib(idx);
      if dib < distance {
        ExchangeDone(v, o, idx, distance);
        Displace(idx, distance);
        ProbeSwap(v, o, idx, distance, f, Now());
        ExchangedItems(v, o, idx, distance, Now());
        DisplaceKeepsClasses(v, o, idx, distance, Now());
        distance' := dib;
      } else {
        ProbeOn(v, o, idx, distance, f);
        distance' := distance;
      }
    }

    /** The end of the probe loop, at a bucket that is not placed. */
    method Land(idx: nat, distance: nat) returns (rehashNext: bool)
      requires Probing(Now(), order, idx, distance) && !Placed(dibs[idx])
      modifies buckets, dibs, `swapPut, `swapTmp, `head, `tail, `order
      ensures Inv(Now(), order) && Contents() == old(Contents())
      ensures rehashNext <==> IDX_PUT in order
      ensures rehashNext <==> old(dibs[idx]) == DIB_RAW_REHASH
      ensures PlacedAlso(old(dibs[..]), dibs[..], idx)
    {
      ghost var v, o := Now(), order;
      if dibs[idx] == DIB_RAW_REHASH {
        ExchangeDone(v, o, idx, distance);
        LandOnWaiting(idx, distance);
        ProbeRehash(v, o, idx, distance, Now());
        rehashNext := true;
      } else {
        ProbePlace(v, o, idx, distance);
        LandOnFree(idx, distance);
        rehashNext := false;
      }
    }

    /** Walks from the home of the held entry to a bucket that is not placed. */
    method Probe(start: nat) returns (idx: nat, distance: nat)
      requires Inv(Now(), order) && IDX_PUT in order && |order| <= buckets.Length
      requires start == Home(Now(), swapPut.kv.key)
      modifies buckets, dibs, `swapPut, `swapTmp, `head, `tail, `order
      ensures Probing(Now(), order, idx, distance) && !Placed(dibs[idx])
      ensures Contents() == old(Contents()) && SameClasses(old(dibs[..]), dibs[..])
    {
      ghost var f := SomeUnplaced(Now(), order);
      ghost var was := dibs[..];
      idx, distance := start, 0;
      while dibs[idx] != DIB_RAW_FREE && dibs[idx] != DIB_RAW_REHASH
        invariant Probing(Now(), order, idx, distance) && StopsAt(Now(), f, idx, distance)
        invariant Contents() == old(Contents()) && SameClasses(was, dibs[..])
        decreases Dist(buckets.Length, f, idx)
      {
        ghost var mid := dibs[..];
        distance := ProbeBucket(idx, distance, f);
        ClassesChain(was, mid, dibs[..], 0);
        idx := NextIdx(buckets.Length, idx);
        distance := distance + 1;
      }
    }

    /**
      Finds a bucket for the held entry, displacing wealthier entries on the way.
      Stops at a free bucket, or at one whose entry waits to be rehashed; that
      entry is then the held one, and the result is true.
      */
    method PutRobinHood(start: nat) returns (rehashNext: bool, ghost spot: nat)
      requires Inv(Now(), order) && IDX_PUT in order && |order| <= buckets.Length
      requires start == Home(Now(), swapPut.kv.key)
      modifies buckets, dibs, `swapPut, `swapTmp, `head, `tail, `order, `lowest
      ensures Inv(Now(), order) && Contents() == old(Contents())
      ensures rehashNext <==> IDX_PUT in order
      ensures PlacedAlso(old(dibs[..]), dibs[..], spot)
      ensures rehashNext <==> old(dibs[..])[spot] == DIB_RAW_REHASH
      ensures lowest == if indirect && old(lowest) > spot then spot else old(lowest)
    {
      hide Inv, Items, SameClasses, PlacedAlso;
      ghost var was := dibs[..];
      var idx, distance := Probe(start);
      ghost var mid := dibs[..];
      rehashNext := Land(idx, distance);
      ClassesChain(was, mid, dibs[..], idx);
      if indirect && lowest > idx { lowest := idx; }
      spot := idx;
    }

    // ---------- deletion ----------

    method UnlinkBucket(i: nat)
      requires buckets.Length == dibs.Length <= IDX_PUT && i < buckets.Length
      requires kind.OrderedMap? ==> LinkOk(At(Now(), i).next) && LinkOk(At(Now(), i).prev)
      modifies buckets, `swapPut, `swapTmp, `head, `tail
      ensures Now() == Unlink(old(Now()), i)
    {
      if kind.OrderedMap? {
        var e := Fetch(i);
        if e.next != IDX_NIL { SetPrevAt(e.next, e.prev); } else { tail := e.prev; }
        if e.prev != IDX_NIL { SetNextAt(e.prev, e.next); } else { head := e.next; }
      }
    }

    method BucketMarkFree(i: nat)
      requires buckets.Length == dibs.Length && i < buckets.Length
      modifies buckets, dibs
      ensures Now() == MarkFree(old(Now()), i)
    {
      buckets[i] := ZERO;
      dibs[i] := DIB_RAW_FREE;
    }

    /**
      The first bucket after `idx` that is free or holds an entry at home, `reach`
      steps away; it may be `idx` itself, all the way around the table.
      */
    method FindStop(idx: nat) returns (right: nat, ghost reach: nat)
      requires AtRest(Now(), order) && idx < buckets.Length && idx in order
      ensures 1 <= reach <= buckets.Length && Stands(buckets.Length, idx, right, reach)
      ensures dibs[right] == 0 || dibs[right] == DIB_RAW_FREE
      ensures Crowded(dibs[..], idx, 1, reach)
    {
      var n := buckets.Length;
      ghost var z := StopExists(Now(), order);
      ghost var far := if z == idx then n else Dist(n, z, idx);
      right := NextIdx(n, idx);
      reach := 1;
      while dibs[right] != 0 && dibs[right] != DIB_RAW_FREE
        invariant right < n && 1 <= reach <= far
        invariant Stands(n, idx, right, reach)
        invariant Crowded(dibs[..], idx, 1, reach)
        decreases far - reach
      {
        StandsNext(n, idx, right, reach);
        assert idx != right;
        CrowdedOnward(dibs[..], idx, right, reach);
        right := NextIdx(n, right);
        reach := reach + 1;
      }
    }

    /** Removes the entry of bucket `idx`, shifting the entries after it one bucket back. */
    method RemoveEntry(idx: nat, ghost p: nat)
      requires AtRest(Now(), order) && nEntries == |order|
      requires p < |order| && order[p] == idx
      modifies buckets, dibs, `swapPut, `swapTmp, `head, `tail, `order, `nEntries
      ensures AtRest(Now(), order) && nEntries == |order| == |old(order)| - 1
      ensures Contents() == RemoveAt(old(Contents()), p)
      ensures BackByOne(buckets.Length, RemoveAt(old(order), p), order)
      ensures forall k :: 0 <= k < |order| ==> order[k] in old(order)
    {
      hide AtRest, Holed, Items, BackByOne, RemoveAt;
      var prev := TakeOut(idx, p);
      HoledIsSized(Now(), order, prev);
      RemovalCloses(Now(), order, prev);
      BucketMarkFree(prev);
      nEntries := nEntries - 1;
    }

    /** Unlinks the entry of bucket `idx` and shifts the entries after it; the dead bucket is `hole`. */
    method TakeOut(idx: nat, ghost p: nat) returns (hole: nat)
      requires AtRest(Now(), order) && p < |order| && order[p] == idx
      modifies buckets, dibs, `swapPut, `swapTmp, `head, `tail, `order
      ensures Holed(Now(), order, hole) && !ShiftDue(Now(), hole)
      ensures Contents() == RemoveAt(old(Contents()), p) && |order| == |old(order)| - 1
      ensures BackByOne(buckets.Length, RemoveAt(old(order), p), order)
      ensures forall k :: 0 <= k < |order| ==> order[k] in old(order)
    {
      hide Items, Inv, Holed, AtRest, BackByOne, RemoveAt, ShiftDue;
      RestIsListed(Now(), order, p);
      RemovedIn(order, p);
      var right; ghost var reach;
      right, reach := FindStop(idx);
      if right == idx { AfterHome(Now(), order, idx); }
      Detach(idx, p);
      hole := ShiftBackAll(idx, right, reach);
    }

    /** Takes the entry of bucket `idx` out of the list; its bucket is a hole from now on. */
    method Detach(idx: nat, ghost p: nat)
      requires AtRest(Now(), order) && p < |order| && order[p] == idx
      modifies buckets, `swapPut, `swapTmp, `head, `tail, `order
      ensures Holed(Now(), order, idx) && order == RemoveAt(old(order), p)
      ensures Contents() == RemoveAt(old(Contents()), p)
    {
      hide Items, Holed, Inv, Unlink, Linked, AtRest;
      RestLinks(Now(), order, p);
      RemovalOpens(Now(), order, p);
      UnlinkBucket(idx);
      order := RemoveAt(order, p);
    }

    /** Moves every entry strictly between bucket `idx` and bucket `right` one bucket back. */
    method ShiftBackAll(idx: nat, right: nat, ghost reach: nat) returns (prev: nat)
      requires Holed(Now(), order, idx)
      requires 1 <= reach <= buckets.Length && Stands(buckets.Length, idx, right, reach)
      requires dibs[right] == 0 || dibs[right] == DIB_RAW_FREE
      requires right == idx ==> dibs[NextIdx(buckets.Length, idx)] <= 1
      requires Crowded(dibs[..], idx, 1, reach)
      modifies buckets, dibs, `swapPut, `swapTmp, `head, `tail, `order
      ensures Holed(Now(), order, prev) && Contents() == old(Contents())
      ensures !ShiftDue(Now(), prev)
      ensures BackByOne(buckets.Length, old(order), order)
      ensures forall k :: 0 <= k < |order| ==> order[k] == idx || order[k] in old(order)
    {
      ghost var was := order;
      ShiftingStarts(Now(), order, idx, right, reach);
      ghost var t;
      prev, t := ShiftUntil(idx, right, reach);
      ShiftingEnds(Now(), order, idx, right, reach, t, was, prev);
    }

    method ShiftUntil(idx: nat, right: nat, ghost reach: nat) returns (prev: nat, ghost t: nat)
      requires idx < buckets.Length
      requires Shifting(Now(), order, idx, right, reach, 1, order, idx, NextIdx(buckets.Length, idx))
      requires 1 <= reach <= buckets.Length && Stands(buckets.Length, idx, right, reach)
      modifies buckets, dibs, `swapPut, `swapTmp, `head, `tail, `order
      ensures Shifting(Now(), order, idx, right, reach, t, old(order), prev, right)
      ensures Contents() == old(Contents())
    {
      hide Shifting, Items;
      ghost var was := order;
      prev := idx;
      var left: nat := NextIdx(buckets.Length, idx);
      t := 1;
      while left != right
        invariant t <= reach && Stands(buckets.Length, idx, left, t)
        invariant Shifting(Now(), order, idx, right, reach, t, was, prev, left)
        invariant Contents() == old(Contents())
        decreases reach - t
      {
        ShiftStep(idx, right, reach, t, was, prev, left);
        prev, left := left, NextIdx(buckets.Length, left);
        t := t + 1;
      }
    }

    method ShiftStep(idx: nat, right: nat, ghost reach: nat, ghost t: nat, ghost was: seq<nat>, prev: nat, left: nat)
      requires Shifting(Now(), order, idx, right, reach, t, was, prev, left)
      requires t < reach <= buckets.Length && Stands(buckets.Length, idx, right, reach)
      modifies buckets, dibs, `swapPut, `swapTmp, `head, `tail, `order
      ensures Shifting(Now(), order, idx, right, reach, t + 1, was, left, NextIdx(buckets.Length, left))
      ensures Stands(buckets.Length, idx, NextIdx(buckets.Length, left), t + 1)
      ensures Contents() == old(Contents())
    {
      ghost var v, o := Now(), order;
      ShiftingDue(v, o, idx, right, reach, t, was, prev, left);
      ghost var q := ShiftOne(prev, left);
      ShiftingOn(v, o, idx, right, reach, t, was, prev, left, Now(), q);
    }

    /** Moves the entry of bucket `left` into the hole at `prev`. */
    method ShiftOne(prev: nat, left: nat) returns (ghost q: nat)
      requires Holed(Now(), order, prev) && left == NextIdx(buckets.Length, prev)
      requires left != prev && dibs[left] != 0 && dibs[left] != DIB_RAW_FREE
      modifies buckets, dibs, `swapPut, `swapTmp, `head, `tail, `order
      ensures Holed(Now(), order, left) && Contents() == old(Contents())
      ensures q < |old(order)| && old(order)[q] == left && order == old(order)[q := prev]
      ensures dibs[..] == old(dibs[..])[prev := dibs[prev]] && (old(dibs[left]) <= 1 ==> dibs[prev] == 0)
    {
      hide Holed, Items, Shifted, LinkOk;
      ghost var v := Now();
      HoledIsSized(v, order, prev);
      RemovalShifts(v, order, prev);
      q := IndexIn(order, left);
      if kind.OrderedMap? { LinksInRange(v, order, q); }
      MoveBack(prev, left);
      order := order[q := prev];
    }

    method MoveBack(prev: nat, left: nat)
      requires 0 < buckets.Length == dibs.Length <= IDX_PUT && prev < buckets.Length
      requires left == NextIdx(buckets.Length, prev) && left != prev && TrueDib(Now(), left) > 0
      requires kind.OrderedMap? ==> LinkOk(At(Now(), left).next) && LinkOk(At(Now(), left).prev)
      modifies buckets, dibs, `swapPut, `swapTmp, `head, `tail
      ensures Now() == Shifted(old(Now()), prev)
    {
      var dib := CalculateDib(left);
      BucketMoveEntry(left, prev);
      BucketSetDib(prev, dib - 1);
    }

    // ---------- lookup ----------

    /**
      Finds the entry whose key compares equal to `key`; `p` is its position in
      insertion order, or -1.
      */
    method BucketScan(start: nat, key: Ptr) returns (idx: nat, ghost p: int)
      requires AtRest(Now(), order) && start == Home(Now(), key)
      ensures p == Pos(ops, Contents(), key) < |order|
      ensures idx == if Pos(ops, Contents(), key) < 0 then IDX_NIL else order[Pos(ops, Contents(), key)]
      ensures p >= 0 ==> idx < buckets.Length
    {
      idx := start;
      var distance := 0;
      while true
        invariant distance <= buckets.Length && Stands(buckets.Length, start, idx, distance)
        invariant NotBefore(Now(), order, start, key, distance)
        decreases buckets.Length - distance
      {
        if dibs[idx] == DIB_RAW_FREE {
          p := ScanMisses(Now(), order, start, key, idx, distance);
          return IDX_NIL, p;
        }
        var dib := CalculateDib(idx);
        if dib < distance {
          p := ScanMisses(Now(), order, start, key, idx, distance);
          return IDX_NIL, p;
        }
        if dib == distance && ops.canon(buckets[idx].kv.key) == ops.canon(key) {
          p := IndexIn(order, idx);
          PosIs(ops, Contents(), key, p);
          return;
        }
        ScanGoesOn(Now(), order, start, key, idx, distance);
        idx := NextIdx(buckets.Length, idx);
        distance := distance + 1;
      }
    }

    // ---------- the table at rest ----------

    /** The index below which all buckets are known to be free. */
    ghost function Lowest(): nat
      reads `indirect, `lowest
    {
      if indirect then lowest else 0
    }

    ghost predicate Valid()
      reads this, buckets, dibs
    {
      Good(Now(), order, nEntries, indirect, lowest, shift)
    }

    constructor (ops: HashOps, kind: Kind, sharedHashKey: nat)
      ensures Valid() && this.ops == ops && this.kind == kind
      ensures fresh(buckets) && fresh(dibs)
      ensures Contents() == []
    {
      this.ops, this.kind := ops, kind;
      buckets := new Entry[DirectBuckets(kind)](_ => ZERO);
      dibs := new nat[DirectBuckets(kind)](_ => DIB_RAW_FREE);
      indirect, hashKey, nEntries, lowest, shift := false, sharedHashKey, 0, 0, 0;
      head, tail := IDX_NIL, IDX_NIL;
      swapPut, swapTmp := ZERO, ZERO;
      order := [];
      new;
      assert buckets[..] == ZeroBuckets(DirectBuckets(kind)) && dibs[..] == FreeDibs(DirectBuckets(kind));
      EmptyRests(Now(), lowest);
    }

    // ---------- growing ----------

    /**
      Replaces the storage by one of `newBuckets` buckets, marks every stored
      entry for rehashing and installs the new hash key.
      */
    method Regrow(newBuckets: nat, freshKey: nat)
      requires Sized(Now()) && NoRehash(Now()) && buckets.Length <= newBuckets <= IDX_PUT
      modifies `buckets, `dibs, `hashKey
      ensures Regrown(old(Now()), Now()) && buckets.Length == newBuckets
      ensures fresh(buckets) && fresh(dibs)
    {
      var oldBuckets, oldDibs := buckets, dibs;
      var grown := new Entry[newBuckets](i requires 0 <= i < newBuckets reads oldBuckets =>
        if i < oldBuckets.Length then oldBuckets[i] else ZERO);
      var marks := new nat[newBuckets](_ => DIB_RAW_FREE);
      var i := 0;
      while i < oldDibs.Length
        invariant i <= oldDibs.Length
        invariant forall j :: 0 <= j < newBuckets ==>
                    marks[j] == if j < i && oldDibs[j] != DIB_RAW_FREE then DIB_RAW_REHASH else DIB_RAW_FREE
        modifies marks
      {
        assert oldDibs[i] != DIB_RAW_REHASH;
        marks[i] := if oldDibs[i] == DIB_RAW_FREE then DIB_RAW_FREE else DIB_RAW_REHASH;
        i := i + 1;
      }
      buckets, dibs, hashKey := grown, marks, freshKey;
    }

    /** Rehashes every marked entry among the first `n` buckets. */
    method RehashAll(n: nat) returns (nRehashed: nat)
      requires Rehashing(Now(), order, Lowest(), 0, n, 0, 0)
      modifies buckets, dibs, `swapPut, `swapTmp, `head, `tail, `order, `lowest
      ensures AtRest(Now(), order) && FreeBelow(dibs[..], Lowest()) && nRehashed == |order|
      ensures Contents() == old(Contents())
    {
      nRehashed := 0;
      var idx := 0;
      while idx < n
        invariant idx <= n && Rehashing(Now(), order, Lowest(), idx, n, nRehashed, 0)
        invariant Contents() == old(Contents())
      {
        if dibs[idx] == DIB_RAW_REHASH {
          nRehashed := RehashFrom(idx, n, nRehashed);
        } else {
          RehashingSkips(Now(), order, Lowest(), idx, n, nRehashed);
        }
        idx := idx + 1;
      }
      RehashingEnds(Now(), order, Lowest(), n, nRehashed);
    }

    /** Rehashes the entry of bucket `idx` and every entry displaced by it. */
    method RehashFrom(idx: nat, ghost n: nat, nRehashed: nat) returns (count: nat)
      requires Rehashing(Now(), order, Lowest(), idx, n, nRehashed, 0)
      requires idx < buckets.Length && dibs[idx] == DIB_RAW_REHASH
      modifies buckets, dibs, `swapPut, `swapTmp, `head, `tail, `order, `lowest
      ensures Rehashing(Now(), order, Lowest(), idx + 1, n, count, 0) && Contents() == old(Contents())
    {
      var optimal := BucketHash(buckets[idx].kv.key);
      if optimal == idx {
        RehashingStayed(Now(), order, Lowest(), idx, n, nRehashed);
        dibs[idx] := 0;
        count := nRehashed + 1;
      } else {
        TakeWaiting(idx, n, nRehashed);
        count := RehashChain(idx + 1, n, nRehashed, optimal);
      }
    }

    /** Puts the held entry where it belongs, then the entry that this displaced, and so on. */
    method RehashChain(ghost from: nat, ghost n: nat, nRehashed: nat, start: nat) returns (count: nat)
      requires Rehashing(Now(), order, Lowest(), from, n, nRehashed, 1)
      requires start == Home(Now(), swapPut.kv.key)
      modifies buckets, dibs, `swapPut, `swapTmp, `head, `tail, `order, `lowest
      ensures Rehashing(Now(), order, Lowest(), from, n, count, 0) && Contents() == old(Contents())
    {
      count := nRehashed;
      var optimal, rehashNext := start, true;
      while rehashNext
        invariant Rehashing(Now(), order, Lowest(), from, n, count, if rehashNext then 1 else 0)
        invariant rehashNext ==> optimal == Home(Now(), swapPut.kv.key)
        invariant Contents() == old(Contents())
        decreases CountWaiting(dibs[..]) + if rehashNext then 1 else 0
      {
        rehashNext := RehashHeld(from, n, count, optimal);
        count := count + 1;
        if rehashNext {
          optimal := BucketHash(swapPut.kv.key);
        }
      }
    }

    /** Takes the marked entry of bucket `idx` into swap slot `IDX_PUT`. */
    method TakeWaiting(idx: nat, ghost n: nat, ghost nRehashed: nat)
      requires Rehashing(Now(), order, Lowest(), idx, n, nRehashed, 0)
      requires idx < buckets.Length && dibs[idx] == DIB_RAW_REHASH
      modifies buckets, dibs, `swapPut, `swapTmp, `head, `tail, `order
      ensures Rehashing(Now(), order, Lowest(), idx + 1, n, nRehashed, 1) && Contents() == old(Contents())
      ensures swapPut.kv == old(buckets[idx]).kv
    {
      hide Inv, Linked, PickedUp, Items, Rehashing;
      ghost var v, o := Now(), order;
      WaitingIsListed(v, o, Lowest(), idx, n, nRehashed);
      PickUpBucket(idx);
      RehashingPickedUp(v, o, Lowest(), idx, n, nRehashed, Now());
      order := o[IndexIn(o, idx) := IDX_PUT];
    }

    method PickUpBucket(idx: nat)
      requires 0 < buckets.Length == dibs.Length <= IDX_PUT && idx < buckets.Length
      requires kind.OrderedMap? ==> LinkOk(At(Now(), idx).next) && LinkOk(At(Now(), idx).prev)
      modifies buckets, dibs, `swapPut, `swapTmp, `head, `tail
      ensures Now() == PickedUp(old(Now()), idx)
      ensures swapPut.kv == old(buckets[idx]).kv
    {
      dibs[idx] := DIB_RAW_FREE;
      MoveKeepsPairs(Now(), idx, IDX_PUT);
      assert At(MoveEntry(Now(), idx, IDX_PUT), IDX_PUT).kv == old(buckets[idx]).kv;
      BucketMoveEntry(idx, IDX_PUT);
      buckets[idx] := ZERO;
    }

    /** Puts the held entry where it belongs; an entry displaced in turn is the held one afterwards. */
    method RehashHeld(ghost from: nat, ghost n: nat, ghost count: nat, optimal: nat) returns (rehashNext: bool)
      requires Rehashing(Now(), order, Lowest(), from, n, count, 1) && optimal == Home(Now(), swapPut.kv.key)
      modifies buckets, dibs, `swapPut, `swapTmp, `head, `tail, `order, `lowest
      ensures Rehashing(Now(), order, Lowest(), from, n, count + 1, if rehashNext then 1 else 0)
      ensures Contents() == old(Contents())
      ensures CountWaiting(dibs[..]) + (if rehashNext then 1 else 0) == CountWaiting(old(dibs[..]))
    {
      ghost var v, o, low := Now(), order, Lowest();
      ghost var spot;
      rehashNext, spot := PutRobinHood(optimal);
      RehashingPlaced(v, o, low, from, n, count, Now(), order, Lowest(), spot);
    }

    /**
      Makes room for `add` more entries.  Returns 0 if there is room already, 1 after
      the table has grown, and -ENOMEM, changing nothing, if it cannot grow: when the
      bytes cannot be counted in 32 bits, or the reallocation fails.  `allocOk` is the
      outcome of the reallocation and `freshKey` the new hash key.
      */
    method ResizeBuckets(add: nat, allocOk: bool, freshKey: nat) returns (r: int)
      requires Valid() && add <= UINT_MAX && Shiftable(PlanFor(add))
      modifies Repr()
      ensures Valid() && Contents() == old(Contents()) && nEntries == old(nEntries)
      ensures var e := old(nEntries) + add;
        r == if (!old(indirect) && e <= DirectBuckets(kind)) || e + e / 4 <= old(buckets.Length) then 0
             else if (e + e / 4) * SlotBytes(kind) > UINT_MAX || !allocOk then -ENOMEM
             else 1
      ensures r >= 0 <==> CanStore(kind, old(Room()), old(nEntries) + add, allocOk)
      ensures Room() == SizeAfter(kind, old(Room()), old(nEntries) + add, allocOk)
      ensures r >= 0 ==> nEntries + add <= buckets.Length && (indirect ==> nEntries + add < buckets.Length)
      ensures r == 1 ==> buckets.Length >= 2 * old(buckets.Length)
      ensures r != 1 ==> Now() == old(Now()) && order == old(order)
      ensures fresh(Repr() - old(Repr()))
    {
      hide Good, PlanResize, SlotBytes, DirectBuckets, BucketsFor, ShiftFor, Items;
      GoodRoom(this);
      PlanDecides(kind, Room(), nEntries, add);
      var plan := PlanResize(kind, indirect, buckets.Length, nEntries, add);
      match plan {
        case Reject => return -ENOMEM;
        case Enough =>
          EnoughFits(kind, indirect, buckets.Length, shift, nEntries, add);
          return 0;
        case Grow(newShift) =>
          if !allocOk { return -ENOMEM; }
          GrowDoubles(kind, indirect, buckets.Length, shift, nEntries, add);
          GrowTo(newShift, freshKey);
          return 1;
      }
    }

    /** Its storage. */
    ghost function Room(): Size
      reads `indirect, `buckets
    {
      Size(indirect, buckets.Length)
    }

    ghost function PlanFor(add: nat): Plan
      reads `indirect, `buckets, `nEntries
    {
      PlanResize(kind, indirect, buckets.Length, nEntries, add)
    }

    /** Grows the storage to `2^newShift` bytes and rehashes every entry in place. */
    method GrowTo(newShift: nat, freshKey: nat)
      requires Valid() && Storage(kind, true, BucketsFor(kind, newShift), newShift)
      requires 2 * buckets.Length <= BucketsFor(kind, newShift) <= IDX_PUT
      modifies Repr()
      ensures Valid() && indirect && Contents() == old(Contents()) && nEntries == old(nEntries)
      ensures buckets.Length == BucketsFor(kind, newShift)
      ensures fresh(buckets) && fresh(dibs)
    {
      hide Rehashing, Inv, Items, Regrown;
      ghost var v := Now();
      RestIsSized(v, order);
      var oldBuckets := buckets.Length;
      Regrow(BucketsFor(kind, newShift), freshKey);
      if !indirect { lowest := 0; }
      indirect, shift := true, newShift;
      RehashingBegins(v, order, Now(), Lowest());
      var nRehashed := RehashAll(oldBuckets);
      assert nRehashed == nEntries;
    }

    // ---------- operations ----------

    /** Links the pair held in swap slot `IDX_PUT` behind the last entry. */
    method LinkHeld(kv: Pair)
      requires AtRest(Now(), order)
      requires Pos(ops, Contents(), kv.key) < 0
      modifies buckets, `swapPut, `swapTmp, `head, `tail, `order
      ensures Inv(Now(), order) && order == old(order) + [IDX_PUT] && NoRehash(Now())
      ensures Contents() == old(Contents()) + [kv] && swapPut.kv == kv
    {
      hide Inv, LinkPut, Linked;
      ghost var v := Now();
      ghost var e := Entry(kv, IDX_NIL, tail);
      RestIsSized(v, order);
      HeldList(v, order, e);
      if kind.OrderedMap? && tail != IDX_NIL { ListedIsThere(v, order, tail); }
      LinkAtEnd(kv);
      HeldJoins(v, order, e, Now());
      order := order + [IDX_PUT];
    }

    method LinkAtEnd(kv: Pair)
      requires buckets.Length == dibs.Length <= IDX_PUT
      requires kind.OrderedMap? ==> LinkOk(tail)
      modifies buckets, `swapPut, `swapTmp, `head, `tail
      ensures Now() == LinkPut(old(Now()).(put := Entry(kv, IDX_NIL, old(tail))))
    {
      swapPut := Entry(kv, IDX_NIL, tail);
      if kind.OrderedMap? {
        if tail != IDX_NIL { SetNextAt(tail, IDX_PUT); }
        tail := IDX_PUT;
        if head == IDX_NIL { head := IDX_PUT; }
      }
    }

    /**
      Puts a pair whose key is not stored yet; `idx` is the home of the key.
      Grows the table first if `mayResize`.
      */
    method PutBoldly(idx: nat, kv: Pair, mayResize: bool, allocOk: bool, freshKey: nat) returns (r: int)
      requires Valid() && Pos(ops, Contents(), kv.key) < 0 && idx == Home(Now(), kv.key)
      requires if mayResize then Shiftable(PlanFor(1)) else nEntries < buckets.Length
      modifies Repr()
      ensures Valid() && fresh(Repr() - old(Repr()))
      ensures r == (if mayResize && !CanStore(kind, old(Room()), old(nEntries) + 1, allocOk) then -ENOMEM else 1)
      ensures Room() == if mayResize then SizeAfter(kind, old(Room()), old(nEntries) + 1, allocOk) else old(Room())
      ensures Contents() == if r == 1 then old(Contents()) + [kv] else old(Contents())
    {
      hide Good, Items, Pos, CanStore, SizeAfter, SlotBytes, DirectBuckets, PlanResize;
      var home := idx;
      if mayResize {
        r := ResizeBuckets(1, allocOk, freshKey);
        if r < 0 { return; }
        GoodRoom(this);
        if r > 0 { home := BucketHash(kv.key); }
      }
      PutHeld(home, kv);
      r := 1;
    }

    method PutHeld(home: nat, kv: Pair)
      requires Valid() && nEntries < buckets.Length
      requires Pos(ops, Contents(), kv.key) < 0 && home == Home(Now(), kv.key)
      modifies buckets, dibs, `swapPut, `swapTmp, `head, `tail, `order, `lowest, `nEntries
      ensures Valid() && Contents() == old(Contents()) + [kv]
    {
      hide Inv, PlacedAlso, KeysDiffer;
      LinkHeld(kv);
      ghost var v, o, low := Now(), order, lowest;
      var rehashNext; ghost var spot;
      rehashNext, spot := PutRobinHood(home);
      PutRests(v, o, nEntries, indirect, low, shift, Now(), order, lowest, spot);
      assert !rehashNext;
      nEntries := nEntries + 1;
    }

    /** Overwrites key pointer and value of a stored entry with an equal key. */
    method Overwrite(idx: nat, ghost p: nat, kv: Pair)
      requires Valid() && p < |order| && order[p] == idx
      requires ops.canon(kv.key) == ops.canon(Contents()[p].key)
      modifies buckets
      ensures Valid() && Contents() == old(Contents())[p := kv]
    {
      OverwriteRests(Now(), order, p, kv);
      ghost var v := Now();
      buckets[idx] := buckets[idx].(kv := kv);
      assert Now() == Overwritten(v, idx, kv);
    }

    /** Removes the entry of bucket `idx`, which is the `p`-th in insertion order. */
    method Remove(idx: nat, ghost p: nat)
      requires Valid() && p < |order| && order[p] == idx
      modifies buckets, dibs, `swapPut, `swapTmp, `head, `tail, `order, `nEntries
      ensures Valid() && Contents() == RemoveAt(old(Contents()), p)
      ensures |order| == |old(order)| - 1
      ensures BackByOne(buckets.Length, RemoveAt(old(order), p), order)
      ensures nEntries == old(nEntries) - 1 < buckets.Length
    {
      hide Inv, BackByOne, Storage, FreeBelow, Items;
      ghost var v, o, n := Now(), order, nEntries;
      RemoveEntry(idx, p);
      RemovalRests(v, o, n, indirect, lowest, shift, Now(), order);
    }

    static method ZeroedStorage(n: nat) returns (b: array<Entry>, d: array<nat>)
      ensures fresh(b) && fresh(d) && b.Length == d.Length == n
      ensures b[..] == ZeroBuckets(n) && d[..] == FreeDibs(n)
    {
      b := new Entry[n](_ => ZERO);
      d := new nat[n](_ => DIB_RAW_FREE);
    }

    /** Takes over new storage, with nothing in it. */
    method InstallEmpty(b: array<Entry>, d: array<nat>, key: nat)
      modifies this
      ensures buckets == b && dibs == d && order == [] && nEntries == 0 && !indirect && shift == 0
      ensures Now() == View(ops, key, kind, b[..], d[..], swapPut, swapTmp, IDX_NIL, IDX_NIL)
    {
      buckets, dibs, indirect, hashKey, nEntries := b, d, false, key, 0;
      head, tail, order, shift := IDX_NIL, IDX_NIL, [], 0;
    }

    /** Empties the table; it goes back to the embedded storage and the shared hash key. */
    method Clear(sharedHashKey: nat)
      requires Valid()
      modifies this
      ensures Valid() && Contents() == []
      ensures fresh(buckets) && fresh(dibs)
      ensures !indirect && buckets.Length == DirectBuckets(kind)
    {
      hide Good, Items, FreeBelow, Storage, Inv, Linked, DirectBuckets, ZeroBuckets, FreeDibs, Sized;
      var b, d := ZeroedStorage(DirectBuckets(kind));
      InstallEmpty(b, d, sharedHashKey);
      EmptyRests(Now(), lowest);
    }
  }

  /** A bucket that waits for its new place is in the list, and its links lead to buckets. */
  lemma WaitingIsListed(v: View, o: seq<nat>, low: nat, idx: nat, n: nat, count: nat)
    requires Rehashing(v, o, low, idx, n, count, 0) && idx < |v.ents|
      && (idx < |v.dibs| ==> v.dibs[idx] == DIB_RAW_REHASH)
    ensures idx in o && 0 < |v.ents| == |v.dibs| <= IDX_PUT
    ensures v.kind.OrderedMap? ==>
      && (At(v, idx).next == IDX_NIL || VirtualIdx(v, At(v, idx).next))
      && (At(v, idx).prev == IDX_NIL || VirtualIdx(v, At(v, idx).prev))
  {
    assert idx in o;
    if v.kind.OrderedMap? { LinksInRange(v, o, IndexIn(o, idx)); }
  }

  lemma InvSlots(v: View, o: seq<nat>)
    requires Inv(v, o)
    ensures Slots(v, o) && |v.ents| == |v.dibs| && (v.kind.OrderedMap? ==> Linked(v, o))
  {
  }

  lemma HoledIsSized(v: View, o: seq<nat>, hole: nat)
    requires Holed(v, o, hole)
    ensures Sized(v) && hole < |v.ents| && forall k :: 0 <= k < |o| ==> o[k] < |v.ents|
    ensures v.kind.OrderedMap? ==> Linked(v, o)
  {
  }

  lemma RestIsSized(v: View, o: seq<nat>)
    requires AtRest(v, o)
    ensures Sized(v) && NoRehash(v)
  {
  }

  lemma ListedIsThere(v: View, o: seq<nat>, i: nat)
    requires AtRest(v, o) && i in o
    ensures VirtualIdx(v, i)
  {
  }

  lemma RestLinks(v: View, o: seq<nat>, p: nat)
    requires AtRest(v, o) && p < |o|
    ensures o[p] < |v.ents| == |v.dibs| <= IDX_PUT
    ensures v.kind.OrderedMap? ==>
      && (At(v, o[p]).next == IDX_NIL || VirtualIdx(v, At(v, o[p]).next))
      && (At(v, o[p]).prev == IDX_NIL || VirtualIdx(v, At(v, o[p]).prev))
  {
    assert o[p] in o;
    if v.kind.OrderedMap? { LinksInRange(v, o, p); }
  }

  lemma RestIsListed(v: View, o: seq<nat>, p: nat)
    requires AtRest(v, o) && p < |o|
    ensures o[p] < |v.ents| == |v.dibs| && o[p] in o && v.dibs[o[p]] != DIB_RAW_FREE
  {
  }

  lemma RemovedIn(o: seq<nat>, p: nat)
    requires p < |o|
    ensures var r := RemoveAt(o, p); |r| == |o| - 1 && forall k :: 0 <= k < |r| ==> r[k] in o
  {
  }

  lemma GoodRoom(h: HashmapBase)
    requires h.Valid()
    ensures Storage(h.kind, h.indirect, h.buckets.Length, h.shift) && h.nEntries <= h.buckets.Length
    ensures 0 < h.buckets.Length == h.dibs.Length && h.buckets.Length <= UINT_MAX / SlotBytes(h.kind) <= UINT_MAX
  {
    hide FreeBelow, Items, KeysDiffer, Linked;
    if h.indirect { BucketsInRange(h.kind, h.shift); }
  }
}
