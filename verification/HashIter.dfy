/**
  Iterating over the hash table while the caller may remove the entry it has
  just been given.  A removal can shift the next entry one bucket back, which the
  iterator notices by comparing key pointers.
  */
module HashIter {
  import opened RobinHood
  import opened HashView
  import opened HashSteps
  import opened HashSpec
  import opened Hashmap
  import opened HashRuns

  datatype Iterator = Iterator(idx: nat, nextKey: Ptr)

  const ITERATOR_FIRST := Iterator(IDX_FIRST, NULL)

  // ---------- where an iterator stands ----------

  /**
    An internal-order iterator that still owes the keys in `pending`: the entry it
    will return next, the `p`-th, is at `it.idx` or one bucket before, and no pending
    entry is in an earlier bucket.
    */
  ghost predicate ReadyInternal(v: View, order: seq<nat>, it: Iterator, pending: set<Ptr>, p: nat) {
    var items := Items(v, order);
    if it.idx == IDX_FIRST then true
    else if it.idx == IDX_NIL then forall k :: 0 <= k < |items| ==> items[k].key !in pending
    else
      && 0 < it.idx < |v.ents| && p < |order| && items[p].key == it.nextKey != NULL
      && (order[p] == it.idx || order[p] == it.idx - 1)
      && forall k :: 0 <= k < |order| && items[k].key in pending ==> order[k] >= order[p]
  }

  /**
    An insertion-order iterator that still owes the keys in `pending`: it will return
    the `p`-th entry next, and every pending entry comes no earlier in the list.
    */
  ghost predicate ReadyInsertion(v: View, order: seq<nat>, it: Iterator, pending: set<Ptr>, p: nat) {
    var items := Items(v, order);
    && p <= |order|
    && (forall k :: 0 <= k < p ==> items[k].key !in pending)
    && if it.idx == IDX_FIRST then p == 0
       else if it.idx == IDX_NIL then p == |order|
       else
         && it.idx < |v.ents| && p < |order| && items[p].key == it.nextKey != NULL
         && (order[p] == it.idx || order[p] == PrevIdx(|v.ents|, it.idx))
  }

  ghost predicate Ready(v: View, order: seq<nat>, it: Iterator, pending: set<Ptr>, p: nat) {
    if v.kind.OrderedMap? then ReadyInsertion(v, order, it, pending, p)
    else ReadyInternal(v, order, it, pending, p)
  }

  /** As `Ready`, before anything was removed: the next entry is exactly at `it.idx`. */
  ghost predicate Exact(v: View, order: seq<nat>, it: Iterator, pending: set<Ptr>, p: nat) {
    Ready(v, order, it, pending, p) && (p < |order| && it.idx < |v.ents| ==> order[p] == it.idx)
  }

  // ---------- stepping ----------

  /** The first bucket from `from` on that is not free, or `IDX_NIL`. */
  method SkipFreeBuckets(h: HashmapBase, from: nat) returns (idx: nat)
    requires h.Valid()
    ensures h.buckets.Length == h.dibs.Length < IDX_NIL
    ensures if idx == IDX_NIL then forall i :: from <= i < h.dibs.Length ==> h.dibs[i] == DIB_RAW_FREE
            else from <= idx < h.dibs.Length && h.dibs[idx] != DIB_RAW_FREE
    ensures forall i :: from <= i < idx && i < h.dibs.Length ==> h.dibs[i] == DIB_RAW_FREE
  {
    idx := from;
    while idx < h.dibs.Length
      invariant from <= idx
      invariant forall i :: from <= i < idx && i < h.dibs.Length ==> h.dibs[i] == DIB_RAW_FREE
    {
      if h.dibs[idx] != DIB_RAW_FREE { return; }
      idx := idx + 1;
    }
    idx := IDX_NIL;
  }

  /** Where the entry owed next is now. */
  lemma InternalNext(v: View, order: seq<nat>, it: Iterator, pending: set<Ptr>, p: nat)
    requires AtRest(v, order) && ReadyInternal(v, order, it, pending, p)
    requires it.idx != IDX_FIRST && it.idx != IDX_NIL
    ensures order[p] == if v.ents[it.idx].kv.key == it.nextKey then it.idx else it.idx - 1
  {
    FoundByKey(v, order, p, it.idx);
  }

  /** All pending entries behind bucket `i` are at the next occupied bucket or later. */
  lemma InternalOn(v: View, order: seq<nat>, pending: set<Ptr>, c: nat, next: nat) returns (p: nat)
    requires AtRest(v, order) && NonNull(Items(v, order)) && c < |order|
    requires forall k :: 0 <= k < |order| && Items(v, order)[k].key in pending ==> order[k] >= order[c]
    requires next == IDX_NIL || (order[c] < next < |v.ents| && v.dibs[next] != DIB_RAW_FREE)
    requires forall i :: order[c] < i < |v.ents| && i < next ==> v.dibs[i] == DIB_RAW_FREE
    ensures var it := Iterator(next, if next == IDX_NIL then NULL else v.ents[next].kv.key);
            && ReadyInternal(v, order, it, pending - {Items(v, order)[c].key}, p)
            && (next != IDX_NIL ==> p < |order| && order[p] == next)
  {
    var items := Items(v, order);
    var it := Iterator(next, if next == IDX_NIL then NULL else v.ents[next].kv.key);
    p := if next == IDX_NIL then 0 else IndexIn(order, next);
    if next != IDX_NIL { assert At(v, order[p]) == v.ents[next]; }
    forall k | 0 <= k < |order| && items[k].key in pending - {items[c].key}
      ensures order[c] < order[k] && (next == IDX_NIL || order[k] >= next)
    {
      assert order[k] != order[c];
    }
  }

  /** The first occupied bucket, for a fresh internal-order iterator. */
  lemma InternalFirst(v: View, order: seq<nat>, pending: set<Ptr>, first: nat) returns (c: nat)
    requires AtRest(v, order) && first < |v.ents| && v.dibs[first] != DIB_RAW_FREE
    requires forall i :: 0 <= i < first ==> v.dibs[i] == DIB_RAW_FREE
    ensures c < |order| && order[c] == first
    ensures forall k :: 0 <= k < |order| && Items(v, order)[k].key in pending ==> order[k] >= order[c]
  {
    c := IndexIn(order, first);
  }

  /**
    Returns the next bucket in internal order, or `IDX_NIL` when no pending entry is
    left; `c` is the position of the returned entry and `p'` that of the one after it.
    */
  method IterateInternal(h: HashmapBase, it: Iterator, ghost pending: set<Ptr>, ghost p: nat)
    returns (idx: nat, it': Iterator, ghost c: nat, ghost p': nat)
    requires h.Valid() && !h.kind.OrderedMap? && NonNull(h.Contents())
    requires ReadyInternal(h.Now(), h.order, it, pending, p)
    modifies h`lowest
    ensures h.Valid()
    ensures idx == IDX_NIL ==> forall k :: 0 <= k < |h.Contents()| ==> h.Contents()[k].key !in pending
    ensures it.idx == IDX_NIL ==> idx == IDX_NIL
    ensures idx != IDX_NIL ==>
              && c < |h.order| && h.order[c] == idx < h.buckets.Length
              && Exact(h.Now(), h.order, it', pending - {h.Contents()[c].key}, p')
    ensures idx != IDX_NIL && it.idx != IDX_FIRST ==> c == p
    ensures idx != IDX_NIL ==> it'.idx == IDX_NIL || idx < it'.idx < h.buckets.Length
  {
    hide Good, Items, NonNull, AtRest, Ready, Exact, ReadyInternal;
    p' := 0;
    idx, c := CurrentInternal(h, it, pending, p);
    if idx == IDX_NIL {
      return IDX_NIL, Iterator(IDX_NIL, NULL), c, p';
    }
    var next := SkipFreeBuckets(h, idx + 1);
    GoodRests(h);
    p' := InternalOn(h.Now(), h.order, pending, c, next);
    it' := Iterator(next, if next == IDX_NIL then NULL else h.buckets[next].kv.key);
    InternalIsExact(h.Now(), h.order, it', pending - {h.Contents()[c].key}, p');
  }

  lemma GoodRests(h: HashmapBase)
    requires h.Valid()
    ensures AtRest(h.Now(), h.order) && h.buckets.Length == h.dibs.Length < IDX_NIL
  {
  }

  lemma InternalIsExact(v: View, order: seq<nat>, it: Iterator, pending: set<Ptr>, p: nat)
    requires !v.kind.OrderedMap? && ReadyInternal(v, order, it, pending, p)
    requires it.idx != IDX_NIL ==> p < |order| && order[p] == it.idx
    requires |v.ents| < IDX_NIL
    ensures Exact(v, order, it, pending, p)
  {
  }

  /** The entry that an internal-order iterator is ready to return. */
  method CurrentInternal(h: HashmapBase, it: Iterator, ghost pending: set<Ptr>, ghost p: nat)
    returns (idx: nat, ghost c: nat)
    requires h.Valid() && NonNull(h.Contents()) && ReadyInternal(h.Now(), h.order, it, pending, p)
    modifies h`lowest
    ensures h.Valid()
    ensures idx == IDX_NIL ==> forall k :: 0 <= k < |h.Contents()| ==> h.Contents()[k].key !in pending
    ensures it.idx == IDX_NIL ==> idx == IDX_NIL
    ensures idx != IDX_NIL ==> c < |h.order| && h.order[c] == idx < h.buckets.Length
    ensures idx != IDX_NIL ==>
              forall k :: 0 <= k < |h.order| && h.Contents()[k].key in pending ==> h.order[k] >= h.order[c]
    ensures idx != IDX_NIL && it.idx != IDX_FIRST ==> c == p
  {
    c := 0;
    if it.idx == IDX_NIL {
      return IDX_NIL, c;
    }
    if it.idx == IDX_FIRST {
      idx := FirstInternal(h);
      if idx == IDX_NIL {
        FirstStored(h.Now(), h.order);
        return IDX_NIL, c;
      }
      c := InternalFirst(h.Now(), h.order, pending, idx);
    } else {
      InternalNext(h.Now(), h.order, it, pending, p);
      idx := if h.buckets[it.idx].kv.key == it.nextKey then it.idx else it.idx - 1;
      c := p;
    }
  }

  lemma FirstStored(v: View, order: seq<nat>)
    requires AtRest(v, order)
    ensures order == [] || (order[0] < |v.ents| && v.dibs[order[0]] != DIB_RAW_FREE)
  {
    if order != [] { assert order[0] in order; }
  }

  /** Fast-forwards to the first occupied bucket and remembers it. */
  method FirstInternal(h: HashmapBase) returns (idx: nat)
    requires h.Valid()
    modifies h`lowest
    ensures h.Valid() && h.buckets.Length == h.dibs.Length < IDX_NIL
    ensures if idx == IDX_NIL then forall i :: 0 <= i < h.dibs.Length ==> h.dibs[i] == DIB_RAW_FREE
            else idx < h.dibs.Length && h.dibs[idx] != DIB_RAW_FREE
    ensures forall i :: 0 <= i < idx && i < h.dibs.Length ==> h.dibs[i] == DIB_RAW_FREE
  {
    if h.indirect {
      idx := SkipFreeBuckets(h, h.lowest);
      h.lowest := idx;
    } else {
      idx := SkipFreeBuckets(h, 0);
    }
  }

  /** The bucket of the entry that an insertion-order iterator owes next, or `IDX_NIL`. */
  method InsertionIdx(h: HashmapBase, it: Iterator, ghost pending: set<Ptr>, ghost p: nat) returns (idx: nat)
    requires h.Valid() && h.kind.OrderedMap? && ReadyInsertion(h.Now(), h.order, it, pending, p)
    ensures if p == |h.order| then idx == IDX_NIL else idx == h.order[p] < h.buckets.Length < IDX_NIL
  {
    if it.idx == IDX_NIL || (it.idx == IDX_FIRST && h.head == IDX_NIL) {
      return IDX_NIL;
    }
    if it.idx == IDX_FIRST {
      idx := h.head;
    } else {
      FoundByKey(h.Now(), h.order, p, it.idx);
      idx := if h.buckets[it.idx].kv.key == it.nextKey then it.idx else PrevIdx(h.buckets.Length, it.idx);
    }
  }

  /** Returns the next bucket in insertion order, or `IDX_NIL` at the end of the list. */
  method IterateInsertion(h: HashmapBase, it: Iterator, ghost pending: set<Ptr>, ghost p: nat)
    returns (idx: nat, it': Iterator)
    requires h.Valid() && h.kind.OrderedMap? && NonNull(h.Contents())
    requires ReadyInsertion(h.Now(), h.order, it, pending, p)
    ensures idx == IDX_NIL ==> p == |h.order| && forall k :: 0 <= k < |h.Contents()| ==> h.Contents()[k].key !in pending
    ensures it.idx == IDX_NIL ==> idx == IDX_NIL
    ensures idx != IDX_NIL ==>
              && p < |h.order| && h.order[p] == idx < h.buckets.Length
              && Exact(h.Now(), h.order, it', pending - {h.Contents()[p].key}, p + 1)
  {
    idx := InsertionIdx(h, it, pending, p);
    if idx == IDX_NIL {
      return IDX_NIL, Iterator(IDX_NIL, it.nextKey);
    }
    NextLinkOk(h.Now(), h.order, p);
    var next := h.buckets[idx].next;
    it' := Iterator(next, if next == IDX_NIL then it.nextKey else h.buckets[next].kv.key);
    InsertionOn(h.Now(), h.order, pending, p, it');
  }

  lemma NextLinkOk(v: View, order: seq<nat>, p: nat)
    requires AtRest(v, order) && v.kind.OrderedMap? && p < |order|
    ensures order[p] < |v.ents|
    ensures v.ents[order[p]].next == if p + 1 < |order| then order[p + 1] else IDX_NIL
    ensures p + 1 < |order| ==> order[p + 1] < |v.ents| < IDX_NIL && v.ents[order[p + 1]].kv == Items(v, order)[p + 1]
  {
    assert Chained(v, order, p);
    assert At(v, order[p]) == v.ents[order[p]];
    if p + 1 < |order| { assert At(v, order[p + 1]) == v.ents[order[p + 1]]; }
  }

  lemma InsertionOn(v: View, order: seq<nat>, pending: set<Ptr>, p: nat, it: Iterator)
    requires AtRest(v, order) && v.kind.OrderedMap? && NonNull(Items(v, order)) && p < |order|
    requires forall k :: 0 <= k < p ==> Items(v, order)[k].key !in pending
    requires it.idx == if p + 1 < |order| then order[p + 1] else IDX_NIL
    requires p + 1 < |order| ==> it.nextKey == Items(v, order)[p + 1].key
    ensures Exact(v, order, it, pending - {Items(v, order)[p].key}, p + 1)
  {
    if p + 1 < |order| { NextLinkOk(v, order, p); }
  }

  // ---------- removing the current entry ----------

  /** The position of the `p`-th entry after the `c`-th was removed. */
  function After(p: nat, c: nat): nat { if p > c then p - 1 else p }

  /** Removing the current entry, the `c`-th, keeps the iterator ready. */
  lemma ReadyAfterRemoval(v: View, order: seq<nat>, it: Iterator, pending: set<Ptr>, p: nat, c: nat, w: View,
                          o: seq<nat>)
    requires Exact(v, order, it, pending, p) && AtRest(v, order) && c < |order|
    requires it.idx != IDX_FIRST
    requires if v.kind.OrderedMap? then p == c + 1 else it.idx == IDX_NIL || order[c] < it.idx < |v.ents|
    requires w.kind == v.kind && |w.ents| == |v.ents|
    requires BackByOne(|v.ents|, RemoveAt(order, c), o) && Items(w, o) == RemoveAt(Items(v, order), c)
    ensures Ready(w, o, it, pending, After(p, c))
  {
    if v.kind.OrderedMap? {
      InsertionAfterRemoval(v, order, it, pending, c, w, o);
    } else {
      InternalAfterRemoval(v, order, it, pending, p, c, w, o);
    }
  }

  lemma InsertionAfterRemoval(v: View, order: seq<nat>, it: Iterator, pending: set<Ptr>, c: nat, w: View, o: seq<nat>)
    requires ReadyInsertion(v, order, it, pending, c + 1) && it.idx != IDX_FIRST
    requires c + 1 < |order| && it.idx < |v.ents| ==> order[c + 1] == it.idx
    requires c < |order| && |w.ents| == |v.ents|
    requires BackByOne(|v.ents|, RemoveAt(order, c), o) && Items(w, o) == RemoveAt(Items(v, order), c)
    ensures ReadyInsertion(w, o, it, pending, c)
  {
    assert |o| == |order| - 1;
    if c + 1 < |order| { assert RemoveAt(order, c)[c] == order[c + 1]; }
  }

  lemma InternalAfterRemoval(v: View, order: seq<nat>, it: Iterator, pending: set<Ptr>, p: nat, c: nat, w: View,
                             o: seq<nat>)
    requires ReadyInternal(v, order, it, pending, p) && it.idx != IDX_FIRST && Distinct(order)
    requires p < |order| && it.idx < |v.ents| ==> order[p] == it.idx
    requires c < |order| && (it.idx == IDX_NIL || order[c] < it.idx < |v.ents|) && |w.ents| == |v.ents|
    requires BackByOne(|v.ents|, RemoveAt(order, c), o) && Items(w, o) == RemoveAt(Items(v, order), c)
    ensures ReadyInternal(w, o, it, pending, After(p, c))
  {
    hide BackByOne, Distinct;
    var was := RemoveAt(order, c);
    var items, items' := Items(v, order), Items(w, o);
    assert |items'| == |o| == |was|;
    hide Items;
    if it.idx != IDX_NIL {
      var a := After(p, c);
      assert p != c;
      forall k | 0 <= k < |was| && k != a ensures was[k] != was[a] { RemovedDiffer(order, c, k, a); }
      SameAfter(|v.ents|, was, o, a);
      forall k | 0 <= k < |o| && items'[k].key in pending ensures o[k] >= o[a] {
        assert items'[k] == items[if k < c then k else k + 1] && was[k] == order[if k < c then k else k + 1];
        StillLater(|v.ents|, was, o, a, k);
      }
    } else {
      forall k | 0 <= k < |items'| ensures items'[k].key !in pending {
        assert items'[k] == items[if k < c then k else k + 1];
      }
    }
  }

  lemma RemovedDiffer(order: seq<nat>, c: nat, k: nat, a: nat)
    requires Distinct(order) && c < |order| && k < |order| - 1 && a < |order| - 1 && k != a
    ensures RemoveAt(order, c)[k] != RemoveAt(order, c)[a]
  {
  }

  lemma SameAfter(n: nat, was: seq<nat>, o: seq<nat>, a: nat)
    requires BackByOne(n, was, o) && a < |was| && was[a] > 0
    ensures |o| == |was| && (o[a] == was[a] || o[a] == was[a] - 1)
  {
  }

  /** Entries that were behind another one are not before it when each has moved by at most one bucket. */
  lemma StillLater(n: nat, was: seq<nat>, o: seq<nat>, a: nat, k: nat)
    requires BackByOne(n, was, o) && a < |was| && k < |was| && 0 < was[a] <= was[k]
    requires k != a ==> was[a] != was[k]
    ensures o[k] >= o[a]
  {
  }

  // ---------- whole loops ----------

  /** One step of the loop macro over either kind of table. */
  method IterateEntry(h: HashmapBase, it: Iterator, ghost pending: set<Ptr>, ghost p: nat)
    returns (idx: nat, it': Iterator, ghost c: nat, ghost p': nat)
    requires h.Valid() && NonNull(h.Contents()) && Ready(h.Now(), h.order, it, pending, p)
    modifies h`lowest
    ensures h.Valid()
    ensures idx == IDX_NIL ==> forall k :: 0 <= k < |h.Contents()| ==> h.Contents()[k].key !in pending
    ensures idx == IDX_NIL && h.kind.OrderedMap? ==> p == |h.order|
    ensures it.idx == IDX_NIL ==> idx == IDX_NIL
    ensures idx != IDX_NIL ==>
              && c < |h.order| && h.order[c] == idx < h.buckets.Length && it'.idx != IDX_FIRST
              && Exact(h.Now(), h.order, it', pending - {h.Contents()[c].key}, p')
              && if h.kind.OrderedMap? then c == p && p' == c + 1
                 else it'.idx == IDX_NIL || idx < it'.idx < h.buckets.Length
    ensures idx != IDX_NIL && it.idx != IDX_FIRST ==> c == p
  {
    if h.kind.OrderedMap? {
      idx, it' := IterateInsertion(h, it, pending, p);
      c, p' := p, p + 1;
    } else {
      idx, it', c, p' := IterateInternal(h, it, pending, p);
    }
  }

  /** Removes the entry that the iterator returned last. */
  method RemoveCurrent(h: HashmapBase, idx: nat, ghost c: nat, it: Iterator, ghost pending: set<Ptr>, ghost p: nat)
    requires h.Valid() && c < |h.order| && h.order[c] == idx < h.buckets.Length && it.idx != IDX_FIRST
    requires Exact(h.Now(), h.order, it, pending, p)
    requires if h.kind.OrderedMap? then p == c + 1 else it.idx == IDX_NIL || idx < it.idx < h.buckets.Length
    modifies h.buckets, h.dibs, h`swapPut, h`swapTmp, h`head, h`tail, h`order, h`nEntries
    ensures h.Valid() && h.Contents() == RemoveAt(old(h.Contents()), c) && h.nEntries == old(h.nEntries) - 1
    ensures Ready(h.Now(), h.order, it, pending, After(p, c))
  {
    ghost var v, o := h.Now(), h.order;
    h.Remove(idx, c);
    ReadyAfterRemoval(v, o, it, pending, p, c, h.Now(), h.order);
  }

  /** The pairs whose key is not in `gone`. */
  function Drop(items: seq<Pair>, gone: set<Ptr>): (kept: seq<Pair>)
    ensures forall k :: 0 <= k < |kept| ==> kept[k] in items && kept[k].key !in gone
  {
    if items == [] then [] else
      var last := items[|items| - 1];
      Drop(items[..|items| - 1], gone) + if last.key in gone then [] else [last]
  }

  ghost predicate PointersDiffer(items: seq<Pair>) {
    forall i, j :: 0 <= i < j < |items| ==> items[i].key != items[j].key
  }

  lemma {:induction false} DropAbsent(items: seq<Pair>, gone: set<Ptr>, key: Ptr)
    requires forall k :: 0 <= k < |items| ==> items[k].key != key
    ensures Drop(items, gone + {key}) == Drop(items, gone)
  {
    if items != [] { DropAbsent(items[..|items| - 1], gone, key); }
  }

  /** Dropping one more key removes one more pair. */
  lemma {:induction false} DropOne(items: seq<Pair>, gone: set<Ptr>, c: nat)
    requires PointersDiffer(items) && c < |Drop(items, gone)|
    ensures RemoveAt(Drop(items, gone), c) == Drop(items, gone + {Drop(items, gone)[c].key})
  {
    var n := |items| - 1;
    var front, last := items[..n], items[n];
    var kept := Drop(front, gone);
    if c < |kept| {
      DropOne(front, gone, c);
      assert kept[c] in front;
    } else {
      assert RemoveAt(Drop(items, gone), c) == kept;
      DropAbsent(front, gone, last.key);
    }
  }

  lemma {:induction false} DropNothing(items: seq<Pair>)
    ensures Drop(items, {}) == items
  {
    if items != [] { DropNothing(items[..|items| - 1]); }
  }

  function KeysOf(items: seq<Pair>): (keys: seq<Ptr>)
    ensures |keys| == |items|
  {
    seq(|items|, k requires 0 <= k < |items| => items[k].key)
  }

  /** The keys that a loop has removed: those it visited in a turn that removes. */
  ghost function Removed(visited: seq<Ptr>, remove: nat -> bool): set<Ptr> {
    set j | 0 <= j < |visited| && remove(j) :: visited[j]
  }

  /** A loop position: `idx` is the current entry, the `c`-th; `it` is ready behind it. */
  ghost predicate Standing(h: HashmapBase, idx: nat, c: nat, it: Iterator, pending: set<Ptr>, p: nat)
    reads h, h.buckets, h.dibs
  {
    && c < |h.order| && h.order[c] == idx < h.buckets.Length && it.idx != IDX_FIRST
    && c < |h.Contents()| && h.Contents()[c].key !in pending
    && Exact(h.Now(), h.order, it, pending, p)
    && if h.kind.OrderedMap? then p == c + 1 else it.idx == IDX_NIL || idx < it.idx < h.buckets.Length
  }

  /** Bound on the number of turns that a loop at bucket `idx` can still take. */
  ghost function TurnsLeft(h: HashmapBase, idx: nat, c: nat): int
    reads h`order, h`buckets, h`nEntries
  {
    if idx == IDX_NIL then 0
    else 1 + if h.kind.OrderedMap? then |h.order| - c else h.nEntries + h.buckets.Length - idx
  }

  /** Moves a loop on from an iterator that is ready. */
  method Advance(h: HashmapBase, it: Iterator, ghost pending: set<Ptr>, ghost p: nat)
    returns (idx: nat, it': Iterator, ghost c: nat, ghost pending': set<Ptr>, ghost p': nat)
    requires h.Valid() && NonNull(h.Contents()) && Ready(h.Now(), h.order, it, pending, p)
    modifies h`lowest
    ensures h.Valid()
    ensures idx == IDX_NIL ==> forall k :: 0 <= k < |h.Contents()| ==> h.Contents()[k].key !in pending
    ensures idx == IDX_NIL && h.kind.OrderedMap? ==> p == |h.order|
    ensures it.idx == IDX_NIL ==> idx == IDX_NIL
    ensures idx != IDX_NIL ==>
              Standing(h, idx, c, it', pending', p') && c < |h.Contents()|
                && pending' == pending - {h.Contents()[c].key}
    ensures idx != IDX_NIL && (h.kind.OrderedMap? || it.idx != IDX_FIRST) ==> c == p
  {
    idx, it', c, p' := IterateEntry(h, it, pending, p);
    pending' := if idx == IDX_NIL then {} else pending - {h.Contents()[c].key};
  }

  /** Removes the current entry if `drop`; `q` is where the iterator stands then. */
  method MaybeRemove(h: HashmapBase, idx: nat, ghost c: nat, it: Iterator, ghost pending: set<Ptr>, ghost p: nat,
                     drop: bool)
    returns (ghost q: nat)
    requires h.Valid() && Standing(h, idx, c, it, pending, p)
    modifies h.buckets, h.dibs, h`swapPut, h`swapTmp, h`head, h`tail, h`order, h`nEntries
    ensures h.Valid() && Ready(h.Now(), h.order, it, pending, q)
    ensures h.Contents() == if drop then RemoveAt(old(h.Contents()), c) else old(h.Contents())
    ensures h.nEntries == old(h.nEntries) - (if drop then 1 else 0)
    ensures |h.order| == |h.Contents()|
    ensures h.kind.OrderedMap? ==> q == if drop then c else c + 1
    ensures !h.kind.OrderedMap? && it.idx != IDX_NIL ==>
              q < |h.order| && h.order[q] >= if drop then idx else idx + 1
  {
    q := p;
    if drop {
      RemoveCurrent(h, idx, c, it, pending, p);
      q := After(p, c);
    }
  }

  /** One turn of a loop: visit the current entry, remove it if asked to, and move on. */
  method Turn(h: HashmapBase, idx: nat, ghost c: nat, it: Iterator, ghost pending: set<Ptr>, ghost p: nat, drop: bool)
    returns (idx': nat, it': Iterator, ghost c': nat, ghost pending': set<Ptr>, ghost p': nat)
    requires h.Valid() && NonNull(h.Contents()) && Standing(h, idx, c, it, pending, p)
    modifies h.Repr()
    ensures h.Valid() && h.buckets == old(h.buckets) && h.dibs == old(h.dibs)
    ensures h.Contents() == if drop then RemoveAt(old(h.Contents()), c) else old(h.Contents())
    ensures idx' == IDX_NIL ==> forall k :: 0 <= k < |h.Contents()| ==> h.Contents()[k].key !in pending
    ensures idx' != IDX_NIL ==>
              Standing(h, idx', c', it', pending', p') && c' < |h.Contents()|
                && pending' == pending - {h.Contents()[c'].key}
    ensures h.kind.OrderedMap? ==> var at := if drop then c else c + 1;
                                   if idx' == IDX_NIL then at == |h.Contents()| else c' == at
    ensures TurnsLeft(h, idx', c') < old(TurnsLeft(h, idx, c))
  {
    hide Good, Items, Ready, Exact, NonNull, RemoveAt, Standing;
    StandingIs(h, idx, c, it, pending, p);
    RemoveNonNull(h.Contents(), c);
    ghost var q := MaybeRemove(h, idx, c, it, pending, p, drop);
    idx', it', c', pending', p' := Advance(h, it, pending, q);
    if idx' != IDX_NIL { StandingIs(h, idx', c', it', pending', p'); }
  }

  lemma StandingIs(h: HashmapBase, idx: nat, c: nat, it: Iterator, pending: set<Ptr>, p: nat)
    requires h.Valid() && Standing(h, idx, c, it, pending, p)
    ensures c < |h.order| == |h.Contents()| && h.order[c] == idx < h.buckets.Length < IDX_NIL && it.idx != IDX_FIRST
    ensures h.kind.OrderedMap? ==> p == c + 1
  {
  }

  /** What a loop has done after some turns, on a table that held `items` before. */
  ghost predicate Visited(ordered: bool, items: seq<Pair>, now: seq<Pair>, remove: nat -> bool,
                          visited: seq<Ptr>, pending: set<Ptr>, atEnd: bool, c: nat)
  {
    var all :=
      && now == Drop(items, Removed(visited, remove))
      && pending !! Removed(visited, remove)
      && (forall key :: key in visited ==> key in KeysOf(items))
      && (forall k :: 0 <= k < |items| ==>
            items[k].key in visited || items[k].key in pending || (!atEnd && c < |now| && items[k].key == now[c].key))
      && (ordered ==>
            && |visited| <= |items| && visited == KeysOf(items)[..|visited|]
            && if atEnd then |visited| == |items| else c <= |now| && now[c..] == items[|visited|..]);
    all
  }

  lemma {:induction false} DropKeeps(items: seq<Pair>, gone: set<Ptr>, k: nat)
    requires k < |items| && items[k].key !in gone
    ensures items[k] in Drop(items, gone)
  {
    if k < |items| - 1 { DropKeeps(items[..|items| - 1], gone, k); }
  }

  /** Nothing is owed at the end: a key that is still pending is still stored. */
  lemma AllVisited(items: seq<Pair>, gone: set<Ptr>, pending: set<Ptr>, now: seq<Pair>, k: nat)
    requires now == Drop(items, gone) && pending !! gone && k < |items|
    requires forall j :: 0 <= j < |now| ==> now[j].key !in pending
    ensures items[k].key !in pending
  {
    if items[k].key !in gone { DropKeeps(items, gone, k); }
  }

  lemma TurnVisits(ordered: bool, items: seq<Pair>, now: seq<Pair>, remove: nat -> bool, visited: seq<Ptr>,
                   pending: set<Ptr>, c: nat, now': seq<Pair>, pending': set<Ptr>, atEnd': bool, c': nat)
    requires PointersDiffer(items) && c < |now| && now[c].key !in pending
    requires Visited(ordered, items, now, remove, visited, pending, false, c)
    requires now' == if remove(|visited|) then RemoveAt(now, c) else now
    requires atEnd' ==> forall k :: 0 <= k < |now'| ==> now'[k].key !in pending
    requires !atEnd' ==> c' < |now'| && pending' == pending - {now'[c'].key}
    requires ordered ==> var at := if remove(|visited|) then c else c + 1; if atEnd' then at == |now'| else c' == at
    ensures Visited(ordered, items, now', remove, visited + [now[c].key], if atEnd' then {} else pending', atEnd', c')
  {
    var key, visited' := now[c].key, visited + [now[c].key];
    var gone := Removed(visited, remove);
    RemovedOnward(visited, key, remove);
    if remove(|visited|) { DropOne(items, gone, c); }
    assert key in KeysOf(items) by {
      var k :| 0 <= k < |items| && items[k] == now[c];
      assert KeysOf(items)[k] == key;
    }
    forall k | 0 <= k < |items|
      ensures items[k].key in visited' || (!atEnd' && (items[k].key in pending' || items[k].key == now'[c'].key))
    {
      if items[k].key in visited { assert items[k].key in visited'; }
      if atEnd' { AllVisited(items, Removed(visited', remove), pending, now', k); }
    }
    if ordered { TurnInOrder(items, now, visited, c, remove(|visited|)); }
  }

  lemma RemovedOnward(visited: seq<Ptr>, key: Ptr, remove: nat -> bool)
    ensures Removed(visited + [key], remove)
            == if remove(|visited|) then Removed(visited, remove) + {key} else Removed(visited, remove)
  {
    var visited' := visited + [key];
    assert forall j :: 0 <= j < |visited| ==> visited'[j] == visited[j];
    assert visited'[|visited|] == key;
  }

  lemma TurnInOrder(items: seq<Pair>, now: seq<Pair>, visited: seq<Ptr>, c: nat, drop: bool)
    requires c < |now| && |visited| <= |items| && visited == KeysOf(items)[..|visited|]
      && now[c..] == items[|visited|..]
    ensures |visited| < |items| && visited + [now[c].key] == KeysOf(items)[..|visited| + 1]
    ensures (if drop then RemoveAt(now, c)[c..] else now[c + 1..]) == items[|visited| + 1..]
  {
    var m := |visited|;
    assert now[c] == now[c..][0] == items[m..][0] == items[m];
    assert now[c + 1..] == now[c..][1..] == items[m..][1..] == items[m + 1..];
  }

  // ---------- the loop ----------

  lemma StoredPointersDiffer(h: HashmapBase)
    requires h.Valid()
    ensures PointersDiffer(h.Contents())
  {
    assert KeysDiffer(h.ops, h.Contents());
  }

  lemma StartsReady(h: HashmapBase, pending: set<Ptr>)
    requires h.Valid()
    ensures Ready(h.Now(), h.order, ITERATOR_FIRST, pending, 0)
    ensures |h.order| == |h.Contents()|
  {
  }

  /** The keys stored in a list of pairs. */
  ghost function KeySetOf(items: seq<Pair>): set<Ptr> {
    set k | 0 <= k < |items| :: items[k].key
  }

  lemma NothingVisited(ordered: bool, items: seq<Pair>, remove: nat -> bool, pending: set<Ptr>, atEnd: bool, c: nat)
    requires if atEnd then items == [] else c < |items| && pending == KeySetOf(items) - {items[c].key}
    requires ordered && !atEnd ==> c == 0
    ensures Visited(ordered, items, items, remove, [], if atEnd then {} else pending, atEnd, c)
  {
    DropNothing(items);
    assert Removed([], remove) == {};
  }

  /** Everything that holds at the head of the loop. */
  ghost predicate InLoop(h: HashmapBase, idx: nat, c: nat, it: Iterator, pending: set<Ptr>, p: nat,
                         items: seq<Pair>, remove: nat -> bool, visited: seq<Ptr>)
    reads h, h.buckets, h.dibs
  {
    var all :=
      && h.Valid() && NonNull(h.Contents()) && PointersDiffer(items)
      && (idx != IDX_NIL ==> Standing(h, idx, c, it, pending, p))
      && (idx == IDX_NIL ==> pending == {})
      && Visited(h.kind.OrderedMap?, items, h.Contents(), remove, visited, pending, idx == IDX_NIL, c);
    all
  }

  /**
    Goes through the table, removing the current entry in the turns that `remove`
    picks.  No stored entry is missed, exactly the picked ones are gone afterwards,
    and an ordered map is visited in insertion order, each entry once.
    */
  method Foreach(h: HashmapBase, remove: nat -> bool) returns (visited: seq<Ptr>)
    requires h.Valid() && NonNull(h.Contents())
    modifies h.Repr()
    ensures h.Valid() && h.Contents() == Drop(old(h.Contents()), Removed(visited, remove))
    ensures forall key :: key in visited <==> key in KeysOf(old(h.Contents()))
    ensures h.kind.OrderedMap? ==> visited == KeysOf(old(h.Contents()))
  {
    ghost var items := h.Contents();
    var idx, it; ghost var c, pending, p;
    idx, it, c, pending, p := Begin(h, remove);
    visited, c := VisitAll(h, idx, c, it, pending, p, items, remove);
    VisitedAll(h.kind.OrderedMap?, items, h.Contents(), remove, visited, {}, c);
  }

  method Begin(h: HashmapBase, ghost remove: nat -> bool)
    returns (idx: nat, it: Iterator, ghost c: nat, ghost pending: set<Ptr>, ghost p: nat)
    requires h.Valid() && NonNull(h.Contents())
    modifies h`lowest
    ensures InLoop(h, idx, c, it, pending, p, old(h.Contents()), remove, [])
  {
    ghost var items := h.Contents();
    ghost var all := KeySetOf(items);
    StoredPointersDiffer(h);
    StartsReady(h, all);
    hide Good, Items, Ready, Exact, NonNull, Visited, PointersDiffer, KeySetOf, TurnsLeft;
    idx, it, c, pending, p := Advance(h, ITERATOR_FIRST, all, 0);
    assert h.Contents() == items;
    if idx == IDX_NIL {
      NoKeyMeansEmpty(items);
      pending := {};
    }
    NothingVisited(h.kind.OrderedMap?, items, remove, pending, idx == IDX_NIL, c);
  }

  method VisitAll(h: HashmapBase, idx0: nat, ghost c0: nat, it0: Iterator, ghost pending0: set<Ptr>, ghost p0: nat,
                  ghost items: seq<Pair>, remove: nat -> bool)
    returns (visited: seq<Ptr>, ghost c: nat)
    requires InLoop(h, idx0, c0, it0, pending0, p0, items, remove, [])
    modifies h.Repr()
    ensures h.Valid() && Visited(h.kind.OrderedMap?, items, h.Contents(), remove, visited, {}, true, c)
  {
    var idx, it := idx0, it0;
    ghost var pending, p := pending0, p0;
    c, visited := c0, [];
    while idx != IDX_NIL
      invariant InLoop(h, idx, c, it, pending, p, items, remove, visited)
      invariant h.buckets == old(h.buckets) && h.dibs == old(h.dibs)
      decreases TurnsLeft(h, idx, c)
    {
      hide *;
      idx, it, c, pending, p, visited := VisitTurn(h, idx, c, it, pending, p, items, remove, visited);
    }
  }

  lemma FirstKey(items: seq<Pair>)
    ensures items == [] || items[0].key in KeySetOf(items)
  {
  }

  lemma NoKeyMeansEmpty(items: seq<Pair>)
    requires forall k :: 0 <= k < |items| ==> items[k].key !in KeySetOf(items)
    ensures items == []
  {
    FirstKey(items);
  }

  lemma VisitedAll(ordered: bool, items: seq<Pair>, now: seq<Pair>, remove: nat -> bool, visited: seq<Ptr>,
                   pending: set<Ptr>, c: nat)
    requires Visited(ordered, items, now, remove, visited, pending, true, c) && pending == {}
    ensures now == Drop(items, Removed(visited, remove))
    ensures forall key :: key in visited <==> key in KeysOf(items)
    ensures ordered ==> visited == KeysOf(items)
  {
  }

  /** One turn, with its bookkeeping. */
  method VisitTurn(h: HashmapBase, idx: nat, ghost c: nat, it: Iterator, ghost pending: set<Ptr>, ghost p: nat,
                   ghost items: seq<Pair>, remove: nat -> bool, visited: seq<Ptr>)
    returns (idx': nat, it': Iterator, ghost c': nat, ghost pending': set<Ptr>, ghost p': nat, visited': seq<Ptr>)
    requires InLoop(h, idx, c, it, pending, p, items, remove, visited) && idx != IDX_NIL
    modifies h.Repr()
    ensures InLoop(h, idx', c', it', pending', p', items, remove, visited')
    ensures h.buckets == old(h.buckets) && h.dibs == old(h.dibs)
    ensures TurnsLeft(h, idx', c') < old(TurnsLeft(h, idx, c))
    ensures c < |old(h.Contents())| && visited' == visited + [old(h.Contents())[c].key]
  {
    ghost var now := h.Contents();
    var key := h.buckets[idx].kv.key;
    assert key == now[c].key;
    RemoveNonNull(now, c);
    hide Good, Items, Ready, Exact, NonNull, Visited, PointersDiffer, Standing;
    idx', it', c', pending', p' := Turn(h, idx, c, it, pending, p, remove(|visited|));
    TurnVisits(h.kind.OrderedMap?, items, now, remove, visited, pending, c, h.Contents(), pending', idx' == IDX_NIL,
      c');
    if idx' == IDX_NIL { pending' := {}; }
    visited' := visited + [key];
  }

  // ---------- the loop that ends at a null value ----------

  /** No entry that was visited has a null value. */
  ghost predicate AllValued(items: seq<Pair>, visited: seq<Ptr>) {
    forall k :: 0 <= k < |items| && items[k].key in visited ==> items[k].value != NULL
  }

  lemma ValuedOn(items: seq<Pair>, visited: seq<Ptr>, kv: Pair)
    requires PointersDiffer(items) && kv in items && kv.value != NULL && AllValued(items, visited)
    ensures AllValued(items, visited + [kv.key])
  {
    var j :| 0 <= j < |items| && items[j] == kv;
  }

  /** What the loop looks at is the current entry of the list. */
  lemma InLoopIs(h: HashmapBase, idx: nat, c: nat, it: Iterator, pending: set<Ptr>, p: nat,
                 items: seq<Pair>, remove: nat -> bool, visited: seq<Ptr>)
    requires InLoop(h, idx, c, it, pending, p, items, remove, visited)
    ensures h.Valid() && PointersDiffer(items) && (idx == IDX_NIL ==> pending == {})
    ensures Visited(h.kind.OrderedMap?, items, h.Contents(), remove, visited, pending, idx == IDX_NIL, c)
    ensures idx != IDX_NIL ==> idx < h.buckets.Length && c < |h.Contents()| && h.buckets[idx].kv == h.Contents()[c]
    ensures idx != IDX_NIL ==> h.Contents()[c] in items
    ensures TurnsLeft(h, idx, c) >= 0
  {
  }

  /** The loop visited everything, and met no null value. */
  lemma EndedValued(ordered: bool, items: seq<Pair>, now: seq<Pair>, remove: nat -> bool, visited: seq<Ptr>, c: nat)
    requires Visited(ordered, items, now, remove, visited, {}, true, c) && AllValued(items, visited)
    ensures forall k :: 0 <= k < |items| ==> items[k].value != NULL && items[k].key in visited
  {
  }

  /** The loop stopped at an entry with a null value, which it did not visit. */
  lemma StoppedAtNull(ordered: bool, items: seq<Pair>, now: seq<Pair>, remove: nat -> bool, visited: seq<Ptr>,
                      pending: set<Ptr>, c: nat)
    requires Visited(ordered, items, now, remove, visited, pending, false, c) && AllValued(items, visited)
    requires c < |now| && now[c] in items && now[c].value == NULL
    ensures exists k :: 0 <= k < |items| && items[k].value == NULL && items[k].key !in visited
    ensures ordered ==> |visited| < |items| && items[|visited|].value == NULL
  {
    var k :| 0 <= k < |items| && items[k] == now[c];
    if ordered { assert now[c] == now[c..][0] && |now[c..]| > 0; }
  }

  /**
    The loop over the values, which ends at a null value: it misses nothing exactly when
    no value is null, and in an ordered map it stops at the first null value.
    */
  method ForeachValue(h: HashmapBase, remove: nat -> bool) returns (visited: seq<Ptr>)
    requires h.Valid() && NonNull(h.Contents())
    modifies h.Repr()
    ensures h.Valid() && h.Contents() == Drop(old(h.Contents()), Removed(visited, remove))
    ensures forall key :: key in visited ==> key in KeysOf(old(h.Contents()))
    ensures AllValued(old(h.Contents()), visited)
    ensures (forall k :: 0 <= k < |old(h.Contents())| ==> old(h.Contents())[k].key in visited)
            <==> forall k :: 0 <= k < |old(h.Contents())| ==> old(h.Contents())[k].value != NULL
    ensures h.kind.OrderedMap? ==> |visited| <= |old(h.Contents())|
                                   && visited == KeysOf(old(h.Contents()))[..|visited|]
                                   && (|visited| < |old(h.Contents())| ==> old(h.Contents())[|visited|].value == NULL)
  {
    ghost var items := h.Contents();
    var idx, it; ghost var c, pending, p;
    hide InLoop, Visited, PointersDiffer, AllValued, NonNull, Good, Items, Drop, Removed, KeysOf;
    idx, it, c, pending, p := Begin(h, remove);
    idx, visited, c, pending := VisitValues(h, idx, c, it, pending, p, items, remove);
    LoopValued(h.kind.OrderedMap?, items, h.Contents(), remove, visited, pending, idx == IDX_NIL, c);
  }

  method VisitValues(h: HashmapBase, idx0: nat, ghost c0: nat, it0: Iterator, ghost pending0: set<Ptr>, ghost p0: nat,
                     ghost items: seq<Pair>, remove: nat -> bool)
    returns (idx: nat, visited: seq<Ptr>, ghost c: nat, ghost pending: set<Ptr>)
    requires InLoop(h, idx0, c0, it0, pending0, p0, items, remove, [])
    modifies h.Repr()
    ensures h.Valid() && AllValued(items, visited)
    ensures Visited(h.kind.OrderedMap?, items, h.Contents(), remove, visited, pending, idx == IDX_NIL, c)
    ensures if idx == IDX_NIL then pending == {}
            else c < |h.Contents()| && h.Contents()[c] in items && h.Contents()[c].value == NULL
  {
    hide InLoop, Visited, PointersDiffer, AllValued, NonNull, Good, Items, TurnsLeft;
    var it := it0;
    ghost var p := p0;
    idx, c, pending, visited := idx0, c0, pending0, [];
    NoneValued(items);
    InLoopIs(h, idx, c, it, pending, p, items, remove, visited);
    while idx != IDX_NIL && h.buckets[idx].kv.value != NULL
      invariant InLoop(h, idx, c, it, pending, p, items, remove, visited)
      invariant h.buckets == old(h.buckets) && h.dibs == old(h.dibs) && AllValued(items, visited)
      invariant idx != IDX_NIL ==> idx < h.buckets.Length
      decreases TurnsLeft(h, idx, c)
    {
      InLoopIs(h, idx, c, it, pending, p, items, remove, visited);
      ValuedOn(items, visited, h.buckets[idx].kv);
      idx, it, c, pending, p, visited := VisitTurn(h, idx, c, it, pending, p, items, remove, visited);
      InLoopIs(h, idx, c, it, pending, p, items, remove, visited);
    }
    InLoopIs(h, idx, c, it, pending, p, items, remove, visited);
  }

  lemma NoneValued(items: seq<Pair>)
    ensures AllValued(items, [])
  {
  }

  lemma LoopValued(ordered: bool, items: seq<Pair>, now: seq<Pair>, remove: nat -> bool, visited: seq<Ptr>,
                   pending: set<Ptr>, atEnd: bool, c: nat)
    requires Visited(ordered, items, now, remove, visited, pending, atEnd, c) && AllValued(items, visited)
    requires if atEnd then pending == {} else c < |now| && now[c] in items && now[c].value == NULL
    ensures now == Drop(items, Removed(visited, remove))
    ensures forall key :: key in visited ==> key in KeysOf(items)
    ensures (forall k :: 0 <= k < |items| ==> items[k].key in visited)
            <==> forall k :: 0 <= k < |items| ==> items[k].value != NULL
    ensures ordered ==> |visited| <= |items| && visited == KeysOf(items)[..|visited|]
                        && (|visited| < |items| ==> items[|visited|].value == NULL)
  {
    if atEnd {
      EndedValued(ordered, items, now, remove, visited, c);
    } else {
      StoppedAtNull(ordered, items, now, remove, visited, pending, c);
    }
    hide AllValued, Drop, Removed;
  }
}
