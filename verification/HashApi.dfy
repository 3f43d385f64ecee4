/** The operations of the hash table, each proved to do what HashSpec says. */
module HashApi {
  // A reallocation may fail and a rehash needs fresh key material; both come in
  // as parameters (`allocOk`, `freshKey`).  An operation that may grow the table
  // asks that the size it would grow to can be computed (`Shiftable`).

  import opened RobinHood
  import opened HashView
  import opened HashSteps
  import opened HashSize
  import opened HashSpec
  import opened Hashmap

  /** Storage for one more entry is there or can be had. */
  ghost predicate HasStorage(h: HashmapBase, allocOk: bool)
    reads h`indirect, h`buckets, h`nEntries
  {
    CanStore(h.kind, h.Room(), h.nEntries + 1, allocOk)
  }

  /** The storage after an operation: it grows for a new key, and `Clear` goes back to the embedded one. */
  function RoomAfter(ops: HashOps, kind: Kind, room: Size, items: seq<Pair>, op: Op, allocOk: bool): Size {
    match op
    case Put(key, _) => if Pos(ops, items, key) < 0 then SizeAfter(kind, room, |items| + 1, allocOk) else room
    case Replace(key, _) => if Pos(ops, items, key) < 0 then SizeAfter(kind, room, |items| + 1, allocOk) else room
    case Clear => Size(false, DirectBuckets(kind))
    case _ => room
  }

  /**
    What an operation leaves behind: the table is valid, did to its pairs what `Step`
    says, and has the storage that `RoomAfter` says.
    */
  twostate predicate Did(h: HashmapBase, op: Op, allocOk: bool, r: int)
    reads h, h.buckets, h.dibs
  {
    && h.Valid()
    && fresh(h.Repr() - old(h.Repr()))
    && Outcome(h.Contents(), r) == Step(h.ops, old(h.Contents()), op, old(HasStorage(h, allocOk)))
    && h.Room() == RoomAfter(h.ops, h.kind, old(h.Room()), old(h.Contents()), op, allocOk)
  }

  /** Hashes a key and scans for it. */
  method Find(h: HashmapBase, key: Ptr) returns (hash: nat, idx: nat, ghost p: int)
    requires h.Valid()
    ensures 0 < h.buckets.Length && hash == Home(h.Now(), key)
    ensures p == Pos(h.ops, h.Contents(), key) && |h.order| == |h.Contents()|
    ensures if p < 0 then idx == IDX_NIL
            else idx == h.order[p] < h.buckets.Length && h.buckets[idx].kv == h.Contents()[p]
    ensures h.buckets.Length < IDX_NIL && h.nEntries == |h.Contents()|
  {
    hash := h.BucketHash(key);
    idx, p := h.BucketScan(hash, key);
  }

  lemma LacksMemory(kind: Kind, room: Size, e: nat, allocOk: bool)
    ensures !allocOk && e + e / 4 > room.buckets && (room.indirect || e > DirectBuckets(kind)) ==>
              !CanStore(kind, room, e, allocOk)
  {
  }

  // What `Step` says of each operation, by the position of its key.

  lemma StepPut(ops: HashOps, items: seq<Pair>, key: Ptr, value: Ptr, storage: bool)
    ensures var p := Pos(ops, items, key);
      Step(ops, items, Op.Put(key, value), storage) ==
        if p >= 0 then Outcome(items, if items[p].value == value then 0 else -17)
        else if storage then Outcome(items + [Pair(key, value)], 1) else Outcome(items, -12)
  {
  }

  lemma StepReplace(ops: HashOps, items: seq<Pair>, key: Ptr, value: Ptr, storage: bool)
    ensures var p := Pos(ops, items, key);
      Step(ops, items, Op.Replace(key, value), storage) ==
        if p >= 0 then Outcome(items[p := Pair(key, value)], 0)
        else if storage then Outcome(items + [Pair(key, value)], 1) else Outcome(items, -12)
  {
  }

  lemma StepUpdate(ops: HashOps, items: seq<Pair>, key: Ptr, value: Ptr, storage: bool)
    ensures var p := Pos(ops, items, key);
      Step(ops, items, Op.Update(key, value), storage) ==
        if p < 0 then Outcome(items, -2) else Outcome(items[p := items[p].(value := value)], 0)
  {
  }

  lemma StepRemove(ops: HashOps, items: seq<Pair>, key: Ptr, storage: bool)
    ensures var p := Pos(ops, items, key);
      Step(ops, items, Op.Remove(key), storage) == if p < 0 then Outcome(items, NULL)
        else Outcome(RemoveAt(items, p), items[p].value)
  {
  }

  lemma StepRemoveAndPut(ops: HashOps, items: seq<Pair>, key: Ptr, newKey: Ptr, value: Ptr, storage: bool)
    ensures var p := Pos(ops, items, key);
      Step(ops, items, Op.RemoveAndPut(key, newKey, value), storage) ==
        if p < 0 then Outcome(items, -2)
        else if Pos(ops, items, newKey) >= 0 then Outcome(items, -17)
        else Outcome(RemoveAt(items, p) + [Pair(newKey, value)], 0)
  {
  }

  lemma StepRemoveAndReplace(ops: HashOps, items: seq<Pair>, key: Ptr, newKey: Ptr, value: Ptr, storage: bool)
    ensures Step(ops, items, Op.RemoveAndReplace(key, newKey, value), storage) ==
      if Pos(ops, items, key) < 0 then Outcome(items, -2)
      else Outcome(Without(ops, Without(ops, items, newKey), key) + [Pair(newKey, value)], 0)
  {
  }

  /** A new key may need more storage, whose size must be computable. */
  method Put(h: HashmapBase, key: Ptr, value: Ptr, allocOk: bool, freshKey: nat) returns (r: int)
    requires h.Valid() && (Pos(h.ops, h.Contents(), key) < 0 ==> Shiftable(h.PlanFor(1)))
    modifies h.Repr()
    ensures Did(h, Op.Put(key, value), allocOk, r)
    ensures var e := old(h.nEntries) + 1;
      Pos(h.ops, old(h.Contents()), key) < 0 && !allocOk
      && e + e / 4 > old(h.buckets.Length) && (old(h.indirect) || e > DirectBuckets(h.kind))
      ==> r == -ENOMEM && h.Contents() == old(h.Contents())
  {
    hide Good, Items, KeysDiffer, BackByOne, Step, Pos, PlanResize, CanStore, SizeAfter, DirectBuckets;
    LacksMemory(h.kind, h.Room(), h.nEntries + 1, allocOk);
    StepPut(h.ops, h.Contents(), key, value, HasStorage(h, allocOk));
    var hash, idx; ghost var p;
    hash, idx, p := Find(h, key);
    if idx != IDX_NIL {
      return if h.buckets[idx].kv.value == value then 0 else -EEXIST;
    }
    r := h.PutBoldly(hash, Pair(key, value), true, allocOk, freshKey);
  }

  /** A new key may need more storage, whose size must be computable. */
  method Replace(h: HashmapBase, key: Ptr, value: Ptr, allocOk: bool, freshKey: nat) returns (r: int)
    requires h.Valid() && (Pos(h.ops, h.Contents(), key) < 0 ==> Shiftable(h.PlanFor(1)))
    modifies h.Repr()
    ensures Did(h, Op.Replace(key, value), allocOk, r)
    ensures var e := old(h.nEntries) + 1;
      Pos(h.ops, old(h.Contents()), key) < 0 && !allocOk
      && e + e / 4 > old(h.buckets.Length) && (old(h.indirect) || e > DirectBuckets(h.kind))
      ==> r == -ENOMEM && h.Contents() == old(h.Contents())
  {
    hide Good, Items, KeysDiffer, BackByOne, Step, Pos, PlanResize, CanStore, SizeAfter, DirectBuckets;
    LacksMemory(h.kind, h.Room(), h.nEntries + 1, allocOk);
    StepReplace(h.ops, h.Contents(), key, value, HasStorage(h, allocOk));
    var hash, idx; ghost var p;
    hash, idx, p := Find(h, key);
    if idx != IDX_NIL {
      h.Overwrite(idx, p, Pair(key, value));
      return 0;
    }
    r := h.PutBoldly(hash, Pair(key, value), true, allocOk, freshKey);
  }

  method Update(h: HashmapBase, key: Ptr, value: Ptr) returns (r: int)
    requires h.Valid()
    modifies h.Repr()
    ensures Did(h, Op.Update(key, value), true, r)
  {
    hide Good, Items, KeysDiffer, BackByOne, Step;
    StepUpdate(h.ops, h.Contents(), key, value, HasStorage(h, true));
    var hash, idx; ghost var p;
    hash, idx, p := Find(h, key);
    if idx == IDX_NIL {
      return -ENOENT;
    }
    h.Overwrite(idx, p, h.buckets[idx].kv.(value := value));
    r := 0;
  }

  /** The value stored for `key`, or NULL. */
  method Get(h: HashmapBase, key: Ptr) returns (value: Ptr)
    requires h.Valid()
    ensures var p := Pos(h.ops, h.Contents(), key);
            value == if p < 0 then NULL else h.Contents()[p].value
  {
    var hash, idx; ghost var p;
    hash, idx, p := Find(h, key);
    if idx == IDX_NIL {
      return NULL;
    }
    value := h.buckets[idx].kv.value;
  }

  method Remove(h: HashmapBase, key: Ptr) returns (value: Ptr)
    requires h.Valid()
    modifies h.Repr()
    ensures Did(h, Op.Remove(key), true, value)
  {
    hide Good, Items, KeysDiffer, BackByOne, Step, Pos, RemoveAt;
    StepRemove(h.ops, h.Contents(), key, HasStorage(h, true));
    var hash, idx; ghost var p;
    hash, idx, p := Find(h, key);
    if idx == IDX_NIL {
      return NULL;
    }
    value := h.buckets[idx].kv.value;
    h.Remove(idx, p);
  }

  method RemoveAndPut(h: HashmapBase, oldKey: Ptr, newKey: Ptr, value: Ptr) returns (r: int)
    requires h.Valid()
    modifies h.Repr()
    ensures Did(h, Op.RemoveAndPut(oldKey, newKey, value), true, r)
  {
    hide Good, Items, KeysDiffer, BackByOne, Step, Pos, RemoveAt;
    StepRemoveAndPut(h.ops, h.Contents(), oldKey, newKey, value, HasStorage(h, true));
    var oldHash, idx; ghost var p;
    oldHash, idx, p := Find(h, oldKey);
    if idx == IDX_NIL {
      return -ENOENT;
    }
    var newHash, idxNew; ghost var pNew;
    newHash, idxNew, pNew := Find(h, newKey);
    if idxNew != IDX_NIL {
      return -EEXIST;
    }
    StaysAbsent(h.ops, h.Contents(), p, newKey);
    Exchange(h, idx, p, newHash, Pair(newKey, value));
    r := 0;
  }

  /** Removes the `p`-th entry, in bucket `idx`, and puts a new pair whose home is `newHash`. */
  method Exchange(h: HashmapBase, idx: nat, ghost p: nat, newHash: nat, kv: Pair)
    requires h.Valid() && p < |h.order| && h.order[p] == idx
    requires Pos(h.ops, RemoveAt(h.Contents(), p), kv.key) < 0 && newHash == Home(h.Now(), kv.key)
    modifies h.Repr()
    ensures h.Valid() && h.Contents() == RemoveAt(old(h.Contents()), p) + [kv]
    ensures fresh(h.Repr() - old(h.Repr())) && h.Room() == old(h.Room())
  {
    hide Good, Items, BackByOne;
    h.Remove(idx, p);
    PutRemoved(h, newHash, kv);
  }

  lemma StaysAbsent(ops: HashOps, items: seq<Pair>, p: nat, key: Ptr)
    requires p < |items| && Pos(ops, items, key) < 0
    ensures Pos(ops, RemoveAt(items, p), key) < 0
  {
  }

  /** Puts a new pair into the bucket space that a removal has just freed. */
  method PutRemoved(h: HashmapBase, newHash: nat, kv: Pair)
    requires h.Valid() && h.nEntries < h.buckets.Length
    requires Pos(h.ops, h.Contents(), kv.key) < 0 && newHash == Home(h.Now(), kv.key)
    modifies h.Repr()
    ensures h.Valid() && h.Contents() == old(h.Contents()) + [kv]
    ensures fresh(h.Repr() - old(h.Repr())) && h.Room() == old(h.Room())
  {
    var r := h.PutBoldly(newHash, kv, false, true, 0);
    assert r == 1;
  }

  /**
    Takes out the entry of `newKey`, if there is one besides the `p`-th, and reports
    where the `p`-th entry is afterwards.
    */
  method RemoveOther(h: HashmapBase, newKey: Ptr, idxOld: nat, ghost p: nat, idxNew: nat, ghost pNew: nat)
    returns (idx: nat, ghost p': nat)
    requires h.Valid() && p < |h.order| && h.order[p] == idxOld && h.Contents()[p].key != NULL
    requires pNew < |h.order| && h.order[pNew] == idxNew && pNew == Pos(h.ops, h.Contents(), newKey)
    requires idxNew != idxOld
    modifies h.Repr()
    ensures h.Valid() && fresh(h.Repr() - old(h.Repr())) && h.Room() == old(h.Room())
    ensures h.Contents() == Without(h.ops, old(h.Contents()), newKey)
    ensures p' < |h.order| && h.order[p'] == idx && h.Contents()[p'] == old(h.Contents())[p]
    ensures Home(h.Now(), newKey) == old(Home(h.Now(), newKey))
  {
    var oldKey := h.buckets[idxOld].kv.key;
    ghost var o, items := h.order, h.Contents();
    assert oldKey == items[p].key;
    hide Good, Items, KeysDiffer, BackByOne, Pos;
    h.Remove(idxNew, pNew);
    p' := if p < pNew then p else p - 1;
    StillThere(h, o, items, p, pNew);
    idx := if h.buckets[idxOld].kv.key == oldKey then idxOld else PrevIdx(h.buckets.Length, idxOld);
  }

  /** Where the `p`-th entry is after the `pNew`-th was removed. */
  lemma StillThere(h: HashmapBase, o: seq<nat>, items: seq<Pair>, p: nat, pNew: nat)
    requires h.Valid() && p < |o| == |items| && pNew < |o| && p != pNew && items[p].key != NULL
    requires BackByOne(h.buckets.Length, RemoveAt(o, pNew), h.order) && h.Contents() == RemoveAt(items, pNew)
    ensures var p' := if p < pNew then p else p - 1;
            && p' < |h.order| == |h.Contents()| && h.Contents()[p'] == items[p]
            && o[p] < h.buckets.Length
            && h.order[p'] == if h.buckets[o[p]].kv.key == items[p].key then o[p] else PrevIdx(h.buckets.Length, o[p])
  {
    var p' := if p < pNew then p else p - 1;
    assert RemoveAt(o, pNew)[p'] == o[p];
    FoundByKey(h.Now(), h.order, p', o[p]);
  }

  /** `requires`: the stored key is not the null pointer, which marks a zeroed bucket. */
  method RemoveAndReplace(h: HashmapBase, oldKey: Ptr, newKey: Ptr, value: Ptr) returns (r: int)
    requires h.Valid()
    requires var p := Pos(h.ops, h.Contents(), oldKey); p >= 0 ==> h.Contents()[p].key != NULL
    modifies h.Repr()
    ensures Did(h, Op.RemoveAndReplace(oldKey, newKey, value), true, r)
  {
    hide Good, Items, KeysDiffer, BackByOne, Step, Without;
    StepRemoveAndReplace(h.ops, h.Contents(), oldKey, newKey, value, HasStorage(h, true));
    var oldHash, idxOld; ghost var p;
    oldHash, idxOld, p := Find(h, oldKey);
    if idxOld == IDX_NIL {
      return -ENOENT;
    }
    ReplaceFound(h, oldKey, newKey, value, idxOld, p);
    r := 0;
  }

  /** The rest of `RemoveAndReplace`, with the old key found. */
  method ReplaceFound(h: HashmapBase, ghost oldKey: Ptr, newKey: Ptr, value: Ptr, idxFound: nat, ghost pFound: nat)
    requires h.Valid() && pFound == Pos(h.ops, h.Contents(), oldKey)
    requires pFound < |h.order| && h.order[pFound] == idxFound
    requires pFound < |h.Contents()| && h.Contents()[pFound].key != NULL
    modifies h.Repr()
    ensures h.Valid() && fresh(h.Repr() - old(h.Repr())) && h.Room() == old(h.Room())
    ensures h.Contents() == Without(h.ops, Without(h.ops, old(h.Contents()), newKey), oldKey) + [Pair(newKey, value)]
  {
    hide Good, Items, KeysDiffer, Pos, Without, RemoveAt;
    var newHash, idxNew; ghost var pNew;
    newHash, idxNew, pNew := Find(h, newKey);
    var idxOld; ghost var p;
    idxOld, p := MakeRoom(h, oldKey, newKey, idxFound, pFound, idxNew, pNew);
    Exchange(h, idxOld, p, newHash, Pair(newKey, value));
  }

  /** Takes out the entry of the new key, if there is one that is not the old key's. */
  method MakeRoom(h: HashmapBase, ghost oldKey: Ptr, newKey: Ptr, idxFound: nat, ghost pFound: nat,
                  idxNew: nat, ghost pNew: int)
    returns (idxOld: nat, ghost p: nat)
    requires h.Valid() && pFound == Pos(h.ops, h.Contents(), oldKey) && h.order[pFound] == idxFound
    requires h.Contents()[pFound].key != NULL && pNew == Pos(h.ops, h.Contents(), newKey)
    requires if pNew < 0 then idxNew == IDX_NIL else idxNew == h.order[pNew] < h.buckets.Length
    modifies h.Repr()
    ensures h.Valid() && fresh(h.Repr() - old(h.Repr())) && h.Room() == old(h.Room())
    ensures p < |h.order| && h.order[p] == idxOld
    ensures RemoveAt(h.Contents(), p) == Without(h.ops, Without(h.ops, old(h.Contents()), newKey), oldKey)
    ensures Pos(h.ops, RemoveAt(h.Contents(), p), newKey) < 0
    ensures Home(h.Now(), newKey) == old(Home(h.Now(), newKey))
  {
    ghost var items := h.Contents();
    if idxNew != IDX_NIL && idxFound != idxNew {
      idxOld, p := RemoveOther(h, newKey, idxFound, pFound, idxNew, pNew);
    } else {
      idxOld, p := idxFound, pFound;
    }
    RemoveTwo(h.ops, items, oldKey, newKey, p, h.Contents());
  }

  /** Removing the old key's pair after the new key's leaves the list that `Step` extends. */
  lemma RemoveTwo(ops: HashOps, items: seq<Pair>, oldKey: Ptr, newKey: Ptr, p: nat, mid: seq<Pair>)
    requires KeysDiffer(ops, items) && Pos(ops, items, oldKey) >= 0
    requires p < |mid| && mid[p] == items[Pos(ops, items, oldKey)]
    requires mid == Without(ops, items, newKey) ||
             (mid == items && Pos(ops, items, newKey) == Pos(ops, items, oldKey))
    ensures RemoveAt(mid, p) == Without(ops, Without(ops, items, newKey), oldKey)
    ensures Pos(ops, RemoveAt(mid, p), newKey) < 0
  {
    RemoveAndReplaceInMap(ops, items, oldKey, newKey);
    WithoutInMap(ops, items, newKey);
    PosIs(ops, mid, oldKey, p);
    if mid != Without(ops, items, newKey) {
      PosIs(ops, items, oldKey, p);
    }
  }
}
