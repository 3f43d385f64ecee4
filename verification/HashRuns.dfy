/**
  Whole runs of the hash table: any sequence of operations, with any allocation
  failures in between, leaves the table a faithful image of a plain map.
  */
module HashRuns {
  import opened HashView
  import opened HashSteps
  import opened HashSize
  import opened HashSpec
  import opened Hashmap
  import HashApi

  /** An operation, with the outcome of the reallocation it may need and the key material of a rehash. */
  datatype Call = Call(op: Op, allocOk: bool, freshKey: nat)

  // ---------- storage ----------

  /** Bytes that `entries` entries and one more ask for, with their share of free buckets. */
  function BytesFor(kind: Kind, entries: nat): nat { (entries + 1 + (entries + 1) / 4) * SlotBytes(kind) }

  /** One more entry is refused without asking for memory exactly when the bytes do not fit 32 bits. */
  lemma RejectedIff(kind: Kind, indirect: bool, buckets: nat, entries: nat)
    requires entries <= UINT_MAX
    ensures PlanResize(kind, indirect, buckets, entries, 1).Reject? <==> BytesFor(kind, entries) > UINT_MAX
  {
    hide PlanResize, Log2RoundUp, SlotBytes;
    PlanIs(kind, indirect, buckets, entries, 1);
    var wanted := entries + 1;
    var needed := wanted + wanted / 4;
    OverLimit(kind, needed);
    DirectIsSmall(kind);
  }

  /** The operation puts no new key, or the size of the storage that it would need can be computed. */
  ghost predicate Guarded(h: HashmapBase, op: Op)
    requires h.Valid()
    reads h, h.buckets, h.dibs
  {
    (op.Put? || op.Replace?) && Pos(h.ops, h.Contents(), op.key) < 0 ==> Shiftable(h.PlanFor(1))
  }

  method CanApply(h: HashmapBase, op: Op) returns (ok: bool)
    requires h.Valid()
    ensures ok <==> Guarded(h, op)
  {
    if !op.Put? && !op.Replace? {
      return true;
    }
    hide Good, Items, KeysDiffer, Pos, PlanResize;
    var hash, idx; ghost var p;
    hash, idx, p := HashApi.Find(h, op.key);
    ok := idx != IDX_NIL || Shiftable(PlanResize(h.kind, h.indirect, h.buckets.Length, h.nEntries, 1));
  }

  // ---------- null pointers ----------

  /** No stored key is the null pointer, which marks a zeroed bucket. */
  ghost predicate NonNull(items: seq<Pair>) {
    forall k :: 0 <= k < |items| ==> items[k].key != NULL
  }

  predicate KeysGiven(op: Op) {
    match op
    case Put(key, _) => key != NULL
    case Replace(key, _) => key != NULL
    case RemoveAndPut(_, newKey, _) => newKey != NULL
    case RemoveAndReplace(_, newKey, _) => newKey != NULL
    case _ => true
  }

  lemma StepKeepsNonNull(ops: HashOps, items: seq<Pair>, op: Op, storage: bool)
    requires NonNull(items) && KeysGiven(op)
    ensures NonNull(Step(ops, items, op, storage).items)
  {
    hide Pos, Without, NonNull;
    match op
    case Put(key, value) => PutNonNull(items, Pair(key, value), Pos(ops, items, key));
    case Replace(key, value) => PutNonNull(items, Pair(key, value), Pos(ops, items, key));
    case Update(key, value) =>
      var p := Pos(ops, items, key);
      if p >= 0 { ChangeNonNull(items, p, value); }
    case Remove(key) =>
      var p := Pos(ops, items, key);
      if p >= 0 { RemoveNonNull(items, p); }
    case RemoveAndPut(key, newKey, value) =>
      var p := Pos(ops, items, key);
      if p >= 0 {
        RemoveNonNull(items, p);
        PutNonNull(RemoveAt(items, p), Pair(newKey, value), -1);
      }
    case RemoveAndReplace(key, newKey, value) =>
      var rest := Without(ops, items, newKey);
      WithoutNonNull(ops, items, newKey);
      WithoutNonNull(ops, rest, key);
      PutNonNull(Without(ops, rest, key), Pair(newKey, value), -1);
    case Clear => assert NonNull([]) by { NoneNonNull(); }
  }

  lemma NoneNonNull()
    ensures NonNull([])
  {
  }

  lemma PutNonNull(items: seq<Pair>, pair: Pair, p: int)
    requires NonNull(items) && pair.key != NULL
    ensures NonNull(items + [pair])
    ensures 0 <= p < |items| ==> NonNull(items[p := pair])
  {
  }

  lemma ChangeNonNull(items: seq<Pair>, p: nat, value: Ptr)
    requires NonNull(items) && p < |items|
    ensures NonNull(items[p := items[p].(value := value)])
  {
  }

  lemma RemoveNonNull(items: seq<Pair>, p: nat)
    requires NonNull(items) && p < |items|
    ensures NonNull(RemoveAt(items, p))
  {
  }

  lemma WithoutNonNull(ops: HashOps, items: seq<Pair>, key: Ptr)
    requires NonNull(items)
    ensures NonNull(Without(ops, items, key))
  {
    hide Pos, NonNull;
    var p := Pos(ops, items, key);
    if p >= 0 { RemoveNonNull(items, p); }
  }

  // ---------- one operation ----------

  method Apply(h: HashmapBase, call: Call) returns (r: int)
    requires h.Valid() && Guarded(h, call.op) && NonNull(h.Contents()) && KeysGiven(call.op)
    modifies h.Repr()
    ensures HashApi.Did(h, call.op, call.allocOk, r)
    ensures NonNull(h.Contents())
  {
    ghost var items, storage := h.Contents(), HashApi.HasStorage(h, call.allocOk);
    StepKeepsNonNull(h.ops, items, call.op, storage);
    NeedsNoStorage(h.ops, items, call.op, storage, HashApi.HasStorage(h, true));
    hide Good, Items, KeysDiffer, NonNull, Pos, Without, CanStore, SizeAfter, DirectBuckets, PlanResize, Step;
    match call.op {
      case Put(key, value) => r := HashApi.Put(h, key, value, call.allocOk, call.freshKey);
      case Replace(key, value) => r := HashApi.Replace(h, key, value, call.allocOk, call.freshKey);
      case Update(key, value) => r := HashApi.Update(h, key, value);
      case Remove(key) => r := HashApi.Remove(h, key);
      case RemoveAndPut(key, newKey, value) => r := HashApi.RemoveAndPut(h, key, newKey, value);
      case RemoveAndReplace(key, newKey, value) => r := ReplaceNonNull(h, key, newKey, value);
      case Clear =>
        h.Clear(call.freshKey);
        r := 0;
        StepClear(h.ops, items, storage);
    }
  }

  lemma StepClear(ops: HashOps, items: seq<Pair>, storage: bool)
    ensures Step(ops, items, Op.Clear, storage) == Outcome([], 0)
  {
  }

  /** Only a new key needs storage. */
  lemma NeedsNoStorage(ops: HashOps, items: seq<Pair>, op: Op, storage: bool, other: bool)
    ensures !op.Put? && !op.Replace? ==> Step(ops, items, op, storage) == Step(ops, items, op, other)
  {
  }

  method ReplaceNonNull(h: HashmapBase, key: Ptr, newKey: Ptr, value: Ptr) returns (r: int)
    requires h.Valid() && NonNull(h.Contents())
    modifies h.Repr()
    ensures HashApi.Did(h, Op.RemoveAndReplace(key, newKey, value), true, r)
  {
    r := HashApi.RemoveAndReplace(h, key, newKey, value);
  }

  // ---------- runs ----------

  datatype RunOutcome = RunOutcome(items: seq<Pair>, room: Size, results: seq<int>)
  datatype MapRunOutcome = MapRunOutcome(m: map<Ptr, Pair>, room: Size, results: seq<int>)

  /** What a run does to the list of pairs and to the storage. */
  function RunOf(ops: HashOps, kind: Kind, items: seq<Pair>, room: Size, calls: seq<Call>): RunOutcome {
    if calls == [] then RunOutcome(items, room, []) else
      var n := |calls| - 1;
      var before, call := RunOf(ops, kind, items, room, calls[..n]), calls[n];
      var last := Step(ops, before.items, call.op, CanStore(kind, before.room, |before.items| + 1, call.allocOk));
      RunOutcome(last.items, HashApi.RoomAfter(ops, kind, before.room, before.items, call.op, call.allocOk),
                 before.results + [last.result])
  }

  /** The storage of a plain map after an operation. */
  function MapRoomAfter(ops: HashOps, kind: Kind, room: Size, m: map<Ptr, Pair>, op: Op, allocOk: bool): Size {
    match op
    case Put(key, _) => if ops.canon(key) in m then room else SizeAfter(kind, room, |m| + 1, allocOk)
    case Replace(key, _) => if ops.canon(key) in m then room else SizeAfter(kind, room, |m| + 1, allocOk)
    case Clear => Size(false, DirectBuckets(kind))
    case _ => room
  }

  /** What a run does to a plain map that has room for as many pairs as the storage allows. */
  function MapRunOf(ops: HashOps, kind: Kind, m: map<Ptr, Pair>, room: Size, calls: seq<Call>): MapRunOutcome {
    if calls == [] then MapRunOutcome(m, room, []) else
      var n := |calls| - 1;
      var before, call := MapRunOf(ops, kind, m, room, calls[..n]), calls[n];
      var last := MapStep(ops, before.m, call.op, CanStore(kind, before.room, |before.m| + 1, call.allocOk));
      MapRunOutcome(last.m, MapRoomAfter(ops, kind, before.room, before.m, call.op, call.allocOk),
                    before.results + [last.result])
  }

  /** A map has as many pairs as the list of which it is the image. */
  lemma {:induction false} MapSize(ops: HashOps, items: seq<Pair>)
    requires KeysDiffer(ops, items)
    ensures |MapOf(ops, items)| == |items|
  {
    if items != [] {
      var init, last := items[..|items| - 1], items[|items| - 1];
      assert items == init + [last];
      MapSize(ops, init);
      MapSnoc(ops, init, last);
      PosInMap(ops, init, last.key);
      LastDiffers(ops, items);
      OneMoreKey(MapOf(ops, init), ops.canon(last.key), last);
    }
  }

  lemma LastDiffers(ops: HashOps, items: seq<Pair>)
    requires KeysDiffer(ops, items) && items != []
    ensures Pos(ops, items[..|items| - 1], items[|items| - 1].key) < 0
  {
  }

  lemma OneMoreKey<K, V>(m: map<K, V>, k: K, v: V)
    requires k !in m
    ensures |m[k := v]| == |m| + 1
  {
    assert m[k := v].Keys == m.Keys + {k};
  }

  /** Over every run the list of pairs is an image of the plain map, result for result. */
  lemma {:induction false} RunIsMapRun(ops: HashOps, kind: Kind, items: seq<Pair>, room: Size, calls: seq<Call>)
    requires KeysDiffer(ops, items)
    ensures var after := RunOf(ops, kind, items, room, calls);
            && KeysDiffer(ops, after.items)
            && MapRunOf(ops, kind, MapOf(ops, items), room, calls)
               == MapRunOutcome(MapOf(ops, after.items), after.room, after.results)
  {
    hide Step, MapStep, CanStore, SizeAfter, KeysDiffer, MapOf, Pos;
    if calls != [] {
      var n := |calls| - 1;
      var before, call := RunOf(ops, kind, items, room, calls[..n]), calls[n];
      RunIsMapRun(ops, kind, items, room, calls[..n]);
      MapSize(ops, before.items);
      StepIsMapStep(ops, before.items, call.op, CanStore(kind, before.room, |before.items| + 1, call.allocOk));
      RoomIsMapRoom(ops, kind, before.room, before.items, call.op, call.allocOk);
    }
  }

  lemma RoomIsMapRoom(ops: HashOps, kind: Kind, room: Size, items: seq<Pair>, op: Op, allocOk: bool)
    requires KeysDiffer(ops, items)
    ensures HashApi.RoomAfter(ops, kind, room, items, op, allocOk)
            == MapRoomAfter(ops, kind, room, MapOf(ops, items), op, allocOk)
  {
    hide SizeAfter, KeysDiffer, MapOf, Pos;
    MapSize(ops, items);
    if op.Put? || op.Replace? { PosInMap(ops, items, op.key); }
  }

  /**
    Applies calls one after the other.  The table is valid throughout, and every
    result, the storage and the final contents are those of the list and of the plain
    map.  The run is complete unless it has come to a call that puts a new key and
    would need storage of a size whose shift leaves 32 bits.
    */
  method Run(h: HashmapBase, calls: seq<Call>) returns (results: seq<int>)
    requires h.Valid() && NonNull(h.Contents())
    requires forall i :: 0 <= i < |calls| ==> KeysGiven(calls[i].op)
    modifies h.Repr()
    ensures h.Valid() && |results| <= |calls|
    ensures |results| < |calls| ==> !Guarded(h, calls[|results|].op)
    ensures RunOf(h.ops, h.kind, old(h.Contents()), old(h.Room()), calls[..|results|])
            == RunOutcome(h.Contents(), h.Room(), results)
    ensures KeysDiffer(h.ops, old(h.Contents())) && KeysDiffer(h.ops, h.Contents())
    ensures MapRunOf(h.ops, h.kind, MapOf(h.ops, old(h.Contents())), old(h.Room()), calls[..|results|])
            == MapRunOutcome(MapOf(h.ops, h.Contents()), h.Room(), results)
  {
    ghost var items, room := h.Contents(), h.Room();
    StoredKeysDiffer(h);
    results := RunList(h, calls);
    RunIsMapRun(h.ops, h.kind, items, room, calls[..|results|]);
    hide *;
  }

  /** `Run`, seen through the list of pairs only. */
  method RunList(h: HashmapBase, calls: seq<Call>) returns (results: seq<int>)
    requires h.Valid() && NonNull(h.Contents())
    requires forall i :: 0 <= i < |calls| ==> KeysGiven(calls[i].op)
    modifies h.Repr()
    ensures h.Valid() && |results| <= |calls|
    ensures |results| < |calls| ==> !Guarded(h, calls[|results|].op)
    ensures RunOf(h.ops, h.kind, old(h.Contents()), old(h.Room()), calls[..|results|])
            == RunOutcome(h.Contents(), h.Room(), results)
  {
    hide Good, Items, NonNull, KeysGiven, RunOf, Guarded;
    ghost var items, room := h.Contents(), h.Room();
    results := [];
    EmptyRun(h.ops, h.kind, items, room, calls);
    while |results| < |calls|
      invariant h.Valid() && NonNull(h.Contents()) && fresh(h.Repr() - old(h.Repr()))
      invariant |results| <= |calls|
      invariant RunOf(h.ops, h.kind, items, room, calls[..|results|]) == RunOutcome(h.Contents(), h.Room(), results)
      decreases |calls| - |results|
    {
      var n := |results|;
      var ok := CanApply(h, calls[n].op);
      if !ok {
        return;
      }
      results := RunOne(h, calls[n], items, room, calls[..n], results);
      assert calls[..n + 1] == calls[..n] + [calls[n]];
    }
  }

  lemma EmptyRun(ops: HashOps, kind: Kind, items: seq<Pair>, room: Size, calls: seq<Call>)
    ensures RunOf(ops, kind, items, room, calls[..0]) == RunOutcome(items, room, [])
  {
  }

  lemma StoredKeysDiffer(h: HashmapBase)
    requires h.Valid()
    ensures KeysDiffer(h.ops, h.Contents())
  {
  }

  lemma StoredSize(h: HashmapBase)
    requires h.Valid()
    ensures |h.Contents()| == h.nEntries
  {
  }

  method RunOne(h: HashmapBase, call: Call, ghost items: seq<Pair>, ghost room: Size, ghost done: seq<Call>,
                results: seq<int>)
    returns (results': seq<int>)
    requires h.Valid() && NonNull(h.Contents()) && Guarded(h, call.op) && KeysGiven(call.op)
    requires RunOf(h.ops, h.kind, items, room, done) == RunOutcome(h.Contents(), h.Room(), results)
    modifies h.Repr()
    ensures h.Valid() && NonNull(h.Contents()) && fresh(h.Repr() - old(h.Repr()))
    ensures |results'| == |results| + 1
    ensures RunOf(h.ops, h.kind, items, room, done + [call]) == RunOutcome(h.Contents(), h.Room(), results')
  {
    hide Good, Items, NonNull, KeysGiven, Guarded, Step, RunOf, CanStore, HashApi.RoomAfter;
    StoredSize(h);
    var r := Apply(h, call);
    results' := results + [r];
    RunStep(h.ops, h.kind, items, room, done, call);
  }

  lemma RunStep(ops: HashOps, kind: Kind, items: seq<Pair>, room: Size, done: seq<Call>, call: Call)
    ensures var before := RunOf(ops, kind, items, room, done);
      var last := Step(ops, before.items, call.op, CanStore(kind, before.room, |before.items| + 1, call.allocOk));
      RunOf(ops, kind, items, room, done + [call]) ==
        RunOutcome(last.items, HashApi.RoomAfter(ops, kind, before.room, before.items, call.op, call.allocOk),
                   before.results + [last.result])
  {
    hide Step, CanStore, HashApi.RoomAfter;
    assert (done + [call])[..|done|] == done;
  }
}
