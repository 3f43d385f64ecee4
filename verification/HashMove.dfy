/**
  Moving the entries of one hash table into another: all or nothing on allocation
  failure, and no entry is lost or duplicated.
  */
module HashMove {
  import opened HashView
  import opened HashSteps
  import opened HashSize
  import opened HashSpec
  import opened Hashmap
  import opened HashRuns
  import opened HashIter
  import HashApi

  /** The pairs of `items` whose key is stored in `held` already, or is not. */
  function Clashing(ops: HashOps, held: seq<Pair>, items: seq<Pair>, clash: bool): seq<Pair> {
    if items == [] then [] else
      var last := items[|items| - 1];
      Clashing(ops, held, items[..|items| - 1], clash)
      + if (Pos(ops, held, last.key) >= 0) == clash then [last] else []
  }

  // ---------- maps of lists ----------

  lemma {:induction false} MapOfStored(ops: HashOps, items: seq<Pair>, k: nat)
    requires KeysDiffer(ops, items) && k < |items|
    ensures ops.canon(items[k].key) in MapOf(ops, items) && MapOf(ops, items)[ops.canon(items[k].key)] == items[k]
  {
    PosInMap(ops, items, items[k].key);
    PosIs(ops, items, items[k].key, k);
  }

  lemma {:induction false} MapOfSource(ops: HashOps, items: seq<Pair>, c: Ptr) returns (k: nat)
    requires c in MapOf(ops, items)
    ensures k < |items| && ops.canon(items[k].key) == c && MapOf(ops, items)[c] == items[k]
  {
    var n := |items| - 1;
    if ops.canon(items[n].key) == c { k := n; } else { k := MapOfSource(ops, items[..n], c); }
  }

  /** What moving `items` into a table with `held` should leave in the two tables. */
  ghost predicate Moved(ops: HashOps, held: seq<Pair>, items: seq<Pair>, target: seq<Pair>, rest: seq<Pair>) {
    && MapOf(ops, target) == MapOf(ops, items) + MapOf(ops, held)
    && rest == Clashing(ops, held, items, true)
  }

  // ---------- the loop ----------

  /** Everything that holds at the head of the loop, `m` turns after its start. */
  ghost predicate Moving(h: HashmapBase, other: HashmapBase, held: seq<Pair>, items: seq<Pair>, added: seq<Pair>,
                         m: nat,
                         idx: nat, c: nat, it: Iterator, pending: set<Ptr>, p: nat)
    reads h, h.buckets, h.dibs, other, other.buckets, other.dibs
  {
    var all :=
      && h.Valid() && other.Valid() && NonNull(other.Contents()) && h.ops == other.ops && h.Repr() !! other.Repr()
      && h.nEntries + other.nEntries <= h.buckets.Length
      && h.Contents() == held + added
      && (idx != IDX_NIL ==> Standing(other, idx, c, it, pending, p))
      && MovedSoFar(h.ops, other.kind.OrderedMap?, held, items, added, m, other.Contents(), idx == IDX_NIL, c, pending);
    all
  }

  ghost predicate MovedSoFar(ops: HashOps, ordered: bool, held: seq<Pair>, items: seq<Pair>, added: seq<Pair>, m: nat,
                             now: seq<Pair>, atEnd: bool, c: nat, pending: set<Ptr>)
  {
    var all :=
      && KeysDiffer(ops, items)
      && now == Drop(items, KeySetOf(added))
      && AllFree(ops, held, items, added) && Owed(ops, held, now, atEnd, c, pending)
      && (atEnd ==> pending == {})
      && (ordered ==> InStep(ops, held, items, added, m, now, atEnd, c));
    all
  }

  /** What was added are pairs that did not clash. */
  ghost predicate AllFree(ops: HashOps, held: seq<Pair>, items: seq<Pair>, added: seq<Pair>) {
    forall k :: 0 <= k < |added| ==> added[k] in items && Pos(ops, held, added[k].key) < 0
  }

  /** What is left is pending, or current, or clashes. */
  ghost predicate Owed(ops: HashOps, held: seq<Pair>, now: seq<Pair>, atEnd: bool, c: nat, pending: set<Ptr>) {
    forall k :: 0 <= k < |now| ==>
      now[k].key in pending || (!atEnd && k == c) || Pos(ops, held, now[k].key) >= 0
  }

  /** In insertion order, the first `m` pairs have been dealt with. */
  ghost predicate InStep(ops: HashOps, held: seq<Pair>, items: seq<Pair>, added: seq<Pair>, m: nat,
                         now: seq<Pair>, atEnd: bool, c: nat)
  {
    && m <= |items| && added == Clashing(ops, held, items[..m], false)
    && if atEnd then m == |items| else c < |now| && now[c..] == items[m..]
  }

  lemma PointersFromKeys(ops: HashOps, items: seq<Pair>)
    requires KeysDiffer(ops, items)
    ensures PointersDiffer(items)
  {
    forall i, j | 0 <= i < j < |items| ensures items[i].key != items[j].key {
      assert ops.canon(items[i].key) != ops.canon(items[j].key);
    }
  }

  /** One turn of the loop on the level of lists: the current pair moves unless its key clashes. */
  lemma TurnMoves(ops: HashOps, ordered: bool, held: seq<Pair>, items: seq<Pair>, added: seq<Pair>, m: nat,
                  now: seq<Pair>, c: nat, pending: set<Ptr>, now': seq<Pair>, atEnd': bool, c': nat, pending': set<Ptr>)
    requires MovedSoFar(ops, ordered, held, items, added, m, now, false, c, pending) && c < |now|
    requires KeysDiffer(ops, held + added) && now[c].key !in pending
    requires var drop := Pos(ops, held + added, now[c].key) < 0; now' == if drop then RemoveAt(now, c) else now
    requires atEnd' ==> forall k :: 0 <= k < |now'| ==> now'[k].key !in pending
    requires if atEnd' then pending' == {} else c' < |now'| && pending' == pending - {now'[c'].key}
    requires var drop := Pos(ops, held + added, now[c].key) < 0;
             ordered ==> if atEnd' then (if drop then c else c + 1) == |now'| else c' == if drop then c else c + 1
    ensures var added' := if Pos(ops, held + added, now[c].key) < 0 then added + [now[c]] else added;
            MovedSoFar(ops, ordered, held, items, added', m + 1, now', atEnd', c', pending')
  {
    hide Pos, Drop, KeySetOf, KeysDiffer, PointersDiffer, MovedSoFar, AllFree, Owed, InStep;
    MovedSoFarHas(ops, ordered, held, items, added, m, now, c, pending);
    var drop := Pos(ops, held + added, now[c].key) < 0;
    var added' := if drop then added + [now[c]] else added;
    ClashIsWithHeld(ops, held, items, added, c);
    PointersFromKeys(ops, items);
    if drop {
      DropOne(items, KeySetOf(added), c);
      KeySetOnward(added, now[c]);
      AddedOn(ops, held, items, added, now[c]);
    }
    DropPointers(items, KeySetOf(added'));
    StillOwed(ops, held, now, c, pending, drop, now', atEnd', c', pending');
    if ordered { MoveInOrder(ops, held, items, added, m, now, c, now', atEnd', c'); }
    MovedSoFarIs(ops, ordered, held, items, added', m + 1, now', atEnd', c', pending');
  }

  lemma MovedSoFarHas(ops: HashOps, ordered: bool, held: seq<Pair>, items: seq<Pair>, added: seq<Pair>, m: nat,
                      now: seq<Pair>, c: nat, pending: set<Ptr>)
    requires MovedSoFar(ops, ordered, held, items, added, m, now, false, c, pending) && c < |now|
    ensures KeysDiffer(ops, items) && now == Drop(items, KeySetOf(added)) && now[c] in items
    ensures AllFree(ops, held, items, added) && Owed(ops, held, now, false, c, pending)
    ensures ordered ==> InStep(ops, held, items, added, m, now, false, c)
  {
  }

  lemma AddedOn(ops: HashOps, held: seq<Pair>, items: seq<Pair>, added: seq<Pair>, x: Pair)
    requires AllFree(ops, held, items, added) && x in items && Pos(ops, held, x.key) < 0
    ensures AllFree(ops, held, items, added + [x])
  {
    hide Pos;
  }

  lemma MovedSoFarIs(ops: HashOps, ordered: bool, held: seq<Pair>, items: seq<Pair>, added: seq<Pair>, m: nat,
                     now: seq<Pair>, atEnd: bool, c: nat, pending: set<Ptr>)
    requires KeysDiffer(ops, items) && now == Drop(items, KeySetOf(added))
    requires AllFree(ops, held, items, added) && Owed(ops, held, now, atEnd, c, pending)
    requires atEnd ==> pending == {}
    requires ordered ==> InStep(ops, held, items, added, m, now, atEnd, c)
    ensures MovedSoFar(ops, ordered, held, items, added, m, now, atEnd, c, pending)
  {
  }

  /** A pair that is neither pending, nor current, nor clashing has left. */
  lemma StillOwed(ops: HashOps, held: seq<Pair>, now: seq<Pair>, c: nat, pending: set<Ptr>, drop: bool,
                  now': seq<Pair>, atEnd': bool, c': nat, pending': set<Ptr>)
    requires c < |now| && drop == (Pos(ops, held, now[c].key) < 0) && PointersDiffer(now')
    requires Owed(ops, held, now, false, c, pending)
    requires now' == if drop then RemoveAt(now, c) else now
    requires atEnd' ==> forall k :: 0 <= k < |now'| ==> now'[k].key !in pending
    requires if atEnd' then pending' == {} else c' < |now'| && pending' == pending - {now'[c'].key}
    ensures Owed(ops, held, now', atEnd', c', pending')
  {
    hide Pos;
    forall k | 0 <= k < |now'|
      ensures now'[k].key in pending' || (!atEnd' && k == c') || Pos(ops, held, now'[k].key) >= 0
    {
      assert now'[k] == now[if drop && k >= c then k + 1 else k];
    }
  }

  lemma {:induction false} DropPointers(items: seq<Pair>, gone: set<Ptr>)
    requires PointersDiffer(items)
    ensures PointersDiffer(Drop(items, gone))
  {
    if items != [] {
      var front := items[..|items| - 1];
      DropPointers(front, gone);
      var kept := Drop(front, gone);
      forall k | 0 <= k < |kept| ensures kept[k].key != items[|items| - 1].key {
        assert kept[k] in front;
      }
    }
  }

  lemma KeySetOnward(added: seq<Pair>, pair: Pair)
    ensures KeySetOf(added + [pair]) == KeySetOf(added) + {pair.key}
  {
    var all := added + [pair];
    assert forall k :: 0 <= k < |added| ==> all[k] == added[k];
    assert all[|added|] == pair;
  }

  /** A stored pair clashes with the target now exactly when it did at the start. */
  lemma ClashIsWithHeld(ops: HashOps, held: seq<Pair>, items: seq<Pair>, added: seq<Pair>, c: nat)
    requires KeysDiffer(ops, items) && c < |Drop(items, KeySetOf(added))|
    requires forall k :: 0 <= k < |added| ==> added[k] in items
    ensures var key := Drop(items, KeySetOf(added))[c].key;
            Pos(ops, held + added, key) < 0 <==> Pos(ops, held, key) < 0
  {
    var pair := Drop(items, KeySetOf(added))[c];
    forall k | 0 <= k < |added| ensures ops.canon(added[k].key) != ops.canon(pair.key) {
      assert added[k].key in KeySetOf(added);
      var i :| 0 <= i < |items| && items[i] == added[k];
      var j :| 0 <= j < |items| && items[j] == pair;
      assert i != j;
    }
    var all := held + added;
    forall k | 0 <= k < |all| ensures ops.canon(all[k].key) == ops.canon(pair.key) ==> k < |held| {
      if k >= |held| { assert all[k] == added[k - |held|]; }
    }
    var p, q := Pos(ops, all, pair.key), Pos(ops, held, pair.key);
    if p >= 0 { assert all[p] == held[p]; }
    if q >= 0 { assert all[q] == held[q]; }
  }

  lemma MoveInOrder(ops: HashOps, held: seq<Pair>, items: seq<Pair>, added: seq<Pair>, m: nat, now: seq<Pair>, c: nat,
                    now': seq<Pair>, atEnd': bool, c': nat)
    requires InStep(ops, held, items, added, m, now, false, c)
    requires now' == if Pos(ops, held, now[c].key) < 0 then RemoveAt(now, c) else now
    requires var at := if Pos(ops, held, now[c].key) < 0 then c else c + 1;
             if atEnd' then at == |now'| else c' == at < |now'|
    ensures var added' := if Pos(ops, held, now[c].key) < 0 then added + [now[c]] else added;
            InStep(ops, held, items, added', m + 1, now', atEnd', c')
  {
    hide Pos;
    assert now[c] == now[c..][0] == items[m..][0] == items[m];
    assert now[c + 1..] == now[c..][1..] == items[m..][1..] == items[m + 1..];
    assert items[..m + 1][..m] == items[..m];
    assert RemoveAt(now, c)[c..] == now[c + 1..];
  }

  // ---------- the end of the loop ----------

  /** At the end exactly the pairs that did not clash have been added. */
  lemma AddedIffFree(ops: HashOps, ordered: bool, held: seq<Pair>, items: seq<Pair>, added: seq<Pair>, m: nat,
                     now: seq<Pair>, c: nat, k: nat)
    requires MovedSoFar(ops, ordered, held, items, added, m, now, true, c, {}) && k < |items|
    ensures items[k].key in KeySetOf(added) <==> Pos(ops, held, items[k].key) < 0
  {
    PointersFromKeys(ops, items);
    if items[k].key in KeySetOf(added) {
      var j :| 0 <= j < |added| && added[j].key == items[k].key;
      var i :| 0 <= i < |items| && items[i] == added[j];
    } else {
      DropKeeps(items, KeySetOf(added), k);
    }
  }

  lemma {:induction false} DropIsClashing(ops: HashOps, held: seq<Pair>, items: seq<Pair>, gone: set<Ptr>)
    requires forall k :: 0 <= k < |items| ==> (items[k].key in gone <==> Pos(ops, held, items[k].key) < 0)
    ensures Drop(items, gone) == Clashing(ops, held, items, true)
  {
    if items != [] { DropIsClashing(ops, held, items[..|items| - 1], gone); }
  }

  lemma EndIsMoved(ops: HashOps, ordered: bool, held: seq<Pair>, items: seq<Pair>, added: seq<Pair>, m: nat,
                   now: seq<Pair>, c: nat)
    requires MovedSoFar(ops, ordered, held, items, added, m, now, true, c, {}) && KeysDiffer(ops, held + added)
    ensures Moved(ops, held, items, held + added, now)
    ensures ordered ==> added == Clashing(ops, held, items, false)
  {
    forall k | 0 <= k < |items| ensures items[k].key in KeySetOf(added) <==> Pos(ops, held, items[k].key) < 0 {
      AddedIffFree(ops, ordered, held, items, added, m, now, c, k);
    }
    DropIsClashing(ops, held, items, KeySetOf(added));
    TargetMap(ops, held, items, added);
    if ordered { assert items[..m] == items; }
  }

  lemma HeldDiffer(ops: HashOps, held: seq<Pair>, added: seq<Pair>)
    requires KeysDiffer(ops, held + added)
    ensures KeysDiffer(ops, held)
  {
    forall i, j | 0 <= i < j < |held| ensures ops.canon(held[i].key) != ops.canon(held[j].key) {
      assert (held + added)[i] == held[i] && (held + added)[j] == held[j];
    }
  }

  /** The target is the merge of both tables, where pairs that were in the target stay. */
  lemma TargetMap(ops: HashOps, held: seq<Pair>, items: seq<Pair>, added: seq<Pair>)
    requires KeysDiffer(ops, held + added) && KeysDiffer(ops, items)
    requires forall k :: 0 <= k < |added| ==> added[k] in items && Pos(ops, held, added[k].key) < 0
    requires forall k :: 0 <= k < |items| ==> (items[k].key in KeySetOf(added) <==> Pos(ops, held, items[k].key) < 0)
    ensures MapOf(ops, held + added) == MapOf(ops, items) + MapOf(ops, held)
  {
    HeldDiffer(ops, held, added);
    var all, both := MapOf(ops, held + added), MapOf(ops, items) + MapOf(ops, held);
    forall c | c in all ensures c in both && both[c] == all[c] {
      TargetInBoth(ops, held, items, added, c);
    }
    forall c | c in both ensures c in all {
      BothInTarget(ops, held, items, added, c);
    }
  }

  lemma TargetInBoth(ops: HashOps, held: seq<Pair>, items: seq<Pair>, added: seq<Pair>, c: Ptr)
    requires KeysDiffer(ops, held) && KeysDiffer(ops, items) && c in MapOf(ops, held + added)
    requires forall k :: 0 <= k < |added| ==> added[k] in items && Pos(ops, held, added[k].key) < 0
    ensures var both := MapOf(ops, items) + MapOf(ops, held); c in both && both[c] == MapOf(ops, held + added)[c]
  {
    var k := MapOfSource(ops, held + added, c);
    if k < |held| {
      MapOfStored(ops, held, k);
    } else {
      var pair := added[k - |held|];
      var i :| 0 <= i < |items| && items[i] == pair;
      MapOfStored(ops, items, i);
      PosInMap(ops, held, pair.key);
    }
  }

  lemma BothInTarget(ops: HashOps, held: seq<Pair>, items: seq<Pair>, added: seq<Pair>, c: Ptr)
    requires KeysDiffer(ops, held + added) && KeysDiffer(ops, items)
    requires forall k :: 0 <= k < |added| ==> added[k] in items
    requires forall k :: 0 <= k < |items| && Pos(ops, held, items[k].key) < 0 ==> items[k].key in KeySetOf(added)
    requires c in MapOf(ops, items) + MapOf(ops, held)
    ensures c in MapOf(ops, held + added)
  {
    hide Pos, MapOf, KeysDiffer;
    var all := held + added;
    if c in MapOf(ops, held) {
      var k := MapOfSource(ops, held, c);
      assert all[k] == held[k];
      MapOfStored(ops, all, k);
    } else {
      var k := MapOfSource(ops, items, c);
      PosInMap(ops, held, items[k].key);
      var j :| 0 <= j < |added| && added[j].key == items[k].key;
      assert all[|held| + j] == added[j];
      MapOfStored(ops, all, |held| + j);
    }
  }

  // ---------- the operation ----------

  /** Puts the current pair of `other` into `h` unless its key is there already. */
  method MoveOne(h: HashmapBase, kv: Pair) returns (moved: bool)
    requires h.Valid() && h.nEntries < h.buckets.Length
    modifies h.Repr()
    ensures h.Valid() && h.buckets == old(h.buckets) && h.dibs == old(h.dibs)
    ensures moved == (Pos(h.ops, old(h.Contents()), kv.key) < 0)
    ensures h.Contents() == if moved then old(h.Contents()) + [kv] else old(h.Contents())
    ensures h.nEntries == old(h.nEntries) + if moved then 1 else 0
  {
    var hash, idx; ghost var p;
    hash, idx, p := HashApi.Find(h, kv.key);
    moved := idx == IDX_NIL;
    if moved { h.PutHeld(hash, kv); }
  }

  method MoveTurn(h: HashmapBase, other: HashmapBase, ghost held: seq<Pair>, ghost items: seq<Pair>,
                  ghost added: seq<Pair>, ghost m: nat,
                  idx: nat, ghost c: nat, it: Iterator, ghost pending: set<Ptr>, ghost p: nat)
    returns (idx': nat, it': Iterator, ghost c': nat, ghost pending': set<Ptr>, ghost p': nat, ghost added': seq<Pair>)
    requires Moving(h, other, held, items, added, m, idx, c, it, pending, p) && idx != IDX_NIL
    modifies h.Repr(), other.Repr()
    ensures Moving(h, other, held, items, added', m + 1, idx', c', it', pending', p')
    ensures h.buckets == old(h.buckets) && h.dibs == old(h.dibs)
    ensures other.buckets == old(other.buckets) && other.dibs == old(other.dibs)
    ensures TurnsLeft(other, idx', c') < old(TurnsLeft(other, idx, c))
  {
    hide Good, Items, KeysDiffer, MovedSoFar, Pos, NonNull, Standing, Moving;
    MovingAt(h, other, held, items, added, m, idx, c, it, pending, p);
    var kv := other.buckets[idx].kv;
    var moved := MoveOne(h, kv);
    added' := if moved then added + [kv] else added;
    idx', it', c', pending', p' := FinishTurn(h, other, held, items, added, m, idx, c, it, pending, p, moved);
  }

  lemma MovingAt(h: HashmapBase, other: HashmapBase, held: seq<Pair>, items: seq<Pair>, added: seq<Pair>, m: nat,
                 idx: nat, c: nat, it: Iterator, pending: set<Ptr>, p: nat)
    requires Moving(h, other, held, items, added, m, idx, c, it, pending, p) && idx != IDX_NIL
    ensures h.Valid() && other.Valid() && NonNull(other.Contents()) && h.ops == other.ops && h.Repr() !! other.Repr()
    ensures h.nEntries < h.buckets.Length && h.nEntries + other.nEntries <= h.buckets.Length
    ensures h.Contents() == held + added && KeysDiffer(h.ops, held + added)
    ensures Standing(other, idx, c, it, pending, p)
    ensures c < |other.Contents()| && idx < other.buckets.Length && other.buckets[idx].kv == other.Contents()[c]
    ensures MovedSoFar(h.ops, other.kind.OrderedMap?, held, items, added, m, other.Contents(), false, c, pending)
  {
    StoredSize(other);
    StoredKeysDiffer(h);
    assert other.nEntries > 0;
  }

  /** The rest of a turn: the moved pair leaves `other`, and the loop goes on. */
  method FinishTurn(ghost h: HashmapBase, other: HashmapBase, ghost held: seq<Pair>, ghost items: seq<Pair>,
                    ghost added: seq<Pair>, ghost m: nat,
                    idx: nat, ghost c: nat, it: Iterator, ghost pending: set<Ptr>, ghost p: nat, moved: bool)
    returns (idx': nat, it': Iterator, ghost c': nat, ghost pending': set<Ptr>, ghost p': nat)
    requires h.Valid() && other.Valid() && NonNull(other.Contents()) && h.ops == other.ops && h.Repr() !! other.Repr()
    requires Standing(other, idx, c, it, pending, p) && KeysDiffer(h.ops, held + added)
    requires MovedSoFar(h.ops, other.kind.OrderedMap?, held, items, added, m, other.Contents(), false, c, pending)
    requires moved == (Pos(h.ops, held + added, other.Contents()[c].key) < 0)
    requires h.Contents() == held + if moved then added + [other.Contents()[c]] else added
    requires h.nEntries + other.nEntries <= h.buckets.Length + if moved then 1 else 0
    modifies other.Repr()
    ensures var added' := if moved then added + [old(other.Contents())[c]] else added;
            Moving(h, other, held, items, added', m + 1, idx', c', it', pending', p')
    ensures other.buckets == old(other.buckets) && other.dibs == old(other.dibs)
    ensures TurnsLeft(other, idx', c') < old(TurnsLeft(other, idx, c))
  {
    ghost var now, size := other.Contents(), other.nEntries;
    TurnStarts(other, idx, c, it, pending, p);
    hide Good, Items, Ready, Exact, KeysDiffer, MovedSoFar, Pos, Drop, Clashing, NonNull, Standing;
    idx', it', c', pending', p' := Turn(other, idx, c, it, pending, p, moved);
    if idx' == IDX_NIL { pending' := {}; }
    TurnEnds(h, other, held, items, added, m, now, size, c, pending, moved, idx', c', it', pending', p');
  }

  lemma TurnStarts(other: HashmapBase, idx: nat, c: nat, it: Iterator, pending: set<Ptr>, p: nat)
    requires other.Valid() && NonNull(other.Contents()) && Standing(other, idx, c, it, pending, p)
    ensures c < |other.Contents()| == other.nEntries
    ensures other.Contents()[c].key !in pending && NonNull(RemoveAt(other.Contents(), c))
  {
    RemoveNonNull(other.Contents(), c);
  }

  lemma TurnEnds(h: HashmapBase, other: HashmapBase, held: seq<Pair>, items: seq<Pair>, added: seq<Pair>, m: nat,
                 now: seq<Pair>, size: nat, c: nat, pending: set<Ptr>, moved: bool,
                 idx': nat, c': nat, it': Iterator, pending': set<Ptr>, p': nat)
    requires h.Valid() && other.Valid() && h.ops == other.ops && h.Repr() !! other.Repr()
    requires c < |now| == size && NonNull(now) && NonNull(RemoveAt(now, c)) && now[c].key !in pending
    requires KeysDiffer(h.ops, held + added)
    requires MovedSoFar(h.ops, other.kind.OrderedMap?, held, items, added, m, now, false, c, pending)
    requires moved == (Pos(h.ops, held + added, now[c].key) < 0)
    requires h.Contents() == held + if moved then added + [now[c]] else added
    requires h.nEntries + size <= h.buckets.Length + if moved then 1 else 0
    requires other.Contents() == if moved then RemoveAt(now, c) else now
    requires idx' == IDX_NIL ==>
               pending' == {} && forall k :: 0 <= k < |other.Contents()| ==> other.Contents()[k].key !in pending
    requires idx' != IDX_NIL ==>
               Standing(other, idx', c', it', pending', p') && c' < |other.Contents()|
                 && pending' == pending - {other.Contents()[c'].key}
    requires other.kind.OrderedMap? ==> var at := if moved then c else c + 1;
                                        if idx' == IDX_NIL then at == |other.Contents()| else c' == at
    ensures var added' := if moved then added + [now[c]] else added;
            Moving(h, other, held, items, added', m + 1, idx', c', it', pending', p')
  {
    var added' := if moved then added + [now[c]] else added;
    hide *;
    StoredSize(other);
    TurnMoves(h.ops, other.kind.OrderedMap?, held, items, added, m, now, c, pending,
              other.Contents(), idx' == IDX_NIL, c', pending');
    MovingIs(h, other, held, items, added', m + 1, idx', c', it', pending', p');
  }

  lemma MovingIs(h: HashmapBase, other: HashmapBase, held: seq<Pair>, items: seq<Pair>, added: seq<Pair>, m: nat,
                 idx: nat, c: nat, it: Iterator, pending: set<Ptr>, p: nat)
    requires h.Valid() && other.Valid() && NonNull(other.Contents()) && h.ops == other.ops && h.Repr() !! other.Repr()
    requires h.nEntries + other.nEntries <= h.buckets.Length && h.Contents() == held + added
    requires idx != IDX_NIL ==> Standing(other, idx, c, it, pending, p)
    requires MovedSoFar(h.ops, other.kind.OrderedMap?, held, items, added, m, other.Contents(), idx == IDX_NIL, c,
      pending)
    ensures Moving(h, other, held, items, added, m, idx, c, it, pending, p)
  {
  }

  /** The loop of the move, after storage for every entry of `other` has been reserved. */
  method MoveAll(h: HashmapBase, other: HashmapBase) returns (ghost added: seq<Pair>)
    requires h.Valid() && other.Valid() && NonNull(other.Contents()) && h.ops == other.ops && h.Repr() !! other.Repr()
    requires h.nEntries + other.nEntries <= h.buckets.Length
    modifies h.Repr(), other.Repr()
    ensures h.Valid() && other.Valid() && h.Contents() == old(h.Contents()) + added
    ensures Moved(h.ops, old(h.Contents()), old(other.Contents()), h.Contents(), other.Contents())
    ensures other.kind.OrderedMap? ==> added == Clashing(h.ops, old(h.Contents()), old(other.Contents()), false)
  {
    ghost var held, items := h.Contents(), other.Contents();
    var idx, it; ghost var c, pending, p;
    idx, it, c, pending, p := MoveBegins(h, other);
    ghost var m: nat := 0;
    added := [];
    idx, c, m, added := MoveLoop(h, other, held, items, idx, c, it, pending, p);
    MoveEnds(h, other, held, items, added, m, c);
  }

  method MoveBegins(ghost h: HashmapBase, other: HashmapBase)
    returns (idx: nat, it: Iterator, ghost c: nat, ghost pending: set<Ptr>, ghost p: nat)
    requires h.Valid() && other.Valid() && NonNull(other.Contents()) && h.ops == other.ops && h.Repr() !! other.Repr()
    requires h.nEntries + other.nEntries <= h.buckets.Length
    modifies other`lowest
    ensures Moving(h, other, old(h.Contents()), old(other.Contents()), [], 0, idx, c, it, pending, p)
  {
    ghost var items := other.Contents();
    ghost var all := KeySetOf(items);
    StoredKeysDiffer(other);
    StartsReady(other, all);
    NothingMoved(h.ops, h.Contents(), items);
    hide Good, Items, Ready, Exact, NonNull, KeysDiffer, MovedSoFar, Standing, KeySetOf, Pos, Drop, Clashing;
    idx, it, c, pending, p := Advance(other, ITERATOR_FIRST, all, 0);
    assert other.Contents() == items;
    if idx == IDX_NIL {
      NoKeyMeansEmpty(items);
      pending := {};
    }
    AllPending(h.ops, other.kind.OrderedMap?, h.Contents(), items, idx == IDX_NIL, c, pending);
    MovingIs(h, other, h.Contents(), items, [], 0, idx, c, it, pending, p);
  }

  lemma NothingMoved(ops: HashOps, held: seq<Pair>, items: seq<Pair>)
    ensures KeySetOf([]) == {} && Drop(items, KeySetOf([])) == items
    ensures held == held + []
  {
    assert KeySetOf([]) == {};
    DropNothing(items);
  }

  lemma AllPending(ops: HashOps, ordered: bool, held: seq<Pair>, items: seq<Pair>, atEnd: bool, c: nat,
                   pending: set<Ptr>)
    requires KeysDiffer(ops, items)
    requires if atEnd then items == [] && pending == {} else c < |items| && pending == KeySetOf(items) - {items[c].key}
    requires ordered && !atEnd ==> c == 0
    ensures MovedSoFar(ops, ordered, held, items, [], 0, items, atEnd, c, pending)
  {
    NothingMoved(ops, held, items);
    PointersFromKeys(ops, items);
    forall k | 0 <= k < |items| ensures items[k].key in pending || (!atEnd && k == c) { }
    hide Pos, Drop, KeySetOf, KeysDiffer, PointersDiffer;
    MovedSoFarIs(ops, ordered, held, items, [], 0, items, atEnd, c, pending);
  }

  method MoveLoop(h: HashmapBase, other: HashmapBase, ghost held: seq<Pair>, ghost items: seq<Pair>,
                  idx0: nat, ghost c0: nat, it0: Iterator, ghost pending0: set<Ptr>, ghost p0: nat)
    returns (idx: nat, ghost c: nat, ghost m: nat, ghost added: seq<Pair>)
    requires Moving(h, other, held, items, [], 0, idx0, c0, it0, pending0, p0)
    modifies h.Repr(), other.Repr()
    ensures idx == IDX_NIL
    ensures exists it, pending, p :: Moving(h, other, held, items, added, m, IDX_NIL, c, it, pending, p)
  {
    var it := it0;
    ghost var pending, p := pending0, p0;
    idx, c, m, added := idx0, c0, 0, [];
    while idx != IDX_NIL
      invariant Moving(h, other, held, items, added, m, idx, c, it, pending, p)
      invariant h.buckets == old(h.buckets) && h.dibs == old(h.dibs)
      invariant other.buckets == old(other.buckets) && other.dibs == old(other.dibs)
      decreases TurnsLeft(other, idx, c)
    {
      hide Moving, TurnsLeft;
      idx, it, c, pending, p, added := MoveTurn(h, other, held, items, added, m, idx, c, it, pending, p);
      m := m + 1;
    }
  }

  lemma MoveEnds(h: HashmapBase, other: HashmapBase, held: seq<Pair>, items: seq<Pair>, added: seq<Pair>, m: nat,
                 c: nat)
    requires exists it, pending, p :: Moving(h, other, held, items, added, m, IDX_NIL, c, it, pending, p)
    ensures h.Valid() && other.Valid() && h.Contents() == held + added
    ensures Moved(h.ops, held, items, h.Contents(), other.Contents())
    ensures other.kind.OrderedMap? ==> added == Clashing(h.ops, held, items, false)
  {
    var it, pending, p :| Moving(h, other, held, items, added, m, IDX_NIL, c, it, pending, p);
    StoredKeysDiffer(h);
    assert pending == {};
    EndIsMoved(h.ops, other.kind.OrderedMap?, held, items, added, m, other.Contents(), c);
  }

  /**
    Moves every entry of `other` whose key is not in `h` into `h`; the others stay.
    On allocation failure nothing has been moved.
    */
  method Move(h: HashmapBase, other: HashmapBase, allocOk: bool, freshKey: nat) returns (r: int)
    requires h.Valid() && other.Valid() && h.Repr() !! other.Repr()
    requires h.kind == other.kind && h.ops == other.ops && NonNull(other.Contents())
    requires Shiftable(h.PlanFor(other.nEntries))
    modifies h.Repr(), other.Repr()
    ensures h.Valid() && other.Valid()
    ensures var e := old(h.nEntries) + old(other.nEntries);
      r == if (!old(h.indirect) && e <= DirectBuckets(h.kind)) || e + e / 4 <= old(h.buckets.Length) then 0
           else if (e + e / 4) * SlotBytes(h.kind) > UINT_MAX || !allocOk then -ENOMEM
           else 0
    ensures r < 0 ==> h.Contents() == old(h.Contents()) && other.Contents() == old(other.Contents())
    ensures r == 0 ==> Moved(h.ops, old(h.Contents()), old(other.Contents()), h.Contents(), other.Contents())
    ensures r == 0 && h.kind.OrderedMap? ==>
              h.Contents() == old(h.Contents()) + Clashing(h.ops, old(h.Contents()), old(other.Contents()), false)
  {
    hide Good, Items, KeysDiffer, NonNull, Moved, Clashing, SlotBytes, DirectBuckets, SizeAfter, CanStore;
    TableSize(other);
    r := h.ResizeBuckets(other.nEntries, allocOk, freshKey);
    if r < 0 { return; }
    ghost var added := MoveAll(h, other);
    r := 0;
  }

  lemma TableSize(h: HashmapBase)
    requires h.Valid()
    ensures h.nEntries <= UINT_MAX
  {
  }
}
