/**
  What the hash table promises, twice over: as a list of pairs in insertion
  order, and as a plain map.  The list is what an ordered map shows its callers;
  the map is all that the other kinds show.
  */
module HashSpec {
  import opened HashView

  const EEXIST: int := 17
  const ENOENT: int := 2
  const ENOMEM: int := 12

  /** The position of the pair whose key compares equal to `key`, or -1. */
  function Pos(ops: HashOps, items: seq<Pair>, key: Ptr): (p: int)
    ensures -1 <= p < |items|
    ensures p >= 0 ==> ops.canon(items[p].key) == ops.canon(key)
    ensures p < 0 ==> forall k :: 0 <= k < |items| ==> ops.canon(items[k].key) != ops.canon(key)
  {
    if items == [] then -1
    else if ops.canon(items[|items| - 1].key) == ops.canon(key) then |items| - 1
    else Pos(ops, items[..|items| - 1], key)
  }

  lemma PosIs(ops: HashOps, items: seq<Pair>, key: Ptr, p: nat)
    requires KeysDiffer(ops, items) && p < |items| && ops.canon(items[p].key) == ops.canon(key)
    ensures Pos(ops, items, key) == p
  {
    var q := Pos(ops, items, key);
    assert q >= 0;
    assert ops.canon(items[q].key) == ops.canon(items[p].key);
  }

  datatype Op =
    | Put(key: Ptr, value: Ptr)
    | Replace(key: Ptr, value: Ptr)
    | Update(key: Ptr, value: Ptr)
    | Remove(key: Ptr)
    | RemoveAndPut(key: Ptr, newKey: Ptr, value: Ptr)
    | RemoveAndReplace(key: Ptr, newKey: Ptr, value: Ptr)
    | Clear

  /** An operation's return code; `Remove` returns the removed value, or NULL. */
  datatype Outcome = Outcome(items: seq<Pair>, result: int)

  /** Appends a pair, if storage for it can be had. */
  function Append(items: seq<Pair>, pair: Pair, storage: bool): Outcome {
    if storage then Outcome(items + [pair], 1) else Outcome(items, -ENOMEM)
  }

  /** The effect of an operation on the list of pairs; `storage` says whether growing succeeds if it is needed. */
  function Step(ops: HashOps, items: seq<Pair>, op: Op, storage: bool): Outcome {
    match op
    case Put(key, value) =>
      var p := Pos(ops, items, key);
      if p < 0 then Append(items, Pair(key, value), storage)
      else Outcome(items, if items[p].value == value then 0 else -EEXIST)
    case Replace(key, value) =>
      var p := Pos(ops, items, key);
      if p < 0 then Append(items, Pair(key, value), storage)
      else Outcome(items[p := Pair(key, value)], 0)
    case Update(key, value) =>
      var p := Pos(ops, items, key);
      if p < 0 then Outcome(items, -ENOENT)
      else Outcome(items[p := items[p].(value := value)], 0)
    case Remove(key) =>
      var p := Pos(ops, items, key);
      if p < 0 then Outcome(items, NULL)
      else Outcome(RemoveAt(items, p), items[p].value)
    case RemoveAndPut(key, newKey, value) =>
      var p := Pos(ops, items, key);
      if p < 0 then Outcome(items, -ENOENT)
      else if Pos(ops, items, newKey) >= 0 then Outcome(items, -EEXIST)
      else Outcome(RemoveAt(items, p) + [Pair(newKey, value)], 0)
    case RemoveAndReplace(key, newKey, value) =>
      if Pos(ops, items, key) < 0 then Outcome(items, -ENOENT)
      else Outcome(Without(ops, Without(ops, items, newKey), key) + [Pair(newKey, value)], 0)
    case Clear => Outcome([], 0)
  }

  /** The list without the pair whose key compares equal to `key`, if there is one. */
  function Without(ops: HashOps, items: seq<Pair>, key: Ptr): seq<Pair> {
    var p := Pos(ops, items, key);
    if p < 0 then items else RemoveAt(items, p)
  }

  // ---------- the plain map ----------

  /** The list as a map from representatives of keys to pairs. */
  function MapOf(ops: HashOps, items: seq<Pair>): map<Ptr, Pair> {
    if items == [] then map[] else
      var last := items[|items| - 1];
      MapOf(ops, items[..|items| - 1])[ops.canon(last.key) := last]
  }

  datatype MapOutcome = MapOutcome(m: map<Ptr, Pair>, result: int)

  function MapInsert(m: map<Ptr, Pair>, c: Ptr, pair: Pair, storage: bool): MapOutcome {
    if storage then MapOutcome(m[c := pair], 1) else MapOutcome(m, -ENOMEM)
  }

  /** The effect of an operation on a plain map. */
  function MapStep(ops: HashOps, m: map<Ptr, Pair>, op: Op, storage: bool): MapOutcome {
    match op
    case Put(key, value) =>
      var c := ops.canon(key);
      if c in m then MapOutcome(m, if m[c].value == value then 0 else -EEXIST)
      else MapInsert(m, c, Pair(key, value), storage)
    case Replace(key, value) =>
      var c := ops.canon(key);
      if c in m then MapOutcome(m[c := Pair(key, value)], 0)
      else MapInsert(m, c, Pair(key, value), storage)
    case Update(key, value) =>
      var c := ops.canon(key);
      if c in m then MapOutcome(m[c := m[c].(value := value)], 0) else MapOutcome(m, -ENOENT)
    case Remove(key) =>
      var c := ops.canon(key);
      if c in m then MapOutcome(m - {c}, m[c].value) else MapOutcome(m, NULL)
    case RemoveAndPut(key, newKey, value) =>
      var c, d := ops.canon(key), ops.canon(newKey);
      if c !in m then MapOutcome(m, -ENOENT)
      else if d in m then MapOutcome(m, -EEXIST)
      else MapOutcome((m - {c})[d := Pair(newKey, value)], 0)
    case RemoveAndReplace(key, newKey, value) =>
      var c, d := ops.canon(key), ops.canon(newKey);
      if c !in m then MapOutcome(m, -ENOENT)
      else MapOutcome((m - {c, d})[d := Pair(newKey, value)], 0)
    case Clear => MapOutcome(map[], 0)
  }

  lemma {:induction false} PosInMap(ops: HashOps, items: seq<Pair>, key: Ptr)
    ensures var p, c, m := Pos(ops, items, key), ops.canon(key), MapOf(ops, items);
            if p < 0 then c !in m else c in m && m[c] == items[p]
  {
    if items != [] { PosInMap(ops, items[..|items| - 1], key); }
  }

  lemma AppendInMap(ops: HashOps, items: seq<Pair>, pair: Pair)
    requires KeysDiffer(ops, items) && Pos(ops, items, pair.key) < 0
    ensures KeysDiffer(ops, items + [pair])
    ensures MapOf(ops, items + [pair]) == MapOf(ops, items)[ops.canon(pair.key) := pair]
  {
    assert (items + [pair])[..|items|] == items;
  }

  lemma {:induction false} ReplaceInMap(ops: HashOps, items: seq<Pair>, p: nat, pair: Pair)
    requires KeysDiffer(ops, items) && p < |items| && ops.canon(pair.key) == ops.canon(items[p].key)
    ensures KeysDiffer(ops, items[p := pair])
    ensures MapOf(ops, items[p := pair]) == MapOf(ops, items)[ops.canon(pair.key) := pair]
  {
    var n := |items| - 1;
    if p < n {
      assert items[p := pair][..n] == items[..n][p := pair];
      ReplaceInMap(ops, items[..n], p, pair);
      assert ops.canon(items[p].key) != ops.canon(items[n].key);
    } else {
      assert items[p := pair][..n] == items[..n];
    }
  }

  lemma {:induction false} RemoveInMap(ops: HashOps, items: seq<Pair>, p: nat)
    requires KeysDiffer(ops, items) && p < |items|
    ensures KeysDiffer(ops, RemoveAt(items, p))
    ensures MapOf(ops, RemoveAt(items, p)) == MapOf(ops, items) - {ops.canon(items[p].key)}
  {
    hide MapOf, KeysDiffer;
    var n := |items| - 1;
    var init, last := items[..n], items[n];
    assert items == init + [last];
    DifferParts(ops, items, p);
    if p < n {
      assert RemoveAt(items, p) == RemoveAt(init, p) + [last];
      RemoveInMap(ops, init, p);
      MapSnoc(ops, init, last);
      MapSnoc(ops, RemoveAt(init, p), last);
    } else {
      assert RemoveAt(items, p) == init;
      PosInMap(ops, init, last.key);
      MapSnoc(ops, init, last);
    }
  }

  lemma MapSnoc(ops: HashOps, items: seq<Pair>, x: Pair)
    ensures MapOf(ops, items + [x]) == MapOf(ops, items)[ops.canon(x.key) := x]
  {
    assert (items + [x])[..|items|] == items;
  }

  lemma DifferParts(ops: HashOps, items: seq<Pair>, p: nat)
    requires KeysDiffer(ops, items) && p < |items|
    ensures KeysDiffer(ops, items[..|items| - 1]) && KeysDiffer(ops, RemoveAt(items, p))
    ensures forall k :: 0 <= k < |items| - 1 ==> ops.canon(items[k].key) != ops.canon(items[|items| - 1].key)
  {
  }

  lemma WithoutInMap(ops: HashOps, items: seq<Pair>, key: Ptr)
    requires KeysDiffer(ops, items)
    ensures KeysDiffer(ops, Without(ops, items, key))
    ensures MapOf(ops, Without(ops, items, key)) == MapOf(ops, items) - {ops.canon(key)}
    ensures Pos(ops, Without(ops, items, key), key) < 0
  {
    PosInMap(ops, items, key);
    var p := Pos(ops, items, key);
    if p >= 0 { RemoveInMap(ops, items, p); }
    PosInMap(ops, Without(ops, items, key), key);
  }

  /** Without the order, the list behaves like a plain map, with the same results. */
  lemma StepIsMapStep(ops: HashOps, items: seq<Pair>, op: Op, storage: bool)
    requires KeysDiffer(ops, items)
    ensures var after := Step(ops, items, op, storage);
            && KeysDiffer(ops, after.items)
            && MapStep(ops, MapOf(ops, items), op, storage) == MapOutcome(MapOf(ops, after.items), after.result)
  {
    hide Pos, MapOf, KeysDiffer, Without;
    match op
    case Clear => NothingInMap(ops);
    case Remove(key) =>
      PosInMap(ops, items, key);
      if Pos(ops, items, key) >= 0 { RemoveInMap(ops, items, Pos(ops, items, key)); }
    case RemoveAndPut(key, newKey, value) =>
      PosInMap(ops, items, key);
      PosInMap(ops, items, newKey);
      var p := Pos(ops, items, key);
      if p >= 0 && Pos(ops, items, newKey) < 0 {
        RemoveInMap(ops, items, p);
        PosInMap(ops, RemoveAt(items, p), newKey);
        AppendInMap(ops, RemoveAt(items, p), Pair(newKey, value));
      }
    case RemoveAndReplace(key, newKey, value) =>
      PosInMap(ops, items, key);
      RemoveAndReplaceInMap(ops, items, key, newKey);
      AppendInMap(ops, Without(ops, Without(ops, items, newKey), key), Pair(newKey, value));
    case _ =>
      PosInMap(ops, items, op.key);
      var p := Pos(ops, items, op.key);
      if p < 0 {
        AppendInMap(ops, items, Pair(op.key, op.value));
      } else {
        ReplaceInMap(ops, items, p, Pair(op.key, op.value));
        ReplaceInMap(ops, items, p, items[p].(value := op.value));
      }
  }

  lemma NothingInMap(ops: HashOps)
    ensures KeysDiffer(ops, []) && MapOf(ops, []) == map[]
  {
  }

  lemma RemoveAndReplaceInMap(ops: HashOps, items: seq<Pair>, key: Ptr, newKey: Ptr)
    requires KeysDiffer(ops, items)
    ensures var rest := Without(ops, Without(ops, items, newKey), key);
            && KeysDiffer(ops, rest) && Pos(ops, rest, newKey) < 0
            && MapOf(ops, rest) == MapOf(ops, items) - {ops.canon(key), ops.canon(newKey)}
  {
    var rest1 := Without(ops, items, newKey);
    WithoutInMap(ops, items, newKey);
    WithoutInMap(ops, rest1, key);
    var rest := Without(ops, rest1, key);
    MinusTwo(MapOf(ops, items), ops.canon(key), ops.canon(newKey));
    PosInMap(ops, rest, newKey);
  }

  lemma MinusTwo<K, V>(m: map<K, V>, c: K, d: K)
    ensures (m - {d}) - {c} == m - {c, d}
  {
  }
}
