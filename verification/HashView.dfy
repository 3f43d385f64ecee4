/** The hash table as a value: what its memory holds between two steps. */
module HashView {
  // `View` gathers the bucket array, the byte-sized distance array ("DIB": distance
  // from initial bucket), the two swap slots and the ends of the insertion-order
  // list.  The elementary steps of the table (moving an entry, setting a DIB,
  // freeing a bucket, unlinking) are functions on views here; the class in
  // Hashmap.dfy performs them on arrays.

  import opened RobinHood

  type Ptr = nat

  const NULL: Ptr := 0
  const UINT_MAX: nat := 0xFFFF_FFFF

  // Indices of the two swap slots, of a fresh iterator, and "none".
  const IDX_PUT: nat := UINT_MAX - 3
  const IDX_TMP: nat := UINT_MAX - 2
  const IDX_FIRST: nat := UINT_MAX - 1
  const IDX_NIL: nat := UINT_MAX

  // DIB bytes with a special meaning.
  const DIB_RAW_OVERFLOW: nat := 0xfd
  const DIB_RAW_REHASH: nat := 0xfe
  const DIB_RAW_FREE: nat := 0xff

  datatype Kind = Plain | OrderedMap | KeySet

  datatype Pair = Pair(key: Ptr, value: Ptr)

  datatype Entry = Entry(kv: Pair, next: nat, prev: nat)

  const ZERO := Entry(Pair(NULL, NULL), 0, 0)

  /**
    Hash and compare operations of a table.  Two keys compare equal exactly when
    `canon` gives them the same representative; the hash of a key depends only on
    that representative and on the hash key of the table.
    */
  datatype HashOps = HashOps(canon: Ptr -> Ptr, hash: (Ptr, nat) -> nat)

  datatype View = View(
    ops: HashOps,
    hashKey: nat,
    kind: Kind,
    ents: seq<Entry>,
    dibs: seq<nat>,
    put: Entry,
    tmp: Entry,
    head: nat,
    tail: nat)

  // ---------- reading and writing virtual buckets ----------

  /** Real buckets and the two swap slots. */
  predicate VirtualIdx(v: View, i: nat) {
    i < |v.ents| || i == IDX_PUT || i == IDX_TMP
  }

  function At(v: View, i: nat): Entry {
    if i < |v.ents| then v.ents[i] else if i == IDX_PUT then v.put else v.tmp
  }

  function Store(v: View, i: nat, e: Entry): View {
    if i < |v.ents| then v.(ents := v.ents[i := e])
    else if i == IDX_PUT then v.(put := e)
    else if i == IDX_TMP then v.(tmp := e)
    else v
  }

  function SetNext(v: View, i: nat, x: nat): View { Store(v, i, At(v, i).(next := x)) }

  function SetPrev(v: View, i: nat, x: nat): View { Store(v, i, At(v, i).(prev := x)) }

  // ---------- the elementary steps ----------

  /** Redirects the links of the neighbours of entry `e`, and the list ends, from `from` to `to`. */
  function Relink(v: View, e: Entry, from: nat, to: nat): View {
    var v2 := if e.next != IDX_NIL then SetPrev(v, e.next, to) else v;
    var v3 := if e.prev != IDX_NIL then SetNext(v2, e.prev, to) else v2;
    v3.(head := if v3.head == from then to else v3.head,
        tail := if v3.tail == from then to else v3.tail)
  }

  /** Copies the entry of bucket `from` to bucket `to` and redirects the links to it. */
  function MoveEntry(v: View, from: nat, to: nat): View {
    var e := At(v, from);
    var v1 := Store(v, to, e);
    if v.kind.OrderedMap? then Relink(v1, e, from, to) else v1
  }

  /** Encodes a distance in a byte. */
  function RawDib(d: nat): nat { if d < DIB_RAW_OVERFLOW then d else DIB_RAW_OVERFLOW }

  function SetDib(v: View, i: nat, raw: nat): View {
    if i < |v.dibs| then v.(dibs := v.dibs[i := raw]) else v
  }

  function MarkFree(v: View, i: nat): View
    requires i < |v.ents| && i < |v.dibs|
  {
    v.(ents := v.ents[i := ZERO], dibs := v.dibs[i := DIB_RAW_FREE])
  }

  /** Takes bucket `i` out of the insertion-order list. */
  function Unlink(v: View, i: nat): View {
    if !v.kind.OrderedMap? then v else
      var e := At(v, i);
      var v1 := if e.next != IDX_NIL then SetPrev(v, e.next, e.prev) else v.(tail := e.prev);
      if e.prev != IDX_NIL then SetNext(v1, e.prev, e.next) else v1.(head := e.next)
  }

  /** Appends the entry of swap slot `IDX_PUT` to the insertion-order list. */
  function LinkPut(v: View): View {
    if !v.kind.OrderedMap? then v else
      var v1 := v.(put := v.put.(next := IDX_NIL, prev := v.tail));
      var v2 := if v.tail != IDX_NIL then SetNext(v1, v.tail, IDX_PUT) else v1;
      v2.(tail := IDX_PUT, head := if v.head == IDX_NIL then IDX_PUT else v.head)
  }

  /** The initial bucket of a key. */
  function Home(v: View, key: Ptr): (h: nat)
    requires |v.ents| > 0
    ensures h < |v.ents|
  {
    v.ops.hash(v.ops.canon(key), v.hashKey) % |v.ents|
  }

  // ---------- what a view means ----------

  ghost predicate Sized(v: View) {
    && 0 < |v.ents| == |v.dibs| <= IDX_PUT
    && forall i :: 0 <= i < |v.dibs| ==> v.dibs[i] <= DIB_RAW_FREE
  }

  predicate Placed(raw: nat) { raw <= DIB_RAW_OVERFLOW }

  /** Home of the entry in each bucket whose DIB is valid. */
  ghost function Homes(v: View): (hs: seq<int>)
    requires Sized(v)
    ensures |hs| == |v.ents| && Layout(hs)
    ensures forall i :: 0 <= i < |hs| ==>
              hs[i] == if Placed(v.dibs[i]) then Home(v, v.ents[i].kv.key) else NONE
  {
    seq(|v.ents|, i requires 0 <= i < |v.ents| => if Placed(v.dibs[i]) then Home(v, v.ents[i].kv.key) else NONE)
  }

  /** Every valid DIB byte encodes the true distance of its entry. */
  ghost predicate DibsTrue(v: View)
    requires Sized(v)
  {
    forall i :: 0 <= i < |v.ents| && Placed(v.dibs[i]) ==>
      v.dibs[i] == RawDib(Dist(|v.ents|, i, Home(v, v.ents[i].kv.key)))
  }

  ghost predicate Distinct(s: seq<nat>) {
    forall i, j :: 0 <= i < j < |s| ==> s[i] != s[j]
  }

  /** `order` lists the live virtual buckets; a real bucket is live exactly when it is not free. */
  ghost predicate Live(v: View, order: seq<nat>)
    requires Sized(v)
  {
    && Distinct(order)
    && (forall k :: 0 <= k < |order| ==> order[k] < |v.ents| || order[k] == IDX_PUT)
    && (forall i :: 0 <= i < |v.ents| ==> (i in order <==> v.dibs[i] != DIB_RAW_FREE))
  }

  /** The doubly linked list through the buckets spells `order`. */
  ghost predicate Linked(v: View, order: seq<nat>) {
    && v.head == (if order == [] then IDX_NIL else order[0])
    && v.tail == (if order == [] then IDX_NIL else order[|order| - 1])
    && (forall k :: 0 <= k < |order| ==> Chained(v, order, k))
  }

  ghost predicate Chained(v: View, order: seq<nat>, k: nat)
    requires k < |order|
  {
    && At(v, order[k]).next == (if k + 1 < |order| then order[k + 1] else IDX_NIL)
    && At(v, order[k]).prev == (if k > 0 then order[k - 1] else IDX_NIL)
  }

  /** The stored pairs, in insertion order. */
  ghost function Items(v: View, order: seq<nat>): (items: seq<Pair>)
    ensures |items| == |order|
    ensures forall k :: 0 <= k < |order| ==> items[k] == At(v, order[k]).kv
  {
    seq(|order|, k requires 0 <= k < |order| => At(v, order[k]).kv)
  }

  ghost predicate KeysDiffer(ops: HashOps, items: seq<Pair>) {
    forall i, j :: 0 <= i < j < |items| ==> ops.canon(items[i].key) != ops.canon(items[j].key)
  }

  ghost predicate FreeIsZero(v: View)
    requires Sized(v)
  {
    forall i :: 0 <= i < |v.ents| && v.dibs[i] == DIB_RAW_FREE ==> v.ents[i].kv.key == NULL
  }

  /**
    The invariant of a table, also while it is being rehashed (buckets marked
    REHASH are live but not placed) and while an entry is held in a swap slot
    (`IDX_PUT in order`).
    */
  ghost predicate Inv(v: View, order: seq<nat>) {
    var holds :=
      && Sized(v)
      && DibsTrue(v)
      && Ordered(Homes(v)) && HasStop(Homes(v))
      && Live(v, order)
      && FreeIsZero(v)
      && KeysDiffer(v.ops, Items(v, order))
      && (v.kind.OrderedMap? ==> Linked(v, order));
    holds
  }

  lemma InvIs(v: View, order: seq<nat>)
    requires Sized(v) && DibsTrue(v) && Ordered(Homes(v)) && HasStop(Homes(v)) && Live(v, order) && FreeIsZero(v)
    requires KeysDiffer(v.ops, Items(v, order))
    requires v.kind.OrderedMap? ==> Linked(v, order)
    ensures Inv(v, order)
  {
  }

  // ---------- moving entries ----------

  lemma AtStore(v: View, i: nat, e: Entry, j: nat)
    requires |v.ents| <= IDX_PUT && VirtualIdx(v, i) && VirtualIdx(v, j)
    ensures At(Store(v, i, e), j) == if i == j then e else At(v, j)
  {
  }

  lemma RelinkKeepsPairs(v: View, e: Entry, from: nat, to: nat)
    requires |v.ents| <= IDX_PUT
    ensures var w := Relink(v, e, from, to);
            && |w.ents| == |v.ents|
            && w == v.(ents := w.ents, put := w.put, tmp := w.tmp, head := w.head, tail := w.tail)
            && (forall j {:trigger At(w, j)} :: VirtualIdx(v, j) ==> At(w, j).kv == At(v, j).kv)
  {
    var w := Relink(v, e, from, to);
    var v2 := if e.next != IDX_NIL then SetPrev(v, e.next, to) else v;
    forall j | VirtualIdx(v, j) ensures At(w, j).kv == At(v, j).kv {
      AtSetPrev(v, e.next, to, j);
      AtSetNext(v2, e.prev, to, j);
    }
  }

  /** A move changes the stored pair of its target only, and nothing but entries and list ends. */
  lemma MoveKeepsPairs(v: View, from: nat, to: nat)
    requires |v.ents| <= IDX_PUT && VirtualIdx(v, from) && VirtualIdx(v, to)
    ensures var w := MoveEntry(v, from, to);
            && |w.ents| == |v.ents|
            && w == v.(ents := w.ents, put := w.put, tmp := w.tmp, head := w.head, tail := w.tail)
            && (forall j {:trigger At(w, j)} :: VirtualIdx(v, j) ==>
                  At(w, j).kv == if j == to then At(v, from).kv else At(v, j).kv)
  {
    var e := At(v, from);
    var v1 := Store(v, to, e);
    forall j | VirtualIdx(v, j) ensures At(v1, j).kv == if j == to then e.kv else At(v, j).kv {
      AtStore(v, to, e, j);
    }
    RelinkKeepsPairs(v1, e, from, to);
  }

  /** The links after a move whose target is not a neighbour of the moved entry. */
  lemma MoveLinks(v: View, from: nat, to: nat, j: nat)
    requires |v.ents| <= IDX_PUT && v.kind.OrderedMap?
    requires VirtualIdx(v, from) && VirtualIdx(v, to) && VirtualIdx(v, j)
    requires var e := At(v, from); e.next != to && e.prev != to
    ensures var e, w := At(v, from), MoveEntry(v, from, to);
            && At(w, j).next == (if j == e.prev then to else if j == to then e.next else At(v, j).next)
            && At(w, j).prev == (if j == e.next then to else if j == to then e.prev else At(v, j).prev)
  {
    var e := At(v, from);
    var v1 := Store(v, to, e);
    AtStore(v, to, e, j);
    var v2 := if e.next != IDX_NIL then SetPrev(v1, e.next, to) else v1;
    AtSetPrev(v1, e.next, to, j);
    AtSetNext(v2, e.prev, to, j);
  }

  lemma AtSetPrev(v: View, i: nat, x: nat, j: nat)
    requires |v.ents| <= IDX_PUT && VirtualIdx(v, j)
    ensures |SetPrev(v, i, x).ents| == |v.ents|
    ensures At(SetPrev(v, i, x), j) == if i == j then At(v, j).(prev := x) else At(v, j)
  {
  }

  lemma AtSetNext(v: View, i: nat, x: nat, j: nat)
    requires |v.ents| <= IDX_PUT && VirtualIdx(v, j)
    ensures |SetNext(v, i, x).ents| == |v.ents|
    ensures At(SetNext(v, i, x), j) == if i == j then At(v, j).(next := x) else At(v, j)
  {
  }

  /** A move of the `k`-th listed entry to an unlisted bucket keeps the list, with the new index in place. */
  lemma MoveKeepsList(v: View, order: seq<nat>, k: nat, to: nat)
    requires |v.ents| <= IDX_PUT && v.kind.OrderedMap?
    requires Linked(v, order) && Distinct(order)
    requires forall j :: 0 <= j < |order| ==> VirtualIdx(v, order[j])
    requires k < |order| && VirtualIdx(v, to) && to !in order
    ensures Linked(MoveEntry(v, order[k], to), order[k := to])
  {
    assert Chained(v, order, k);
    var w, after := MoveEntry(v, order[k], to), order[k := to];
    forall j | 0 <= j < |after| ensures Chained(w, after, j) {
      assert Chained(v, order, j);
      MoveLinks(v, order[k], to, after[j]);
      NeighboursOnly(order, k, j);
    }
    NeighboursOnly(order, k, 0);
    NeighboursOnly(order, k, |order| - 1);
    MoveEnds(v, order[k], to);
    hide MoveEntry, Chained;
  }

  lemma MoveEnds(v: View, from: nat, to: nat)
    requires v.kind.OrderedMap?
    ensures MoveEntry(v, from, to).head == if v.head == from then to else v.head
    ensures MoveEntry(v, from, to).tail == if v.tail == from then to else v.tail
  {
    hide SetPrev, SetNext, Store, At;
    var e := At(v, from);
    var v1 := Store(v, to, e);
    StoreKeepsEnds(v, to, e);
    SetKeepsEnds(v1, e.next, to);
    SetKeepsEnds(if e.next != IDX_NIL then SetPrev(v1, e.next, to) else v1, e.prev, to);
  }

  lemma SetKeepsEnds(v: View, i: nat, x: nat)
    ensures SetPrev(v, i, x).head == v.head && SetPrev(v, i, x).tail == v.tail
    ensures SetNext(v, i, x).head == v.head && SetNext(v, i, x).tail == v.tail
  {
    hide Store, At;
    StoreKeepsEnds(v, i, At(v, i).(prev := x));
    StoreKeepsEnds(v, i, At(v, i).(next := x));
  }

  lemma StoreKeepsEnds(v: View, i: nat, e: Entry)
    ensures Store(v, i, e).head == v.head && Store(v, i, e).tail == v.tail && Store(v, i, e).kind == v.kind
  {
  }

  /** Only the next position holds the next index, and only the previous one the previous index. */
  lemma NeighboursOnly(order: seq<nat>, k: nat, j: nat)
    requires Distinct(order) && k < |order| && j < |order|
    ensures order[j] == order[k] <==> j == k
    ensures k + 1 < |order| ==> (order[j] == order[k + 1] <==> j == k + 1)
    ensures k > 0 ==> (order[j] == order[k - 1] <==> j == k - 1)
  {
  }

  /** Links of listed entries lead to virtual buckets. */
  lemma LinksInRange(v: View, order: seq<nat>, k: nat)
    requires Linked(v, order) && k < |order|
    requires forall j :: 0 <= j < |order| ==> VirtualIdx(v, order[j])
    ensures At(v, order[k]).next == IDX_NIL || VirtualIdx(v, At(v, order[k]).next)
    ensures At(v, order[k]).prev == IDX_NIL || VirtualIdx(v, At(v, order[k]).prev)
  {
    assert Chained(v, order, k);
  }

  function RemoveAt<T>(s: seq<T>, k: nat): (r: seq<T>)
    requires k < |s|
    ensures |r| == |s| - 1
    ensures forall i :: 0 <= i < |r| ==> r[i] == if i < k then s[i] else s[i + 1]
  {
    s[..k] + s[k + 1..]
  }

  lemma UnlinkLinks(v: View, i: nat, j: nat)
    requires |v.ents| <= IDX_PUT && v.kind.OrderedMap? && VirtualIdx(v, i) && VirtualIdx(v, j)
    ensures var e, w := At(v, i), Unlink(v, i);
            && At(w, j).next == (if j == e.prev then e.next else At(v, j).next)
            && At(w, j).prev == (if j == e.next then e.prev else At(v, j).prev)
  {
  }

  /** Unlinking the `k`-th listed entry removes it from the list and nothing else. */
  lemma UnlinkKeepsList(v: View, order: seq<nat>, k: nat)
    requires |v.ents| <= IDX_PUT && v.kind.OrderedMap?
    requires Linked(v, order) && Distinct(order) && k < |order|
    requires forall j :: 0 <= j < |order| ==> VirtualIdx(v, order[j])
    ensures Linked(Unlink(v, order[k]), RemoveAt(order, k))
  {
    assert Chained(v, order, k);
    var w, after := Unlink(v, order[k]), RemoveAt(order, k);
    forall j | 0 <= j < |after| ensures Chained(w, after, j) {
      var j' := if j < k then j else j + 1;
      assert Chained(v, order, j');
      UnlinkLinks(v, order[k], after[j]);
      NeighboursOnly(order, k, j');
    }
  }

  lemma UnlinkKeepsPairs(v: View, i: nat)
    requires |v.ents| <= IDX_PUT && VirtualIdx(v, i)
    ensures var w := Unlink(v, i);
            && |w.ents| == |v.ents|
            && w == v.(ents := w.ents, put := w.put, tmp := w.tmp, head := w.head, tail := w.tail)
            && (forall j {:trigger At(w, j)} :: VirtualIdx(v, j) ==> At(w, j).kv == At(v, j).kv)
  {
  }

  /** Linking the held entry appends its slot to the list. */
  lemma LinkPutKeepsList(v: View, order: seq<nat>)
    requires |v.ents| <= IDX_PUT && v.kind.OrderedMap?
    requires Linked(v, order) && Distinct(order) && IDX_PUT !in order
    requires forall j :: 0 <= j < |order| ==> VirtualIdx(v, order[j])
    ensures Linked(LinkPut(v), order + [IDX_PUT])
  {
    var w, after := LinkPut(v), order + [IDX_PUT];
    forall j | 0 <= j < |after| ensures Chained(w, after, j) {
      if j < |order| { assert Chained(v, order, j); }
    }
  }

  lemma LinkPutKeepsPairs(v: View)
    requires |v.ents| <= IDX_PUT
    ensures var w := LinkPut(v);
            && |w.ents| == |v.ents|
            && w == v.(ents := w.ents, put := w.put, tmp := w.tmp, head := w.head, tail := w.tail)
            && (forall j {:trigger At(w, j)} :: VirtualIdx(v, j) ==> At(w, j).kv == At(v, j).kv)
  {
  }
}
