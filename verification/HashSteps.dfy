/**
  One probe, one displacement, one backward shift: each step of the insertion,
  rehash and deletion loops keeps the table invariant and the stored pairs.
  */
module HashSteps {
  import opened RobinHood
  import opened HashView
  import opened HashSize

  // ---------- distances ----------

  /** The distance of the entry in bucket `i`, recomputed when its byte has overflowed. */
  function TrueDib(v: View, i: nat): nat
    requires i < |v.ents| == |v.dibs|
  {
    if v.dibs[i] < DIB_RAW_OVERFLOW then v.dibs[i]
    else Dist(|v.ents|, i, Home(v, v.ents[i].kv.key))
  }

  lemma TrueDibIsAway(v: View, i: nat)
    requires Sized(v) && DibsTrue(v) && i < |v.ents| && Placed(v.dibs[i])
    ensures Taken(Homes(v), i) && TrueDib(v, i) == Away(Homes(v), i)
  {
  }

  // ---------- swapping a bucket with the held entry ----------

  /** Swaps bucket `i` with swap slot `IDX_PUT` through `IDX_TMP`. */
  function Exchange(v: View, i: nat): View {
    MoveEntry(MoveEntry(MoveEntry(v, i, IDX_TMP), IDX_PUT, i), IDX_TMP, IDX_PUT)
  }

  /** `w` is `v` except for entries and list ends. */
  ghost predicate SameFrame(v: View, w: View) {
    && |w.ents| == |v.ents|
    && w == v.(ents := w.ents, put := w.put, tmp := w.tmp, head := w.head, tail := w.tail)
  }

  lemma ExchangeSwapsPairs(v: View, i: nat)
    requires |v.ents| <= IDX_PUT && i < |v.ents|
    ensures var w := Exchange(v, i);
            && SameFrame(v, w)
            && w.put.kv == v.ents[i].kv && w.ents[i].kv == v.put.kv
            && (forall j :: 0 <= j < |v.ents| && j != i ==> w.ents[j].kv == v.ents[j].kv)
  {
    var v1 := MoveEntry(v, i, IDX_TMP);
    MoveKeepsPairs(v, i, IDX_TMP);
    var v2 := MoveEntry(v1, IDX_PUT, i);
    MoveKeepsPairs(v1, IDX_PUT, i);
    var v3 := MoveEntry(v2, IDX_TMP, IDX_PUT);
    MoveKeepsPairs(v2, IDX_TMP, IDX_PUT);
    assert At(v1, IDX_TMP).kv == v.ents[i].kv && At(v1, IDX_PUT).kv == v.put.kv;
    assert At(v2, i).kv == v.put.kv && At(v2, IDX_TMP).kv == v.ents[i].kv;
    assert At(v3, IDX_PUT).kv == v.ents[i].kv && At(v3, i).kv == v.put.kv;
    forall j | 0 <= j < |v.ents| && j != i ensures v3.ents[j].kv == v.ents[j].kv {
      assert At(v1, j).kv == At(v, j).kv;
      assert At(v2, j).kv == At(v1, j).kv;
      assert At(v3, j).kv == At(v2, j).kv;
    }
  }

  ghost predicate Slots(v: View, order: seq<nat>) {
    && |v.ents| <= IDX_PUT && Distinct(order)
    && forall j :: 0 <= j < |order| ==> order[j] < |v.ents| || order[j] == IDX_PUT
  }

  lemma ExchangeKeepsList(v: View, order: seq<nat>, k: nat, p: nat)
    requires v.kind.OrderedMap? && Slots(v, order) && Linked(v, order)
    requires k < |order| && p < |order| && order[k] == IDX_PUT && order[p] < |v.ents|
    ensures Linked(Exchange(v, order[p]), order[k := order[p]][p := IDX_PUT])
  {
    var i := order[p];
    var v1 := MoveEntry(v, i, IDX_TMP);
    var o1 := order[p := IDX_TMP];
    MoveKeepsPairs(v, i, IDX_TMP);
    MoveKeepsList(v, order, p, IDX_TMP);
    var v2 := MoveEntry(v1, IDX_PUT, i);
    var o2 := o1[k := i];
    MoveKeepsPairs(v1, IDX_PUT, i);
    MoveKeepsList(v1, o1, k, i);
    MoveKeepsList(v2, o2, p, IDX_PUT);
    assert o2[p := IDX_PUT] == order[k := i][p := IDX_PUT];
  }

  /** Position of `x` in `order`. */
  ghost function IndexIn(order: seq<nat>, x: nat): (k: nat)
    requires x in order
    ensures k < |order| && order[k] == x
  {
    var k :| 0 <= k < |order| && order[k] == x; k
  }

  /** Live buckets after the held entry went to bucket `i` and the entry of `i` is held. */
  ghost function Swapped(order: seq<nat>, i: nat): seq<nat>
    requires IDX_PUT in order && i in order
  {
    order[IndexIn(order, IDX_PUT) := i][IndexIn(order, i) := IDX_PUT]
  }

  /** Live buckets after the held entry went to bucket `i`. */
  ghost function Settled(order: seq<nat>, i: nat): seq<nat>
    requires IDX_PUT in order
  {
    order[IndexIn(order, IDX_PUT) := i]
  }

  // ---------- probing with a held entry ----------

  /** The held entry stands at bucket `i`, `d` buckets from its home. */
  ghost predicate Probing(v: View, order: seq<nat>, i: nat, d: nat) {
    && Inv(v, order) && IDX_PUT in order && i < |v.ents|
    && d == Dist(|v.ents|, i, Home(v, v.put.kv.key))
    && LeftOk(Homes(v), i, d)
  }

  /** Bucket `f` will stop the probe before it has come around the table. */
  ghost predicate StopsAt(v: View, f: nat, i: nat, d: nat)
    requires |v.ents| == |v.dibs| && i < |v.ents|
  {
    f < |v.ents| && !Placed(v.dibs[f]) && d + Dist(|v.ents|, f, i) < |v.ents|
  }

  lemma ProbeOn(v: View, order: seq<nat>, i: nat, d: nat, f: nat)
    requires Probing(v, order, i, d) && StopsAt(v, f, i, d)
    requires Placed(v.dibs[i]) && TrueDib(v, i) >= d
    ensures var i' := NextIdx(|v.ents|, i);
            && Probing(v, order, i', d + 1) && StopsAt(v, f, i', d + 1)
            && Dist(|v.ents|, f, i') < Dist(|v.ents|, f, i)
  {
    TrueDibIsAway(v, i);
    var i' := NextIdx(|v.ents|, i);
    assert PrevIdx(|v.ents|, i') == i;
  }

  /** What an exchange followed by a new DIB for bucket `i` does to a table with a held entry. */
  ghost predicate Exchanged(v: View, order: seq<nat>, i: nat, d: nat, w: View)
    requires Sized(v) && i < |v.ents| && IDX_PUT in order && i in order
  {
    && SameFrame(v.(dibs := v.dibs[i := RawDib(d)]), w)
    && w.put.kv == v.ents[i].kv && w.ents[i].kv == v.put.kv
    && (forall j :: 0 <= j < |v.ents| && j != i ==> w.ents[j].kv == v.ents[j].kv)
    && (v.kind.OrderedMap? ==> Linked(w, Swapped(order, i)))
  }

  lemma ExchangeDone(v: View, order: seq<nat>, i: nat, d: nat)
    requires Inv(v, order) && IDX_PUT in order && i < |v.ents| && i in order
    ensures Exchanged(v, order, i, d, Exchange(SetDib(v, i, RawDib(d)), i))
    ensures Exchanged(v, order, i, d,
      MoveEntry(MoveEntry(SetDib(MoveEntry(v, i, IDX_TMP), i, RawDib(d)), IDX_PUT, i), IDX_TMP, IDX_PUT))
  {
    var u := SetDib(v, i, RawDib(d));
    ExchangeSwapsPairs(u, i);
    if v.kind.OrderedMap? {
      assert Linked(u, order) by { LinkedFrame(v, u, order); }
      ExchangeKeepsList(u, order, IndexIn(order, IDX_PUT), IndexIn(order, i));
    }
    MoveKeepsPairs(v, i, IDX_TMP);
    DibAfterMove(v, i, IDX_TMP, i, RawDib(d));
  }

  lemma DibAfterMove(v: View, from: nat, to: nat, i: nat, raw: nat)
    requires |v.ents| <= IDX_PUT && VirtualIdx(v, from) && VirtualIdx(v, to)
    requires i < |v.dibs|
    ensures MoveEntry(v, from, to).dibs == v.dibs
    ensures SetDib(MoveEntry(v, from, to), i, raw) == MoveEntry(SetDib(v, i, raw), from, to)
  {
    hide Store, At, Relink, SetDib;
    var e := At(v, from);
    DibAfterStore(v, to, e, i, raw);
    DibAfterRelink(Store(v, to, e), e, from, to, i, raw);
  }

  lemma DibAfterRelink(v: View, e: Entry, from: nat, to: nat, i: nat, raw: nat)
    requires i < |v.dibs|
    ensures Relink(v, e, from, to).dibs == v.dibs
    ensures SetDib(Relink(v, e, from, to), i, raw) == Relink(SetDib(v, i, raw), e, from, to)
  {
    hide SetNext, SetPrev;
    DibAfterLinks(v, e.next, to, i, raw);
    DibAfterLinks(if e.next != IDX_NIL then SetPrev(v, e.next, to) else v, e.prev, to, i, raw);
  }

  lemma DibAfterLinks(v: View, x: nat, y: nat, i: nat, raw: nat)
    requires i < |v.dibs|
    ensures SetPrev(v, x, y).dibs == v.dibs && SetDib(SetPrev(v, x, y), i, raw) == SetPrev(SetDib(v, i, raw), x, y)
    ensures SetNext(v, x, y).dibs == v.dibs && SetDib(SetNext(v, x, y), i, raw) == SetNext(SetDib(v, i, raw), x, y)
  {
    hide Store, At, SetDib;
    DibAfterStore(v, x, At(v, x).(prev := y), i, raw);
    DibAfterStore(v, x, At(v, x).(next := y), i, raw);
  }

  lemma DibAfterStore(v: View, x: nat, e: Entry, i: nat, raw: nat)
    requires i < |v.dibs|
    ensures Store(v, x, e).dibs == v.dibs && |Store(v, x, e).ents| == |v.ents|
    ensures SetDib(Store(v, x, e), i, raw) == Store(SetDib(v, i, raw), x, e)
    ensures Store(v, x, e).kind == v.kind == SetDib(v, i, raw).kind
    ensures forall j :: At(SetDib(v, i, raw), j) == At(v, j)
  {
  }

  lemma LinkedFrame(v: View, w: View, order: seq<nat>)
    requires Linked(v, order) && w.head == v.head && w.tail == v.tail
    requires forall k :: 0 <= k < |order| ==> At(w, order[k]) == At(v, order[k])
    ensures Linked(w, order)
  {
    forall k | 0 <= k < |order| ensures Chained(w, order, k) {
      assert Chained(v, order, k);
    }
  }

  /** The pairs and their order survive an exchange. */
  lemma ExchangedItems(v: View, order: seq<nat>, i: nat, d: nat, w: View)
    requires Inv(v, order) && IDX_PUT in order && i < |v.ents| && i in order
    requires Exchanged(v, order, i, d, w)
    ensures Items(w, Swapped(order, i)) == Items(v, order)
    ensures Sized(w) && Live(w, Swapped(order, i))
    ensures IDX_PUT in Swapped(order, i) && |Swapped(order, i)| == |order|
    ensures Homes(w) == Homes(v)[i := Home(v, v.put.kv.key)]
  {
    var k, p := IndexIn(order, IDX_PUT), IndexIn(order, i);
    var o := Swapped(order, i);
    assert o[k] == i && o[p] == IDX_PUT;
    forall j | 0 <= j < |o| ensures At(w, o[j]).kv == At(v, order[j]).kv { }
    SwappedLive(v, order, i, w);
    ExchangedHomes(v, order, i, d, w);
  }

  lemma SwappedLive(v: View, order: seq<nat>, i: nat, w: View)
    requires Sized(v) && Sized(w) && Live(v, order) && |w.ents| == |v.ents| && i < |v.ents|
    requires IDX_PUT in order && i in order && Placed(w.dibs[i])
    requires forall x :: 0 <= x < |v.ents| && x != i ==> w.dibs[x] == v.dibs[x]
    ensures Live(w, Swapped(order, i))
  {
    var k, p := IndexIn(order, IDX_PUT), IndexIn(order, i);
    var o := Swapped(order, i);
    assert o[k] == i && o[p] == IDX_PUT;
    assert forall j :: 0 <= j < |o| && j != k && j != p ==> o[j] == order[j];
    forall x | 0 <= x < |w.ents| ensures x in o <==> x in order {
      if x in order && x != i { assert o[IndexIn(order, x)] == x; }
      if x in o && x != i { assert order[IndexIn(o, x)] == x; }
    }
  }

  lemma ExchangedHomes(v: View, order: seq<nat>, i: nat, d: nat, w: View)
    requires Sized(v) && Sized(w) && IDX_PUT in order && i < |v.ents| && i in order && Exchanged(v, order, i, d, w)
    ensures Homes(w) == Homes(v)[i := Home(v, v.put.kv.key)]
  {
  }

  /** An exchange keeps the invariant if the homes stay in order. */
  lemma ExchangedInv(v: View, order: seq<nat>, i: nat, d: nat, w: View)
    requires Inv(v, order) && IDX_PUT in order && i < |v.ents| && i in order
    requires d == Dist(|v.ents|, i, Home(v, v.put.kv.key)) && Exchanged(v, order, i, d, w)
    requires var hs := Homes(v)[i := Home(v, v.put.kv.key)]; Ordered(hs) && HasStop(hs)
    ensures Inv(w, Swapped(order, i)) && IDX_PUT in Swapped(order, i)
    ensures Homes(w) == Homes(v)[i := Home(v, v.put.kv.key)]
    ensures Items(w, Swapped(order, i)) == Items(v, order)
  {
    ExchangedItems(v, order, i, d, w);
  }

  /** A displacement keeps the invariant; the displaced entry goes on from the next bucket. */
  lemma ProbeSwap(v: View, order: seq<nat>, i: nat, d: nat, f: nat, w: View)
    requires Probing(v, order, i, d) && StopsAt(v, f, i, d)
    requires Placed(v.dibs[i]) && TrueDib(v, i) < d
    requires i in order && Exchanged(v, order, i, d, w)
    ensures var i', d' := NextIdx(|v.ents|, i), TrueDib(v, i) + 1;
            && Probing(w, Swapped(order, i), i', d') && StopsAt(w, f, i', d')
            && Dist(|v.ents|, f, i') < Dist(|v.ents|, f, i)
  {
    var n, i', hs := |v.ents|, NextIdx(|v.ents|, i), Homes(v)[i := Home(v, v.put.kv.key)];
    TrueDibIsAway(v, i);
    PlaceKeepsOrder(Homes(v), i, Home(v, v.put.kv.key));
    FreeIsStop(hs, f);
    ExchangedInv(v, order, i, d, w);
    DisplacedLeft(v, order, i, d, w);
  }

  /** The displaced entry may stand right of the one that displaced it. */
  lemma DisplacedLeft(v: View, order: seq<nat>, i: nat, d: nat, w: View)
    requires Sized(v) && DibsTrue(v) && i < |v.ents| && IDX_PUT in order && i in order
    requires Placed(v.dibs[i]) && TrueDib(v, i) < d == Dist(|v.ents|, i, Home(v, v.put.kv.key))
    requires d + 1 < |v.ents| || TrueDib(v, i) + 1 < |v.ents|
    requires Exchanged(v, order, i, d, w) && Sized(w)
    ensures var i', d' := NextIdx(|v.ents|, i), TrueDib(v, i) + 1;
            d' == Dist(|v.ents|, i', Home(w, w.put.kv.key)) && LeftOk(Homes(w), i', d')
  {
    TrueDibIsAway(v, i);
    assert PrevIdx(|v.ents|, NextIdx(|v.ents|, i)) == i;
  }

  /** Landing on an entry that waits to be rehashed makes that entry the held one. */
  lemma ProbeRehash(v: View, order: seq<nat>, i: nat, d: nat, w: View)
    requires Probing(v, order, i, d) && v.dibs[i] == DIB_RAW_REHASH
    requires i in order && Exchanged(v, order, i, d, w)
    ensures Inv(w, Swapped(order, i)) && IDX_PUT in Swapped(order, i)
    ensures Items(w, Swapped(order, i)) == Items(v, order)
  {
    PlaceKeepsOrder(Homes(v), i, Home(v, v.put.kv.key));
    PlaceKeepsStop(Homes(v), i, Home(v, v.put.kv.key));
    ExchangedInv(v, order, i, d, w);
  }

  /** The table after the held entry went to the free bucket `i`. */
  function Landed(v: View, i: nat, d: nat): View { MoveEntry(SetDib(v, i, RawDib(d)), IDX_PUT, i) }

  /** Landing on a free bucket ends the insertion. */
  lemma ProbePlace(v: View, order: seq<nat>, i: nat, d: nat)
    requires Probing(v, order, i, d) && v.dibs[i] == DIB_RAW_FREE
    ensures var w, o := Landed(v, i, d), Settled(order, i);
            && Inv(w, o) && IDX_PUT !in o && |o| == |order| && Items(w, o) == Items(v, order)
            && SameFrame(v.(dibs := v.dibs[i := RawDib(d)]), w)
  {
    var w, o := Landed(v, i, d), Settled(order, i);
    LandedPairs(v, i, d);
    LandedItems(v, order, i, d);
    LandedTable(v, order, i, d);
    hide Landed, Ordered, HasStop, Items, KeysDiffer, Live, Linked, Settled;
    InvIs(w, o);
  }

  lemma LandedPairs(v: View, i: nat, d: nat)
    requires Sized(v) && i < |v.ents|
    ensures var w := Landed(v, i, d);
            && SameFrame(v.(dibs := v.dibs[i := RawDib(d)]), w) && Sized(w)
            && (forall j {:trigger At(w, j)} :: VirtualIdx(v, j) ==>
                  At(w, j).kv == if j == i then v.put.kv else At(v, j).kv)
            && (forall x :: 0 <= x < |w.ents| ==> w.ents[x].kv == if x == i then v.put.kv else v.ents[x].kv)
  {
    var u := SetDib(v, i, RawDib(d));
    var w := Landed(v, i, d);
    MoveKeepsPairs(u, IDX_PUT, i);
    forall x | 0 <= x < |w.ents| ensures w.ents[x].kv == if x == i then v.put.kv else v.ents[x].kv {
      assert At(w, x).kv == if x == i then At(u, IDX_PUT).kv else At(u, x).kv;
    }
  }

  lemma LandedItems(v: View, order: seq<nat>, i: nat, d: nat)
    requires Probing(v, order, i, d) && v.dibs[i] == DIB_RAW_FREE
    ensures Items(Landed(v, i, d), Settled(order, i)) == Items(v, order)
    ensures v.kind.OrderedMap? ==> Linked(Landed(v, i, d), Settled(order, i))
  {
    var u := SetDib(v, i, RawDib(d));
    var w, o, k := Landed(v, i, d), Settled(order, i), IndexIn(order, IDX_PUT);
    LandedPairs(v, i, d);
    if v.kind.OrderedMap? {
      LinkedFrame(v, u, order);
      MoveKeepsList(u, order, k, i);
    }
    assert forall j :: 0 <= j < |o| && j != k ==> o[j] == order[j];
    forall j | 0 <= j < |o| ensures At(w, o[j]).kv == At(v, order[j]).kv { }
  }

  lemma LandedTable(v: View, order: seq<nat>, i: nat, d: nat)
    requires Probing(v, order, i, d) && v.dibs[i] == DIB_RAW_FREE
    ensures var w := Landed(v, i, d);
            && Sized(w) && DibsTrue(w) && FreeIsZero(w) && Ordered(Homes(w)) && HasStop(Homes(w))
            && Live(w, Settled(order, i)) && IDX_PUT !in Settled(order, i)
  {
    var w := Landed(v, i, d);
    LandedPairs(v, i, d);
    assert Homes(w) == Homes(v)[i := Home(v, v.put.kv.key)];
    PlaceKeepsOrder(Homes(v), i, Home(v, v.put.kv.key));
    PlaceKeepsStop(Homes(v), i, Home(v, v.put.kv.key));
    SettledLive(v, order, i, w);
  }

  lemma SettledLive(v: View, order: seq<nat>, i: nat, w: View)
    requires Sized(v) && Live(v, order) && IDX_PUT in order
    requires i < |v.ents| && v.dibs[i] == DIB_RAW_FREE
    requires Sized(w) && |w.ents| == |v.ents|
    requires exists raw :: Placed(raw) && w.dibs == v.dibs[i := raw]
    ensures Live(w, Settled(order, i)) && IDX_PUT !in Settled(order, i)
  {
    var o, k := Settled(order, i), IndexIn(order, IDX_PUT);
    assert o[k] == i;
    forall x | 0 <= x < |w.ents| ensures x in o <==> w.dibs[x] != DIB_RAW_FREE {
      if x in order { assert o[IndexIn(order, x)] == x; }
      if x in o && x != i { assert order[IndexIn(o, x)] == x; }
    }
  }

  // ---------- shifting back after a removal ----------

  /** Homes of the table with bucket `hole` vacated. */
  ghost function HomesBut(v: View, hole: nat): seq<int>
    requires Sized(v) && hole < |v.ents|
  {
    Homes(v)[hole := NONE]
  }

  ghost predicate LiveBut(v: View, order: seq<nat>, hole: nat)
    requires Sized(v)
  {
    && Distinct(order) && hole !in order
    && (forall k :: 0 <= k < |order| ==> order[k] < |v.ents|)
    && (forall i :: 0 <= i < |v.ents| && i != hole ==> (i in order <==> v.dibs[i] != DIB_RAW_FREE))
  }

  /** The table while a removal is under way: bucket `hole` holds a dead entry. */
  ghost predicate Holed(v: View, order: seq<nat>, hole: nat) {
    var holds :=
      && Sized(v) && hole < |v.ents| && v.dibs[hole] != DIB_RAW_FREE
      && (forall i :: 0 <= i < |v.dibs| ==> v.dibs[i] != DIB_RAW_REHASH)
      && (forall i :: 0 <= i < |v.ents| && i != hole && Placed(v.dibs[i]) ==>
            v.dibs[i] == RawDib(Dist(|v.ents|, i, Home(v, v.ents[i].kv.key))))
      && OrderedExcept(HomesBut(v, hole), hole)
      && LiveBut(v, order, hole)
      && FreeIsZero(v)
      && KeysDiffer(v.ops, Items(v, order))
      && (v.kind.OrderedMap? ==> Linked(v, order));
    holds
  }

  ghost predicate NoRehash(v: View) {
    forall i :: 0 <= i < |v.dibs| ==> v.dibs[i] != DIB_RAW_REHASH
  }

  /** A table at rest: nothing held in a swap slot, nothing waiting to be rehashed. */
  ghost predicate AtRest(v: View, order: seq<nat>) {
    Inv(v, order) && NoRehash(v) && IDX_PUT !in order
  }

  /** The walk to the right of a removed entry comes to an end. */
  lemma StopExists(v: View, order: seq<nat>) returns (z: nat)
    requires AtRest(v, order)
    ensures z < |v.dibs| && (v.dibs[z] == 0 || v.dibs[z] == DIB_RAW_FREE)
  {
    var hs := Homes(v);
    z :| 0 <= z < |hs| && (Taken(hs, z) ==> Away(hs, z) == 0);
  }

  /** An entry right of an entry at home is at most one bucket from its own home. */
  lemma AfterHome(v: View, order: seq<nat>, i: nat)
    requires AtRest(v, order) && i < |v.dibs| && v.dibs[i] == 0
    ensures var x := v.dibs[NextIdx(|v.ents|, i)]; x <= 1 || x == DIB_RAW_FREE
  {
    var hs, x := Homes(v), NextIdx(|v.ents|, i);
    assert Taken(hs, i) && Away(hs, i) == 0;
    if Placed(v.dibs[x]) { assert LeftOk(hs, x, Away(hs, x)); }
    assert PrevIdx(|hs|, x) == i;
  }

  lemma RemovalOpens(v: View, order: seq<nat>, p: nat)
    requires AtRest(v, order) && p < |order|
    ensures var w, o := Unlink(v, order[p]), RemoveAt(order, p);
            && Holed(w, o, order[p]) && SameFrame(v, w)
            && Items(w, o) == RemoveAt(Items(v, order), p)
  {
    hide *;
    var w, o, hole := Unlink(v, order[p]), RemoveAt(order, p), order[p];
    OpenItems(v, order, p);
    OpenTable(v, order, p);
    HoledIs(w, o, hole);
  }

  lemma HoledIs(v: View, order: seq<nat>, hole: nat)
    requires Sized(v) && hole < |v.ents| && v.dibs[hole] != DIB_RAW_FREE && NoRehash(v)
    requires forall i :: 0 <= i < |v.ents| && i != hole && Placed(v.dibs[i]) ==>
               v.dibs[i] == RawDib(Dist(|v.ents|, i, Home(v, v.ents[i].kv.key)))
    requires OrderedExcept(HomesBut(v, hole), hole) && LiveBut(v, order, hole) && FreeIsZero(v)
    requires KeysDiffer(v.ops, Items(v, order))
    requires v.kind.OrderedMap? ==> Linked(v, order)
    ensures Holed(v, order, hole)
  {
  }

  lemma OpenTable(v: View, order: seq<nat>, p: nat)
    requires AtRest(v, order) && p < |order|
    ensures var w, hole := Unlink(v, order[p]), order[p];
            && Sized(w) && hole < |w.ents| && w.dibs == v.dibs && FreeIsZero(w)
            && OrderedExcept(HomesBut(w, hole), hole) && v.dibs[hole] != DIB_RAW_FREE
            && NoRehash(w) && LiveBut(w, RemoveAt(order, p), hole)
            && (w.kind.OrderedMap? ==> Linked(w, RemoveAt(order, p)))
            && (forall i :: 0 <= i < |w.ents| && Placed(w.dibs[i]) ==>
                  w.dibs[i] == RawDib(Dist(|w.ents|, i, Home(w, w.ents[i].kv.key))))
  {
    OpenItems(v, order, p);
    OpenLive(v, order, p);
    if v.kind.OrderedMap? { UnlinkKeepsList(v, order, p); }
    assert Homes(Unlink(v, order[p])) == Homes(v);
    OpenHole(Homes(v), order[p]);
  }

  lemma OpenItems(v: View, order: seq<nat>, p: nat)
    requires AtRest(v, order) && p < |order|
    ensures var w, o := Unlink(v, order[p]), RemoveAt(order, p);
            && SameFrame(v, w)
            && (forall i :: 0 <= i < |w.ents| ==> w.ents[i].kv == v.ents[i].kv)
            && Items(w, o) == RemoveAt(Items(v, order), p)
            && KeysDiffer(w.ops, Items(w, o))
  {
    var w, o := Unlink(v, order[p]), RemoveAt(order, p);
    UnlinkKeepsPairs(v, order[p]);
    hide Unlink;
    assert Items(w, o) == RemoveAt(Items(v, order), p);
    forall i | 0 <= i < |w.ents| ensures w.ents[i].kv == v.ents[i].kv {
      assert At(w, i).kv == At(v, i).kv;
    }
    RemovedDiffer(v.ops, Items(v, order), p);
  }

  lemma RemovedDiffer(ops: HashOps, items: seq<Pair>, p: nat)
    requires KeysDiffer(ops, items) && p < |items|
    ensures KeysDiffer(ops, RemoveAt(items, p))
  {
  }

  lemma OpenLive(v: View, order: seq<nat>, p: nat)
    requires Sized(v) && Live(v, order) && IDX_PUT !in order && p < |order|
    ensures LiveBut(v, RemoveAt(order, p), order[p])
  {
    var o := RemoveAt(order, p);
    forall i | 0 <= i < |v.ents| && i != order[p] ensures i in o <==> i in order {
      if i in order {
        var k := IndexIn(order, i);
        assert o[if k < p then k else k - 1] == i;
      }
    }
  }

  /** The table after the entry right of the hole moved into it. */
  function Shifted(v: View, hole: nat): View
    requires hole < |v.ents| == |v.dibs| && TrueDib(v, NextIdx(|v.ents|, hole)) > 0
  {
    var x := NextIdx(|v.ents|, hole);
    SetDib(MoveEntry(v, x, hole), hole, RawDib(TrueDib(v, x) - 1))
  }

  lemma ShiftedPairs(v: View, hole: nat)
    requires 0 < |v.ents| == |v.dibs| <= IDX_PUT && hole < |v.ents|
    requires TrueDib(v, NextIdx(|v.ents|, hole)) > 0
    ensures var x, w := NextIdx(|v.ents|, hole), Shifted(v, hole);
            && SameFrame(v.(dibs := v.dibs[hole := RawDib(TrueDib(v, x) - 1)]), w)
            && (forall i :: 0 <= i < |w.ents| ==> w.ents[i].kv == if i == hole then v.ents[x].kv else v.ents[i].kv)
  {
    var x, w := NextIdx(|v.ents|, hole), Shifted(v, hole);
    var u := MoveEntry(v, x, hole);
    MoveKeepsPairs(v, x, hole);
    forall i | 0 <= i < |w.ents| ensures w.ents[i].kv == if i == hole then v.ents[x].kv else v.ents[i].kv {
      assert At(u, i).kv == if i == hole then At(v, x).kv else At(v, i).kv;
    }
  }

  lemma ShiftedLinks(v: View, order: seq<nat>, hole: nat)
    requires Holed(v, order, hole) && v.kind.OrderedMap?
    requires NextIdx(|v.ents|, hole) in order && TrueDib(v, NextIdx(|v.ents|, hole)) > 0
    ensures Linked(Shifted(v, hole), order[IndexIn(order, NextIdx(|v.ents|, hole)) := hole])
  {
    var x := NextIdx(|v.ents|, hole);
    var q, u := IndexIn(order, x), MoveEntry(v, x, hole);
    MoveKeepsList(v, order, q, hole);
    LinkedFrame(u, Shifted(v, hole), order[q := hole]);
  }

  ghost predicate ShiftDue(v: View, hole: nat) {
    && hole < |v.ents| == |v.dibs|
    && var x := NextIdx(|v.ents|, hole);
    x != hole && v.dibs[x] != 0 && v.dibs[x] != DIB_RAW_FREE
  }

  lemma ShiftDueDib(v: View, order: seq<nat>, hole: nat)
    requires Holed(v, order, hole) && ShiftDue(v, hole)
    ensures var x, hs := NextIdx(|v.ents|, hole), HomesBut(v, hole);
            x in order && Taken(hs, x) && TrueDib(v, x) == Away(hs, x) > 0
  {
  }

  lemma RemovalShifts(v: View, order: seq<nat>, hole: nat)
    requires Holed(v, order, hole) && ShiftDue(v, hole)
    ensures var x := NextIdx(|v.ents|, hole);
            && x in order && TrueDib(v, x) > 0
            && var w, o := Shifted(v, hole), order[IndexIn(order, x) := hole];
            && Holed(w, o, x) && Items(w, o) == Items(v, order)
            && w.dibs == v.dibs[hole := w.dibs[hole]] && (v.dibs[x] <= 1 ==> w.dibs[hole] == 0)
  {
    var x := NextIdx(|v.ents|, hole);
    ShiftDueDib(v, order, hole);
    var w, o := Shifted(v, hole), order[IndexIn(order, x) := hole];
    ShiftedItems(v, order, hole);
    ShiftedHomes(v, order, hole);
    if v.kind.OrderedMap? { ShiftedLinks(v, order, hole); }
    ShiftLive(v, order, hole, x, w);
  }

  lemma ShiftedItems(v: View, order: seq<nat>, hole: nat)
    requires Holed(v, order, hole) && ShiftDue(v, hole)
    requires NextIdx(|v.ents|, hole) in order && TrueDib(v, NextIdx(|v.ents|, hole)) > 0
    ensures Items(Shifted(v, hole), order[IndexIn(order, NextIdx(|v.ents|, hole)) := hole]) == Items(v, order)
  {
    var x := NextIdx(|v.ents|, hole);
    var w, o := Shifted(v, hole), order[IndexIn(order, x) := hole];
    ShiftedPairs(v, hole);
    forall k | 0 <= k < |o| ensures At(w, o[k]).kv == At(v, order[k]).kv { }
  }

  lemma ShiftedHomes(v: View, order: seq<nat>, hole: nat)
    requires Holed(v, order, hole) && ShiftDue(v, hole)
    requires TrueDib(v, NextIdx(|v.ents|, hole)) > 0
    ensures var x, w := NextIdx(|v.ents|, hole), Shifted(v, hole);
            && SameFrame(v.(dibs := w.dibs), w) && Sized(w)
            && w.dibs == v.dibs[hole := RawDib(TrueDib(v, x) - 1)]
            && OrderedExcept(HomesBut(w, x), x)
            && FreeIsZero(w)
            && (forall i :: 0 <= i < |w.ents| && i != x && Placed(w.dibs[i]) ==>
                  w.dibs[i] == RawDib(Dist(|w.ents|, i, Home(w, w.ents[i].kv.key))))
  {
    var x, w, hs := NextIdx(|v.ents|, hole), Shifted(v, hole), HomesBut(v, hole);
    ShiftDueDib(v, order, hole);
    ShiftedPairs(v, hole);
    ShiftedHomeSeq(v, hole);
    ShiftBack(hs, hole);
    hide Shifted, OrderedExcept, LiveBut, Linked, KeysDiffer, Items;
  }

  lemma ShiftedHomeSeq(v: View, hole: nat)
    requires Sized(v) && ShiftDue(v, hole) && v.dibs[NextIdx(|v.ents|, hole)] != DIB_RAW_REHASH
    requires TrueDib(v, NextIdx(|v.ents|, hole)) > 0
    ensures var x, w, hs := NextIdx(|v.ents|, hole), Shifted(v, hole), HomesBut(v, hole);
            Sized(w) && |w.ents| == |v.ents| && HomesBut(w, x) == hs[hole := hs[x]][x := NONE]
  {
    ShiftedPairs(v, hole);
  }

  lemma ShiftLive(v: View, order: seq<nat>, hole: nat, x: nat, w: View)
    requires Sized(v) && LiveBut(v, order, hole) && hole < |v.ents| && v.dibs[hole] != DIB_RAW_FREE
    requires x in order && x != hole
    requires Sized(w) && |w.ents| == |v.ents|
    requires exists raw :: Placed(raw) && w.dibs == v.dibs[hole := raw]
    ensures LiveBut(w, order[IndexIn(order, x) := hole], x)
  {
    var q := IndexIn(order, x);
    var o := order[q := hole];
    assert o[q] == hole;
    forall i | 0 <= i < |w.ents| && i != x ensures i in o <==> w.dibs[i] != DIB_RAW_FREE {
      if i in order { assert o[IndexIn(order, i)] == i; }
      if i in o && i != hole { assert order[IndexIn(o, i)] == i; }
    }
  }

  lemma RemovalCloses(v: View, order: seq<nat>, hole: nat)
    requires Holed(v, order, hole)
    requires var x := NextIdx(|v.ents|, hole); x == hole || v.dibs[x] == 0 || v.dibs[x] == DIB_RAW_FREE
    ensures var w := MarkFree(v, hole);
            AtRest(w, order) && Items(w, order) == Items(v, order)
  {
    hide Items, Homes;
    var w := MarkFree(v, hole);
    CloseTable(v, order, hole);
    forall k | 0 <= k < |order| ensures At(w, order[k]) == At(v, order[k]) { assert order[k] in order; }
    if v.kind.OrderedMap? { LinkedFrame(v, w, order); }
    SameItems(v, w, order);
    InvIs(w, order);
  }

  lemma SameItems(v: View, w: View, order: seq<nat>)
    requires forall k :: 0 <= k < |order| ==> At(w, order[k]).kv == At(v, order[k]).kv
    ensures Items(w, order) == Items(v, order)
  {
  }

  lemma CloseTable(v: View, order: seq<nat>, hole: nat)
    requires Holed(v, order, hole)
    requires var x := NextIdx(|v.ents|, hole); x == hole || v.dibs[x] == 0 || v.dibs[x] == DIB_RAW_FREE
    ensures var w := MarkFree(v, hole);
            && Sized(w) && DibsTrue(w) && Ordered(Homes(w)) && HasStop(Homes(w)) && Live(w, order)
            && FreeIsZero(w) && NoRehash(w)
  {
    hide KeysDiffer, Linked;
    var w := MarkFree(v, hole);
    assert Homes(w) == HomesBut(v, hole);
    CloseHole(Homes(w), hole);
  }

  // ---------- counting ----------

  ghost function Range(n: nat): (r: set<nat>)
    ensures |r| == n
    ensures forall i :: i in r <==> 0 <= i < n
  {
    if n == 0 then {} else Range(n - 1) + {n - 1}
  }

  ghost function Elems(s: seq<nat>): (r: set<nat>)
    requires Distinct(s)
    ensures |r| == |s|
    ensures forall x :: x in r <==> x in s
  {
    if s == [] then {} else
      var front, last := s[..|s| - 1], s[|s| - 1];
      assert s == front + [last];
      Elems(front) + {last}
  }

  /** With an entry in hand and no more live entries than buckets, some bucket is not placed. */
  lemma SomeUnplaced(v: View, order: seq<nat>) returns (f: nat)
    requires Sized(v) && Live(v, order) && IDX_PUT in order && |order| <= |v.ents|
    ensures f < |v.ents| && !Placed(v.dibs[f])
  {
    if forall i :: 0 <= i < |v.ents| ==> Placed(v.dibs[i]) {
      var all := Range(|v.ents|) + {IDX_PUT};
      assert all <= Elems(order);
      SubsetCard(all, Elems(order));
      assert false;
    }
    f :| 0 <= f < |v.ents| && !Placed(v.dibs[f]);
  }

  lemma {:induction false} SubsetCard(a: set<nat>, b: set<nat>)
    requires a <= b
    ensures |a| <= |b|
  {
    if a != {} {
      var x :| x in a;
      SubsetCard(a - {x}, b - {x});
    }
  }

  // ---------- rehashing in place ----------

  /** Buckets whose entries wait to be rehashed. */
  ghost function Waiting(dibs: seq<nat>): set<nat> {
    set i | 0 <= i < |dibs| && dibs[i] == DIB_RAW_REHASH
  }

  ghost function CountWaiting(dibs: seq<nat>): nat {
    |Waiting(dibs)|
  }

  /** `w` is `v` after its storage grew: a new hash key, every live bucket marked, the rest free. */
  ghost predicate Regrown(v: View, w: View) {
    && Sized(v) && Sized(w) && |v.ents| <= |w.ents|
    && w == v.(hashKey := w.hashKey, ents := w.ents, dibs := w.dibs)
    && (forall i :: 0 <= i < |w.ents| ==>
          if i < |v.ents|
          then
            && w.ents[i] == v.ents[i]
            && w.dibs[i] == (if v.dibs[i] == DIB_RAW_FREE then DIB_RAW_FREE else DIB_RAW_REHASH)
          else w.ents[i] == ZERO && w.dibs[i] == DIB_RAW_FREE)
  }

  lemma RegrownInv(v: View, order: seq<nat>, w: View)
    requires AtRest(v, order) && Regrown(v, w)
    ensures Inv(w, order) && Items(w, order) == Items(v, order)
    ensures |Waiting(w.dibs)| == |order|
  {
    forall k | 0 <= k < |order| ensures At(w, order[k]) == At(v, order[k]) { }
    if v.kind.OrderedMap? { LinkedFrame(v, w, order); }
    assert Items(w, order) == Items(v, order);
    RegrownHomes(v, order, w);
    RegrownWaiting(v, order, w);
  }

  lemma RegrownHomes(v: View, order: seq<nat>, w: View)
    requires AtRest(v, order) && Regrown(v, w)
    ensures Ordered(Homes(w)) && HasStop(Homes(w)) && FreeIsZero(w)
  {
    FreeIsStop(Homes(w), 0);
  }

  lemma RegrownWaiting(v: View, order: seq<nat>, w: View)
    requires AtRest(v, order) && Regrown(v, w)
    ensures |Waiting(w.dibs)| == |order| && Live(w, order)
  {
    forall i | 0 <= i < |w.ents| ensures i in order <==> w.dibs[i] != DIB_RAW_FREE { }
    assert Waiting(w.dibs) == Elems(order);
  }

  /** A waiting entry that is already at its new home is placed by setting its DIB. */
  lemma StayPut(v: View, order: seq<nat>, i: nat)
    requires Inv(v, order) && i < |v.ents| && v.dibs[i] == DIB_RAW_REHASH
    requires Home(v, v.ents[i].kv.key) == i
    ensures var w := SetDib(v, i, 0);
            && Inv(w, order) && Items(w, order) == Items(v, order)
            && Waiting(w.dibs) == Waiting(v.dibs) - {i}
  {
    var w := SetDib(v, i, 0);
    assert Homes(w) == Homes(v)[i := i];
    PlaceKeepsOrder(Homes(v), i, i);
    PlaceKeepsStop(Homes(v), i, i);
    if v.kind.OrderedMap? { LinkedFrame(v, w, order); }
    assert Items(w, order) == Items(v, order);
  }

  /** The waiting entry of bucket `i` moved to swap slot `IDX_PUT`, and its bucket zeroed. */
  function PickedUp(v: View, i: nat): View
    requires i < |v.ents| == |v.dibs|
  {
    var w := MoveEntry(SetDib(v, i, DIB_RAW_FREE), i, IDX_PUT);
    Store(w, i, ZERO)
  }

  lemma PickUp(v: View, order: seq<nat>, i: nat)
    requires Inv(v, order) && IDX_PUT !in order && i < |v.ents| && v.dibs[i] == DIB_RAW_REHASH
    ensures i in order
    ensures var w, o := PickedUp(v, i), order[IndexIn(order, i) := IDX_PUT];
            && Inv(w, o) && Items(w, o) == Items(v, order)
            && w.dibs == v.dibs[i := DIB_RAW_FREE] && Waiting(w.dibs) == Waiting(v.dibs) - {i}
  {
    var u := SetDib(v, i, DIB_RAW_FREE);
    var k := IndexIn(order, i);
    var x, w, o := MoveEntry(u, i, IDX_PUT), PickedUp(v, i), order[k := IDX_PUT];
    MoveKeepsPairs(u, i, IDX_PUT);
    assert o[k] == IDX_PUT;
    assert forall j :: 0 <= j < |o| && j != k ==> o[j] == order[j];
    forall j | 0 <= j < |o| ensures At(w, o[j]).kv == At(v, order[j]).kv && At(w, o[j]) == At(x, o[j]) {
      assert At(x, o[j]).kv == if o[j] == IDX_PUT then At(u, i).kv else At(u, o[j]).kv;
    }
    assert Items(w, o) == Items(v, order);
    if v.kind.OrderedMap? {
      LinkedFrame(v, u, order);
      MoveKeepsList(u, order, k, IDX_PUT);
      LinkedFrame(x, w, o);
    }
    PickUpTable(v, order, i, w);
  }

  lemma PickUpTable(v: View, order: seq<nat>, i: nat, w: View)
    requires Inv(v, order) && i in order && i < |v.ents| && v.dibs[i] == DIB_RAW_REHASH && w == PickedUp(v, i)
    requires IDX_PUT !in order
    ensures Sized(w) && DibsTrue(w) && Ordered(Homes(w)) && HasStop(Homes(w)) && FreeIsZero(w)
    ensures Live(w, order[IndexIn(order, i) := IDX_PUT])
    ensures Waiting(w.dibs) == Waiting(v.dibs) - {i}
  {
    PickUpView(v, i);
    hide PickedUp;
    assert Homes(w) == Homes(v);
    PickUpLive(v, order, i, w);
  }

  lemma PickUpView(v: View, i: nat)
    requires Sized(v) && i < |v.ents|
    ensures var w := PickedUp(v, i);
      && w == v.(ents := w.ents, dibs := v.dibs[i := DIB_RAW_FREE],
                 put := w.put, tmp := w.tmp, head := w.head, tail := w.tail)
      && |w.ents| == |v.ents| && w.ents[i] == ZERO
      && forall j :: 0 <= j < |v.ents| && j != i ==> w.ents[j].kv == v.ents[j].kv
  {
    var u, w := SetDib(v, i, DIB_RAW_FREE), PickedUp(v, i);
    var x := MoveEntry(u, i, IDX_PUT);
    MoveKeepsPairs(u, i, IDX_PUT);
    hide MoveEntry;
    forall j | 0 <= j < |v.ents| && j != i ensures w.ents[j].kv == v.ents[j].kv {
      assert At(x, j).kv == At(u, j).kv;
    }
  }

  lemma PickUpLive(v: View, order: seq<nat>, i: nat, w: View)
    requires Sized(v) && Live(v, order) && i in order && IDX_PUT !in order && i < |v.ents| == |w.ents|
    requires Sized(w) && w.dibs == v.dibs[i := DIB_RAW_FREE]
    ensures Live(w, order[IndexIn(order, i) := IDX_PUT])
  {
    var k := IndexIn(order, i);
    var o := order[k := IDX_PUT];
    forall j | 0 <= j < |w.ents| ensures j in o <==> w.dibs[j] != DIB_RAW_FREE {
      if j in order && j != i { assert o[IndexIn(order, j)] == j; }
      if j in o { assert order[IndexIn(o, j)] == j; }
    }
  }

  /** All buckets below `lowest` are free. */
  ghost predicate FreeBelow(dibs: seq<nat>, lowest: nat) {
    forall i :: 0 <= i < |dibs| && i < lowest ==> dibs[i] == DIB_RAW_FREE
  }

  /**
    The state of the rehash loops: marked buckets lie in `from..upTo`, `count`
    entries have been placed, and `held` (zero or one) are in swap slot `IDX_PUT`.
    */
  ghost predicate Rehashing(v: View, order: seq<nat>, lowest: nat, from: nat, upTo: nat, count: nat, held: nat) {
    var holds :=
      && Inv(v, order) && |order| <= |v.ents| && upTo <= |v.ents|
      && held <= 1 && (held == 1 <==> IDX_PUT in order)
      && (forall i :: 0 <= i < |v.dibs| && v.dibs[i] == DIB_RAW_REHASH ==> from <= i < upTo)
      && count + held + CountWaiting(v.dibs) == |order|
      && FreeBelow(v.dibs, lowest);
    holds
  }

  /** The buckets that are placed, free and waiting are the same, except that `spot` became placed. */
  ghost predicate PlacedAlso(before: seq<nat>, after: seq<nat>, spot: nat) {
    && |before| == |after| && spot < |before|
    && !Placed(before[spot]) && Placed(after[spot])
    && forall i :: 0 <= i < |before| && i != spot ==>
                     if Placed(before[i]) then Placed(after[i]) else after[i] == before[i]
  }

  lemma RehashingBegins(v: View, order: seq<nat>, w: View, lowest: nat)
    requires AtRest(v, order) && Regrown(v, w) && |order| <= |v.ents|
    requires FreeBelow(v.dibs, lowest)
    ensures Rehashing(w, order, lowest, 0, |v.ents|, 0, 0) && Items(w, order) == Items(v, order)
  {
    RegrownInv(v, order, w);
  }

  lemma RehashingSkips(v: View, order: seq<nat>, lowest: nat, i: nat, upTo: nat, count: nat)
    requires Rehashing(v, order, lowest, i, upTo, count, 0)
    requires i < |v.ents| && v.dibs[i] != DIB_RAW_REHASH
    ensures Rehashing(v, order, lowest, i + 1, upTo, count, 0)
  {
  }

  /** At the end no mark is left, and every entry has been counted once. */
  lemma RehashingEnds(v: View, order: seq<nat>, lowest: nat, upTo: nat, count: nat)
    requires Rehashing(v, order, lowest, upTo, upTo, count, 0)
    ensures AtRest(v, order) && FreeBelow(v.dibs, lowest) && count == |order|
  {
    assert Waiting(v.dibs) == {};
  }

  lemma RehashingStayed(v: View, order: seq<nat>, lowest: nat, i: nat, upTo: nat, count: nat)
    requires Rehashing(v, order, lowest, i, upTo, count, 0)
    requires i < |v.ents| && v.dibs[i] == DIB_RAW_REHASH && Home(v, v.ents[i].kv.key) == i
    ensures Rehashing(SetDib(v, i, 0), order, lowest, i + 1, upTo, count + 1, 0)
    ensures Items(SetDib(v, i, 0), order) == Items(v, order)
  {
    StayPut(v, order, i);
    assert i in Waiting(v.dibs);
  }

  lemma RehashingPickedUp(v: View, order: seq<nat>, lowest: nat, i: nat, upTo: nat, count: nat, w: View)
    requires Rehashing(v, order, lowest, i, upTo, count, 0)
    requires i < |v.ents| && i in order && v.dibs[i] == DIB_RAW_REHASH && w == PickedUp(v, i)
    ensures var o := order[IndexIn(order, i) := IDX_PUT];
            Rehashing(w, o, lowest, i + 1, upTo, count, 1) && Items(w, o) == Items(v, order)
  {
    PickUp(v, order, i);
    assert i in Waiting(v.dibs);
    var o := order[IndexIn(order, i) := IDX_PUT];
    assert o[IndexIn(order, i)] == IDX_PUT;
  }

  lemma WaitingAfter(before: seq<nat>, after: seq<nat>, spot: nat)
    requires PlacedAlso(before, after, spot)
    ensures CountWaiting(after) == CountWaiting(before) - if before[spot] == DIB_RAW_REHASH then 1 else 0
  {
    assert Waiting(after) == Waiting(before) - {spot};
  }

  lemma RehashingPlaced(v: View, order: seq<nat>, lowest: nat, from: nat, upTo: nat, count: nat,
                        w: View, o: seq<nat>, lowest': nat, spot: nat)
    requires Rehashing(v, order, lowest, from, upTo, count, 1)
    requires Inv(w, o) && |o| == |order| && |w.ents| == |v.ents| && PlacedAlso(v.dibs, w.dibs, spot)
    requires lowest' <= lowest && lowest' <= spot
    requires IDX_PUT in o <==> v.dibs[spot] == DIB_RAW_REHASH
    ensures Rehashing(w, o, lowest', from, upTo, count + 1, if IDX_PUT in o then 1 else 0)
    ensures CountWaiting(w.dibs) + (if IDX_PUT in o then 1 else 0) == CountWaiting(v.dibs)
  {
    WaitingAfter(v.dibs, w.dibs, spot);
  }

  // ---------- appending an entry ----------

  /** A new entry in swap slot `IDX_PUT`, linked behind the last one, is part of the table. */
  lemma HeldJoins(v: View, order: seq<nat>, e: Entry, w: View)
    requires AtRest(v, order) && w == LinkPut(v.(put := e))
    requires forall k :: 0 <= k < |order| ==> v.ops.canon(Items(v, order)[k].key) != v.ops.canon(e.kv.key)
    ensures Inv(w, order + [IDX_PUT]) && Items(w, order + [IDX_PUT]) == Items(v, order) + [e.kv]
    ensures w.put.kv == e.kv && SameFrame(v, w) && NoRehash(w)
  {
    hide Inv, LinkPut, KeysDiffer;
    HeldItems(v, order, e, w);
    HeldList(v, order, e);
    HeldTable(v, order, e, w);
    HeldDiffer(v, order, e);
    InvIs(w, order + [IDX_PUT]);
  }

  lemma HeldItems(v: View, order: seq<nat>, e: Entry, w: View)
    requires AtRest(v, order) && w == LinkPut(v.(put := e))
    ensures Items(w, order + [IDX_PUT]) == Items(v, order) + [e.kv]
    ensures w.put.kv == e.kv && SameFrame(v, w) && forall i :: 0 <= i < |v.ents| ==> At(w, i).kv == At(v, i).kv
  {
    var u, o := v.(put := e), order + [IDX_PUT];
    LinkPutKeepsPairs(u);
    hide LinkPut;
    assert At(w, IDX_PUT).kv == e.kv;
    forall k | 0 <= k < |order| ensures At(w, o[k]).kv == At(v, order[k]).kv {
      assert At(w, order[k]).kv == At(u, order[k]).kv;
    }
  }

  lemma HeldDiffer(v: View, order: seq<nat>, e: Entry)
    requires AtRest(v, order)
    requires forall k :: 0 <= k < |order| ==> v.ops.canon(Items(v, order)[k].key) != v.ops.canon(e.kv.key)
    ensures KeysDiffer(v.ops, Items(v, order) + [e.kv])
  {
    hide Items;
  }

  lemma HeldList(v: View, order: seq<nat>, e: Entry)
    requires AtRest(v, order)
    ensures v.kind.OrderedMap? ==> Linked(LinkPut(v.(put := e)), order + [IDX_PUT])
    ensures v.kind.OrderedMap? ==> v.tail == IDX_NIL || v.tail in order
  {
    if v.kind.OrderedMap? {
      LinkedFrame(v, v.(put := e), order);
      LinkPutKeepsList(v.(put := e), order);
    }
  }

  lemma HeldTable(v: View, order: seq<nat>, e: Entry, w: View)
    requires AtRest(v, order) && w == LinkPut(v.(put := e))
    requires SameFrame(v, w) && forall i :: 0 <= i < |v.ents| ==> At(w, i).kv == At(v, i).kv
    ensures Sized(w) && DibsTrue(w) && Ordered(Homes(w)) && HasStop(Homes(w)) && FreeIsZero(w)
    ensures Live(w, order + [IDX_PUT])
  {
    forall i | 0 <= i < |v.ents| ensures w.ents[i].kv == v.ents[i].kv {
      assert At(w, i).kv == At(v, i).kv;
    }
    assert Homes(w) == Homes(v);
    var o := order + [IDX_PUT];
    forall i | 0 <= i < |w.ents| ensures i in o <==> i in order {
      if i in o { assert order[IndexIn(o, i)] == i; }
      if i in order { assert o[IndexIn(order, i)] == i; }
    }
  }

  // ---------- the table between operations ----------

  /** Everything that holds of a table between two operations. */
  ghost predicate Good(v: View, order: seq<nat>, nEntries: nat, indirect: bool, lowest: nat, shift: nat) {
    var holds :=
      && AtRest(v, order)
      && nEntries == |order| <= |v.ents|
      && Storage(v.kind, indirect, |v.ents|, shift)
      && FreeBelow(v.dibs, if indirect then lowest else 0);
    holds
  }

  /** Placing the held entry in a free bucket brings the table back to rest. */
  lemma PutRests(v: View, order: seq<nat>, count: nat, indirect: bool, lowest: nat, shift: nat,
                 w: View, o: seq<nat>, lowest': nat, spot: nat)
    requires NoRehash(v) && FreeBelow(v.dibs, if indirect then lowest else 0)
    requires count < |v.ents| && Storage(v.kind, indirect, |v.ents|, shift)
    requires Inv(w, o) && PlacedAlso(v.dibs, w.dibs, spot) && |o| == |order| == count + 1
    requires w.kind == v.kind && |w.ents| == |v.ents|
    requires lowest' == if indirect && lowest > spot then spot else lowest
    requires IDX_PUT in o <==> v.dibs[spot] == DIB_RAW_REHASH
    ensures Good(w, o, count + 1, indirect, lowest', shift)
  {
  }

  lemma RemovalRests(v: View, order: seq<nat>, count: nat, indirect: bool, lowest: nat, shift: nat,
                     w: View, o: seq<nat>)
    requires Good(v, order, count, indirect, lowest, shift) && count > 0
    requires AtRest(w, o) && |o| == count - 1 && w.kind == v.kind && |w.ents| == |v.ents|
    requires forall k :: 0 <= k < |o| ==> o[k] in order
    ensures Good(w, o, count - 1, indirect, lowest, shift)
  {
    var low := if indirect then lowest else 0;
    forall i | 0 <= i < |w.dibs| && i < low ensures w.dibs[i] == DIB_RAW_FREE {
      assert i in o ==> i in order;
    }
  }

  /** A live entry's pair replaced by one with an equal key. */
  function Overwritten(v: View, i: nat, kv: Pair): View
    requires i < |v.ents|
  {
    v.(ents := v.ents[i := v.ents[i].(kv := kv)])
  }

  lemma OverwriteRests(v: View, order: seq<nat>, p: nat, kv: Pair)
    requires AtRest(v, order) && p < |order|
    requires v.ops.canon(kv.key) == v.ops.canon(v.ents[order[p]].kv.key)
    ensures order[p] < |v.ents| && At(v, order[p]) == v.ents[order[p]]
    ensures AtRest(Overwritten(v, order[p], kv), order)
    ensures Items(Overwritten(v, order[p], kv), order) == Items(v, order)[p := kv]
  {
    var w := Overwritten(v, order[p], kv);
    OverwriteTable(v, order, p, kv);
    forall k | 0 <= k < |order|
      ensures At(w, order[k]) == if k == p then At(v, order[k]).(kv := kv) else At(v, order[k])
    {
    }
    hide Overwritten;
    assert Items(w, order) == Items(v, order)[p := kv];
    if v.kind.OrderedMap? {
      forall k | 0 <= k < |order| ensures Chained(w, order, k) { assert Chained(v, order, k); }
    }
    InvIs(w, order);
  }

  lemma OverwriteTable(v: View, order: seq<nat>, p: nat, kv: Pair)
    requires AtRest(v, order) && p < |order|
    requires v.ops.canon(kv.key) == v.ops.canon(v.ents[order[p]].kv.key)
    ensures order[p] < |v.ents|
    ensures var w := Overwritten(v, order[p], kv);
            && w == v.(ents := w.ents) && |w.ents| == |v.ents|
            && Sized(w) && DibsTrue(w) && Ordered(Homes(w)) && HasStop(Homes(w)) && Live(w, order) && FreeIsZero(w)
  {
    var w := Overwritten(v, order[p], kv);
    assert Homes(w) == Homes(v);
  }

  /** The contents of new storage. */
  function ZeroBuckets(n: nat): seq<Entry> { seq(n, _ => ZERO) }

  function FreeDibs(n: nat): seq<nat> { seq(n, _ => DIB_RAW_FREE) }

  lemma EmptyRests(v: View, lowest: nat)
    requires v.head == v.tail == IDX_NIL
    requires v.ents == ZeroBuckets(DirectBuckets(v.kind)) && v.dibs == FreeDibs(DirectBuckets(v.kind))
    ensures Good(v, [], 0, false, lowest, 0) && Items(v, []) == []
  {
    FreeIsStop(Homes(v), 0);
  }

  /**
    After a removal the entry that was in bucket `q` is there still exactly when the
    bucket holds its key pointer; otherwise it is one bucket back.
    */
  lemma FoundByKey(v: View, order: seq<nat>, p: nat, q: nat)
    requires AtRest(v, order) && p < |order| && q < |v.ents|
    requires order[p] == q || order[p] == PrevIdx(|v.ents|, q)
    requires Items(v, order)[p].key != NULL
    ensures order[p] == if v.ents[q].kv.key == Items(v, order)[p].key then q else PrevIdx(|v.ents|, q)
  {
    assert At(v, order[p]) == v.ents[order[p]];
    if order[p] != q && v.dibs[q] != DIB_RAW_FREE {
      var k := IndexIn(order, q);
      assert At(v, order[k]) == v.ents[q];
      assert v.ops.canon(Items(v, order)[k].key) != v.ops.canon(Items(v, order)[p].key);
    }
  }
}
