/**
  The tile allocator: pools of equal tiles, and a list of released tiles that is
  threaded through the tiles themselves.
  */
module Mempool {

  /** A pool at address `base`: a header, then `tiles` tiles of which `used` were handed out. */
  datatype Pool = Pool(base: nat, size: nat, tiles: nat, used: nat)

  const PAGE: nat := 4096
  /** The header of a pool, aligned. */
  const HEADER: nat := 16

  /** Rounds up to a multiple of the page size. */
  function PageAlign(l: nat): (r: nat)
    ensures l <= r < l + PAGE && r % PAGE == 0
  {
    (l + PAGE - 1) / PAGE * PAGE
  }

  function Addr(p: Pool, i: nat, tile: nat): nat { p.base + HEADER + i * tile }

  lemma MulMonotone(a: nat, b: nat, t: nat)
    requires a <= b
    ensures a * t <= b * t
  {
  }

  lemma Division(room: nat, tile: nat)
    requires tile > 0
    ensures room / tile * tile <= room < (room / tile + 1) * tile
  {
    assert room == tile * (room / tile) + room % tile;
  }

  /** Rounding to pages gives at least the tiles that were asked for, and as many as fit. */
  lemma RoundingFits(n: nat, tile: nat)
    requires tile > 0
    ensures var size := PageAlign(HEADER + n * tile); var n' := (size - HEADER) / tile;
      n <= n' && HEADER + n' * tile <= size < HEADER + (n' + 1) * tile
  {
    hide PageAlign;
    var room := PageAlign(HEADER + n * tile) - HEADER;
    var n' := room / tile;
    Division(room, tile);
    if n' < n { MulMonotone(n' + 1, n, tile); }
  }

  ghost predicate PoolOk(p: Pool, tile: nat) {
    p.base > 0 && p.used <= p.tiles && HEADER + p.tiles * tile <= p.size
  }

  ghost predicate Apart(p: Pool, q: Pool) { p.base + p.size <= q.base || q.base + q.size <= p.base }

  /** Pools are sound and do not overlap. */
  ghost predicate PoolsOk(ps: seq<Pool>, tile: nat) {
    && (forall i :: 0 <= i < |ps| ==> PoolOk(ps[i], tile))
    && (forall i, j :: 0 <= i < j < |ps| ==> Apart(ps[i], ps[j]))
  }

  /** `a` is a tile that has been handed out at least once. */
  ghost predicate IsTile(ps: seq<Pool>, tile: nat, a: nat) {
    exists p, i: nat :: 0 <= p < |ps| && i < ps[p].used && a == Addr(ps[p], i, tile)
  }

  /** Different tiles do not overlap. */
  lemma SlotsApart(ps: seq<Pool>, tile: nat, p: nat, i: nat, q: nat, j: nat)
    requires PoolsOk(ps, tile) && p < |ps| && i < ps[p].used && q < |ps| && j < ps[q].used && (p != q || i != j)
    ensures var a, b := Addr(ps[p], i, tile), Addr(ps[q], j, tile); a + tile <= b || b + tile <= a
  {
    InPool(ps[p], i, tile);
    InPool(ps[q], j, tile);
    if p == q {
      if i < j { Spaced(i, j, tile); } else { Spaced(j, i, tile); }
    } else if p < q {
      assert Apart(ps[p], ps[q]);
    } else {
      assert Apart(ps[q], ps[p]);
    }
  }

  /** Two addresses of tiles are the same, or the tiles do not overlap. */
  lemma TilesApart(ps: seq<Pool>, tile: nat, a: nat, b: nat)
    requires PoolsOk(ps, tile) && IsTile(ps, tile, a) && IsTile(ps, tile, b) && a != b
    ensures a + tile <= b || b + tile <= a
  {
    var p, i: nat :| 0 <= p < |ps| && i < ps[p].used && a == Addr(ps[p], i, tile);
    var q, j: nat :| 0 <= q < |ps| && j < ps[q].used && b == Addr(ps[q], j, tile);
    SlotsApart(ps, tile, p, i, q, j);
  }

  lemma Spaced(i: nat, j: nat, tile: nat)
    requires i < j
    ensures i * tile + tile <= j * tile
  {
    MulMonotone(i + 1, j, tile);
    assert (i + 1) * tile == i * tile + tile;
  }

  /** A tile lies inside its pool. */
  lemma InPool(p: Pool, i: nat, tile: nat)
    requires PoolOk(p, tile) && i < p.used
    ensures p.base < Addr(p, i, tile) && Addr(p, i, tile) + tile <= p.base + p.size
  {
    Spaced(i, p.tiles, tile);
  }

  ghost function From(free: seq<nat>, i: nat): nat { if i < |free| then free[i] else 0 }

  /** The released tiles, each pointing to the next. */
  ghost predicate Chain(freelist: nat, free: seq<nat>, mem: map<nat, nat>) {
    && freelist == From(free, 0)
    && (forall i :: 0 <= i < |free| ==> free[i] in mem && mem[free[i]] == From(free, i + 1))
  }

  /** Every tile handed out is either in use or on the list, once. */
  ghost predicate Accounted(ps: seq<Pool>, tile: nat, live: set<nat>, free: seq<nat>) {
    && (forall a :: IsTile(ps, tile, a) <==> a in live || a in free)
    && (forall i :: 0 <= i < |free| ==> free[i] !in live)
    && (forall i, j :: 0 <= i < j < |free| ==> free[i] != free[j])
  }

  lemma ChainPop(freelist: nat, free: seq<nat>, mem: map<nat, nat>)
    requires Chain(freelist, free, mem) && freelist != 0
    ensures free != [] && free[0] == freelist && freelist in mem && Chain(mem[freelist], free[1..], mem)
  {
    assert free[0] in mem && mem[free[0]] == From(free, 1);
    forall i | 0 <= i < |free[1..]| ensures free[1..][i] in mem && mem[free[1..][i]] == From(free[1..], i + 1) {
      assert free[1..][i] == free[i + 1] && From(free[1..], i + 1) == From(free, i + 2);
    }
  }

  lemma ChainPush(freelist: nat, free: seq<nat>, mem: map<nat, nat>, a: nat)
    requires Chain(freelist, free, mem) && a !in free && a != 0
    ensures Chain(a, [a] + free, mem[a := freelist])
  {
    var r, m := [a] + free, mem[a := freelist];
    forall i | 0 <= i < |r| ensures r[i] in m && m[r[i]] == From(r, i + 1) {
      assert From(r, i + 1) == From(free, i);
      if i > 0 { assert r[i] == free[i - 1] && free[i - 1] != a; }
    }
  }

  lemma ChainWrite(freelist: nat, free: seq<nat>, mem: map<nat, nat>, a: nat, v: nat)
    requires Chain(freelist, free, mem) && a !in free
    ensures Chain(freelist, free, mem[a := v])
  {
    assert forall i :: 0 <= i < |free| ==> free[i] != a;
  }

  lemma Popped(ps: seq<Pool>, tile: nat, live: set<nat>, free: seq<nat>)
    requires Accounted(ps, tile, live, free) && free != []
    ensures Accounted(ps, tile, live + {free[0]}, free[1..]) && free[0] !in live && IsTile(ps, tile, free[0])
  {
    hide IsTile;
    assert free == [free[0]] + free[1..];
    assert free[0] in free;
  }

  lemma Pushed(ps: seq<Pool>, tile: nat, live: set<nat>, free: seq<nat>, a: nat)
    requires Accounted(ps, tile, live, free) && a in live
    ensures Accounted(ps, tile, live - {a}, [a] + free) && a !in free && IsTile(ps, tile, a)
  {
    hide IsTile;
  }

  /** No tile has address 0, so an empty list means that nothing is released. */
  lemma NoneReleased(ps: seq<Pool>, tile: nat, live: set<nat>, free: seq<nat>, mem: map<nat, nat>)
    requires PoolsOk(ps, tile) && Accounted(ps, tile, live, free) && Chain(0, free, mem)
    ensures free == []
  {
    if free != [] {
      assert free[0] in free;
      TileNotZero(ps, tile, free[0]);
    }
  }

  class Pools {
    const tile: nat
    const atLeast: nat
    var pools: seq<Pool>
    var freelist: nat
    var mem: map<nat, nat>
    ghost var free: seq<nat>
    ghost var live: set<nat>

    ghost predicate Valid()
      reads this
    {
      tile >= 8 && atLeast > 0 && PoolsOk(pools, tile)
      && Chain(freelist, free, mem) && Accounted(pools, tile, live, free)
    }

    constructor (tile: nat, atLeast: nat)
      requires tile >= 8 && atLeast > 0
      ensures Valid() && this.tile == tile && live == {} && free == []
    {
      this.tile, this.atLeast, pools, freelist, mem, free, live := tile, atLeast, [], 0, map[], [], {};
    }

    /** The size of the next pool: twice as many tiles as the last one, and whole pages. */
    function NextSize(): (r: nat)
      reads this
      ensures HEADER <= r
    {
      PageAlign(HEADER + Wanted(pools) * tile)
    }

    /** The tiles that a pool behind `ps` should have: twice as many as the last one, or the given number. */
    function Wanted(ps: seq<Pool>): nat {
      var last := if ps == [] then 0 else ps[|ps| - 1].tiles;
      if atLeast < last * 2 then last * 2 else atLeast
    }

    predicate Full()
      reads this
    {
      pools == [] || pools[|pools| - 1].used >= pools[|pools| - 1].tiles
    }

    /** What the memory allocator may return: nothing, or room that overlaps no pool. */
    ghost predicate Roomy(base: nat)
      reads this
    {
      base > 0 ==> forall i :: 0 <= i < |pools| ==> Apart(pools[i], Pool(base, NextSize(), 0, 0))
    }

    /** A tile that nobody uses, or 0 if a new pool is needed and there is no memory. */
    method AllocTile(base: nat) returns (r: nat)
      requires Valid() && Roomy(base)
      modifies this
      ensures Valid()
      ensures r == 0 ==> base == 0 && live == old(live) && free == old(free) == [] && pools == old(pools)
      ensures r != 0 ==> r !in old(live) && live == old(live) + {r} && IsTile(pools, tile, r)
      ensures r == 0 <==> old(free) == [] && old(Full()) && base == 0
      ensures old(free) != [] ==> r == old(free)[0] && free == old(free)[1..] && pools == old(pools)
      ensures old(free) == [] ==> free == []
      ensures old(free) == [] && !old(Full()) ==>
        var last, p := |old(pools)| - 1, old(pools)[|old(pools)| - 1];
        r == p.base + 16 + p.used * tile && pools == old(pools)[last := p.(used := p.used + 1)]
      ensures old(free) == [] && old(Full()) && base != 0 ==>
        var n := Wanted(old(pools));
        && r == base + 16
        && exists size: nat, tiles: nat :: pools == old(pools) + [Pool(base, size, tiles, 1)]
             && size % 4096 == 0 && 16 + n * tile <= size < 16 + n * tile + 4096
             && tiles >= n && 16 + tiles * tile <= size < 16 + (tiles + 1) * tile
    {
      hide IsTile, Chain, Accounted, PoolsOk, Roomy, NextSize;
      if freelist != 0 {
        r := TakeReleased();
        return;
      }
      NoneReleased(pools, tile, live, free, mem);
      if Full() {
        if base == 0 {
          return 0;
        }
        AddPool(base);
        RoundingFits(Wanted(old(pools)), tile);
      }
      r := TakeNew();
    }

    method TakeReleased() returns (r: nat)
      requires Valid() && freelist != 0
      modifies this
      ensures Valid() && r != 0 && r !in old(live) && live == old(live) + {r} && IsTile(pools, tile, r)
      ensures old(free) != [] && r == old(free)[0] && free == old(free)[1..] && pools == old(pools)
    {
      hide IsTile, Chain, Accounted, PoolsOk;
      ChainPop(freelist, free, mem);
      Popped(pools, tile, live, free);
      r := freelist;
      freelist := mem[r];
      live := live + {r};
      free := free[1..];
    }

    method AddPool(base: nat)
      requires Valid() && Full() && Roomy(base) && base > 0 && free == []
      modifies this`pools
      ensures Valid() && !Full() && |pools| == |old(pools)| + 1
      ensures var n, q := Wanted(old(pools)), pools[|old(pools)|];
        && pools == old(pools) + [q] && q.base == base && q.used == 0
        && q.size == PageAlign(HEADER + n * tile) && q.tiles == (q.size - HEADER) / tile
    {
      var size := NextSize();
      var tiles := (size - HEADER) / tile;
      RoundingFits(Wanted(pools), tile);
      ghost var was := pools;
      pools := pools + [Pool(base, size, tiles, 0)];
      forall a ensures IsTile(pools, tile, a) <==> IsTile(was, tile, a) {
        UnusedPool(was, Pool(base, size, tiles, 0), tile, a);
      }
    }

    method TakeNew() returns (r: nat)
      requires Valid() && !Full() && free == []
      modifies this
      ensures Valid() && r != 0 && r !in old(live) && live == old(live) + {r} && IsTile(pools, tile, r)
      ensures free == [] && var last, p := |old(pools)| - 1, old(pools)[|old(pools)| - 1];
        r == Addr(p, p.used, tile) && pools == old(pools)[last := p.(used := p.used + 1)]
    {
      var last := |pools| - 1;
      var p := pools[last];
      r := Addr(p, p.used, tile);
      ghost var was := pools;
      pools := pools[last := p.(used := p.used + 1)];
      live := live + {r};
      NewIsFresh(was, last, tile);
      forall a ensures IsTile(pools, tile, a) <==> IsTile(was, tile, a) || a == r { OneMoreTile(was, last, tile, a); }
    }

    /** Gives back a tile that is in use. */
    method FreeTile(a: nat)
      requires Valid() && a in live
      modifies this
      ensures Valid() && live == old(live) - {a} && free == [a] + old(free) && pools == old(pools)
    {
      hide IsTile, Chain, Accounted, PoolsOk;
      Pushed(pools, tile, live, free, a);
      TileNotZero(pools, tile, a);
      ChainPush(freelist, free, mem, a);
      mem := mem[a := freelist];
      freelist := a;
      live := live - {a};
      free := [a] + free;
    }

    /** A user writes into a tile of his own; this disturbs nothing. */
    method UserWrites(a: nat, offset: nat, v: nat)
      requires Valid() && a in live && offset < tile
      modifies this`mem
      ensures Valid()
    {
      hide IsTile, Chain, PoolsOk;
      forall i | 0 <= i < |free| ensures free[i] != a + offset {
        assert free[i] in free && free[i] != a;
        TilesApart(pools, tile, free[i], a);
      }
      ChainWrite(freelist, free, mem, a + offset, v);
      mem := mem[a + offset := v];
    }
  }

  lemma TileNotZero(ps: seq<Pool>, tile: nat, a: nat)
    requires PoolsOk(ps, tile) && IsTile(ps, tile, a)
    ensures a != 0
  {
  }

  lemma UnusedPool(ps: seq<Pool>, p: Pool, tile: nat, a: nat)
    requires p.used == 0
    ensures IsTile(ps + [p], tile, a) <==> IsTile(ps, tile, a)
  {
    var ps' := ps + [p];
    if IsTile(ps, tile, a) {
      var q, i: nat :| 0 <= q < |ps| && i < ps[q].used && a == Addr(ps[q], i, tile);
      assert ps'[q] == ps[q];
    }
    if IsTile(ps', tile, a) {
      var q, i: nat :| 0 <= q < |ps'| && i < ps'[q].used && a == Addr(ps'[q], i, tile);
      assert ps'[q] == ps[q];
    }
  }

  lemma OneMoreTile(ps: seq<Pool>, k: nat, tile: nat, a: nat)
    requires k < |ps|
    ensures IsTile(ps[k := ps[k].(used := ps[k].used + 1)], tile, a)
      <==> IsTile(ps, tile, a) || a == Addr(ps[k], ps[k].used, tile)
  {
    var ps' := ps[k := ps[k].(used := ps[k].used + 1)];
    if IsTile(ps, tile, a) {
      var q, i: nat :| 0 <= q < |ps| && i < ps[q].used && a == Addr(ps[q], i, tile);
      assert a == Addr(ps'[q], i, tile) && i < ps'[q].used;
    }
    if a == Addr(ps[k], ps[k].used, tile) { assert a == Addr(ps'[k], ps[k].used, tile); }
    if IsTile(ps', tile, a) {
      var q, i: nat :| 0 <= q < |ps'| && i < ps'[q].used && a == Addr(ps'[q], i, tile);
      assert a == Addr(ps[q], i, tile);
    }
  }

  /** The next tile of a pool has not been handed out. */
  lemma NewIsFresh(ps: seq<Pool>, k: nat, tile: nat)
    requires PoolsOk(ps, tile) && k < |ps| && ps[k].used < ps[k].tiles && tile > 0
    ensures var r := Addr(ps[k], ps[k].used, tile); r != 0 && !IsTile(ps, tile, r)
    ensures PoolsOk(ps[k := ps[k].(used := ps[k].used + 1)], tile)
  {
    var ps' := ps[k := ps[k].(used := ps[k].used + 1)];
    forall q, i: nat | 0 <= q < |ps| && i < ps[q].used
      ensures Addr(ps[q], i, tile) != Addr(ps[k], ps[k].used, tile)
    {
      SlotsApart(ps', tile, q, i, k, ps[k].used);
    }
  }
}
