/** The geometry of Robin Hood probing. */
module RobinHood {
  // A table of `n` buckets is seen here only through its home sequence:
  // `homes[i]` is the initial bucket of the entry stored in bucket `i`, or `NONE`
  // when bucket `i` holds no placed entry.  Everything that makes probing correct
  // for the bucket scan, insertion, deletion and rehash loops is a statement about
  // this sequence.


  const NONE := -1

  /** The bucket after `i`, around the table. */
  function NextIdx(n: nat, i: nat): (r: nat)
    requires i < n
    ensures r < n
  {
    if i + 1 == n then 0 else i + 1
  }

  /** The bucket before `i`, around the table. */
  function PrevIdx(n: nat, i: nat): (r: nat)
    requires i < n
    ensures r < n
  {
    if i == 0 then n - 1 else i - 1
  }

  /** Both are the remainders that the table computes, and each undoes the other. */
  lemma IdxAreRemainders(n: nat, i: nat)
    requires i < n
    ensures NextIdx(n, i) == (i + 1) % n
    ensures PrevIdx(n, i) == (n + i - 1) % n
    ensures PrevIdx(n, NextIdx(n, i)) == i == NextIdx(n, PrevIdx(n, i))
  {
    SmallMod(n, if i + 1 < n then i + 1 else 0);
    if i + 1 == n { ModOnce(n, 0); }
    if i > 0 { ModOnce(n, i - 1); } else { SmallMod(n, n - 1); }
  }

  lemma SmallMod(n: nat, x: nat)
    requires x < n
    ensures x % n == x
  {
  }

  lemma ModOnce(n: nat, x: nat)
    requires x < n
    ensures (n + x) % n == x
  {
    assert (n + x) - n == x;
  }

  /** How many steps bucket `i` lies behind bucket `from`. */
  function Dist(n: nat, i: nat, from: nat): (d: nat)
    requires i < n && from < n
    ensures d < n
    ensures d == 0 <==> i == from
  {
    if i >= from then i - from else n + i - from
  }

  ghost predicate Layout(homes: seq<int>) {
    forall i :: 0 <= i < |homes| ==> NONE <= homes[i] < |homes|
  }

  ghost predicate Taken(homes: seq<int>, i: nat)
    requires i < |homes|
  {
    homes[i] >= 0
  }

  /** Distance of the entry in bucket `i` from its initial bucket. */
  ghost function Away(homes: seq<int>, i: nat): (d: nat)
    requires Layout(homes) && i < |homes| && Taken(homes, i)
    ensures d < |homes|
  {
    Dist(|homes|, i, homes[i])
  }

  /** An entry `d` buckets from home may stand in bucket `i` of the table. */
  ghost predicate LeftOk(homes: seq<int>, i: nat, d: nat)
    requires Layout(homes) && i < |homes|
  {
    d > 0 ==>
      var p := PrevIdx(|homes|, i);
      Taken(homes, p) && Away(homes, p) + 1 >= d
  }

  /**
    The Robin Hood invariant: an entry away from home has a taken left
    neighbour that is at most one bucket closer to its own home.
    */
  ghost predicate Ordered(homes: seq<int>) {
    && Layout(homes)
    && forall i :: 0 <= i < |homes| && Taken(homes, i) ==> LeftOk(homes, i, Away(homes, i))
  }

  /** Some bucket is free or holds an entry that is at home. */
  ghost predicate HasStop(homes: seq<int>)
    requires Layout(homes)
  {
    exists z :: 0 <= z < |homes| && (Taken(homes, z) ==> Away(homes, z) == 0)
  }

  /**
    The cut-off of the scan is sound: every bucket from the home of a stored
    entry up to the entry itself is taken by an entry that is at least as far
    from its own home as the scan has walked.
    */
  lemma {:induction false} NoEarlyStop(homes: seq<int>, j: nat, i: nat)
    requires Ordered(homes) && j < |homes| && i < |homes| && Taken(homes, j)
    requires Dist(|homes|, i, homes[j]) <= Away(homes, j)
    ensures Taken(homes, i) && Away(homes, i) >= Dist(|homes|, i, homes[j])
    decreases Away(homes, j) - Dist(|homes|, i, homes[j])
  {
    if i != j {
      var i' := NextIdx(|homes|, i);
      assert Dist(|homes|, i', homes[j]) == Dist(|homes|, i, homes[j]) + 1;
      NoEarlyStop(homes, j, i');
      assert LeftOk(homes, i', Away(homes, i'));
      assert PrevIdx(|homes|, i') == i;
    }
  }

  /**
    Putting an entry with home `h` into bucket `i`, which is free or holds an
    entry closer to home, keeps the invariant.
    */
  lemma PlaceKeepsOrder(homes: seq<int>, i: nat, h: nat)
    requires Ordered(homes) && i < |homes| && h < |homes|
    requires LeftOk(homes, i, Dist(|homes|, i, h))
    requires Taken(homes, i) ==> Away(homes, i) < Dist(|homes|, i, h)
    ensures Ordered(homes[i := h])
  {
    var n, after := |homes|, homes[i := h];
    forall x | 0 <= x < n && Taken(after, x)
      ensures LeftOk(after, x, Away(after, x))
    {
      if x != i {
        assert LeftOk(homes, x, Away(homes, x));
      } else if n > 1 {
        assert PrevIdx(n, i) != i;
      }
    }
  }

  /** Filling a free bucket leaves a stop bucket: the filled one or its right neighbour. */
  lemma PlaceKeepsStop(homes: seq<int>, i: nat, h: nat)
    requires Ordered(homes) && i < |homes| && h < |homes| && !Taken(homes, i)
    ensures Layout(homes[i := h]) && HasStop(homes[i := h])
  {
    var n, after := |homes|, homes[i := h];
    var z := NextIdx(n, i);
    if Taken(homes, z) {
      assert LeftOk(homes, z, Away(homes, z));
      assert PrevIdx(n, z) == i;
    }
    assert Taken(after, z) ==> Away(after, z) == 0;
  }

  /** A displacement does not touch free buckets, so a stop bucket remains while a free one does. */
  lemma FreeIsStop(homes: seq<int>, f: nat)
    requires Layout(homes) && f < |homes| && !Taken(homes, f)
    ensures HasStop(homes)
  {
  }

  /**
    The table while deletion shifts entries back: bucket `hole` is vacant, and
    the entry right of it, which is about to move in, would fit there.
    */
  ghost predicate OrderedExcept(homes: seq<int>, hole: nat) {
    && Layout(homes) && hole < |homes| && !Taken(homes, hole)
    && var n := |homes|;
    && var x := NextIdx(n, hole);
    && (forall i :: 0 <= i < n && i != x && Taken(homes, i) ==> LeftOk(homes, i, Away(homes, i)))
    && (Taken(homes, x) && Away(homes, x) > 0 ==> LeftOk(homes, hole, Away(homes, x) - 1))
  }

  /** Vacating a bucket opens a hole. */
  lemma OpenHole(homes: seq<int>, i: nat)
    requires Ordered(homes) && i < |homes| && Taken(homes, i)
    ensures OrderedExcept(homes[i := NONE], i)
  {
    hide NextIdx, PrevIdx, Dist;
    var n, after := |homes|, homes[i := NONE];
    var x := NextIdx(n, i);
    Neighbours(n, i);
    forall j | 0 <= j < n && j != x && Taken(after, j)
      ensures LeftOk(after, j, Away(after, j))
    {
      assert LeftOk(homes, j, Away(homes, j));
    }
    assert LeftOk(homes, i, Away(homes, i));
    if x != i && Taken(after, x) && Away(after, x) > 1 {
      assert LeftOk(homes, x, Away(homes, x));
      assert PrevIdx(n, i) != i;
    }
  }

  /** Moving the entry right of the hole one bucket back moves the hole one bucket on. */
  lemma ShiftBack(homes: seq<int>, hole: nat)
    requires OrderedExcept(homes, hole)
    requires var x := NextIdx(|homes|, hole); Taken(homes, x) && Away(homes, x) > 0
    ensures var x := NextIdx(|homes|, hole);
            && Dist(|homes|, hole, homes[x]) == Away(homes, x) - 1
            && OrderedExcept(homes[hole := homes[x]][x := NONE], x)
  {
    hide NextIdx, PrevIdx, Dist;
    var n := |homes|;
    var x := NextIdx(n, hole);
    Neighbours(n, hole);
    Neighbours(n, x);
    OneCloser(n, hole, homes[x]);
    var after := homes[hole := homes[x]][x := NONE];
    var y := NextIdx(n, x);
    forall j | 0 <= j < n && j != y && Taken(after, j)
      ensures LeftOk(after, j, Away(after, j))
    {
      if j != hole {
        assert LeftOk(homes, j, Away(homes, j));
        assert PrevIdx(n, j) != hole;
      } else {
        assert Away(after, hole) == Away(homes, x) - 1;
      }
    }
    if Taken(after, y) && Away(after, y) > 0 {
      assert y != hole;
      assert LeftOk(homes, y, Away(homes, y));
    }
  }

  lemma Neighbours(n: nat, i: nat)
    requires i < n
    ensures forall j :: 0 <= j < n ==> (PrevIdx(n, j) == i <==> j == NextIdx(n, i))
    ensures NextIdx(n, i) == i <==> n == 1
    ensures NextIdx(n, NextIdx(n, i)) == i ==> n <= 2
  {
  }

  lemma OneCloser(n: nat, i: nat, h: nat)
    requires i < n && h < n && Dist(n, NextIdx(n, i), h) > 0
    ensures Dist(n, i, h) == Dist(n, NextIdx(n, i), h) - 1
  {
  }

  /** When the hole reaches a free bucket or an entry at home, the invariant is whole again. */
  lemma CloseHole(homes: seq<int>, hole: nat)
    requires OrderedExcept(homes, hole)
    requires var x := NextIdx(|homes|, hole); Taken(homes, x) ==> Away(homes, x) == 0
    ensures Ordered(homes) && HasStop(homes)
  {
    assert !Taken(homes, hole);
  }
}
