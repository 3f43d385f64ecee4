/**
  The enumeration context: an array of paths that is sorted, scanned once, grown
  at its end by the paths for the end of the list, and cut back.  The scan holds at
  most one path back at a time; its variables stand for a state of the scan on
  values, which says in what order the paths are listed.
  */
module Enumerate {
  import opened RbTree
  import opened EnumerateOrder

  ghost predicate NonDecreasing(s: seq<string>) { forall i, j :: 0 <= i < j < |s| ==> Compare(s[i], s[j]) <= 0 }

  /** Sorts by `SyspathCmp`. */
  method SortPaths(s: seq<string>) returns (r: seq<string>)
    ensures NonDecreasing(r) && multiset(r) == multiset(s)
  {
    r := [];
    var n := 0;
    assert NonDecreasing([]);
    hide NonDecreasing;
    while n < |s|
      invariant n <= |s| && NonDecreasing(r) && multiset(r) == multiset(s[..n])
    {
      r := InsertPath(r, s[n]);
      assert s[..n + 1] == s[..n] + [s[n]];
      n := n + 1;
    }
    assert s[..n] == s;
  }

  method InsertPath(r: seq<string>, x: string) returns (r': seq<string>)
    requires NonDecreasing(r)
    ensures NonDecreasing(r') && multiset(r') == multiset(r) + multiset{x}
  {
    hide NonDecreasing, Compare;
    var k := InsertionPoint(r, x);
    InsertSorted(r, k, x);
    InsertHas(r, k, x);
    r' := r[..k] + [x] + r[k..];
  }

  lemma InsertHas(r: seq<string>, k: nat, x: string)
    requires k <= |r|
    ensures multiset(r[..k] + [x] + r[k..]) == multiset(r) + multiset{x}
  {
    assert r == r[..k] + r[k..];
  }

  method InsertionPoint(r: seq<string>, x: string) returns (k: nat)
    requires NonDecreasing(r)
    ensures k <= |r|
    ensures forall i :: 0 <= i < k ==> Compare(r[i], x) <= 0
    ensures forall i :: k <= i < |r| ==> Compare(x, r[i]) <= 0
  {
    k := |r|;
    while k > 0 && SyspathCmp(r[k - 1], x) > 0
      invariant k <= |r|
      invariant forall i :: k <= i < |r| ==> Compare(x, r[i]) <= 0
    {
      SyspathCmpIsCompare(r[k - 1], x);
      CompareIsTotal(r[k - 1], x);
      k := k - 1;
    }
    if k > 0 {
      SyspathCmpIsCompare(r[k - 1], x);
      forall i | 0 <= i < k ensures Compare(r[i], x) <= 0 { AtMost(r[i], r[k - 1], x); }
    }
  }

  lemma AtMost(a: string, b: string, c: string)
    requires (a == b || Compare(a, b) <= 0) && Compare(b, c) <= 0
    ensures Compare(a, c) <= 0
  {
    CompareIsTotal(a, b);
    CompareIsTotal(b, c);
    if Compare(a, b) < 0 && Compare(b, c) < 0 { CompareIsTransitive(a, b, c); }
  }

  lemma InsertSorted(s: seq<string>, k: nat, x: string)
    requires NonDecreasing(s) && k <= |s|
    requires forall i :: 0 <= i < k ==> Compare(s[i], x) <= 0
    requires forall i :: k <= i < |s| ==> Compare(x, s[i]) <= 0
    ensures NonDecreasing(s[..k] + [x] + s[k..])
  {
    hide Compare;
    var r := s[..k] + [x] + s[k..];
    assert r[k] == x;
    assert forall j :: 0 <= j < |r| && j != k ==> r[j] == s[if j < k then j else j - 1];
  }

  /** A sorted array without its repetitions. */
  function Dedup(s: seq<string>): (r: seq<string>)
    ensures s != [] ==> r != [] && r[|r| - 1] == s[|s| - 1]
    ensures forall x :: x in r <==> x in s
  {
    if s == [] then []
    else
      var init, last := s[..|s| - 1], s[|s| - 1];
      assert s == init + [last];
      if init != [] && init[|init| - 1] == last then Dedup(init) else Dedup(init) + [last]
  }

  lemma AllBelow(r: seq<string>, m: string, last: string)
    requires Increasing(r) && r != [] && r[|r| - 1] == m && m != last && Compare(m, last) <= 0
    ensures Increasing(r + [last])
  {
    hide Compare;
    CompareIsTotal(m, last);
    forall i | 0 <= i < |r| ensures Lt(r[i], last) {
      if i < |r| - 1 { CompareIsTransitive(r[i], m, last); }
    }
  }

  lemma {:induction false} DedupIncreases(s: seq<string>)
    requires NonDecreasing(s)
    ensures Increasing(Dedup(s))
  {
    if s != [] {
      var init, last := s[..|s| - 1], s[|s| - 1];
      assert s == init + [last];
      DedupIncreases(init);
      if init != [] && init[|init| - 1] != last {
        assert Compare(s[|init| - 1], s[|init|]) <= 0;
        AllBelow(Dedup(init), init[|init| - 1], last);
      }
    }
  }

  ghost function Whole(ds: seq<string>): State
    requires AllLong(ds)
  {
    Scan(ds, |ds|)
  }

  lemma {:induction false} ScanOfPrefix(ds: seq<string>, x: string, n: nat)
    requires AllLong(ds) && |x| >= 4 && n <= |ds|
    ensures Scan(ds + [x], n) == Scan(ds, n)
  {
    hide Step;
    if n > 0 { ScanOfPrefix(ds, x, n - 1); }
  }

  lemma WholeStep(ds: seq<string>, x: string)
    requires AllLong(ds) && |x| >= 4
    ensures AllLong(ds + [x]) && Whole(ds + [x]) == Step(Whole(ds), x)
  {
    ScanOfPrefix(ds, x, |ds|);
  }

  lemma NothingScanned()
    ensures Dedup([]) == [] && AllLong([]) && Whole([]) == State([], Nobody, [])
  {
  }

  lemma DedupStep(s: seq<string>, i: nat)
    requires i < |s|
    ensures Dedup(s[..i + 1]) == if i > 0 && s[i] == s[i - 1] then Dedup(s[..i]) else Dedup(s[..i]) + [s[i]]
  {
    assert s[..i + 1][..i] == s[..i];
  }

  lemma DedupLong(s: seq<string>)
    requires AllLong(s)
    ensures AllLong(Dedup(s))
  {
    forall i | 0 <= i < |Dedup(s)| ensures |Dedup(s)[i]| >= 4 { assert Dedup(s)[i] in s; }
  }

  class EnumerateContext {
    var devices: seq<string>
    var list: seq<string>
    var uptodate: bool

    ghost predicate Valid()
      reads this
    {
      && AllLong(devices)
      && (uptodate ==> NonDecreasing(devices) && AllLong(Dedup(devices)) && list == Listing(Dedup(devices)))
    }

    constructor ()
      ensures Valid() && devices == []
    {
      devices, list, uptodate := [], [], false;
    }

    /** Adds a path; every path begins with the mount point of sysfs. */
    method SyspathAdd(syspath: string)
      requires Valid() && |syspath| >= 4
      modifies this`devices, this`uptodate
      ensures Valid() && devices == old(devices) + [syspath] && !uptodate
    {
      devices := devices + [syspath];
      uptodate := false;
    }

    /** The list is the delayed order of the distinct paths; the array ends up as the sorted input. */
    method GetListEntry()
      requires Valid()
      modifies this
      ensures Valid() && uptodate
      ensures multiset(devices) == multiset(old(devices))
    {
      if uptodate {
        return;
      }
      list := [];
      var sorted := SortPaths(devices);
      LongStays(devices, sorted);
      DedupLong(sorted);
      devices := sorted;
      hide Dedup, Scan, NonDecreasing, AllLong;
      ScanDevices(sorted);
      AddEnds(|sorted|);
      uptodate := true;
    }

    /** The variables of the loop over the sorted array stand for `st`. */
    ghost predicate Mirrors(st: State, sorted: seq<string>, moveLater: int, prefix: nat)
      reads this
    {
      && list == st.out && devices == sorted + st.ends && -1 <= moveLater < |sorted|
      && if moveLater < 0 then st.held == Nobody
         else st.held == Holding(sorted[moveLater]) && prefix == DelayLater(sorted[moveLater])
    }

    /** One entry that repeats none before it. */
    method ScanOne(sorted: seq<string>, i: nat, later: int, prefix: nat, ghost st: State)
      returns (later': int, prefix': nat)
      requires i < |sorted| && |sorted[i]| >= 4 && Mirrors(st, sorted, later, prefix)
      modifies this`devices, this`list
      ensures Mirrors(Step(st, sorted[i]), sorted, later', prefix')
    {
      var entry := devices[i];
      hide DelayEnd, DelayLater;
      later', prefix' := later, prefix;
      if DelayEnd(entry) {
        devices := devices + [entry];
        return;
      }
      if later' == -1 {
        prefix' := DelayLater(entry);
        if prefix' > 0 {
          later' := i;
          return;
        }
      }
      if later' >= 0 && !SameStart(entry, devices[later'], prefix') {
        list := list + [devices[later']];
        later' := -1;
      }
      list := list + [entry];
    }

    method ScanDevices(sorted: seq<string>)
      requires AllLong(sorted) && devices == sorted && list == []
      modifies this`devices, this`list
      ensures AllLong(Dedup(sorted))
      ensures var st := Whole(Dedup(sorted)); list == Flush(st).out && devices == sorted + st.ends
    {
      hide Dedup, Whole, Step, DelayEnd, DelayLater, SameStart;
      NothingScanned();
      var max := |devices|;
      var i, prev, moveLater, prefix := 0, -1, -1, 0;
      assert sorted[..0] == [];
      while i < max
        invariant 0 <= i <= max == |sorted| && -1 <= prev < i && (prev == -1 <==> i == 0)
        invariant i > 0 ==> sorted[prev] == sorted[i - 1]
        invariant AllLong(Dedup(sorted[..i])) && Mirrors(Whole(Dedup(sorted[..i])), sorted, moveLater, prefix)
      {
        assert devices[i] == sorted[i] && (prev >= 0 ==> devices[prev] == sorted[prev]);
        ghost var ds := Dedup(sorted[..i]);
        DedupStep(sorted, i);
        if prev < 0 || devices[i] != devices[prev] {
          WholeStep(ds, sorted[i]);
          prev := i;
          moveLater, prefix := ScanOne(sorted, i, moveLater, prefix, Whole(ds));
        }
        i := i + 1;
      }
      assert sorted[..i] == sorted;
      if moveLater >= 0 { list := list + [devices[moveLater]]; }
    }

    /** Moves what was put behind the first `max` paths to the list. */
    method AddEnds(max: nat)
      requires max <= |devices|
      modifies this`devices, this`list
      ensures devices == old(devices)[..max] && list == old(list) + old(devices)[max..]
    {
      var i := max;
      while i < |devices|
        invariant max <= i <= |devices| && devices == old(devices)
        invariant list == old(list) + devices[max..i]
      {
        list := list + [devices[i]];
        i := i + 1;
      }
      devices := devices[..max];
    }
  }

  /** The list has every path that was added, exactly once. */
  lemma EachListedOnce(s: seq<string>)
    requires NonDecreasing(s) && AllLong(s)
    ensures AllLong(Dedup(s)) && Once(Listing(Dedup(s)))
    ensures forall x :: x in Listing(Dedup(s)) <==> x in s
  {
    DedupLong(s);
    DedupIncreases(s);
    var ds := Dedup(s);
    ListingKeeps(ds);
    ListingIsAll(ds);
    SeenOnce(ds, |ds|);
    forall x ensures x in Listing(ds) <==> x in s {
      assert x in Listing(ds) <==> x in multiset(Listing(ds));
      assert x in ds <==> x in multiset(ds);
    }
  }

  lemma LongStays(s: seq<string>, r: seq<string>)
    requires AllLong(s) && multiset(r) == multiset(s)
    ensures AllLong(r)
  {
    forall i | 0 <= i < |r| ensures |r[i]| >= 4 {
      assert r[i] in multiset(r);
      assert r[i] in s;
    }
  }

  /** In the list, a composed block device comes behind every path that is none. */
  lemma BlockDevicesLast(e: EnumerateContext, x: string, y: string, a: string, b: string)
    requires e.Valid() && e.uptodate && x in e.devices && y in e.devices
    requires |a| >= 4 && (x == a + "/block/md" + b || x == a + "/block/dm-" + b)
    requires forall c, d :: |c| >= 4 ==> y != c + "/block/md" + d
    requires forall c, d :: |c| >= 4 ==> y != c + "/block/dm-" + d
    ensures Precedes(e.list, y, x)
  {
    hide DelayEnd, Listing, Precedes, Dedup;
    var ds := Dedup(e.devices);
    DelayEndIff(x);
    DelayEndIff(y);
    DedupIncreases(e.devices);
    var i :| 0 <= i < |ds| && ds[i] == x;
    var j :| 0 <= j < |ds| && ds[j] == y;
    EndsLast(ds, i, j);
  }
}
