/**
  The order in which devices are listed: sorted by path, but some paths come
  later than their place in the order.
  */
module EnumerateOrder {
  import opened RbTree

  // ---------- comparing ----------

  /** The sign of `memcmp` over the first `n` characters. */
  function MemCmp(a: string, b: string, n: nat): int
    requires n <= |a| && n <= |b|
    decreases n
  {
    if n == 0 then 0
    else if a[0] != b[0] then if a[0] < b[0] then -1 else 1
    else MemCmp(a[1..], b[1..], n - 1)
  }

  function Min(a: nat, b: nat): nat { if a < b then a else b }

  /** Characters first, lengths second. */
  function SyspathCmp(a: string, b: string): int {
    var ret := MemCmp(a, b, Min(|a|, |b|));
    if ret != 0 then ret else if |a| < |b| then -1 else if |a| > |b| then 1 else 0
  }

  /** The comparison of lengths and bytes is the order of `strcmp`. */
  lemma {:induction false} SyspathCmpIsCompare(a: string, b: string)
    ensures SyspathCmp(a, b) == Compare(a, b)
  {
    if a != "" && b != "" && a[0] == b[0] { SyspathCmpIsCompare(a[1..], b[1..]); }
  }

  predicate Lt(a: string, b: string) { Compare(a, b) < 0 }

  /** Strictly increasing. */
  ghost predicate Increasing(ds: seq<string>) { forall i, j :: 0 <= i < j < |ds| ==> Lt(ds[i], ds[j]) }

  /** Strings between two with a common beginning have it too. */
  lemma {:induction false} Between(a: string, b: string, c: string, n: nat)
    requires Lt(a, b) && Lt(b, c) && n <= |a| && n <= |c| && a[..n] == c[..n]
    ensures n <= |b| && b[..n] == a[..n]
  {
    if n > 0 {
      assert a[0] == a[..n][0] && c[0] == c[..n][0];
      assert b != "" && b[0] == a[0];
      assert a[1..][..n - 1] == a[..n][1..] && c[1..][..n - 1] == c[..n][1..];
      Between(a[1..], b[1..], c[1..], n - 1);
      assert b[..n] == [b[0]] + b[1..][..n - 1];
      assert a[..n] == [a[0]] + a[1..][..n - 1];
    }
  }

  // ---------- the delayed paths ----------

  predicate StartsAt(s: string, i: nat, pat: string) { i + |pat| <= |s| && s[i..i + |pat|] == pat }

  /** The first place from `i` on where `pat` occurs, or -1. */
  function StrStr(s: string, i: nat, pat: string): (r: int)
    requires i <= |s|
    ensures r == -1 || (i <= r && StartsAt(s, r, pat))
    ensures r == -1 ==> forall j :: i <= j <= |s| ==> !StartsAt(s, j, pat)
    ensures r >= 0 ==> forall j :: i <= j < r ==> !StartsAt(s, j, pat)
    decreases |s| - i
  {
    if StartsAt(s, i, pat) then i else if i == |s| then -1 else StrStr(s, i + 1, pat)
  }

  /** The place of the first `/` from `i` on, or the end. */
  function SlashFrom(s: string, i: nat): (r: nat)
    requires i <= |s|
    ensures i <= r <= |s|
    decreases |s| - i
  {
    if i == |s| || s[i] == '/' then i else SlashFrom(s, i + 1)
  }

  /** Composed block devices go to the very end. */
  predicate DelayEnd(s: string)
    requires |s| >= 4
  {
    StrStr(s, 4, "/block/md") >= 0 || StrStr(s, 4, "/block/dm-") >= 0
  }

  /** The length of the card's path, with its slash, if `s` is the control device of a sound card; otherwise 0. */
  function DelayLater(s: string): (r: nat)
    ensures r <= |s|
  {
    var c := StrStr(s, 0, "/sound/card");
    if c < 0 then 0
    else
      var c' := SlashFrom(s, c + 11);
      if StartsAt(s, c', "/controlC") then c' + 1 else 0
  }

  /** `strneq`: the first `n` characters agree. */
  predicate SameStart(a: string, b: string, n: nat)
    requires n <= |b|
  {
    n <= |a| && a[..n] == b[..n]
  }

  // ---------- the scan ----------

  datatype Held = Nobody | Holding(path: string)

  /** The list so far, the control device that is held back, and the paths for the end. */
  datatype State = State(out: seq<string>, held: Held, ends: seq<string>)

  predicate AllLong(ds: seq<string>) { forall i :: 0 <= i < |ds| ==> |ds[i]| >= 4 }

  function Flush(st: State): State {
    if st.held.Nobody? then st else State(st.out + [st.held.path], Nobody, st.ends)
  }

  function Step(st: State, x: string): State
    requires |x| >= 4
  {
    if DelayEnd(x) then st.(ends := st.ends + [x])
    else if st.held.Nobody? && DelayLater(x) > 0 then st.(held := Holding(x))
    else
      var st' := if st.held.Holding? && !SameStart(x, st.held.path, DelayLater(st.held.path)) then Flush(st) else st;
      st'.(out := st'.out + [x])
  }

  /** The state after the first `n` of the distinct sorted paths. */
  function Scan(ds: seq<string>, n: nat): State
    requires n <= |ds| && AllLong(ds)
  {
    if n == 0 then State([], Nobody, []) else Step(Scan(ds, n - 1), ds[n - 1])
  }

  function Listing(ds: seq<string>): seq<string>
    requires AllLong(ds)
  {
    var st := Flush(Scan(ds, |ds|));
    st.out + st.ends
  }

  /** Everything listed or waiting, in the order in which it would be listed now. */
  function All(st: State): seq<string> {
    st.out + (if st.held.Nobody? then [] else [st.held.path]) + st.ends
  }

  /** Where a step puts its path into that order. */
  function Place(st: State, x: string): (r: nat)
    requires |x| >= 4
    ensures r <= |All(st)|
  {
    if DelayEnd(x) then |All(st)|
    else if st.held.Holding? && SameStart(x, st.held.path, DelayLater(st.held.path)) then |st.out|
    else |All(st)| - |st.ends|
  }

  lemma StepInserts(st: State, x: string)
    requires |x| >= 4
    ensures var k := Place(st, x); All(Step(st, x)) == All(st)[..k] + [x] + All(st)[k..]
  {
    hide DelayEnd, DelayLater, SameStart;
  }

  lemma ListingIsAll(ds: seq<string>)
    requires AllLong(ds)
    ensures Listing(ds) == All(Scan(ds, |ds|))
  {
  }

  lemma {:induction false} ScanKeeps(ds: seq<string>, n: nat)
    requires n <= |ds| && AllLong(ds)
    ensures multiset(All(Scan(ds, n))) == multiset(ds[..n])
  {
    hide Step, Place, All;
    if n > 0 {
      ScanKeeps(ds, n - 1);
      var st, x := Scan(ds, n - 1), ds[n - 1];
      assert ds[..n] == ds[..n - 1] + [x];
      StepInserts(st, x);
      var k := Place(st, x);
      assert All(st) == All(st)[..k] + All(st)[k..];
    } else {
      NothingYet();
    }
  }

  lemma NothingYet()
    ensures All(State([], Nobody, [])) == [] && Once([])
  {
  }

  /** Every path is listed as often as it was given. */
  lemma ListingKeeps(ds: seq<string>)
    requires AllLong(ds)
    ensures multiset(Listing(ds)) == multiset(ds)
  {
    ListingIsAll(ds);
    ScanKeeps(ds, |ds|);
    assert ds[..|ds|] == ds;
  }

  // ---------- who comes first ----------

  ghost predicate Precedes(s: seq<string>, a: string, b: string) {
    exists i, j :: 0 <= i < j < |s| && s[i] == a && s[j] == b
  }

  lemma OldOrder(s: seq<string>, k: nat, x: string, a: string, b: string)
    requires k <= |s| && a != x && b != x
    ensures Precedes(s[..k] + [x] + s[k..], a, b) <==> Precedes(s, a, b)
  {
    if Precedes(s, a, b) { OrderStays(s, k, x, a, b); }
    if Precedes(s[..k] + [x] + s[k..], a, b) { OrderWas(s, k, x, a, b); }
  }

  lemma OrderStays(s: seq<string>, k: nat, x: string, a: string, b: string)
    requires k <= |s| && Precedes(s, a, b)
    ensures Precedes(s[..k] + [x] + s[k..], a, b)
  {
    var r := s[..k] + [x] + s[k..];
    var i, j :| 0 <= i < j < |s| && s[i] == a && s[j] == b;
    var i', j' := if i < k then i else i + 1, if j < k then j else j + 1;
    assert r[i'] == a && r[j'] == b;
  }

  lemma OrderWas(s: seq<string>, k: nat, x: string, a: string, b: string)
    requires k <= |s| && a != x && b != x && Precedes(s[..k] + [x] + s[k..], a, b)
    ensures Precedes(s, a, b)
  {
    var r := s[..k] + [x] + s[k..];
    var i, j :| 0 <= i < j < |r| && r[i] == a && r[j] == b;
    assert r[k] == x;
    var i', j' := if i < k then i else i - 1, if j < k then j else j - 1;
    assert s[i'] == a && s[j'] == b;
  }

  lemma NewOrder(s: seq<string>, k: nat, x: string, a: string)
    requires k <= |s| && x !in s
    ensures Precedes(s[..k] + [x] + s[k..], a, x) <==> a in s[..k]
  {
    var r := s[..k] + [x] + s[k..];
    assert r[k] == x;
    if a in s[..k] {
      var i :| 0 <= i < k && s[..k][i] == a;
      assert r[i] == a;
    }
    assert forall j :: 0 <= j < |r| && j != k ==> r[j] == s[if j < k then j else j - 1];
    if Precedes(r, a, x) {
      var i, j :| 0 <= i < j < |r| && r[i] == a && r[j] == x;
      assert j == k;
      assert s[..k][i] == a;
    }
  }

  /** The scan holds the path back when it meets it. */
  ghost predicate MetIdle(ds: seq<string>, a: nat)
    requires a < |ds| && AllLong(ds)
  {
    !DelayEnd(ds[a]) && DelayLater(ds[a]) > 0 && Scan(ds, a).held.Nobody?
  }

  /**
    The path is held back: a control device that is met while no earlier one is held.
    That one was held back itself, and only paths of its card and paths for the end lie between.
    */
  ghost predicate WasHeld(ds: seq<string>, a: nat)
    requires a < |ds| && AllLong(ds)
    decreases a
  {
    && !DelayEnd(ds[a]) && DelayLater(ds[a]) > 0
    && forall c :: 0 <= c < a && WasHeld(ds, c) ==> !StaysHeld(ds, c, a)
  }

  /** All paths from `c` to `n` are of the card of `c` or for the end. */
  ghost predicate StaysHeld(ds: seq<string>, c: nat, n: nat)
    requires c < n <= |ds| && AllLong(ds)
  {
    forall m :: c < m < n ==> DelayEnd(ds[m]) || Same(ds, m, c)
  }

  ghost predicate Same(ds: seq<string>, b: nat, a: nat)
    requires a < |ds| && b < |ds|
  {
    SameStart(ds[b], ds[a], DelayLater(ds[a]))
  }

  /** Of two paths in sorted order, the first is listed first. */
  ghost predicate KeepsPlace(ds: seq<string>, a: nat, b: nat)
    requires a < b < |ds| && AllLong(ds)
  {
    if DelayEnd(ds[a]) then DelayEnd(ds[b])
    else DelayEnd(ds[b]) || !(WasHeld(ds, a) && Same(ds, b, a))
  }

  /** What the parts of a state hold. */
  ghost predicate Sound(st: State) {
    && AllOf(st.out, false) && AllOf(st.ends, true)
    && (st.held.Holding? ==> |st.held.path| >= 4 && !DelayEnd(st.held.path))
  }

  /** All paths are for the end, or none is. */
  ghost predicate AllOf(s: seq<string>, end: bool) { forall y :: y in s ==> |y| >= 4 && DelayEnd(y) == end }

  lemma AllOfOn(s: seq<string>, x: string, end: bool)
    requires AllOf(s, end) && |x| >= 4 && DelayEnd(x) == end
    ensures AllOf(s + [x], end)
  {
    hide DelayEnd;
  }

  lemma StepSound(st: State, x: string)
    requires Sound(st) && |x| >= 4
    ensures Sound(Step(st, x))
  {
    hide DelayEnd, DelayLater, SameStart, AllOf;
    if DelayEnd(x) {
      AllOfOn(st.ends, x, true);
    } else {
      AllOfOn(st.out, x, false);
      if st.held.Holding? {
        AllOfOn(st.out, st.held.path, false);
        AllOfOn(st.out + [st.held.path], x, false);
      }
    }
  }

  lemma NothingSound()
    ensures Sound(State([], Nobody, []))
  {
  }

  lemma {:induction false} ScanSound(ds: seq<string>, n: nat)
    requires n <= |ds| && AllLong(ds)
    ensures Sound(Scan(ds, n))
  {
    hide Sound, Step;
    if n > 0 {
      ScanSound(ds, n - 1);
      StepSound(Scan(ds, n - 1), ds[n - 1]);
    } else {
      NothingSound();
    }
  }

  lemma IncreasingDiffer(ds: seq<string>, i: nat, j: nat)
    requires Increasing(ds) && i < |ds| && j < |ds| && i != j
    ensures ds[i] != ds[j]
  {
    CompareIsTotal(ds[i], ds[j]);
  }

  /** In sorted order, once the beginning changes it does not come back. */
  lemma NotAgain(ds: seq<string>, a: nat, m: nat, b: nat)
    requires Increasing(ds) && a < m < b < |ds| && !Same(ds, m, a)
    ensures !Same(ds, b, a)
  {
    if Same(ds, b, a) { Between(ds[a], ds[m], ds[b], DelayLater(ds[a])); }
  }

  /** A path that was held back is still held as long as no path of another beginning goes out. */
  lemma {:induction false} HeldStays(ds: seq<string>, n: nat, a: nat)
    requires Increasing(ds) && AllLong(ds) && a < n <= |ds| && MetIdle(ds, a)
    ensures Scan(ds, n).held == Holding(ds[a]) <==> StaysHeld(ds, a, n)
  {
    hide DelayEnd, DelayLater, SameStart, Increasing;
    if n > a + 1 {
      HeldStays(ds, n - 1, a);
      IncreasingDiffer(ds, n - 1, a);
      assert StaysHeld(ds, a, n) <==> StaysHeld(ds, a, n - 1) && (DelayEnd(ds[n - 1]) || Same(ds, n - 1, a));
    }
  }

  lemma {:induction false} HeldIs(ds: seq<string>, n: nat) returns (c: nat)
    requires n <= |ds| && AllLong(ds) && Scan(ds, n).held.Holding?
    ensures c < n && Scan(ds, n).held.path == ds[c] && DelayLater(ds[c]) > 0
  {
    hide DelayEnd, DelayLater, SameStart;
    if Scan(ds, n - 1).held == Scan(ds, n).held { c := HeldIs(ds, n - 1); } else { c := n - 1; }
  }

  /** What the scan does is what the paths say. */
  lemma {:induction false} WasHeldIs(ds: seq<string>, a: nat)
    requires Increasing(ds) && AllLong(ds) && a < |ds|
    ensures MetIdle(ds, a) <==> WasHeld(ds, a)
    decreases a
  {
    hide DelayEnd, DelayLater, StaysHeld, Increasing;
    forall c | 0 <= c < a ensures MetIdle(ds, c) <==> WasHeld(ds, c) { WasHeldIs(ds, c); }
    forall c | 0 <= c < a && WasHeld(ds, c) ensures StaysHeld(ds, c, a) <==> Scan(ds, a).held == Holding(ds[c]) {
      HeldStays(ds, a, c);
    }
    if Scan(ds, a).held.Holding? {
      var c := HeldIs(ds, a);
      HeldWas(ds, a, c);
    }
  }

  /** A path held back earlier shares its beginning with the next path only if it is the one still held. */
  lemma StillHeld(ds: seq<string>, a: nat, n: nat)
    requires Increasing(ds) && AllLong(ds) && a < n < |ds| && MetIdle(ds, a) && Same(ds, n, a)
    ensures Scan(ds, n).held == Holding(ds[a])
  {
    HeldStays(ds, n, a);
    if !StaysHeld(ds, a, n) {
      var m :| a < m < n && !DelayEnd(ds[m]) && !Same(ds, m, a);
      NotAgain(ds, a, m, n);
    }
  }

  lemma Seen(ds: seq<string>, n: nat, i: nat)
    requires Increasing(ds) && AllLong(ds) && n <= |ds| && i < |ds|
    ensures ds[i] in All(Scan(ds, n)) <==> i < n
  {
    hide All, Scan;
    var s := All(Scan(ds, n));
    ScanKeeps(ds, n);
    assert ds[i] in s <==> ds[i] in multiset(s);
    assert ds[i] in multiset(ds[..n]) <==> ds[i] in ds[..n];
    if i < n { assert ds[..n][i] == ds[i]; }
    if ds[i] in ds[..n] {
      var j :| 0 <= j < n && ds[..n][j] == ds[i];
      if j != i { IncreasingDiffer(ds, i, j); }
    }
  }

  ghost predicate Once(s: seq<string>) { forall i, j :: 0 <= i < j < |s| ==> s[i] != s[j] }

  lemma {:induction false} SeenOnce(ds: seq<string>, n: nat)
    requires Increasing(ds) && AllLong(ds) && n <= |ds|
    ensures Once(All(Scan(ds, n)))
  {
    hide Place, All, Step, Once;
    if n > 0 {
      SeenOnce(ds, n - 1);
      var st, x := Scan(ds, n - 1), ds[n - 1];
      Seen(ds, n - 1, n - 1);
      StepInserts(st, x);
      InsertOnce(All(st), Place(st, x), x);
    } else {
      NothingYet();
    }
  }

  lemma InsertOnce(s: seq<string>, k: nat, x: string)
    requires k <= |s| && x !in s && Once(s)
    ensures Once(s[..k] + [x] + s[k..])
  {
    var r := s[..k] + [x] + s[k..];
    assert forall j :: 0 <= j < |r| && j != k ==> r[j] == s[if j < k then j else j - 1];
    assert r[k] == x;
  }

  /** The place of a path is behind exactly the earlier paths that keep their place before it. */
  lemma PlacedBehind(ds: seq<string>, n: nat, a: nat)
    requires Increasing(ds) && AllLong(ds) && a < n < |ds|
    ensures var st := Scan(ds, n); ds[a] in All(st)[..Place(st, ds[n])] <==> KeepsPlace(ds, a, n)
  {
    var st, x := Scan(ds, n), ds[n];
    SeenOnce(ds, n);
    Seen(ds, n, a);
    ScanSound(ds, n);
    var y := ds[a];
    assert y in All(st);
    WasHeldIs(ds, a);
    if !DelayEnd(x) && !DelayEnd(y) && MetIdle(ds, a) && Same(ds, n, a) { StillHeld(ds, a, n); }
    if st.held.Holding? && st.held.path == y { HeldWas(ds, n, a); }
    Parts(st, y, x);
  }

  lemma HeldInAll(st: State)
    ensures st.held.Holding? ==> st.held.path in All(st)
  {
  }

  /** Only a path that was held back is held. */
  lemma {:induction false} HeldWas(ds: seq<string>, n: nat, a: nat)
    requires Increasing(ds) && AllLong(ds) && a < n <= |ds| && Scan(ds, n).held == Holding(ds[a])
    ensures MetIdle(ds, a)
  {
    hide DelayEnd, DelayLater, SameStart;
    Seen(ds, n - 1, a);
    if a != n - 1 {
      IncreasingDiffer(ds, a, n - 1);
      HeldWas(ds, n - 1, a);
    } else {
      HeldInAll(Scan(ds, n - 1));
    }
  }

  lemma Parts(st: State, y: string, x: string)
    requires Sound(st) && y in All(st) && |y| >= 4 && |x| >= 4
    requires Once(All(st))
    ensures y in All(st)[..Place(st, x)] <==>
      if DelayEnd(y) then DelayEnd(x)
      else DelayEnd(x) || !(st.held == Holding(y) && SameStart(x, y, DelayLater(y)))
  {
    hide DelayEnd, DelayLater, SameStart;
    var s := All(st);
    var mid := if st.held.Nobody? then [] else [st.held.path];
    assert s == st.out + mid + st.ends;
    assert s[..|s|] == s && s[..|st.out|] == st.out && s[..|s| - |st.ends|] == st.out + mid;
    if st.held == Holding(y) { NotInPart(s, |st.out|, y); }
  }

  lemma NotInPart(s: seq<string>, n: nat, y: string)
    requires n < |s| && s[n] == y && Once(s)
    ensures y !in s[..n]
  {
  }

  /**
    Of two paths, the one that sorts first is listed first, except that composed block devices
    go to the end and a control device waits for its card.
    */
  lemma {:induction false} OrderAt(ds: seq<string>, n: nat, a: nat, b: nat)
    requires Increasing(ds) && AllLong(ds) && a < b < n <= |ds|
    ensures Precedes(All(Scan(ds, n)), ds[a], ds[b]) <==> KeepsPlace(ds, a, b)
  {
    hide Place, All, Step, KeepsPlace, Precedes;
    var st, x := Scan(ds, n - 1), ds[n - 1];
    var s, k := All(st), Place(st, x);
    StepInserts(st, x);
    Seen(ds, n - 1, n - 1);
    if b == n - 1 {
      NewOrder(s, k, x, ds[a]);
      PlacedBehind(ds, b, a);
    } else {
      IncreasingDiffer(ds, a, n - 1);
      IncreasingDiffer(ds, b, n - 1);
      OldOrder(s, k, x, ds[a], ds[b]);
      OrderAt(ds, n - 1, a, b);
    }
  }

  lemma ListingOrder(ds: seq<string>, a: nat, b: nat)
    requires Increasing(ds) && AllLong(ds) && a < b < |ds|
    ensures Precedes(Listing(ds), ds[a], ds[b]) <==> KeepsPlace(ds, a, b)
  {
    ListingIsAll(ds);
    OrderAt(ds, |ds|, a, b);
  }

  // ---------- consequences ----------

  lemma {:induction false} PrefixLt(p: string, q: string)
    requires |p| < |q| && q[..|p|] == p
    ensures Lt(p, q)
  {
    if p != "" {
      assert p[0] == q[..|p|][0] && p[1..] == q[1..][..|p| - 1];
      PrefixLt(p[1..], q[1..]);
    }
  }

  lemma EndOfPrefix(p: string, q: string)
    requires 4 <= |p| < |q| && q[..|p|] == p && DelayEnd(p)
    ensures DelayEnd(q)
  {
    var r, s := StrStr(p, 4, "/block/md"), StrStr(p, 4, "/block/dm-");
    assert r >= 0 ==> q[r..r + 9] == q[..|p|][r..r + 9];
    assert s >= 0 ==> q[s..s + 10] == q[..|p|][s..s + 10];
    assert r >= 0 ==> StartsAt(q, r, "/block/md");
    assert s >= 0 ==> StartsAt(q, s, "/block/dm-");
  }

  /** A parent that is not a control device itself is listed before its children. */
  lemma ParentFirst(ds: seq<string>, a: nat, b: nat)
    requires Increasing(ds) && AllLong(ds) && a < |ds| && b < |ds|
    requires |ds[a]| < |ds[b]| && ds[b][..|ds[a]|] == ds[a] && DelayLater(ds[a]) == 0
    ensures Precedes(Listing(ds), ds[a], ds[b])
  {
    PrefixLt(ds[a], ds[b]);
    CompareIsTotal(ds[a], ds[b]);
    assert Increasing(ds);
    assert a < b;
    if DelayEnd(ds[a]) { EndOfPrefix(ds[a], ds[b]); }
    ListingOrder(ds, a, b);
  }

  lemma {:induction false} StrStrAt(s: string, i: nat, pat: string, r: nat)
    requires i <= r <= |s| && StartsAt(s, r, pat) && forall j :: i <= j < r ==> !StartsAt(s, j, pat)
    ensures StrStr(s, i, pat) == r
    decreases r - i
  {
    if i < r { StrStrAt(s, i + 1, pat, r); }
  }

  lemma StartsChar(s: string, j: nat, pat: string, i: nat)
    requires i < |pat|
    ensures StartsAt(s, j, pat) ==> j + i < |s| && s[j + i] == pat[i]
  {
    if j + |pat| <= |s| { assert s[j..j + |pat|][i] == s[j + i]; }
  }

  lemma NoB(s: string)
    requires |s| >= 4 && 'b' !in s
    ensures !DelayEnd(s)
  {
    forall j | 4 <= j <= |s| ensures !StartsAt(s, j, "/block/md") && !StartsAt(s, j, "/block/dm-") {
      StartsChar(s, j, "/block/md", 1);
      StartsChar(s, j, "/block/dm-", 1);
      assert j + 1 < |s| ==> s[j + 1] in s;
    }
  }

  lemma ControlPath(n: char, rest: string)
    requires n != '/' && n != 'b' && 'b' !in rest
    ensures var s := "/sys/sound/card" + [n] + "/controlC" + rest; |s| >= 4 && !DelayEnd(s) && DelayLater(s) == 17
  {
    var s := "/sys/sound/card" + [n] + "/controlC" + rest;
    NoB(s);
    assert s[4..15] == "/sound/card";
    assert s[16..25] == "/controlC";
    forall j | 0 <= j < 4 ensures !StartsAt(s, j, "/sound/card") {
      StartsChar(s, j, "/sound/card", 0);
      StartsChar(s, j, "/sound/card", 2);
    }
    StrStrAt(s, 0, "/sound/card", 4);
    assert SlashFrom(s, 15) == 16;
  }

  lemma {:induction false} LtAt(a: string, b: string, n: nat)
    requires n < |a| && n < |b| && a[n] < b[n] && a[..n] == b[..n]
    ensures Lt(a, b)
  {
    if n > 0 {
      assert a[0] == a[..n][0] && b[0] == b[..n][0];
      assert a[1..][..n - 1] == a[..n][1..] && b[1..][..n - 1] == b[..n][1..];
      LtAt(a[1..], b[1..], n - 1);
    }
  }

  /** Only one control device is held at a time: one that is met while another card's is held goes out at once. */
  lemma SecondIsNotHeld(c0: string, c1: string, p1: string)
    requires |c0| >= 4 && |c1| >= 4 && |p1| >= 4 && !DelayEnd(c0) && !DelayEnd(c1) && Lt(c0, c1) && Lt(c1, p1)
    requires DelayLater(c0) > 0 && DelayLater(c1) > 0 && !SameStart(c1, c0, DelayLater(c0))
    ensures AllLong([c0, c1, p1]) && Increasing([c0, c1, p1]) && Precedes(Listing([c0, c1, p1]), c1, p1)
  {
    hide DelayEnd, DelayLater, Compare;
    var ds := [c0, c1, p1];
    CompareIsTransitive(c0, c1, p1);
    assert WasHeld(ds, 0) && StaysHeld(ds, 0, 1);
    ListingOrder(ds, 1, 2);
  }

  /** So a control device need not be the last of its card. */
  lemma ControlDeviceNotLast() returns (ds: seq<string>, a: nat, b: nat)
    ensures a < b < |ds| && AllLong(ds) && Increasing(ds) && !DelayEnd(ds[a]) && !DelayEnd(ds[b])
    ensures DelayLater(ds[a]) > 0 && SameStart(ds[b], ds[a], DelayLater(ds[a])) && Precedes(Listing(ds), ds[a], ds[b])
  {
    hide DelayEnd, DelayLater, Increasing, Listing, Precedes, AllLong;
    var c0, c1, p1 := CardPaths();
    SecondIsNotHeld(c0, c1, p1);
    ds, a, b := [c0, c1, p1], 1, 2;
  }

  lemma CardPaths() returns (c0: string, c1: string, p1: string)
    ensures |c0| >= 4 && |c1| >= 4 && |p1| >= 4 && !DelayEnd(c0) && !DelayEnd(c1) && !DelayEnd(p1)
    ensures DelayLater(c0) == 17 && DelayLater(c1) == 17 && Lt(c0, c1) && Lt(c1, p1)
    ensures !SameStart(c1, c0, 17) && SameStart(p1, c1, 17)
  {
    hide DelayEnd, DelayLater, Compare;
    var base := "/sys/sound/card";
    c0, c1, p1 := base + ['0'] + "/controlC" + "0", base + ['1'] + "/controlC" + "1", base + ['1'] + "/pcm";
    ControlPath('0', "0");
    ControlPath('1', "1");
    LtAt(c0, c1, 15);
    LtAt(c1, p1, 17);
    assert c0[..17][15] != c1[..17][15];
    assert p1[..17] == c1[..17];
    NoB(p1);
  }

  // ---------- when a control device is last ----------

  /** `d` is the directory of the card whose control device is `a`. */
  predicate CardDirectory(d: string, a: string) { DelayLater(a) > 0 && d == a[..DelayLater(a) - 1] }

  lemma {:induction false} SlashIs(s: string, i: nat, r: nat)
    requires i <= r <= |s| && (forall j :: i <= j < r ==> s[j] != '/') && (r < |s| ==> s[r] == '/')
    ensures SlashFrom(s, i) == r
    decreases r - i
  {
    if i < r { SlashIs(s, i + 1, r); }
  }

  lemma {:induction false} SlashIsFirst(s: string, i: nat)
    requires i <= |s|
    ensures var r := SlashFrom(s, i); (forall j :: i <= j < r ==> s[j] != '/') && (r < |s| ==> s[r] == '/')
    decreases |s| - i
  {
    if i < |s| && s[i] != '/' { SlashIsFirst(s, i + 1); }
  }

  /** What makes a path a control device. */
  lemma ControlIs(s: string)
    requires DelayLater(s) > 0
    ensures var c, k := StrStr(s, 0, "/sound/card"), DelayLater(s);
      && 0 <= c && c + 11 < k <= |s|
      && SlashFrom(s, c + 11) == k - 1 && s[k - 1] == '/' && StartsAt(s, k - 1, "/controlC")
  {
    hide StartsAt, StrStr, SlashFrom;
    var c := StrStr(s, 0, "/sound/card");
    CardFits(s);
    assert StartsAt(s, SlashFrom(s, c + 11), "/controlC");
    StartsChar(s, SlashFrom(s, c + 11), "/controlC", 0);
  }

  lemma CardFits(s: string)
    ensures var c := StrStr(s, 0, "/sound/card"); c >= 0 ==> c + 11 <= |s|
  {
    hide StrStr;
  }

  lemma StartsAtPrefix(s: string, t: string, n: nat, j: nat, pat: string)
    requires n <= |s| && n <= |t| && s[..n] == t[..n] && j + |pat| <= n
    ensures StartsAt(s, j, pat) <==> StartsAt(t, j, pat)
  {
    assert s[j..j + |pat|] == s[..n][j..j + |pat|] && t[j..j + |pat|] == t[..n][j..j + |pat|];
  }

  /** The first card in a path is in any path with the same beginning up to behind it. */
  lemma FirstCard(s: string, t: string, n: nat)
    requires n <= |s| && n <= |t| && s[..n] == t[..n]
    requires var c := StrStr(s, 0, "/sound/card"); 0 <= c && c + 11 <= n
    ensures StrStr(t, 0, "/sound/card") == StrStr(s, 0, "/sound/card")
  {
    var c := StrStr(s, 0, "/sound/card");
    StartsAtPrefix(s, t, n, c, "/sound/card");
    forall j | 0 <= j < c ensures !StartsAt(t, j, "/sound/card") { StartsAtPrefix(s, t, n, j, "/sound/card"); }
    StrStrAt(t, 0, "/sound/card", c);
  }

  /** The directory of a card is no control device, and does not share the card of another one. */
  lemma DirectoryIsPlain(d: string, a: string)
    requires CardDirectory(d, a)
    ensures DelayLater(d) == 0
  {
    ControlIs(a);
    var c, n := StrStr(a, 0, "/sound/card"), |d|;
    assert a[..n] == d[..n];
    FirstCard(a, d, n);
    SlashIsFirst(a, c + 11);
    SlashIs(d, c + 11, n);
  }

  lemma DirectoryGoesOut(d: string, a: string)
    requires CardDirectory(d, a) && |d| >= 4 && |a| >= 4 && !DelayEnd(a)
    ensures DelayLater(a) > 0 && DelayLater(d) == 0 && !DelayEnd(d)
  {
    hide DelayEnd;
    DirectoryIsPlain(d, a);
    if DelayEnd(d) { EndOfPrefix(d, a); }
  }

  lemma DirectoryIsApart(d: string, a: string, o: string)
    requires CardDirectory(d, a) && DelayLater(o) > 0
    ensures !SameStart(d, o, DelayLater(o))
  {
    hide StartsAt, StrStr, SlashFrom;
    ControlIs(a);
    ControlIs(o);
    var k := DelayLater(o);
    if SameStart(d, o, k) {
      var n := DelayLater(a) - 1;
      assert a[..k] == a[..n][..k] == o[..k];
      FirstCard(o, a, k);
      var c := StrStr(o, 0, "/sound/card");
      SlashIsFirst(o, c + 11);
      assert forall j :: 0 <= j < k ==> a[..k][j] == a[j] && o[..k][j] == o[j];
      SlashIs(a, c + 11, k - 1);
      assert false;
    }
  }

  /**
    Held back for sure: the card's directory is listed, and no other control device sorts
    between it and the control device.
    */
  lemma HeldBehindDirectory(ds: seq<string>, d: nat, a: nat)
    requires AllLong(ds) && d < a < |ds| && CardDirectory(ds[d], ds[a]) && !DelayEnd(ds[a])
    requires forall m :: d < m < a ==> DelayLater(ds[m]) == 0
    ensures WasHeld(ds, a)
  {
    hide DelayEnd, DelayLater, SameStart, CardDirectory;
    DirectoryGoesOut(ds[d], ds[a]);
    forall c | 0 <= c < a && WasHeld(ds, c) ensures !StaysHeld(ds, c, a) {
      assert c < d;
      DirectoryIsApart(ds[d], ds[a], ds[c]);
      assert !Same(ds, d, c);
    }
  }

  /** Then it is listed after every other path of its card. */
  lemma ControlDeviceLast(ds: seq<string>, d: nat, a: nat, b: nat)
    requires Increasing(ds) && AllLong(ds) && d < a < |ds| && CardDirectory(ds[d], ds[a]) && !DelayEnd(ds[a])
    requires forall m :: d < m < a ==> DelayLater(ds[m]) == 0
    requires b < |ds| && b != a && !DelayEnd(ds[b]) && Same(ds, b, a)
    ensures Precedes(Listing(ds), ds[b], ds[a])
  {
    HeldBehindDirectory(ds, d, a);
    if a < b {
      ListingOrder(ds, a, b);
      ListedEither(ds, a, b);
    } else {
      SortsBehindDirectory(ds, d, a, b);
      ListingOrder(ds, b, a);
    }
  }

  /** Two control devices of one card begin with the same path of the card. */
  lemma SameCard(x: string, y: string)
    requires DelayLater(x) > 0 && DelayLater(y) > 0 && SameStart(x, y, DelayLater(y))
    ensures DelayLater(x) == DelayLater(y)
  {
    hide StartsAt, StrStr, SlashFrom;
    ControlIs(x);
    ControlIs(y);
    var k, c := DelayLater(y), StrStr(y, 0, "/sound/card");
    FirstCard(y, x, k);
    SlashIsFirst(y, c + 11);
    assert forall j :: 0 <= j < k ==> x[..k][j] == x[j] && y[..k][j] == y[j];
    SlashIs(x, c + 11, k - 1);
  }

  /** A control device is listed after every other path of its card, those for the end aside. */
  ghost predicate LastOfCard(ds: seq<string>, a: nat)
    requires a < |ds| && AllLong(ds)
  {
    forall b :: 0 <= b < |ds| && b != a && !DelayEnd(ds[b]) && Same(ds, b, a) ==> Precedes(Listing(ds), ds[b], ds[a])
  }

  /** No path of the card of `a` sorts behind `a`, those for the end aside. */
  ghost predicate NoneBehind(ds: seq<string>, a: nat)
    requires a < |ds| && AllLong(ds)
  {
    forall b :: a < b < |ds| && Same(ds, b, a) ==> DelayEnd(ds[b])
  }

  /**
    A control device is the last of its card exactly when it was held back, or sorts
    behind all other paths of the card, and no control device of the card before it was.
    */
  lemma LastOfCardIff(ds: seq<string>, a: nat)
    requires Increasing(ds) && AllLong(ds) && a < |ds| && DelayLater(ds[a]) > 0 && !DelayEnd(ds[a])
    ensures LastOfCard(ds, a) <==>
      && (WasHeld(ds, a) || NoneBehind(ds, a))
      && forall c :: 0 <= c < a && WasHeld(ds, c) ==> !Same(ds, a, c)
  {
    hide DelayEnd, DelayLater, SameStart, WasHeld, Listing, Precedes, Increasing;
    forall b | 0 <= b < |ds| && b != a && !DelayEnd(ds[b]) && Same(ds, b, a)
      ensures Precedes(Listing(ds), ds[b], ds[a])
        <==> if a < b then WasHeld(ds, a) else !(WasHeld(ds, b) && Same(ds, a, b))
    {
      AgainstCard(ds, a, b);
    }
    forall c | 0 <= c < a && WasHeld(ds, c) && Same(ds, a, c) ensures Same(ds, c, a) && !DelayEnd(ds[c]) {
      HeldIsControl(ds, c);
      SameBack(ds, a, c);
    }
  }

  lemma AgainstCard(ds: seq<string>, a: nat, b: nat)
    requires Increasing(ds) && AllLong(ds) && a < |ds| && b < |ds| && a != b
    requires !DelayEnd(ds[a]) && !DelayEnd(ds[b]) && Same(ds, b, a)
    ensures Precedes(Listing(ds), ds[b], ds[a])
      <==> if a < b then WasHeld(ds, a) else !(WasHeld(ds, b) && Same(ds, a, b))
  {
    hide DelayEnd, DelayLater, SameStart, WasHeld, Listing, Precedes;
    if a < b {
      ListingOrder(ds, a, b);
      ListedEither(ds, a, b);
      ListedOneWay(ds, a, b);
    } else {
      ListingOrder(ds, b, a);
    }
  }

  lemma HeldIsControl(ds: seq<string>, c: nat)
    requires c < |ds| && AllLong(ds) && WasHeld(ds, c)
    ensures DelayLater(ds[c]) > 0 && !DelayEnd(ds[c])
  {
  }

  lemma SameBack(ds: seq<string>, a: nat, c: nat)
    requires a < |ds| && c < |ds| && DelayLater(ds[a]) > 0 && DelayLater(ds[c]) > 0 && Same(ds, a, c)
    ensures Same(ds, c, a)
  {
    SameCard(ds[a], ds[c]);
  }

  /** Nothing is listed twice, so of two paths only one comes first. */
  lemma ListedOneWay(ds: seq<string>, a: nat, b: nat)
    requires Increasing(ds) && AllLong(ds) && a < |ds| && b < |ds|
    ensures !(Precedes(Listing(ds), ds[a], ds[b]) && Precedes(Listing(ds), ds[b], ds[a]))
  {
    ListingIsAll(ds);
    SeenOnce(ds, |ds|);
    hide Listing, All, Scan;
  }

  lemma SortsBehindDirectory(ds: seq<string>, d: nat, a: nat, b: nat)
    requires Increasing(ds) && d < |ds| && a < |ds| && b < |ds| && CardDirectory(ds[d], ds[a]) && Same(ds, b, a)
    ensures d < b
  {
    var n := DelayLater(ds[a]) - 1;
    assert ds[b][..n] == ds[b][..n + 1][..n] == ds[d];
    PrefixLt(ds[d], ds[b]);
    CompareIsTotal(ds[d], ds[b]);
  }

  /** Of two different paths one comes first. */
  lemma ListedEither(ds: seq<string>, a: nat, b: nat)
    requires Increasing(ds) && AllLong(ds) && a < |ds| && b < |ds| && a != b
    ensures Precedes(Listing(ds), ds[a], ds[b]) || Precedes(Listing(ds), ds[b], ds[a])
  {
    hide Listing, Scan, All, Increasing;
    ListingIsAll(ds);
    Seen(ds, |ds|, a);
    Seen(ds, |ds|, b);
    IncreasingDiffer(ds, a, b);
    var s := Listing(ds);
    var i :| 0 <= i < |s| && s[i] == ds[a];
    var j :| 0 <= j < |s| && s[j] == ds[b];
  }

  // ---------- which paths are delayed ----------

  lemma StartsSplit(s: string, j: nat, pat: string)
    requires StartsAt(s, j, pat)
    ensures s == s[..j] + pat + s[j + |pat|..]
  {
  }

  lemma SplitStarts(a: string, pat: string, b: string)
    ensures StartsAt(a + pat + b, |a|, pat)
  {
  }

  /** A path goes to the end exactly when it has one of the two parts behind `/sys`. */
  lemma DelayEndIff(s: string)
    requires |s| >= 4
    ensures DelayEnd(s) <==>
      || (exists a, b :: |a| >= 4 && s == a + "/block/md" + b)
      || (exists a, b :: |a| >= 4 && s == a + "/block/dm-" + b)
  {
    PartIff(s, "/block/md");
    PartIff(s, "/block/dm-");
  }

  lemma PartIff(s: string, pat: string)
    requires |s| >= 4
    ensures StrStr(s, 4, pat) >= 0 <==> exists a, b :: |a| >= 4 && s == a + pat + b
  {
    var r := StrStr(s, 4, pat);
    if r >= 0 {
      StartsSplit(s, r, pat);
      assert |s[..r]| >= 4;
    }
    if a, b :| |a| >= 4 && s == a + pat + b {
      SplitStarts(a, pat, b);
      assert StartsAt(s, |a|, pat) && |a| <= |s|;
    }
  }

  /** Where the first part is, in terms of splits. */
  lemma FirstIff(s: string, pat: string, a: string, b: string)
    requires s == a + pat + b
    ensures StrStr(s, 0, pat) == |a| <==> forall c, d :: s == c + pat + d ==> |a| <= |c|
  {
    hide StartsAt;
    SplitStarts(a, pat, b);
    var r := StrStr(s, 0, pat);
    if r < |a| { StartsSplit(s, r, pat); }
    forall c, d | s == c + pat + d ensures r <= |c| { SplitStarts(c, pat, d); }
  }

  /** No `/sound/card` starts in `s` before the end of `a`. */
  ghost predicate NoEarlierCard(s: string, a: string) { forall c, d :: s == c + "/sound/card" + d ==> |a| <= |c| }

  lemma FirstCardIff(s: string, a: string, b: string)
    requires s == a + "/sound/card" + b
    ensures StrStr(s, 0, "/sound/card") == |a| <==> NoEarlierCard(s, a)
  {
    FirstIff(s, "/sound/card", a, b);
  }

  /** `s` is `a`, the first `/sound/card`, the rest of the card's name, `/controlC`, and `b`. */
  ghost predicate ControlParts(s: string, a: string, card: string, b: string) {
    s == a + "/sound/card" + (card + "/controlC" + b) && '/' !in card && NoEarlierCard(s, a)
  }

  /** A path is a control device exactly when it has these parts, and they say how long the path of its card is. */
  lemma DelayLaterIff(s: string, n: nat)
    ensures n > 0 && DelayLater(s) == n <==>
      exists a, card, b :: ControlParts(s, a, card, b) && n == |a + "/sound/card" + card + "/"|
  {
    hide ControlParts, DelayLater;
    if n > 0 && DelayLater(s) == n { var a, card, b := ControlSplit(s); }
    if a, card, b :| ControlParts(s, a, card, b) && n == |a + "/sound/card" + card + "/"| {
      SplitControl(s, a, card, b);
    }
  }

  lemma ControlSplit(s: string) returns (a: string, card: string, b: string)
    requires DelayLater(s) > 0
    ensures ControlParts(s, a, card, b) && DelayLater(s) == |a + "/sound/card" + card + "/"|
  {
    hide StartsAt, StrStr, SlashFrom, DelayLater, NoEarlierCard;
    ControlIs(s);
    var c, k := StrStr(s, 0, "/sound/card"), DelayLater(s) - 1;
    CardStarts(s);
    ControlFits(s, k);
    a, card, b := s[..c], s[c + 11..k], s[k + 9..];
    ControlRest(s, c + 11, k);
    SlashIsFirst(s, c + 11);
    FirstCardIff(s, a, s[c + 11..]);
  }

  lemma CardStarts(s: string)
    requires StrStr(s, 0, "/sound/card") >= 0
    ensures var c := StrStr(s, 0, "/sound/card"); c + 11 <= |s| && s == s[..c] + "/sound/card" + s[c + 11..]
  {
    CardFits(s);
    hide StrStr, StartsAt;
    StartsSplit(s, StrStr(s, 0, "/sound/card"), "/sound/card");
  }

  lemma ControlRest(s: string, i: nat, k: nat)
    requires i <= k <= |s| && StartsAt(s, k, "/controlC")
    ensures k + 9 <= |s| && s[i..] == s[i..k] + "/controlC" + s[k + 9..]
  {
    ControlFits(s, k);
    assert s[i..] == s[i..k] + s[k..k + 9] + s[k + 9..];
  }

  lemma ControlFits(s: string, k: nat)
    requires StartsAt(s, k, "/controlC")
    ensures k + 9 <= |s|
  {
  }

  lemma SplitControl(s: string, a: string, card: string, b: string)
    requires ControlParts(s, a, card, b)
    ensures DelayLater(s) == |a + "/sound/card" + card + "/"|
  {
    var k := |a| + 11 + |card|;
    hide StartsAt, StrStr, SlashFrom, NoEarlierCard;
    FirstCardIff(s, a, card + "/controlC" + b);
    SplitStarts(a + "/sound/card" + card, "/controlC", b);
    assert s == a + "/sound/card" + card + "/controlC" + b;
    SlashBehind(s, a, card, b);
  }

  lemma SlashBehind(s: string, a: string, card: string, b: string)
    requires s == a + "/sound/card" + card + "/controlC" + b && '/' !in card
    ensures |a| + 11 <= |s| && SlashFrom(s, |a| + 11) == |a| + 11 + |card|
  {
    Regroup(a + "/sound/card", card, "/controlC", b);
    NextSlash(a + "/sound/card", card, "/controlC" + b);
  }

  lemma Regroup(w: string, x: string, y: string, z: string)
    ensures w + x + y + z == w + x + (y + z)
  {
  }

  lemma NextSlash(w: string, card: string, rest: string)
    requires '/' !in card && rest != "" && rest[0] == '/'
    ensures SlashFrom(w + card + rest, |w|) == |w| + |card|
  {
    var s := w + card + rest;
    assert s[|w| + |card|] == '/';
    forall j | |w| <= j < |w| + |card| ensures s[j] != '/' { assert s[j] == card[j - |w|]; }
    SlashIs(s, |w|, |w| + |card|);
  }

  /** A path for the end is listed behind every other path. */
  lemma EndsLast(ds: seq<string>, a: nat, b: nat)
    requires Increasing(ds) && AllLong(ds) && a < |ds| && b < |ds| && DelayEnd(ds[a]) && !DelayEnd(ds[b])
    ensures Precedes(Listing(ds), ds[b], ds[a])
  {
    hide DelayEnd, DelayLater, SameStart, Increasing, Listing, Precedes;
    if a < b {
      ListingOrder(ds, a, b);
      ListedEither(ds, a, b);
    } else {
      ListingOrder(ds, b, a);
    }
  }
}
