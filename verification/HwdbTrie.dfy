/**
  The hardware database: a compressed trie of glob patterns.  Each node has a
  prefix, its children by first character, and the values stored for the pattern
  that ends at the node.
  */
module HwdbTrie {

  datatype Edge = Edge(c: char, sub: Trie)
  datatype Value = Value(key: string, value: string)
  datatype Trie = Trie(prefix: string, children: seq<Edge>, values: seq<Value>)

  /** A value together with the pattern it is stored for. */
  datatype Entry = Entry(pattern: string, key: string, value: string)

  predicate Wild(c: char) { c == '*' || c == '?' || c == '[' }

  /** A character that a pattern takes literally. */
  predicate Literal(c: char) { !Wild(c) && c != '\\' }

  predicate Ascii(c: char) { c as int < 128 }

  // ---------- contents ----------

  function Tagged(pattern: string, vs: seq<Value>): seq<Entry> {
    seq(|vs|, i requires 0 <= i < |vs| => Entry(pattern, vs[i].key, vs[i].value))
  }

  /** All stored values below `t`, whose patterns begin with `w`. */
  function Stored(t: Trie, w: string): seq<Entry>
    decreases t, |t.children| + 1
  {
    StoredBelow(t, |t.children|, w + t.prefix) + Tagged(w + t.prefix, t.values)
  }

  /** The same for the first `n` children. */
  function StoredBelow(t: Trie, n: nat, w: string): seq<Entry>
    requires n <= |t.children|
    decreases t, n
  {
    if n == 0 then [] else StoredBelow(t, n - 1, w) + Stored(t.children[n - 1].sub, w + [t.children[n - 1].c])
  }

  /** The length of the longest pattern below `t`. */
  function Longest(t: Trie): nat
    decreases t, |t.children| + 1
  {
    |t.prefix| + LongestBelow(t, |t.children|)
  }

  function LongestBelow(t: Trie, n: nat): nat
    requires n <= |t.children|
    decreases t, n
  {
    if n == 0 then 0
    else
      var rest, last := LongestBelow(t, n - 1), 1 + Longest(t.children[n - 1].sub);
      if rest < last then last else rest
  }

  /** Children are in order, one for each character. */
  ghost predicate WellFormed(t: Trie)
    decreases t
  {
    (forall i :: 0 <= i < |t.children| ==> WellFormed(t.children[i].sub)) && Ordered(t.children)
  }

  /** No pattern has a backslash. */
  ghost predicate Unescaped(t: Trie)
    decreases t
  {
    '\\' !in t.prefix && forall i :: 0 <= i < |t.children| ==> Unescaped(t.children[i].sub) && t.children[i].c != '\\'
  }

  ghost predicate Ordered(cs: seq<Edge>) { forall i, j :: 0 <= i < j < |cs| ==> cs[i].c < cs[j].c }

  // ---------- matching ----------

  /** A literal head takes an equal character, and the empty pattern matches the empty string only. */
  ghost predicate Lawful(glob: (string, string) -> bool) {
    && (forall s :: glob("", s) <==> s == "")
    && (forall c, p, s :: Literal(c) ==> (glob([c] + p, s) <==> s != "" && s[0] == c && glob(p, s[1..])))
  }

  /** A star takes everything. */
  ghost predicate StarTakesAll(glob: (string, string) -> bool) { forall s :: glob("*", s) }

  function Matching(glob: (string, string) -> bool, es: seq<Entry>, q: string): seq<Entry> {
    if es == [] then []
    else Matching(glob, es[..|es| - 1], q) + if glob(es[|es| - 1].pattern, q) then [es[|es| - 1]] else []
  }

  /**
    What a search adds in the subtree `t` entered with `b` in the line buffer: `lit` was
    consumed before, `p` characters of the prefix too.
    */
  function Globbed(glob: (string, string) -> bool, t: Trie, p: nat, lit: string, b: string, q: string): seq<Entry>
    requires p <= |t.prefix|
    decreases t, |t.children| + 1
  {
    var b' := b + t.prefix[p..];
    GlobbedBelow(glob, t, |t.children|, lit, b', q) + if glob(b', q) then Tagged(lit + b', t.values) else []
  }

  function GlobbedBelow(glob: (string, string) -> bool, t: Trie, n: nat, lit: string, b: string, q: string): seq<Entry>
    requires n <= |t.children|
    decreases t, n
  {
    if n == 0 then []
    else
      GlobbedBelow(glob, t, n - 1, lit, b, q)
      + Globbed(glob, t.children[n - 1].sub, 0, lit, b + [t.children[n - 1].c], q)
  }

  datatype Lookup = None | Some(sub: Trie)

  function Find(cs: seq<Edge>, c: char): Lookup {
    if cs == [] then None
    else if cs[|cs| - 1].c == c then Some(cs[|cs| - 1].sub)
    else Find(cs[..|cs| - 1], c)
  }

  /** The first position of the prefix, from `p` on, that is a wildcard or differs from the query. */
  function Stop(prefix: string, q: string, i: nat, p: nat): (r: nat)
    requires p <= |prefix| && i + p <= |q|
    ensures p <= r <= |prefix| && i + r <= |q|
    decreases |prefix| - p
  {
    if p == |prefix| || Wild(prefix[p]) || i + p == |q| || prefix[p] != q[i + p] || !Ascii(prefix[p]) then p
    else Stop(prefix, q, i, p + 1)
  }

  function ViaChild(glob: (string, string) -> bool, cs: seq<Edge>, c: char, q: string, i: nat): seq<Entry>
    requires i <= |q|
  {
    var f := Find(cs, c);
    if f.None? then [] else Globbed(glob, f.sub, 0, q[..i], [c], q[i..])
  }

  /** What the search for `q` adds from `t` on, when `i` characters are consumed. */
  function Search(glob: (string, string) -> bool, t: Trie, q: string, i: nat): seq<Entry>
    requires i <= |q|
    decreases |q| - i, 2
  {
    var p := Stop(t.prefix, q, i, 0);
    if p == |t.prefix| then AtNode(glob, t, q, i + p)
    else if Wild(t.prefix[p]) then Globbed(glob, t, p, q[..i + p], "", q[i + p..])
    else []
  }

  /** The same when the prefix is consumed too. */
  function AtNode(glob: (string, string) -> bool, t: Trie, q: string, i: nat): seq<Entry>
    requires i <= |q|
    decreases |q| - i, 1
  {
    ViaChild(glob, t.children, '*', q, i) + ViaChild(glob, t.children, '?', q, i)
      + ViaChild(glob, t.children, '[', q, i)
    + if i == |q| then Tagged(q, t.values) else Descend(glob, t.children, q, i)
  }

  function Descend(glob: (string, string) -> bool, cs: seq<Edge>, q: string, i: nat): seq<Entry>
    requires i < |q|
    decreases |q| - i, 0
  {
    var f := Find(cs, q[i]);
    if f.None? then [] else Search(glob, f.sub, q, i + 1)
  }

  // ---------- the search is exact ----------

  /** Up to the first backslash there are no wildcards and only 7-bit characters. */
  ghost predicate Plain(q: string) {
    forall i :: 0 <= i < |q| && '\\' !in q[..i + 1] ==> !Wild(q[i]) && Ascii(q[i])
  }

  /** No backslash is among the first `i` characters. */
  ghost predicate Before(q: string, i: nat) { i <= |q| && '\\' !in q[..i] }

  lemma PlainHead(q: string, i: nat)
    requires Plain(q) && Before(q, i)
    ensures forall j :: 0 <= j < i ==> Literal(q[..i][j]) && !Wild(q[j]) && Ascii(q[j])
    ensures i < |q| ==> !Wild(q[i])
  {
    forall j | 0 <= j < i ensures Literal(q[j]) && Ascii(q[j]) {
      assert q[..i][j] == q[j];
      assert forall k :: 0 <= k < j + 1 ==> q[..j + 1][k] == q[..i][k];
    }
    if i < |q| && q[i] != '\\' { assert q[..i + 1] == q[..i] + [q[i]]; }
  }

  lemma BeforeOn(q: string, i: nat, prefix: string, p: nat)
    requires Before(q, i) && p <= |prefix| && i + p <= |q| && prefix[..p] == q[i..i + p] && '\\' !in prefix
    ensures Before(q, i + p)
  {
    assert q[..i + p] == q[..i] + prefix[..p];
  }

  lemma BeforeNext(q: string, i: nat)
    requires Before(q, i) && i < |q| && q[i] != '\\'
    ensures Before(q, i + 1)
  {
    assert q[..i + 1] == q[..i] + [q[i]];
  }

  ghost predicate Starts(s: string, w: string) { |w| <= |s| && s[..|w|] == w }

  ghost predicate AllStart(es: seq<Entry>, w: string) { forall i :: 0 <= i < |es| ==> Starts(es[i].pattern, w) }

  lemma {:induction false} StoredStarts(t: Trie, w: string)
    ensures AllStart(Stored(t, w), w + t.prefix)
    decreases t, |t.children| + 1
  {
    StoredBelowStarts(t, |t.children|, w + t.prefix);
  }

  lemma {:induction false} StoredBelowStarts(t: Trie, n: nat, w: string)
    requires n <= |t.children|
    ensures AllStart(StoredBelow(t, n, w), w)
    decreases t, n
  {
    if n > 0 {
      var e := t.children[n - 1];
      StoredBelowStarts(t, n - 1, w);
      StoredStarts(e.sub, w + [e.c]);
      Shorter(Stored(e.sub, w + [e.c]), w, [e.c] + e.sub.prefix);
      assert w + [e.c] + e.sub.prefix == w + ([e.c] + e.sub.prefix);
    }
  }

  /** The first difference decides, and a pattern comes before its proper beginnings. */
  predicate Sooner(a: string, b: string) {
    if a == "" then b == ""
    else b == "" || if a[0] == b[0] then Sooner(a[1..], b[1..]) else a[0] < b[0]
  }

  ghost predicate SoonerFirst(es: seq<Entry>) {
    forall i, j :: 0 <= i < j < |es| ==> Sooner(es[i].pattern, es[j].pattern)
  }

  lemma {:induction false} SoonerBehind(w: string, a: string, b: string)
    ensures Sooner(w + a, w + b) <==> Sooner(a, b)
  {
    if w == "" {
      assert w + a == a && w + b == b;
    } else {
      assert (w + a)[1..] == w[1..] + a && (w + b)[1..] == w[1..] + b;
      SoonerBehind(w[1..], a, b);
    }
  }

  lemma SoonerStarts(w: string, c: char, d: char, a: string, b: string)
    requires c < d && Starts(a, w + [c]) && Starts(b, w + [d])
    ensures Sooner(a, b)
  {
    var x, y := a[|w| + 1..], b[|w| + 1..];
    assert a == w + ([c] + x) && b == w + ([d] + y);
    SoonerBehind(w, [c] + x, [d] + y);
  }

  lemma SoonerBeginning(w: string, a: string)
    requires Starts(a, w)
    ensures Sooner(a, w)
  {
    assert a == w + a[|w|..] && w == w + "";
    SoonerBehind(w, a[|w|..], "");
  }

  /** What is stored is in order of the patterns. */
  lemma {:induction false} StoredInOrder(t: Trie, w: string)
    requires WellFormed(t)
    ensures SoonerFirst(Stored(t, w))
    decreases t, |t.children| + 1
  {
    var w' := w + t.prefix;
    var below, own := StoredBelow(t, |t.children|, w'), Tagged(w', t.values);
    StoredBelowInOrder(t, |t.children|, w');
    StoredBelowStarts(t, |t.children|, w');
    var all: seq<Entry> := below + own;
    forall i, j | 0 <= i < j < |all| ensures Sooner(all[i].pattern, all[j].pattern) {
      if j >= |below| {
        if i >= |below| { assert Starts(w', w'); } else { assert Starts(below[i].pattern, w'); }
        SoonerBeginning(w', all[i].pattern);
      }
    }
  }

  lemma {:induction false} StoredBelowInOrder(t: Trie, n: nat, w: string)
    requires WellFormed(t) && n <= |t.children|
    ensures SoonerFirst(StoredBelow(t, n, w))
    decreases t, n
  {
    if n > 0 {
      var e := t.children[n - 1];
      var before, last := StoredBelow(t, n - 1, w), Stored(e.sub, w + [e.c]);
      StoredBelowInOrder(t, n - 1, w);
      StoredInOrder(e.sub, w + [e.c]);
      ChildStarts(e, w);
      var all: seq<Entry> := before + last;
      forall i, j | 0 <= i < j < |all| ensures Sooner(all[i].pattern, all[j].pattern) {
        if i < |before| <= j {
          var k := StoredInChild(t, n - 1, w, i);
          assert Starts(last[j - |before|].pattern, w + [e.c]);
          SoonerStarts(w, t.children[k].c, e.c, before[i].pattern, last[j - |before|].pattern);
        }
      }
    }
  }

  lemma ChildStarts(e: Edge, w: string)
    ensures AllStart(Stored(e.sub, w + [e.c]), w + [e.c])
  {
    StoredStarts(e.sub, w + [e.c]);
    Shorter(Stored(e.sub, w + [e.c]), w + [e.c], e.sub.prefix);
  }

  /** The child that an entry comes from. */
  lemma {:induction false} StoredInChild(t: Trie, n: nat, w: string, i: nat) returns (k: nat)
    requires n <= |t.children| && i < |StoredBelow(t, n, w)|
    ensures k < n && Starts(StoredBelow(t, n, w)[i].pattern, w + [t.children[k].c])
    decreases n
  {
    var before := StoredBelow(t, n - 1, w);
    if i < |before| {
      k := StoredInChild(t, n - 1, w, i);
    } else {
      k := n - 1;
      ChildStarts(t.children[k], w);
    }
  }

  lemma Shorter(es: seq<Entry>, w: string, v: string)
    requires AllStart(es, w + v)
    ensures AllStart(es, w)
  {
    forall i | 0 <= i < |es| ensures Starts(es[i].pattern, w) {
      var p := es[i].pattern;
      assert p[..|w + v|][..|w|] == w;
    }
  }

  /** Literal characters in front are compared one by one. */
  lemma {:induction false} LiteralHead(glob: (string, string) -> bool, w: string, p: string, s: string)
    requires Lawful(glob) && forall i :: 0 <= i < |w| ==> Literal(w[i])
    ensures glob(w + p, s) <==> Starts(s, w) && glob(p, s[|w|..])
  {
    if w == "" {
      assert w + p == p && s[0..] == s;
    } else {
      var c, w' := w[0], w[1..];
      assert w + p == [c] + (w' + p);
      assert glob([c] + (w' + p), s) <==> s != "" && s[0] == c && glob(w' + p, s[1..]);
      if s != "" {
        LiteralHead(glob, w', p, s[1..]);
        assert Starts(s, w) <==> s[0] == c && Starts(s[1..], w') by {
          if Starts(s, w) { assert s[1..][..|w'|] == s[..|w|][1..]; }
          if s[0] == c && Starts(s[1..], w') { assert s[..|w|] == [c] + s[1..][..|w'|]; }
        }
        if |w| <= |s| { assert s[1..][|w'|..] == s[|w|..]; }
      }
    }
  }

  /** The entries whose patterns match from position `k` on. */
  ghost function MatchingFrom(glob: (string, string) -> bool, es: seq<Entry>, k: nat, q: string): seq<Entry> {
    if es == [] then []
    else
      var e := es[|es| - 1];
      MatchingFrom(glob, es[..|es| - 1], k, q) + if k <= |e.pattern| && glob(e.pattern[k..], q) then [e] else []
  }

  lemma {:induction false} MatchingFromConcat(glob: (string, string) -> bool, a: seq<Entry>, b: seq<Entry>, k: nat,
                                              q: string)
    ensures MatchingFrom(glob, a + b, k, q) == MatchingFrom(glob, a, k, q) + MatchingFrom(glob, b, k, q)
  {
    if b == [] {
      assert a + b == a;
    } else {
      assert (a + b)[..|a + b| - 1] == a + b[..|b| - 1];
      MatchingFromConcat(glob, a, b[..|b| - 1], k, q);
    }
  }

  lemma {:induction false} MatchingFromTagged(glob: (string, string) -> bool, pattern: string, vs: seq<Value>,
                                              k: nat, q: string)
    requires k <= |pattern|
    ensures MatchingFrom(glob, Tagged(pattern, vs), k, q) == if glob(pattern[k..], q) then Tagged(pattern, vs) else []
  {
    if vs != [] {
      var es := Tagged(pattern, vs);
      assert es[..|es| - 1] == Tagged(pattern, vs[..|vs| - 1]);
      MatchingFromTagged(glob, pattern, vs[..|vs| - 1], k, q);
      assert es == es[..|es| - 1] + [es[|es| - 1]];
    }
  }

  /** A subtree is searched by matching each of its patterns, less what was consumed before. */
  lemma {:induction false} GlobbedIsMatching(glob: (string, string) -> bool, t: Trie, p: nat, lit: string, b: string,
                                             q: string, w: string)
    requires p <= |t.prefix| && w + t.prefix == lit + (b + t.prefix[p..])
    ensures Globbed(glob, t, p, lit, b, q) == MatchingFrom(glob, Stored(t, w), |lit|, q)
    decreases t, |t.children| + 1
  {
    var b' := b + t.prefix[p..];
    GlobbedBelowIsMatching(glob, t, |t.children|, lit, b', q);
    MatchingFromTagged(glob, lit + b', t.values, |lit|, q);
    MatchingFromConcat(glob, StoredBelow(t, |t.children|, lit + b'), Tagged(lit + b', t.values), |lit|, q);
    assert (lit + b')[|lit|..] == b';
  }

  lemma {:induction false} GlobbedBelowIsMatching(glob: (string, string) -> bool, t: Trie, n: nat, lit: string,
      b: string, q: string)
    requires n <= |t.children|
    ensures GlobbedBelow(glob, t, n, lit, b, q) == MatchingFrom(glob, StoredBelow(t, n, lit + b), |lit|, q)
    decreases t, n
  {
    if n > 0 {
      var e := t.children[n - 1];
      assert lit + b + [e.c] == lit + (b + [e.c]);
      GlobbedBelowIsMatching(glob, t, n - 1, lit, b, q);
      assert e.sub.prefix[0..] == e.sub.prefix;
      assert lit + (b + [e.c]) + e.sub.prefix == lit + (b + [e.c] + e.sub.prefix[0..]);
      GlobbedIsMatching(glob, e.sub, 0, lit, b + [e.c], q, lit + (b + [e.c]));
      MatchingFromConcat(glob, StoredBelow(t, n - 1, lit + b), Stored(e.sub, lit + (b + [e.c])), |lit|, q);
    }
  }

  /** Patterns that begin with a literal part of the query match if and only if their rests match. */
  lemma {:induction false} ConsumedPart(glob: (string, string) -> bool, es: seq<Entry>, q: string, i: nat)
    requires Lawful(glob) && Plain(q) && Before(q, i) && AllStart(es, q[..i])
    ensures MatchingFrom(glob, es, i, q[i..]) == Matching(glob, es, q)
  {
    if es != [] {
      var init, e := es[..|es| - 1], es[|es| - 1];
      ConsumedPart(glob, init, q, i);
      assert Starts(e.pattern, q[..i]);
      assert e.pattern == q[..i] + e.pattern[i..];
      PlainHead(q, i);
      LiteralHead(glob, q[..i], e.pattern[i..], q);
    }
  }

  /** Patterns that begin with a literal part that the query does not have do not match. */
  lemma {:induction false} NoneMatch(glob: (string, string) -> bool, es: seq<Entry>, w: string, q: string)
    requires Lawful(glob) && AllStart(es, w) && !Starts(q, w) && forall i :: 0 <= i < |w| ==> Literal(w[i])
    ensures Matching(glob, es, q) == []
  {
    if es != [] {
      var init, e := es[..|es| - 1], es[|es| - 1];
      NoneMatch(glob, init, w, q);
      assert Starts(e.pattern, w);
      assert e.pattern == w + e.pattern[|w|..];
      LiteralHead(glob, w, e.pattern[|w|..], q);
    }
  }

  lemma {:induction false} MatchingConcat(glob: (string, string) -> bool, a: seq<Entry>, b: seq<Entry>, q: string)
    ensures Matching(glob, a + b, q) == Matching(glob, a, q) + Matching(glob, b, q)
  {
    if b == [] {
      assert a + b == a;
    } else {
      assert (a + b)[..|a + b| - 1] == a + b[..|b| - 1];
      MatchingConcat(glob, a, b[..|b| - 1], q);
    }
  }

  lemma {:induction false} MatchingTagged(glob: (string, string) -> bool, pattern: string, vs: seq<Value>, q: string)
    ensures Matching(glob, Tagged(pattern, vs), q) == if glob(pattern, q) then Tagged(pattern, vs) else []
  {
    if vs != [] {
      var es := Tagged(pattern, vs);
      assert es[..|es| - 1] == Tagged(pattern, vs[..|vs| - 1]);
      MatchingTagged(glob, pattern, vs[..|vs| - 1], q);
      assert es == es[..|es| - 1] + [es[|es| - 1]];
    }
  }

  /** Below a child, with the child's character in the buffer. */
  lemma ChildGlobbed(glob: (string, string) -> bool, e: Edge, q: string, i: nat)
    requires Lawful(glob) && Plain(q) && Before(q, i)
    ensures Globbed(glob, e.sub, 0, q[..i], [e.c], q[i..]) == Matching(glob, Stored(e.sub, q[..i] + [e.c]), q)
    ensures AllStart(Stored(e.sub, q[..i] + [e.c]), q[..i] + [e.c])
  {
    var w := q[..i] + [e.c];
    assert e.sub.prefix[0..] == e.sub.prefix;
    assert w + e.sub.prefix == q[..i] + ([e.c] + e.sub.prefix[0..]);
    GlobbedIsMatching(glob, e.sub, 0, q[..i], [e.c], q[i..], w);
    StoredStarts(e.sub, w);
    Shorter(Stored(e.sub, w), w, e.sub.prefix);
    Shorter(Stored(e.sub, w), q[..i], [e.c]);
    ConsumedPart(glob, Stored(e.sub, w), q, i);
  }

  /** What of rank `r` the children contribute: below a wildcard, or below the next character of the query. */
  ghost function Below(glob: (string, string) -> bool, cs: seq<Edge>, q: string, i: nat, r: nat): seq<Entry>
    requires i <= |q|
  {
    if r == 4 * i then ViaChild(glob, cs, '*', q, i)
    else if r == 4 * i + 1 then ViaChild(glob, cs, '?', q, i)
    else if r == 4 * i + 2 then ViaChild(glob, cs, '[', q, i)
    else if r >= 4 * i + 4 && i < |q| then OfRank(Descend(glob, cs, q, i), r)
    else []
  }

  lemma {:induction false} FindNone(cs: seq<Edge>, c: char)
    requires forall i :: 0 <= i < |cs| ==> cs[i].c != c
    ensures Find(cs, c) == None
  {
    if cs != [] { FindNone(cs[..|cs| - 1], c); }
  }

  lemma FindStep(cs: seq<Edge>, e: Edge, c: char)
    requires Ordered(cs + [e])
    ensures Find(cs + [e], c) == if c == e.c then Some(e.sub) else Find(cs, c)
    ensures c == e.c ==> Find(cs, c) == None
  {
    var cs' := cs + [e];
    assert cs'[..|cs'| - 1] == cs && cs'[|cs|] == e;
    forall j | 0 <= j < |cs| ensures cs[j].c != e.c { assert cs'[j] == cs[j]; }
    FindNone(cs, e.c);
  }

  lemma ViaStep(glob: (string, string) -> bool, cs: seq<Edge>, e: Edge, c: char, q: string, i: nat)
    requires Ordered(cs + [e]) && i <= |q|
    ensures ViaChild(glob, cs + [e], c, q, i) == ViaChild(glob, cs, c, q, i)
      + if c == e.c then Globbed(glob, e.sub, 0, q[..i], [e.c], q[i..]) else []
  {
    hide Find, Globbed;
    FindStep(cs, e, c);
  }

  lemma DescendStep(glob: (string, string) -> bool, cs: seq<Edge>, e: Edge, q: string, i: nat)
    requires Ordered(cs + [e]) && i < |q|
    ensures Descend(glob, cs + [e], q, i) == Descend(glob, cs, q, i)
      + if q[i] == e.c then Search(glob, e.sub, q, i + 1) else []
  {
    hide Find, Search;
    FindStep(cs, e, q[i]);
  }

  lemma NotWild(q: string, i: nat)
    requires Plain(q) && Before(q, i)
    ensures i < |q| ==> !Wild(q[i])
  {
    PlainHead(q, i);
  }

  /** What of rank `r` one child contributes. */
  ghost function FromChild(glob: (string, string) -> bool, e: Edge, q: string, i: nat, r: nat): seq<Entry>
    requires i <= |q|
  {
    if Wild(e.c) then if r == 4 * i + Class(e.c) then Globbed(glob, e.sub, 0, q[..i], [e.c], q[i..]) else []
    else if i < |q| && e.c == q[i] && r >= 4 * i + 4 then OfRank(Search(glob, e.sub, q, i + 1), r)
    else []
  }

  /** One more child adds its own contribution. */
  lemma BelowStep(glob: (string, string) -> bool, cs: seq<Edge>, e: Edge, q: string, i: nat, r: nat)
    requires Ordered(cs + [e]) && i <= |q| && Plain(q) && Before(q, i)
    ensures Below(glob, cs + [e], q, i, r) == Below(glob, cs, q, i, r) + FromChild(glob, e, q, i, r)
  {
    hide Globbed, Search, ViaChild, Descend, Ordered, Plain, Before, OfRank;
    NotWild(q, i);
    ViaStep(glob, cs, e, '*', q, i);
    ViaStep(glob, cs, e, '?', q, i);
    ViaStep(glob, cs, e, '[', q, i);
    if i < |q| {
      DescendStep(glob, cs, e, q, i);
      OfRankConcat(Descend(glob, cs, q, i), if q[i] == e.c then Search(glob, e.sub, q, i + 1) else [], r);
      OfRankNone(r);
    }
  }

  lemma NothingBelow(glob: (string, string) -> bool, q: string, i: nat, r: nat)
    requires i <= |q|
    ensures Matching(glob, [], q) == [] && Below(glob, [], q, i, r) == [] && OfRank([], r) == []
  {
  }

  lemma ChildrenWellFormed(t: Trie, n: nat)
    requires WellFormed(t) && Unescaped(t) && 0 < n <= |t.children|
    ensures WellFormed(t.children[n - 1].sub) && Unescaped(t.children[n - 1].sub) && t.children[n - 1].c != '\\'
    ensures t.children[..n] == t.children[..n - 1] + [t.children[n - 1]] && Ordered(t.children[..n])
  {
  }

  lemma {:induction false} BelowExact(glob: (string, string) -> bool, t: Trie, n: nat, q: string, i: nat, r: nat)
    requires Lawful(glob) && Plain(q) && WellFormed(t) && Unescaped(t) && n <= |t.children| && Before(q, i)
    ensures OfRank(Matching(glob, StoredBelow(t, n, q[..i]), q), r) == Below(glob, t.children[..n], q, i, r)
    decreases |q| - i, n
  {
    hide Below, FromChild, Matching, Stored, Lawful, WellFormed, Unescaped, Ordered, AllStart, OfRank;
    if n == 0 {
      NothingBelow(glob, q, i, r);
    } else {
      var e := t.children[n - 1];
      ChildrenWellFormed(t, n);
      BelowExact(glob, t, n - 1, q, i, r);
      BelowStep(glob, t.children[..n - 1], e, q, i, r);
      var a, b := StoredBelow(t, n - 1, q[..i]), Stored(e.sub, q[..i] + [e.c]);
      MatchingConcat(glob, a, b, q);
      OfRankConcat(Matching(glob, a, q), Matching(glob, b, q), r);
      ChildExact(glob, e, q, i, r);
    }
  }

  /** The contribution of one child. */
  lemma {:induction false} ChildExact(glob: (string, string) -> bool, e: Edge, q: string, i: nat, r: nat)
    requires Lawful(glob) && Plain(q) && WellFormed(e.sub) && Unescaped(e.sub) && e.c != '\\' && Before(q, i)
    ensures OfRank(Matching(glob, Stored(e.sub, q[..i] + [e.c]), q), r) == FromChild(glob, e, q, i, r)
    decreases |q| - i, 0
  {
    hide Search, Globbed, Matching, Stored, Lawful, WellFormed, Unescaped, AllStart, OfRank, Level, AtLeast, InOrder;
    ChildGlobbed(glob, e, q, i);
    if Wild(e.c) {
      WildLevel(glob, e, q, i);
      LevelRank(Globbed(glob, e.sub, 0, q[..i], [e.c], q[i..]), 4 * i + Class(e.c), r);
    } else if i < |q| && e.c == q[i] {
      assert q[..i] + [e.c] == q[..i + 1];
      BeforeNext(q, i);
      SearchRanks(glob, e.sub, q, i + 1, r);
      SearchInOrder(glob, e.sub, q, i + 1);
      NoneBelow(Search(glob, e.sub, q, i + 1), 4 * i + 4, r);
    } else {
      ChildMisses(glob, e, q, i);
      OfRankNone(r);
    }
  }

  lemma DiffersAt(q: string, i: nat, c: char)
    requires i <= |q| && (i < |q| ==> q[i] != c)
    ensures !Starts(q, q[..i] + [c])
  {
    if i < |q| { assert q[..i + 1][i] == q[i]; }
  }

  lemma ChildMisses(glob: (string, string) -> bool, e: Edge, q: string, i: nat)
    requires Lawful(glob) && Plain(q) && Before(q, i) && Literal(e.c) && (i < |q| ==> e.c != q[i])
    requires AllStart(Stored(e.sub, q[..i] + [e.c]), q[..i] + [e.c])
    ensures Matching(glob, Stored(e.sub, q[..i] + [e.c]), q) == []
  {
    DiffersAt(q, i, e.c);
    PlainHead(q, i);
    NoneMatch(glob, Stored(e.sub, q[..i] + [e.c]), q[..i] + [e.c], q);
  }

  lemma {:induction false} StopIs(prefix: string, q: string, i: nat, p: nat)
    requires p <= |prefix| && i + p <= |q| && prefix[..p] == q[i..i + p]
    ensures var r := Stop(prefix, q, i, p);
      && prefix[..r] == q[i..i + r]
      && (r < |prefix| && !Wild(prefix[r]) ==> i + r == |q| || prefix[r] != q[i + r] || !Ascii(prefix[r]))
    decreases |prefix| - p
  {
    if Stop(prefix, q, i, p) != p {
      assert prefix[..p + 1] == prefix[..p] + [prefix[p]] && q[i..i + p + 1] == q[i..i + p] + [q[i + p]];
      StopIs(prefix, q, i, p + 1);
    }
  }

  /** Rank by rank, the search adds the values of the stored patterns that match, in the order of storage. */
  lemma {:induction false} SearchRanks(glob: (string, string) -> bool, t: Trie, q: string, i: nat, r: nat)
    requires Lawful(glob) && Plain(q) && WellFormed(t) && Unescaped(t) && Before(q, i)
    ensures OfRank(Search(glob, t, q, i), r) == OfRank(Matching(glob, Stored(t, q[..i]), q), r)
    decreases |q| - i, |t.children| + 2
  {
    hide Stop, Globbed, Matching, Lawful, WellFormed, Unescaped, AtNode, StoredBelow, Tagged, Plain, Before, OfRank;
    var p := AtStop(t, q, i);
    if p == |t.prefix| {
      assert q[..i] + t.prefix == q[..i + p] by { assert t.prefix[..p] == t.prefix; }
      NodeExact(glob, t, q, i + p, r);
    } else if Wild(t.prefix[p]) {
      WildPrefix(glob, t, p, q, i);
    } else {
      OtherPrefix(glob, t, p, q, i);
    }
  }

  /** The search adds the values of exactly the stored patterns that match the query, each as often as it is stored. */
  lemma SearchExact(glob: (string, string) -> bool, t: Trie, q: string, i: nat)
    requires Lawful(glob) && Plain(q) && WellFormed(t) && Unescaped(t) && Before(q, i)
    ensures multiset(Search(glob, t, q, i)) == multiset(Matching(glob, Stored(t, q[..i]), q))
  {
    hide Search, Matching, Stored, Lawful, WellFormed, Unescaped, Plain, OfRank;
    forall r: nat
      ensures OfRank(Search(glob, t, q, i), r) == OfRank(Matching(glob, Stored(t, q[..i]), q), r)
    {
      SearchRanks(glob, t, q, i, r);
    }
    SameRanks(Search(glob, t, q, i), Matching(glob, Stored(t, q[..i]), q));
  }

  /** Where the comparison with the prefix stops, no backslash has been passed, and 8-bit characters play no part. */
  lemma AtStop(t: Trie, q: string, i: nat) returns (p: nat)
    requires Plain(q) && Unescaped(t) && Before(q, i)
    ensures p == Stop(t.prefix, q, i, 0) && t.prefix[..p] == q[i..i + p] && Before(q, i + p)
    ensures p < |t.prefix| && !Wild(t.prefix[p]) ==> i + p == |q| || t.prefix[p] != q[i + p]
  {
    hide Plain, Before, Unescaped, Stop;
    InRange(q, i);
    NoBackslash(t);
    assert t.prefix[..0] == q[i..i];
    p := PrefixStop(t.prefix, q, i);
  }

  lemma PrefixStop(prefix: string, q: string, i: nat) returns (p: nat)
    requires Plain(q) && Before(q, i) && i <= |q| && '\\' !in prefix
    ensures p == Stop(prefix, q, i, 0) && prefix[..p] == q[i..i + p] && Before(q, i + p)
    ensures p < |prefix| && !Wild(prefix[p]) ==> i + p == |q| || prefix[p] != q[i + p]
  {
    hide Plain, Before, Stop, Wild, Ascii;
    p := Stop(prefix, q, i, 0);
    StopIs(prefix, q, i, 0);
    BeforeOn(q, i, prefix, p);
    SevenBit(q, i + p);
    if p < |prefix| { assert prefix[p] in prefix; }
  }

  lemma InRange(q: string, i: nat)
    requires Before(q, i)
    ensures i <= |q|
  {
  }

  lemma NoBackslash(t: Trie)
    requires Unescaped(t)
    ensures '\\' !in t.prefix && forall p :: 0 <= p < |t.prefix| ==> t.prefix[p] != '\\'
  {
  }

  lemma SevenBit(q: string, i: nat)
    requires Plain(q) && Before(q, i)
    ensures i < |q| && q[i] != '\\' ==> Ascii(q[i])
  {
    if i < |q| { assert q[..i + 1] == q[..i] + [q[i]]; }
  }

  lemma {:induction false} NodeExact(glob: (string, string) -> bool, t: Trie, q: string, i: nat, r: nat)
    requires Lawful(glob) && Plain(q) && WellFormed(t) && Unescaped(t) && Before(q, i)
    ensures var w := q[..i];
      OfRank(AtNode(glob, t, q, i), r)
        == OfRank(Matching(glob, StoredBelow(t, |t.children|, w) + Tagged(w, t.values), q), r)
    decreases |q| - i, |t.children| + 1
  {
    hide Matching, Lawful, WellFormed, Unescaped, StoredBelow, Tagged, AtNode, Below, OfRank;
    var w := q[..i];
    var a, b := StoredBelow(t, |t.children|, w), Tagged(w, t.values);
    BelowExact(glob, t, |t.children|, q, i, r);
    assert t.children[..|t.children|] == t.children;
    MatchingConcat(glob, a, b, q);
    OfRankConcat(Matching(glob, a, q), Matching(glob, b, q), r);
    MatchingTagged(glob, w, t.values, q);
    AtEnd(glob, q, i);
    NodeRanks(glob, t, q, i, r);
  }

  /** What of rank `r` a node adds. */
  lemma NodeRanks(glob: (string, string) -> bool, t: Trie, q: string, i: nat, r: nat)
    requires Plain(q) && Unescaped(t) && Before(q, i)
    ensures OfRank(AtNode(glob, t, q, i), r) == Below(glob, t.children, q, i, r)
      + OfRank(if i == |q| then Tagged(q[..i], t.values) else [], r)
  {
    hide Globbed, LitLen, Search, ViaChild, Level, InOrder, AtLeast, Find, OfRank, Tagged, Rank, Descend;
    var a, b, c := ViaChild(glob, t.children, '*', q, i), ViaChild(glob, t.children, '?', q, i),
      ViaChild(glob, t.children, '[', q, i);
    var d := if i == |q| then Tagged(q, t.values) else Descend(glob, t.children, q, i);
    ViaChildLevel(glob, t.children, '*', q, i);
    ViaChildLevel(glob, t.children, '?', q, i);
    ViaChildLevel(glob, t.children, '[', q, i);
    LevelRank(a, 4 * i, r);
    LevelRank(b, 4 * i + 1, r);
    LevelRank(c, 4 * i + 2, r);
    OfRankConcat(a, b, r);
    OfRankConcat(a + b, c, r);
    OfRankConcat(a + b + c, d, r);
    OfRankNone(r);
    if i == |q| {
      assert q[..i] == q;
      PlainHead(q, i);
      TaggedLevel(q, t.values);
      LevelRank(d, 4 * i + 3, r);
    } else {
      DescendRanks(glob, t, q, i);
      NoneBelow(d, 4 * i + 4, r);
    }
  }

  lemma DescendRanks(glob: (string, string) -> bool, t: Trie, q: string, i: nat)
    requires Plain(q) && Unescaped(t) && Before(q, i) && i < |q|
    ensures InOrder(Descend(glob, t.children, q, i)) && AtLeast(Descend(glob, t.children, q, i), 4 * i + 4)
    decreases |q| - i, 0
  {
    hide Search, InOrder, AtLeast, Find;
    Nowhere(4 * i + 4);
    var f := Find(t.children, q[i]);
    if f.Some? {
      FoundUnescaped(t, q, i);
      SearchInOrder(glob, f.sub, q, i + 1);
    }
  }

  lemma AtEnd(glob: (string, string) -> bool, q: string, i: nat)
    requires Lawful(glob) && Plain(q) && Before(q, i)
    ensures glob(q[..i], q) <==> i == |q|
    ensures i == |q| ==> q[..i] == q
  {
    assert q[..i] + "" == q[..i];
    PlainHead(q, i);
    LiteralHead(glob, q[..i], "", q);
  }

  /** The part of a prefix that agrees with the query can be read off the query. */
  lemma PrefixSplit(prefix: string, p: nat, q: string, i: nat)
    requires p <= |prefix| && i + p <= |q| && prefix[..p] == q[i..i + p]
    ensures q[..i] + prefix == q[..i + p] + ("" + prefix[p..])
    ensures "" + prefix[p..] == prefix[p..]
  {
    assert prefix == prefix[..p] + prefix[p..];
    assert q[..i + p] == q[..i] + q[i..i + p];
  }

  lemma WildPrefix(glob: (string, string) -> bool, t: Trie, p: nat, q: string, i: nat)
    requires Lawful(glob) && Plain(q) && Before(q, i + p) && p <= |t.prefix| && t.prefix[..p] == q[i..i + p]
    ensures Globbed(glob, t, p, q[..i + p], "", q[i + p..]) == Matching(glob, Stored(t, q[..i]), q)
  {
    var lit := q[..i + p];
    PrefixSplit(t.prefix, p, q, i);
    GlobbedIsMatching(glob, t, p, lit, "", q[i + p..], q[..i]);
    StoredStarts(t, q[..i]);
    Shorter(Stored(t, q[..i]), lit, t.prefix[p..]);
    ConsumedPart(glob, Stored(t, q[..i]), q, i + p);
  }

  lemma OtherPrefix(glob: (string, string) -> bool, t: Trie, p: nat, q: string, i: nat)
    requires Lawful(glob) && Plain(q) && Unescaped(t) && Before(q, i + p) && p < |t.prefix|
      && t.prefix[..p] == q[i..i + p]
    requires !Wild(t.prefix[p]) && (i + p == |q| || t.prefix[p] != q[i + p])
    ensures Matching(glob, Stored(t, q[..i]), q) == []
  {
    hide Matching, Lawful, Unescaped, Plain, Stored, AllStart, Starts;
    var w := q[..i + p] + [t.prefix[p]];
    SplitAfter(t.prefix, p, q, i);
    StoredStarts(t, q[..i]);
    Shorter(Stored(t, q[..i]), w, t.prefix[p + 1..]);
    LiteralUpTo(t, p, q, i);
    DiffersAt(q, i + p, t.prefix[p]);
    NoneMatch(glob, Stored(t, q[..i]), w, q);
  }

  lemma SplitAfter(prefix: string, p: nat, q: string, i: nat)
    requires p < |prefix| && i + p <= |q| && prefix[..p] == q[i..i + p]
    ensures q[..i] + prefix == q[..i + p] + [prefix[p]] + prefix[p + 1..]
  {
    assert prefix == prefix[..p] + [prefix[p]] + prefix[p + 1..];
    assert q[..i + p] == q[..i] + q[i..i + p];
  }

  lemma LiteralUpTo(t: Trie, p: nat, q: string, i: nat)
    requires Plain(q) && Unescaped(t) && Before(q, i + p) && p < |t.prefix| && !Wild(t.prefix[p])
    ensures var w := q[..i + p] + [t.prefix[p]]; forall j :: 0 <= j < |w| ==> Literal(w[j])
  {
    PlainHead(q, i + p);
    assert t.prefix[p] in t.prefix;
  }

  // ---------- the order of the additions ----------

  /** The length of a pattern up to its first wildcard. */
  function LitLen(p: string): (r: nat)
    ensures r <= |p|
  {
    if p == "" || Wild(p[0]) then 0 else 1 + LitLen(p[1..])
  }

  lemma {:induction false} LitLenIs(p: string, k: nat)
    requires k <= |p| && (forall j :: 0 <= j < k ==> !Wild(p[j])) && (k < |p| ==> Wild(p[k]))
    ensures LitLen(p) == k
  {
    if k > 0 { LitLenIs(p[1..], k - 1); }
  }

  function Class(c: char): nat { if c == '*' then 0 else if c == '?' then 1 else 2 }

  /** The length of the literal beginning first, then what follows it: `*`, `?`, `[`, or the end. */
  function Rank(p: string): nat {
    var k := LitLen(p);
    4 * k + if k == |p| then 3 else Class(p[k])
  }

  /** The ranks of patterns, by what stands behind the literal beginning. */
  lemma RankIs(lit: string, rest: string)
    requires forall j :: 0 <= j < |lit| ==> lit[j] != '*' && lit[j] != '?' && lit[j] != '['
    ensures Rank(lit + "*" + rest) == 4 * |lit| && Rank(lit + "?" + rest) == 4 * |lit| + 1
    ensures Rank(lit + "[" + rest) == 4 * |lit| + 2 && Rank(lit) == 4 * |lit| + 3
  {
    LitLenIs(lit + "*" + rest, |lit|);
    LitLenIs(lit + "?" + rest, |lit|);
    LitLenIs(lit + "[" + rest, |lit|);
    LitLenIs(lit, |lit|);
  }

  /** The entries of one rank. */
  function OfRank(es: seq<Entry>, r: nat): seq<Entry> {
    if es == [] then []
    else OfRank(es[..|es| - 1], r) + if Rank(es[|es| - 1].pattern) == r then [es[|es| - 1]] else []
  }

  lemma {:induction false} OfRankConcat(a: seq<Entry>, b: seq<Entry>, r: nat)
    ensures OfRank(a + b, r) == OfRank(a, r) + OfRank(b, r)
  {
    hide Rank;
    if b == [] {
      assert a + b == a;
    } else {
      assert (a + b)[..|a + b| - 1] == a + b[..|b| - 1];
      OfRankConcat(a, b[..|b| - 1], r);
    }
  }

  lemma OfRankNone(r: nat)
    ensures OfRank([], r) == []
  {
  }

  /** All patterns have rank `r`. */
  ghost predicate Level(es: seq<Entry>, r: nat) { forall j :: 0 <= j < |es| ==> Rank(es[j].pattern) == r }

  ghost predicate AtLeast(es: seq<Entry>, r: nat) { forall j :: 0 <= j < |es| ==> r <= Rank(es[j].pattern) }

  ghost predicate InOrder(es: seq<Entry>) {
    forall j, k :: 0 <= j < k < |es| ==> Rank(es[j].pattern) <= Rank(es[k].pattern)
  }

  lemma {:induction false} LevelRank(es: seq<Entry>, k: nat, r: nat)
    requires Level(es, k)
    ensures OfRank(es, r) == if r == k then es else []
  {
    hide Rank;
    if es != [] {
      LevelRank(es[..|es| - 1], k, r);
      assert es == es[..|es| - 1] + [es[|es| - 1]];
    }
  }

  lemma {:induction false} NoneBelow(es: seq<Entry>, k: nat, r: nat)
    requires AtLeast(es, k)
    ensures r < k ==> OfRank(es, r) == []
  {
    hide Rank;
    if es != [] { NoneBelow(es[..|es| - 1], k, r); }
  }

  lemma {:induction false} RankCounts(es: seq<Entry>, x: Entry)
    ensures multiset(es)[x] == multiset(OfRank(es, Rank(x.pattern)))[x]
  {
    hide Rank;
    if es != [] {
      RankCounts(es[..|es| - 1], x);
      assert es == es[..|es| - 1] + [es[|es| - 1]];
    }
  }

  /** Lists that agree rank by rank have the same entries. */
  lemma SameRanks(a: seq<Entry>, b: seq<Entry>)
    requires forall r: nat :: OfRank(a, r) == OfRank(b, r)
    ensures multiset(a) == multiset(b)
  {
    hide Rank, OfRank;
    forall x: Entry ensures multiset(a)[x] == multiset(b)[x] {
      RankCounts(a, x);
      RankCounts(b, x);
    }
  }

  lemma {:induction false} MatchingFromStarts(glob: (string, string) -> bool, es: seq<Entry>, k: nat, q: string,
                                              w: string)
    requires AllStart(es, w)
    ensures AllStart(MatchingFrom(glob, es, k, q), w)
  {
    if es != [] {
      MatchingFromStarts(glob, es[..|es| - 1], k, q, w);
    }
  }

  lemma GlobbedLevel(glob: (string, string) -> bool, t: Trie, p: nat, lit: string, b: string, q: string, w: string)
    requires p <= |t.prefix| && w + t.prefix == lit + (b + t.prefix[p..])
    requires (forall j :: 0 <= j < |lit| ==> !Wild(lit[j])) && |b + t.prefix[p..]| > 0 && Wild((b + t.prefix[p..])[0])
    ensures Level(Globbed(glob, t, p, lit, b, q), 4 * |lit| + Class((b + t.prefix[p..])[0]))
  {
    GlobbedIsMatching(glob, t, p, lit, b, q, w);
    StoredStarts(t, w);
    var es, v := Globbed(glob, t, p, lit, b, q), w + t.prefix;
    assert v[|lit|] == (b + t.prefix[p..])[0];
    MatchingFromStarts(glob, Stored(t, w), |lit|, q, v);
    forall j | 0 <= j < |es| ensures Rank(es[j].pattern) == 4 * |lit| + Class(v[|lit|]) {
      StartsWild(es[j].pattern, v, |lit|);
    }
  }

  lemma StartsWild(s: string, v: string, k: nat)
    requires Starts(s, v) && k < |v| && (forall j :: 0 <= j < k ==> !Wild(v[j])) && Wild(v[k])
    ensures Rank(s) == 4 * k + Class(v[k])
  {
    assert forall j :: 0 <= j < |v| ==> s[j] == v[j] by {
      forall j | 0 <= j < |v| ensures s[j] == v[j] { assert s[..|v|][j] == s[j]; }
    }
    LitLenIs(s, k);
  }

  lemma WildLevel(glob: (string, string) -> bool, e: Edge, q: string, i: nat)
    requires Plain(q) && Before(q, i) && Wild(e.c)
    ensures Level(Globbed(glob, e.sub, 0, q[..i], [e.c], q[i..]), 4 * i + Class(e.c))
  {
    PlainHead(q, i);
    var c, t := e.c, e.sub;
    assert t.prefix[0..] == t.prefix;
    assert q[..i] + [c] + t.prefix == q[..i] + ([c] + t.prefix[0..]);
    GlobbedLevel(glob, t, 0, q[..i], [c], q[i..], q[..i] + [c]);
  }

  lemma ViaChildLevel(glob: (string, string) -> bool, cs: seq<Edge>, c: char, q: string, i: nat)
    requires Plain(q) && Before(q, i) && Wild(c)
    ensures Level(ViaChild(glob, cs, c, q, i), 4 * i + Class(c))
  {
    hide Globbed, Rank, Plain;
    var f := Find(cs, c);
    if f.Some? { WildLevel(glob, Edge(c, f.sub), q, i); }
  }

  lemma LevelFirst(a: seq<Entry>, b: seq<Entry>, i: nat)
    requires Level(a, i) && InOrder(b) && AtLeast(b, i)
    ensures InOrder(a + b) && AtLeast(a + b, i)
  {
  }

  /** The search adds values in the order of the ranks of their patterns. */
  lemma {:induction false} SearchInOrder(glob: (string, string) -> bool, t: Trie, q: string, i: nat)
    requires Plain(q) && Unescaped(t) && Before(q, i)
    ensures InOrder(Search(glob, t, q, i)) && AtLeast(Search(glob, t, q, i), 4 * i)
    decreases |q| - i, 2
  {
    hide Stop, Globbed, LitLen, AtNode, Level, InOrder, AtLeast, Plain, Before, Unescaped;
    var p := AtStop(t, q, i);
    Nowhere(4 * i);
    if p == |t.prefix| {
      Weaker(AtNode(glob, t, q, i + p), 4 * (i + p), 4 * i);
      NodeInOrder(glob, t, q, i + p);
    } else if Wild(t.prefix[p]) {
      WildInOrder(glob, t, p, q, i);
    }
  }

  lemma WildInOrder(glob: (string, string) -> bool, t: Trie, p: nat, q: string, i: nat)
    requires Plain(q) && Before(q, i + p) && p < |t.prefix| && Wild(t.prefix[p]) && t.prefix[..p] == q[i..i + p]
    ensures var es := Globbed(glob, t, p, q[..i + p], "", q[i + p..]); InOrder(es) && AtLeast(es, 4 * i)
  {
    hide Globbed, Rank, Level, InOrder, AtLeast;
    PrefixSplit(t.prefix, p, q, i);
    PlainHead(q, i + p);
    GlobbedLevel(glob, t, p, q[..i + p], "", q[i + p..], q[..i]);
    var es := Globbed(glob, t, p, q[..i + p], "", q[i + p..]);
    var r := 4 * (i + p) + Class(("" + t.prefix[p..])[0]);
    LevelInOrder(es, r);
    Weaker(es, r, 4 * i);
  }

  lemma Nowhere(i: nat)
    ensures InOrder([]) && AtLeast([], i)
  {
  }

  lemma LevelInOrder(es: seq<Entry>, k: nat)
    requires Level(es, k)
    ensures InOrder(es) && AtLeast(es, k)
  {
  }

  lemma Weaker(es: seq<Entry>, k: nat, i: nat)
    requires i <= k
    ensures AtLeast(es, k) ==> AtLeast(es, i)
  {
  }

  lemma {:induction false} NodeInOrder(glob: (string, string) -> bool, t: Trie, q: string, i: nat)
    requires Plain(q) && Unescaped(t) && Before(q, i)
    ensures InOrder(AtNode(glob, t, q, i)) && AtLeast(AtNode(glob, t, q, i), 4 * i)
    decreases |q| - i, 1
  {
    hide Globbed, Rank, Search, ViaChild, Level, InOrder, AtLeast, Find, Descend;
    var a, b, c := ViaChild(glob, t.children, '*', q, i), ViaChild(glob, t.children, '?', q, i),
      ViaChild(glob, t.children, '[', q, i);
    ViaChildLevel(glob, t.children, '*', q, i);
    ViaChildLevel(glob, t.children, '?', q, i);
    ViaChildLevel(glob, t.children, '[', q, i);
    var d := if i == |q| then Tagged(q, t.values) else Descend(glob, t.children, q, i);
    if i == |q| {
      PlainHead(q, i);
      TaggedLevel(q, t.values);
      LevelInOrder(d, 4 * i + 3);
      Weaker(d, 4 * i + 3, 4 * i + 2);
    } else {
      DescendRanks(glob, t, q, i);
      Weaker(d, 4 * i + 4, 4 * i + 2);
    }
    LevelFirst(c, d, 4 * i + 2);
    Weaker(c + d, 4 * i + 2, 4 * i + 1);
    LevelFirst(b, c + d, 4 * i + 1);
    Weaker(b + (c + d), 4 * i + 1, 4 * i);
    LevelFirst(a, b + (c + d), 4 * i);
    assert AtNode(glob, t, q, i) == a + (b + (c + d));
  }

  lemma FoundUnescaped(t: Trie, q: string, i: nat)
    requires Unescaped(t) && Before(q, i) && i < |q| && Find(t.children, q[i]).Some?
    ensures Unescaped(Find(t.children, q[i]).sub) && Before(q, i + 1)
  {
    var k := FoundOne(t.children, q[i]);
    BeforeNext(q, i);
  }

  lemma {:induction false} FoundOne(cs: seq<Edge>, c: char) returns (k: nat)
    requires Find(cs, c).Some?
    ensures k < |cs| && cs[k] == Edge(c, Find(cs, c).sub)
  {
    k := |cs| - 1;
    if cs[k].c != c { k := FoundOne(cs[..k], c); }
  }

  lemma TaggedLevel(q: string, vs: seq<Value>)
    requires forall j :: 0 <= j < |q| ==> !Wild(q[j])
    ensures Level(Tagged(q, vs), 4 * |q| + 3)
  {
    LitLenIs(q, |q|);
  }

  // ---------- the properties ----------

  /** A key counts only with a leading space, which is dropped. */
  predicate Counts(key: string) { key != "" && key[0] == ' ' }

  /** The properties after the additions: a later value replaces an earlier one. */
  function Props(es: seq<Entry>): map<string, string> {
    if es == [] then map[]
    else
      var m, e := Props(es[..|es| - 1]), es[|es| - 1];
      if Counts(e.key) then m[e.key[1..] := e.value] else m
  }

  /** Some entry has the key. */
  ghost predicate Keyed(es: seq<Entry>, key: string) { exists i :: 0 <= i < |es| && es[i].key == key }

  /** The last addition for a key decides. */
  lemma {:induction false} LastWins(es: seq<Entry>, k: string) returns (j: nat)
    ensures k in Props(es) <==> Keyed(es, " " + k)
    ensures k in Props(es) ==>
      && j < |es| && es[j].key == " " + k && Props(es)[k] == es[j].value
      && forall i :: j < i < |es| ==> es[i].key != " " + k
  {
    j := 0;
    if es != [] {
      var init, e := es[..|es| - 1], es[|es| - 1];
      j := LastWins(init, k);
      assert Counts(e.key) && e.key[1..] == k <==> e.key == " " + k;
      assert forall i :: 0 <= i < |init| ==> es[i] == init[i];
      if e.key == " " + k { j := |es| - 1; }
    }
  }

  /** The last entry with a key, or none. */
  function LastKeyed(es: seq<Entry>, key: string): seq<Entry> {
    if es == [] then []
    else if es[|es| - 1].key == key then [es[|es| - 1]]
    else LastKeyed(es[..|es| - 1], key)
  }

  /** The last entry of a rank and key is the last with that key among those of the rank. */
  lemma {:induction false} LastOfRank(es: seq<Entry>, n: nat)
    requires n < |es|
    requires forall i :: n < i < |es| && Rank(es[i].pattern) == Rank(es[n].pattern) ==> es[i].key != es[n].key
    ensures LastKeyed(OfRank(es, Rank(es[n].pattern)), es[n].key) == [es[n]]
  {
    hide Rank, LastKeyed;
    var init, e, r := es[..|es| - 1], es[|es| - 1], Rank(es[n].pattern);
    var rest := OfRank(init, r);
    LastKeyedOn(rest, e, es[n].key);
    if n < |es| - 1 {
      assert forall i :: 0 <= i < |init| ==> es[i] == init[i];
      LastOfRank(init, n);
    }
    assert OfRank(es, r) == if Rank(e.pattern) == r then rest + [e] else rest;
  }

  lemma LastKeyedOn(es: seq<Entry>, e: Entry, key: string)
    ensures LastKeyed(es + [e], key) == if e.key == key then [e] else LastKeyed(es, key)
  {
    assert (es + [e])[..|es|] == es;
  }

  /** The entry that decides: behind it in rank, or in the same rank, no other has the key. */
  ghost predicate Decides(ms: seq<Entry>, n: nat, key: string) {
    && n < |ms| && ms[n].key == key
    && forall i :: 0 <= i < |ms| && i != n && ms[i].key == key ==>
         Rank(ms[i].pattern) < Rank(ms[n].pattern) || (Rank(ms[i].pattern) == Rank(ms[n].pattern) && i < n)
  }

  /** Some entry decides, if any has the key. */
  lemma {:induction false} SomeDecides(ms: seq<Entry>, key: string, i: nat) returns (n: nat)
    requires i < |ms| && ms[i].key == key
    ensures Decides(ms, n, key)
  {
    hide Rank;
    n := i;
    var k := 0;
    while k < |ms|
      invariant k <= |ms| && n < |ms| && ms[n].key == key
      invariant forall j :: 0 <= j < k && j != n && ms[j].key == key ==>
        Rank(ms[j].pattern) < Rank(ms[n].pattern) || (Rank(ms[j].pattern) == Rank(ms[n].pattern) && j < n)
    {
      if ms[k].key == key && k != n {
        var a, b := Rank(ms[k].pattern), Rank(ms[n].pattern);
        if a > b || (a == b && k > n) { n := k; }
      }
      k := k + 1;
    }
  }

  /** Of two lists that agree rank by rank, the last with a key in the ordered one decides in the other. */
  lemma SameDecides(es: seq<Entry>, ms: seq<Entry>, j: nat, n: nat)
    requires InOrder(es) && forall r: nat :: OfRank(es, r) == OfRank(ms, r)
    requires j < |es| && (forall i :: j < i < |es| ==> es[i].key != es[j].key) && Decides(ms, n, es[j].key)
    ensures es[j] == ms[n]
  {
    hide Rank, OfRank, LastKeyed;
    LastOfRank(es, j);
    LastOfRank(ms, n);
    SameRanks(es, ms);
    assert es[j] in multiset(es) && ms[n] in multiset(ms);
    var m :| 0 <= m < |ms| && ms[m] == es[j];
    var i :| 0 <= i < |es| && es[i] == ms[n];
    assert Rank(es[j].pattern) == Rank(ms[n].pattern);
  }

  /**
    The whole search: a property comes from the stored pattern that matches and decides
    for its key, by the length of its literal beginning, by what follows that, and by the
    order of storage.
    */
  lemma LongestPrefixWins(glob: (string, string) -> bool, t: Trie, q: string, k: string) returns (n: nat)
    requires Lawful(glob) && Plain(q) && WellFormed(t) && Unescaped(t)
    ensures var ms := Matching(glob, Stored(t, ""), q);
      && (k in Props(Search(glob, t, q, 0)) <==> Keyed(ms, " " + k))
      && (k in Props(Search(glob, t, q, 0)) ==>
            Decides(ms, n, " " + k) && Props(Search(glob, t, q, 0))[k] == ms[n].value)
  {
    hide Search, Matching, Stored, Rank, Lawful, WellFormed, Unescaped, Plain, InOrder, OfRank, Decides;
    var es, ms := Search(glob, t, q, 0), Matching(glob, Stored(t, ""), q);
    assert Before(q, 0) && q[..0] == "";
    forall r: nat ensures OfRank(es, r) == OfRank(ms, r) { SearchRanks(glob, t, q, 0, r); }
    SearchInOrder(glob, t, q, 0);
    SameRanks(es, ms);
    SameKeys(es, ms, " " + k);
    var j := LastWins(es, k);
    hide Props;
    n := 0;
    if k in Props(es) {
      assert es[j].key == " " + k;
      var i :| 0 <= i < |ms| && ms[i].key == " " + k;
      n := SomeDecides(ms, " " + k, i);
      SameDecides(es, ms, j, n);
    }
  }

  lemma SameKeys(es: seq<Entry>, ms: seq<Entry>, key: string)
    requires multiset(es) == multiset(ms)
    ensures Keyed(es, key) <==> Keyed(ms, key)
  {
    forall i | 0 <= i < |es| ensures es[i] in ms { assert es[i] in multiset(es); }
    forall i | 0 <= i < |ms| ensures ms[i] in es { assert ms[i] in multiset(ms); }
  }

  // ---------- queries that are not plain ----------

  /** The search for `q` in `t` adds exactly what matching every stored pattern gives. */
  ghost predicate Exact(glob: (string, string) -> bool, t: Trie, q: string) {
    multiset(Search(glob, t, q, 0)) == multiset(Matching(glob, Stored(t, ""), q))
  }

  /** A trie of one pattern, with one edge for each character. */
  function Chain(p: string, v: Value): Trie {
    if p == "" then Trie("", [], [v]) else Trie("", [Edge(p[0], Chain(p[1..], v))], [])
  }

  lemma {:induction false} ChainIsTrie(p: string, v: Value)
    requires '\\' !in p
    ensures WellFormed(Chain(p, v)) && Unescaped(Chain(p, v))
  {
    if p != "" { ChainIsTrie(p[1..], v); }
  }

  lemma {:induction false} ChainStored(p: string, v: Value, w: string)
    ensures Stored(Chain(p, v), w) == [Entry(w + p, v.key, v.value)]
  {
    var t := Chain(p, v);
    assert w + t.prefix == w;
    if p == "" {
      assert Stored(t, w) == StoredBelow(t, 0, w) + Tagged(w, [v]);
      assert w + p == w;
    } else {
      ChainStored(p[1..], v, w + [p[0]]);
      assert w + [p[0]] + p[1..] == w + p;
      assert StoredBelow(t, 1, w) == StoredBelow(t, 0, w) + Stored(Chain(p[1..], v), w + [p[0]]);
      assert Stored(t, w) == StoredBelow(t, 1, w) + Tagged(w, []);
    }
  }

  lemma FindOnly(e: Edge, c: char)
    ensures Find([e], c) == if c == e.c then Some(e.sub) else None
  {
    assert [e][..0] == [];
  }

  /** One step down the chain: the next character is found, and a wildcard is tried as one besides. */
  lemma ChainStep(glob: (string, string) -> bool, p: string, q: string, i: nat, v: Value)
    requires i < |p| && i < |q| && p[i] == q[i]
    ensures |Search(glob, Chain(p[i..], v), q, i)| >= |Search(glob, Chain(p[i + 1..], v), q, i + 1)|
      + if Wild(q[i]) && glob(p[i..], q[i..]) then 1 else 0
  {
    hide Search, Globbed;
    var t, e := Chain(p[i..], v), Edge(q[i], Chain(p[i + 1..], v));
    assert p[i..][1..] == p[i + 1..];
    FindOnly(e, q[i]);
    SearchNode(glob, t, q, i);
    assert Descend(glob, t.children, q, i) == Search(glob, e.sub, q, i + 1);
    if Wild(q[i]) && glob(p[i..], q[i..]) {
      ChainGlobbed(glob, p[i + 1..], v, q[..i], [q[i]], q[i..]);
      assert [q[i]] + p[i + 1..] == p[i..];
      assert |ViaChild(glob, t.children, q[i], q, i)| >= 1;
    }
  }

  lemma SearchNode(glob: (string, string) -> bool, t: Trie, q: string, i: nat)
    requires t.prefix == "" && i <= |q|
    ensures Search(glob, t, q, i) == AtNode(glob, t, q, i)
  {
  }

  lemma {:induction false} ChainGlobbed(glob: (string, string) -> bool, p: string, v: Value, lit: string, b: string,
                                        s: string)
    ensures |Globbed(glob, Chain(p, v), 0, lit, b, s)| == if glob(b + p, s) then 1 else 0
  {
    var t := Chain(p, v);
    assert b + t.prefix[0..] == b;
    if p == "" {
      assert b + p == b;
    } else {
      ChainGlobbed(glob, p[1..], v, lit, b + [p[0]], s);
      assert b + [p[0]] + p[1..] == b + p;
      assert GlobbedBelow(glob, t, 1, lit, b, s)
        == GlobbedBelow(glob, t, 0, lit, b, s) + Globbed(glob, Chain(p[1..], v), 0, lit, b + [p[0]], s);
    }
  }

  /** A star at the end of the chain is tried, and takes the rest of the query. */
  lemma StarFound(glob: (string, string) -> bool, q: string, i: nat, v: Value)
    requires StarTakesAll(glob) && i <= |q|
    ensures |Search(glob, Chain("*", v), q, i)| >= 1
  {
    hide Search, Globbed, Chain;
    var t, e := Chain("*", v), Edge('*', Chain("", v));
    StarChain(v);
    FindOnly(e, '*');
    SearchNode(glob, t, q, i);
    ChainGlobbed(glob, "", v, q[..i], ['*'], q[i..]);
    assert ['*'] + "" == "*";
    assert |ViaChild(glob, t.children, '*', q, i)| >= 1;
  }

  lemma StarChain(v: Value)
    ensures Chain("*", v) == Trie("", [Edge('*', Chain("", v))], [])
  {
    assert "*"[1..] == "";
  }

  /** The wildcard of the query is counted from every earlier place of a pattern that goes on with a star behind it. */
  lemma {:induction false} ChainCounts(glob: (string, string) -> bool, p: string, q: string, i: nat, k: nat, v: Value)
    requires StarTakesAll(glob) && i <= k < |q| && Wild(q[k]) && |p| == k + 2 && p[k + 1] == '*'
    requires forall j :: 0 <= j <= k ==> p[j] == q[j]
    ensures |Search(glob, Chain(p[i..], v), q, i)| >= 1 + if glob(p[k..], q[k..]) then 1 else 0
    decreases k - i
  {
    hide Search, Chain, StarTakesAll;
    ChainStep(glob, p, q, i, v);
    if i == k {
      assert p[k + 1..] == "*";
      StarFound(glob, q, k + 1, v);
    } else {
      ChainCounts(glob, p, q, i + 1, k, v);
    }
  }

  lemma MatchingOne(glob: (string, string) -> bool, e: Entry, q: string)
    ensures |Matching(glob, [e], q)| == if glob(e.pattern, q) then 1 else 0
  {
    assert [e][..0] == [];
  }

  /** The query up to `k`, and a star. */
  function Starred(q: string, k: nat): string
    requires k < |q|
  {
    q[..k + 1] + "*"
  }

  lemma StarredIs(q: string, k: nat)
    requires k < |q|
    ensures var p := Starred(q, k);
      |p| == k + 2 && p[..k + 1] == q[..k + 1] && p[k + 1..] == "*" && forall j :: 0 <= j <= k ==> p[j] == q[j]
  {
  }

  /**
    Behind literal characters a wildcard of the query makes the search fail on a chain:
    the value is found by following the query, besides being found by matching or not.
    */
  lemma WildcardQueryFails(glob: (string, string) -> bool, q: string, k: nat, v: Value)
    requires Lawful(glob) && StarTakesAll(glob)
    requires k < |q| && Wild(q[k]) && forall j :: 0 <= j < k ==> Literal(q[j])
    ensures !Exact(glob, Chain(Starred(q, k), v), q)
  {
    hide Search, Matching, Stored, Chain, Lawful, StarTakesAll;
    var p := Starred(q, k);
    var es, ms := Search(glob, Chain(p, v), q, 0), Matching(glob, Stored(Chain(p, v), ""), q);
    assert p[0..] == p && "" + p == p;
    ChainCounts(glob, p, q, 0, k, v);
    ChainStored(p, v, "");
    MatchingOne(glob, Entry(p, v.key, v.value), q);
    SameRest(glob, p, q, k);
    SameSize(es, ms);
  }

  lemma SameRest(glob: (string, string) -> bool, p: string, q: string, k: nat)
    requires Lawful(glob) && k <= |q| && k <= |p| && p[..k] == q[..k] && forall j :: 0 <= j < k ==> Literal(q[j])
    ensures glob(p, q) <==> glob(p[k..], q[k..])
  {
    assert p[..k] + p[k..] == p;
    LiteralHead(glob, p[..k], p[k..], q);
  }

  lemma SameSize(a: seq<Entry>, b: seq<Entry>)
    ensures multiset(a) == multiset(b) ==> |a| == |b|
  {
    assert |multiset(a)| == |a| && |multiset(b)| == |b|;
  }

  /**
    Behind literal characters an 8-bit character of the query makes the search fail: in a
    prefix it is compared unsigned with signed, and the pattern is missed.
    */
  lemma EightBitQueryFails(glob: (string, string) -> bool, q: string, k: nat, v: Value)
    requires Lawful(glob) && StarTakesAll(glob)
    requires k < |q| && !Ascii(q[k]) && forall j :: 0 <= j <= k ==> Literal(q[j])
    ensures var t := Trie(Starred(q, k), [], [v]);
      WellFormed(t) && Search(glob, t, q, 0) == [] && !Exact(glob, t, q)
  {
    hide Stored, Matching, Lawful, Stop, Starred;
    var p := Starred(q, k);
    StarredIs(q, k);
    StopsAt(p, q, 0, k);
    PrefixStored(p, v);
    SameRest(glob, p, q, k + 1);
    MatchingOne(glob, Entry(p, v.key, v.value), q);
  }

  lemma PrefixStored(q: string, v: Value)
    ensures Stored(Trie(q, [], [v]), "") == [Entry(q, v.key, v.value)]
  {
    var t := Trie(q, [], [v]);
    assert "" + t.prefix == q;
    assert Stored(t, "") == StoredBelow(t, 0, q) + Tagged(q, [v]);
  }

  lemma {:induction false} StopsAt(prefix: string, q: string, p: nat, k: nat)
    requires p <= k < |prefix| && p <= |q| && !Ascii(prefix[k])
    ensures Stop(prefix, q, 0, p) <= k
    decreases k - p
  {
    if p < k && p < |q| { StopsAt(prefix, q, p + 1, k); }
  }

  /** The first place at which a query is not plain. */
  ghost predicate FirstFault(q: string, k: nat) {
    k < |q| && (Wild(q[k]) || !Ascii(q[k])) && forall j :: 0 <= j < k ==> Literal(q[j]) && Ascii(q[j])
  }

  lemma {:induction false} FaultIn(q: string, n: nat) returns (k: nat)
    requires n < |q| && (Wild(q[n]) || !Ascii(q[n])) && forall j :: 0 <= j <= n ==> q[j] != '\\'
    ensures FirstFault(q, k)
  {
    if j :| 0 <= j < n && (Wild(q[j]) || !Ascii(q[j])) { k := FaultIn(q, j); } else { k := n; }
  }

  /** The search is exact on every trie if and only if the query is plain up to its first backslash. */
  lemma ExactIffPlain(glob: (string, string) -> bool, q: string)
    requires Lawful(glob) && StarTakesAll(glob)
    ensures (forall t :: WellFormed(t) && Unescaped(t) ==> Exact(glob, t, q)) <==> Plain(q)
  {
    if Plain(q) {
      forall t | WellFormed(t) && Unescaped(t) ensures Exact(glob, t, q) {
        assert q[..0] == "" && Before(q, 0);
        SearchExact(glob, t, q, 0);
      }
    } else {
      var n :| 0 <= n < |q| && '\\' !in q[..n + 1] && (Wild(q[n]) || !Ascii(q[n]));
      forall j | 0 <= j <= n ensures q[j] != '\\' { assert q[..n + 1][j] == q[j]; }
      var k := FaultIn(q, n);
      var t := NotExact(glob, q, k);
    }
  }

  /** A trie on which the search for a query that is not plain fails. */
  lemma NotExact(glob: (string, string) -> bool, q: string, k: nat) returns (t: Trie)
    requires Lawful(glob) && StarTakesAll(glob) && FirstFault(q, k)
    ensures WellFormed(t) && Unescaped(t) && !Exact(glob, t, q)
  {
    hide Exact, Lawful, StarTakesAll;
    var v := Value("", "");
    assert '\\' !in Starred(q, k);
    if Wild(q[k]) {
      ChainIsTrie(Starred(q, k), v);
      WildcardQueryFails(glob, q, k, v);
      t := Chain(Starred(q, k), v);
    } else {
      EightBitQueryFails(glob, q, k, v);
      t := Trie(Starred(q, k), [], [v]);
    }
  }
}
