/**
  The search of the hardware database as it runs: a line buffer that is pushed
  and popped, and a property map that is replaced entry by entry.  What is added
  is recorded together with the pattern that it was stored for, so that the runs
  can be compared with the searches on tries as values.
  */
module Hwdb {
  import opened HwdbTrie

  const LINE_MAX: nat := 2048

  datatype Option<T> = Nothing | Just(value: T)

  class LineBuf {
    const bytes: array<char>
    var len: nat

    ghost predicate Valid()
      reads this
    {
      bytes.Length == LINE_MAX && len < LINE_MAX
    }

    ghost function Text(): string
      requires Valid()
      reads this, bytes
    {
      bytes[..len]
    }

    constructor ()
      ensures Valid() && Text() == "" && fresh(bytes)
    {
      bytes := new char[LINE_MAX](_ => '\0');
      len := 0;
    }

    method Get() returns (s: Option<string>)
      requires Valid()
      ensures s == if len + 1 >= LINE_MAX then Nothing else Just(Text())
    {
      if len + 1 >= bytes.Length {
        return Nothing;
      }
      s := Just(bytes[..len]);
    }

    method Add(s: string) returns (ok: bool)
      requires Valid()
      modifies this`len, bytes
      ensures Valid() && ok == (old(len) + |s| < LINE_MAX)
      ensures Text() == if ok then old(Text()) + s else old(Text())
    {
      if len + |s| >= bytes.Length {
        return false;
      }
      var n := 0;
      while n < |s|
        invariant n <= |s| && len == old(len)
        invariant bytes[..len + n] == old(bytes[..len]) + s[..n]
      {
        bytes[len + n] := s[n];
        assert bytes[..len + n + 1] == bytes[..len + n] + [s[n]] && s[..n + 1] == s[..n] + [s[n]];
        n := n + 1;
      }
      assert s[..n] == s;
      len := len + |s|;
      ok := true;
    }

    method AddChar(c: char) returns (ok: bool)
      requires Valid()
      modifies this`len, bytes
      ensures Valid() && ok == (old(len) + 1 < LINE_MAX)
      ensures Text() == if ok then old(Text()) + [c] else old(Text())
    {
      if len + 1 >= bytes.Length {
        return false;
      }
      bytes[len] := c;
      len := len + 1;
      assert bytes[..len] == old(bytes[..len]) + [c];
      ok := true;
    }

    /** Takes off the last `count` characters, which must be there. */
    method Rem(count: nat)
      requires Valid() && count <= len
      modifies this`len
      ensures Valid() && Text() == old(Text())[..old(len) - count]
    {
      len := len - count;
    }
  }

  /** Binary search among the children. */
  method NodeLookup(cs: seq<Edge>, c: char) returns (r: Lookup)
    requires Ordered(cs)
    ensures r == Find(cs, c)
  {
    var lo, hi := 0, |cs|;
    while lo < hi
      invariant 0 <= lo <= hi <= |cs|
      invariant forall i :: 0 <= i < lo ==> cs[i].c < c
      invariant forall i :: hi <= i < |cs| ==> c < cs[i].c
    {
      var mid := (lo + hi) / 2;
      if cs[mid].c == c {
        FoundAt(cs, mid);
        return Some(cs[mid].sub);
      } else if cs[mid].c < c {
        lo := mid + 1;
      } else {
        hi := mid;
      }
    }
    FindNone(cs, c);
    r := None;
  }

  lemma {:induction false} FoundAt(cs: seq<Edge>, i: nat)
    requires Ordered(cs) && i < |cs|
    ensures Find(cs, cs[i].c) == Some(cs[i].sub)
  {
    if i < |cs| - 1 { FoundAt(cs[..|cs| - 1], i); }
  }

  lemma {:induction false} LongestChild(t: Trie, n: nat, i: nat)
    requires i < n <= |t.children|
    ensures 1 + Longest(t.children[i].sub) <= LongestBelow(t, n)
  {
    if i < n - 1 { LongestChild(t, n - 1, i); }
  }

  lemma {:induction false} FoundIn(t: Trie, n: nat, c: char)
    requires WellFormed(t) && n <= |t.children|
    ensures var f := Find(t.children[..n], c);
      f.Some? ==> WellFormed(f.sub) && 1 + Longest(f.sub) <= LongestBelow(t, n)
  {
    if n > 0 {
      FoundIn(t, n - 1, c);
      assert t.children[..n][..n - 1] == t.children[..n - 1];
    }
  }

  lemma Found(t: Trie, c: char)
    requires WellFormed(t)
    ensures var f := Find(t.children, c); f.Some? ==> WellFormed(f.sub) && 1 + |t.prefix| + Longest(f.sub) <= Longest(t)
    ensures Ordered(t.children)
  {
    FoundIn(t, |t.children|, c);
    assert t.children[..|t.children|] == t.children;
  }

  class Database {
    const trie: Trie
    /** `fnmatch` with no flags. */
    const glob: (string, string) -> bool
    var properties: map<string, string>
    var modified: bool
    var modalias: Option<string>
    ghost var added: seq<Entry>

    constructor (trie: Trie, glob: (string, string) -> bool)
      ensures this.trie == trie && this.glob == glob && modalias == Nothing && Consistent()
    {
      this.trie, this.glob, modalias, modified := trie, glob, Nothing, false;
      properties, added := map[], [];
    }

    ghost predicate Consistent()
      reads this
    {
      properties == Props(added)
    }

    method AddProperty(key: string, value: string, ghost pattern: string)
      requires Consistent()
      modifies this`properties, this`modified, this`added
      ensures Consistent() && added == old(added) + [Entry(pattern, key, value)]
      ensures modified == (old(modified) || Counts(key))
    {
      added := added + [Entry(pattern, key, value)];
      assert added[..|added| - 1] == old(added);
      if |key| == 0 || key[0] != ' ' {
        return;
      }
      properties := properties[key[1..] := value];
      modified := true;
    }

    method AddValues(vs: seq<Value>, ghost pattern: string)
      requires Consistent()
      modifies this`properties, this`modified, this`added
      ensures Consistent() && added == old(added) + Tagged(pattern, vs)
    {
      var n := 0;
      while n < |vs|
        invariant n <= |vs| && Consistent()
        invariant added == old(added) + Tagged(pattern, vs[..n])
      {
        AddProperty(vs[n].key, vs[n].value, pattern);
        assert Tagged(pattern, vs[..n + 1]) == Tagged(pattern, vs[..n]) + [Entry(pattern, vs[n].key, vs[n].value)];
        n := n + 1;
      }
      assert vs[..n] == vs;
    }

    /** Matches every pattern of the subtree; the buffer ends as it began. */
    method TrieFnmatch(t: Trie, p: nat, buf: LineBuf, search: string, ghost lit: string)
      requires Consistent() && buf.Valid() && p <= |t.prefix|
      requires buf.len + Longest(t) - p + 1 < LINE_MAX
      modifies this`properties, this`modified, this`added, buf, buf.bytes
      decreases t, 2
      ensures Consistent() && buf.Valid() && buf.Text() == old(buf.Text())
      ensures added == old(added) + Globbed(glob, t, p, lit, old(buf.Text()), search)
    {
      hide GlobbedBelow, Props;
      ghost var b := buf.Text();
      var prefix := t.prefix[p..];
      var len := |prefix|;
      var ok := buf.Add(prefix);
      ghost var b' := b + prefix;
      FnmatchChildren(t, buf, search, lit);
      if |t.values| > 0 {
        var line := buf.Get();
        if glob(line.value, search) { AddValues(t.values, lit + b'); }
      }
      buf.Rem(len);
      assert b'[..|b|] == b;
    }

    method FnmatchChildren(t: Trie, buf: LineBuf, search: string, ghost lit: string)
      requires Consistent() && buf.Valid() && buf.len + LongestBelow(t, |t.children|) + 1 < LINE_MAX
      modifies this`properties, this`modified, this`added, buf, buf.bytes
      decreases t, 1
      ensures Consistent() && buf.Valid() && buf.Text() == old(buf.Text())
      ensures added == old(added) + GlobbedBelow(glob, t, |t.children|, lit, old(buf.Text()), search)
    {
      hide Globbed, Props;
      ghost var b := buf.Text();
      var i := 0;
      while i < |t.children|
        invariant i <= |t.children| && Consistent() && buf.Valid() && buf.Text() == b
        invariant added == old(added) + GlobbedBelow(glob, t, i, lit, b, search)
      {
        LongestChild(t, |t.children|, i);
        FnmatchChild(t, i, buf, search, lit);
        i := i + 1;
      }
    }

    method FnmatchChild(t: Trie, i: nat, buf: LineBuf, search: string, ghost lit: string)
      requires i < |t.children| && Consistent() && buf.Valid()
        && buf.len + 1 + Longest(t.children[i].sub) + 1 < LINE_MAX
      modifies this`properties, this`modified, this`added, buf, buf.bytes
      decreases t, 0
      ensures Consistent() && buf.Valid() && buf.Text() == old(buf.Text())
      ensures added == old(added) + Globbed(glob, t.children[i].sub, 0, lit, old(buf.Text()) + [t.children[i].c],
        search)
    {
      hide Globbed, Props, Longest;
      ghost var b := buf.Text();
      var child := t.children[i];
      var ok := buf.AddChar(child.c);
      TrieFnmatch(child.sub, 0, buf, search, lit);
      buf.Rem(1);
      assert b == (b + [child.c])[..|b|];
    }

    /** One of the three lookups for a wildcard child. */
    method TryWildcard(node: Trie, c: char, buf: LineBuf, q: string, i: nat)
      requires Consistent() && buf.Valid() && buf.Text() == "" && WellFormed(node) && Longest(node) + 1 < LINE_MAX
        && i <= |q|
      modifies this`properties, this`modified, this`added, buf, buf.bytes
      ensures Consistent() && buf.Valid() && buf.Text() == ""
      ensures added == old(added) + ViaChild(glob, node.children, c, q, i)
    {
      hide Globbed, Props, Longest, WellFormed, Find;
      Found(node, c);
      var child := NodeLookup(node.children, c);
      if child.Some? {
        var ok := buf.AddChar(c);
        assert "" + [c] == [c];
        TrieFnmatch(child.sub, 0, buf, q[i..], q[..i]);
        buf.Rem(1);
        assert [c][..0] == "";
      }
    }

    method TryWildcards(node: Trie, buf: LineBuf, q: string, i: nat, ghost goal: seq<Entry>)
      requires Consistent() && buf.Valid() && buf.Text() == "" && WellFormed(node) && Longest(node) + 1 < LINE_MAX
        && i <= |q|
      requires goal == added + AtNode(glob, node, q, i)
      modifies this`properties, this`modified, this`added, buf, buf.bytes
      ensures Consistent() && buf.Valid() && buf.Text() == ""
      ensures goal == added + if i == |q| then Tagged(q, node.values) else Descend(glob, node.children, q, i)
    {
      hide Globbed, Props, Longest, WellFormed, ViaChild, Descend, Tagged;
      TryWildcard(node, '*', buf, q, i);
      TryWildcard(node, '?', buf, q, i);
      TryWildcard(node, '[', buf, q, i);
    }

    /** Walks down along the query; wherever a wildcard turns up, the rest is matched below it. */
    method TrieSearch(q: string)
      requires Consistent() && WellFormed(trie) && Longest(trie) + 1 < LINE_MAX
      modifies this`properties, this`modified, this`added
      ensures Consistent() && added == old(added) + Search(glob, trie, q, 0)
    {
      hide Globbed, Props, Longest, WellFormed, Find, Stop, AtNode;
      var buf := new LineBuf();
      var node, i := Some(trie), 0;
      ghost var goal := old(added) + Search(glob, trie, q, 0);
      while node.Some?
        invariant i <= |q| || node.None?
        invariant fresh(buf) && fresh(buf.bytes)
        invariant Consistent() && buf.Valid() && buf.Text() == ""
        invariant node.Some? ==> WellFormed(node.sub) && Longest(node.sub) + 1 < LINE_MAX
        invariant goal == added + if node.None? then [] else Search(glob, node.sub, q, i)
        decreases node.Some?, |q| - i
      {
        var prefix := node.sub.prefix;
        var p := ScanPrefix(prefix, q, i);
        if p < |prefix| {
          if Wild(prefix[p]) { TrieFnmatch(node.sub, p, buf, q[i + p..], q[..i + p]); }
          return;
        }
        i := i + p;
        TryWildcards(node.sub, buf, q, i, goal);
        if i == |q| {
          AddValues(node.sub.values, q);
          return;
        }
        Found(node.sub, q[i]);
        node := NodeLookup(node.sub.children, q[i]);
        i := i + 1;
      }
    }

    /** The properties are those of the last query. */
    ghost predicate Ready()
      reads this
    {
      && Consistent() && WellFormed(trie) && Longest(trie) + 1 < LINE_MAX
      && (modalias.Just? ==> added == Search(glob, trie, modalias.value, 0))
    }

    method Prepare(q: string)
      requires Ready()
      modifies this
      ensures Ready() && modalias == Just(q)
      ensures old(modalias) == Just(q) ==> properties == old(properties)
    {
      if modalias == Just(q) {
        return;
      }
      properties, added, modified := map[], [], true;
      hide Search, WellFormed, Longest;
      TrieSearch(q);
      modalias := Just(q);
      assert [] + added == added;
    }

    method Get(q: string, key: string) returns (value: Option<string>)
      requires Ready()
      modifies this
      ensures Ready() && modalias == Just(q)
      ensures value == if key in properties then Just(properties[key]) else Nothing
    {
      Prepare(q);
      value := if key in properties then Just(properties[key]) else Nothing;
    }
  }

  /**
    What a lookup by key returns: of the stored patterns that match and have the key, the
    value of the one with the longest literal beginning; of those the one with the last of
    `*`, `?`, `[` and the end behind it; of those the last that is stored.
    */
  lemma GetIsLongestMatch(db: Database, q: string, k: string) returns (n: nat)
    requires db.Ready() && db.modalias == Just(q)
    requires Lawful(db.glob) && Plain(q) && Unescaped(db.trie)
    ensures var ms := Matching(db.glob, Stored(db.trie, ""), q);
      && (k in db.properties <==> Keyed(ms, " " + k))
      && (k in db.properties ==> Decides(ms, n, " " + k) && db.properties[k] == ms[n].value)
  {
    n := LongestPrefixWins(db.glob, db.trie, q, k);
  }

  /** Goes along a prefix while it agrees with the query and has no wildcard. */
  method ScanPrefix(prefix: string, q: string, i: nat) returns (p: nat)
    requires i <= |q|
    ensures p == Stop(prefix, q, i, 0)
  {
    p := 0;
    while p < |prefix| && !Wild(prefix[p]) && i + p < |q| && prefix[p] == q[i + p] && Ascii(prefix[p])
      invariant p <= |prefix| && i + p <= |q|
      invariant Stop(prefix, q, i, 0) == Stop(prefix, q, i, p)
    {
      p := p + 1;
    }
  }
}
