/**
  Writing a device's properties into the bounded monitor buffer, and reading them
  from one.  The loops work on positions in a text; each is tied to the function
  that says what the text stands for, and the buffer is proved to be large enough
  exactly when writing succeeds.
  */
module DeviceIo {
  import opened DeviceText

  function Concat(parts: seq<string>): string {
    if parts == [] then "" else Concat(parts[..|parts| - 1]) + parts[|parts| - 1]
  }

  /** Appends what fits; the remaining size is 0 if something did not. */
  method Strpcpy(dest: string, size: nat, src: string) returns (dest': string, size': nat)
    ensures |src| < size ==> dest' == dest + src && size' == size - |src|
    ensures |src| >= size ==> size' == 0
    ensures |dest'| <= |dest| + size
  {
    dest', size' := dest, size;
    if |src| >= size {
      if size > 1 { dest' := dest + src[..size - 1]; }
      size' := 0;
    } else if |src| > 0 {
      dest' := dest + src;
      size' := size - |src|;
    }
  }

  /** Appends several strings; together they fit if and only if some size remains. */
  method Strpcpyl(dest: string, size: nat, parts: seq<string>) returns (dest': string, size': nat)
    requires parts != []
    ensures |Concat(parts)| < size ==> dest' == dest + Concat(parts) && size' == size - |Concat(parts)|
    ensures |Concat(parts)| >= size ==> size' == 0
  {
    dest', size' := dest, size;
    var n := 0;
    while n < |parts|
      invariant n <= |parts|
      invariant |Concat(parts[..n])| < size ==>
                  dest' == dest + Concat(parts[..n]) && size' == size - |Concat(parts[..n])|
      invariant |Concat(parts[..n])| >= size ==> size' == 0
    {
      assert parts[..n + 1][..n] == parts[..n];
      dest', size' := Strpcpy(dest', size', parts[n]);
      n := n + 1;
    }
    assert parts[..n] == parts;
  }

  lemma PublicStep(ps: seq<Prop>, n: nat)
    requires n < |ps|
    ensures Public(ps[..n + 1]) == Public(ps[..n]) + if Private(ps[n]) then [] else [Line(ps[n])]
    ensures Joined(Public(ps[..n + 1])) == Joined(Public(ps[..n])) + if Private(ps[n]) then "" else Line(ps[n]) + [NUL]
  {
    assert ps[..n + 1][..n] == ps[..n];
    var ss := Public(ps[..n + 1]);
    if Private(ps[n]) { assert ss == Public(ps[..n]); } else { assert ss[..|ss| - 1] == Public(ps[..n]); }
  }

  lemma {:induction false} FitsStep(ps: seq<Prop>, n: nat)
    requires n <= |ps| && Fits(ps)
    ensures Fits(ps[..n])
    decreases |ps| - n
  {
    if n < |ps| {
      FitsStep(ps, n + 1);
      PublicStep(ps, n);
    } else {
      assert ps[..n] == ps;
    }
  }

  lemma ConcatLine(p: Prop)
    ensures Concat([p.key, "=", p.value]) == Line(p)
  {
    var parts := [p.key, "=", p.value];
    assert parts[..2] == [p.key, "="] && [p.key, "="][..1] == [p.key] && [p.key][..0] == [];
    assert Concat([p.key]) == p.key;
    assert Concat([p.key, "="]) == p.key + "=";
  }

  /**
    A property comes up when the ones before it have filled the buffer to the last
    byte.  Its copying fails, but ends with a zero, which falls past the end.
    */
  ghost predicate Overflows(ps: seq<Prop>) { exists n :: 0 <= n < |ps| && OverflowsAt(ps, n) }

  ghost predicate OverflowsAt(ps: seq<Prop>, n: nat)
    requires n < |ps|
  {
    !Private(ps[n]) && |Joined(Public(ps[..n]))| == MONITOR_BUF_SIZE && |Public(ps[..n])| + 2 < ENVP_SIZE
  }

  lemma {:induction false} JoinedGrows(ps: seq<Prop>, n: nat, m: nat)
    requires n <= m <= |ps|
    ensures |Joined(Public(ps[..n]))| <= |Joined(Public(ps[..m]))| && |Public(ps[..n])| <= |Public(ps[..m])|
    decreases m - n
  {
    hide Joined, Public, Line, Private;
    if n < m {
      JoinedGrows(ps, n, m - 1);
      PublicStep(ps, m - 1);
    }
  }

  /** This happens only when the properties do not fit anyway. */
  lemma OverflowsWhenFull(ps: seq<Prop>)
    requires Overflows(ps)
    ensures !Fits(ps)
  {
    var n :| 0 <= n < |ps| && OverflowsAt(ps, n);
    PublicStep(ps, n);
    JoinedGrows(ps, n + 1, |ps|);
    assert ps[..|ps|] == ps;
  }

  /** A property behind others that fill the buffer to the last byte does it. */
  lemma FilledUpOverflows(ps: seq<Prop>, p: Prop)
    requires |Joined(Public(ps))| == MONITOR_BUF_SIZE && |Public(ps)| + 2 < ENVP_SIZE && !Private(p)
    ensures Overflows(ps + [p])
  {
    assert (ps + [p])[..|ps|] == ps;
    assert OverflowsAt(ps + [p], |ps|);
  }

  /** Two properties are enough, if the first has a long value. */
  lemma TwoOverflow(v: string)
    requires |v| == MONITOR_BUF_SIZE - 3
    ensures Overflows([Prop("A", v), Prop("B", "b")])
  {
    hide Joined, Public, OverflowsAt;
    var p, q := Prop("A", v), Prop("B", "b");
    assert Line(p) == "A=" + v;
    OneProp(p);
    FilledUpOverflows([p], q);
    assert [p] + [q] == [p, q];
  }

  lemma OneProp(p: Prop)
    requires !Private(p)
    ensures |Public([p])| == 1 && |Joined(Public([p]))| == |Line(p)| + 1
  {
    hide Joined, Public, Line, Private;
    NoProps();
    PublicStep([p], 0);
    assert [p][..0] == [] && [p][..1] == [p];
  }

  /** At place `n` writing has failed, so no later property is reached. */
  lemma OverflowsHere(ps: seq<Prop>, n: nat)
    requires n < |ps| && !Private(ps[n]) && forall m :: 0 <= m < n ==> !OverflowsAt(ps, m)
    requires |Joined(Public(ps[..n + 1]))| > MONITOR_BUF_SIZE || |Public(ps[..n + 1])| + 1 >= ENVP_SIZE
    ensures Overflows(ps) <==> OverflowsAt(ps, n)
  {
    forall m | n < m < |ps| ensures !OverflowsAt(ps, m) { JoinedGrows(ps, n + 1, m); }
    hide OverflowsAt;
    if Overflows(ps) {
      var k :| 0 <= k < |ps| && OverflowsAt(ps, k);
      assert k == n;
    }
  }

  /**
    Succeeds exactly when the array and the buffer are large enough, with the text
    form of the public properties; `past` tells that a zero was written past the end.
    */
  method UpdateMonitorBuf(ps: seq<Prop>) returns (r: Option<string>, past: bool)
    ensures r == if Fits(ps) then Some(Joined(Public(ps))) else None
    ensures r.Some? <==> |Public(ps)| <= 126 && |Joined(Public(ps))| <= 4096
    ensures past <==> Overflows(ps)
  {
    hide Line, Joined, Public, Private;
    var i, s, l, n := 0, "", MONITOR_BUF_SIZE, 0;
    past := false;
    NoProps();
    assert ps[..0] == [];
    while n < |ps|
      invariant n <= |ps|
      invariant i == |Public(ps[..n])| && i + 1 < ENVP_SIZE
      invariant s == Joined(Public(ps[..n])) && l == MONITOR_BUF_SIZE - |s|
      invariant forall m :: 0 <= m < n ==> !OverflowsAt(ps, m)
      invariant !past
    {
      PublicStep(ps, n);
      if Fits(ps) { FitsStep(ps, n + 1); }
      var p := ps[n];
      n := n + 1;
      if Private(p) {
        continue;
      }
      i := i + 1;
      if i + 1 >= ENVP_SIZE {
        OverflowsHere(ps, n - 1);
        return None, false;
      }
      ConcatLine(p);
      past := l == 0;
      s, l := Strpcpyl(s, l, [p.key, "=", p.value]);
      if l == 0 {
        OverflowsHere(ps, n - 1);
        return None, past;
      }
      s, l := s + [NUL], l - 1;
    }
    assert ps[..n] == ps;
    r := Some(s);
  }

  lemma NoProps()
    ensures Public([]) == [] && Joined([]) == ""
  {
  }

  // ---------- reading ----------

  method FindChar(s: string, from: nat, c: char) returns (n: nat)
    requires from <= |s|
    ensures n == from + IndexOf(s[from..], c)
  {
    n := from;
    while n < |s| && s[n] != c
      invariant from <= n <= |s| && from + IndexOf(s[from..], c) == n + IndexOf(s[n..], c)
    {
      assert s[n..][1..] == s[n + 1..];
      n := n + 1;
    }
  }

  /** The loop over the value of `DEVLINKS`: the links in the order in which they are added. */
  method ParseLinks(s: string) returns (r: seq<string>)
    ensures r == SplitLinks(s)
  {
    hide SplitLinks, IndexOf, Parsed;
    r := [];
    var slink := 0;
    NoneParsed(s);
    var next := FindChar(s, 0, ' ');
    while next < |s|
      invariant slink <= next <= |s| && next == slink + IndexOf(s[slink..], ' ') && Parsed(r, s, slink)
      decreases |s| - next
    {
      ParsedStep(r, s, slink, next);
      r := r + [s[slink..next]];
      slink := next + 1;
      next := FindChar(s, slink, ' ');
    }
    ParsedStep(r, s, slink, next);
    if slink < |s| { r := r + [s[slink..]]; }
  }

  /** The links `r` have been taken from in front of `slink`. */
  ghost predicate Parsed(r: seq<string>, s: string, slink: nat)
    requires slink <= |s|
  {
    r + SplitLinks(s[slink..]) == SplitLinks(s)
  }

  lemma NoneParsed(s: string)
    ensures s[0..] == s && Parsed([], s, 0)
  {
    hide SplitLinks;
    assert s[0..] == s;
  }

  lemma ParsedStep(r: seq<string>, s: string, slink: nat, next: nat)
    requires slink <= next <= |s| && next == slink + IndexOf(s[slink..], ' ') && Parsed(r, s, slink)
    ensures next < |s| ==> Parsed(r + [s[slink..next]], s, next + 1)
    ensures next == |s| ==> SplitLinks(s) == if slink < |s| then r + [s[slink..]] else r
  {
    hide SplitLinks, IndexOf;
    LinksStep(s, slink, next);
    if next < |s| { Regroup(r, s[slink..next], SplitLinks(s[next + 1..])); } else { Regroup(r, "", []); }
  }

  lemma CutAt(s: string, from: nat, n: nat)
    requires from <= n < |s|
    ensures s[from..][..n - from] == s[from..n] && s[from..][n - from + 1..] == s[n + 1..]
  {
  }

  lemma OneLink(t: string, m: nat)
    requires m == IndexOf(t, ' ')
    ensures m < |t| ==> SplitLinks(t) == [t[..m]] + SplitLinks(t[m + 1..])
    ensures m == |t| ==> SplitLinks(t) == if t == "" then [] else [t]
  {
    hide IndexOf;
  }

  lemma OneTag(t: string, m: nat)
    requires m == IndexOf(t, ':')
    ensures TagsOf(t) == if m < |t| then [t[..m]] + TagsOf(t[m + 1..]) else []
  {
    hide IndexOf;
  }

  lemma LinksStep(s: string, slink: nat, next: nat)
    requires slink <= next <= |s| && next == slink + IndexOf(s[slink..], ' ')
    ensures SplitLinks(s[slink..]) ==
      if next < |s| then [s[slink..next]] + SplitLinks(s[next + 1..]) else if slink < |s| then [s[slink..]] else []
  {
    hide IndexOf, SplitLinks;
    OneLink(s[slink..], next - slink);
    if next < |s| { CutAt(s, slink, next); }
  }

  /** The loop over the value of `TAGS`. */
  method ParseTags(s: string) returns (r: seq<string>)
    ensures r == SplitTags(s)
  {
    hide TagsOf;
    assert s[0..] == s;
    var next := FindChar(s, 0, ':');
    if next == |s| {
      return [];
    }
    r := TagsLoop(s, next + 1);
  }

  method TagsLoop(s: string, from: nat) returns (r: seq<string>)
    requires from <= |s|
    ensures r == TagsOf(s[from..])
  {
    hide TagsOf, IndexOf, Cut;
    r := [];
    var next := from;
    NoneCut(s, from);
    while next < |s|
      invariant from <= next <= |s| && Cut(r, s, from, next)
      decreases |s| - next
    {
      var tag := next;
      next := FindChar(s, tag, ':');
      CutStep(r, s, from, tag, next);
      if next == |s| {
        return;
      }
      r := r + [s[tag..next]];
      next := next + 1;
    }
    CutStep(r, s, from, next, next);
  }

  /** The tags `r` have been cut from the text between `from` and `next`. */
  ghost predicate Cut(r: seq<string>, s: string, from: nat, next: nat)
    requires from <= |s| && next <= |s|
  {
    r + TagsOf(s[next..]) == TagsOf(s[from..])
  }

  lemma NoneCut(s: string, from: nat)
    requires from <= |s|
    ensures Cut([], s, from, from)
  {
    hide TagsOf;
  }

  lemma CutStep(r: seq<string>, s: string, from: nat, tag: nat, next: nat)
    requires from <= |s| && tag <= next <= |s| && Cut(r, s, from, tag)
    requires next == tag + IndexOf(s[tag..], ':') || tag == next == |s|
    ensures next < |s| ==> Cut(r + [s[tag..next]], s, from, next + 1)
    ensures next == |s| ==> r == TagsOf(s[from..])
  {
    hide TagsOf, IndexOf;
    if next < |s| || tag < next {
      TagsStep(s, tag, next);
      Regroup(r, s[tag..next], if next < |s| then TagsOf(s[next + 1..]) else []);
    } else {
      NoTags();
      assert s[tag..] == "";
      Regroup(r, "", []);
    }
  }

  lemma NoTags()
    ensures TagsOf("") == []
  {
  }

  lemma TagsStep(s: string, tag: nat, next: nat)
    requires tag <= next <= |s| && next == tag + IndexOf(s[tag..], ':')
    ensures TagsOf(s[tag..]) == if next < |s| then [s[tag..next]] + TagsOf(s[next + 1..]) else []
  {
    hide IndexOf, TagsOf;
    OneTag(s[tag..], next - tag);
    if next < |s| { CutAt(s, tag, next); }
  }

  /** Dispatches one line. */
  method ParseLine(d: Device, s: string) returns (r: Device)
    ensures r == Read(d, s)
  {
    hide SplitLinks, SplitTags, Truncated, CutPath, ValidTag;
    r := d;
    if StartsWith(s, "DEVPATH=") {
      r := d.(devpath := Some(CutPath(s[8..])));
    } else if StartsWith(s, "SUBSYSTEM=") {
      r := d.(subsystem := Some(s[10..]));
    } else if StartsWith(s, "DEVLINKS=") {
      var links := ParseLinks(Truncated(s[9..], UTIL_PATH_SIZE));
      r := d.(links := d.links + SetOf(links));
    } else if StartsWith(s, "TAGS=") {
      var tags := ParseTags(Truncated(s[5..], UTIL_PATH_SIZE));
      r := d.(tags := d.tags + set t | t in tags && ValidTag(t));
    } else if !SetsReserved(s) {
      r := ReadOrdinary(d, s);
    }
  }

  /** The strings `done` have been taken from the front of the buffer. */
  ghost predicate Taken(done: seq<string>, buf: string, pos: nat)
    requires pos <= |buf|
  {
    done + SplitNul(buf[pos..]) == SplitNul(buf)
  }

  /** Reads a device; fails without a path or a subsystem. */
  method NewFromNulstr(buf: string) returns (r: Option<Device>)
    ensures r == FromText(buf)
  {
    if |buf| == 0 {
      return None;
    }
    var d, pos := BLANK, 0;
    ghost var done: seq<string> := [];
    assert buf[0..] == buf;
    assert Taken([], buf, 0);
    hide Read, SplitNul, Taken;
    while pos < |buf|
      invariant pos <= |buf| && Taken(done, buf, pos)
      invariant d == ReadAll(BLANK, done)
      decreases |buf| - pos
    {
      var n := FindChar(buf, pos, NUL);
      TakenStep(done, buf, pos, n);
      if n == pos {
        break;
      }
      var key := buf[pos..n];
      d := ParseLine(d, key);
      ReadOne(done, key);
      done := done + [key];
      pos := if n < |buf| then n + 1 else n;
    }
    if pos == |buf| { TakenEnd(done, buf); }
    if d.devpath.None? || d.subsystem.None? {
      return None;
    }
    r := Some(d);
  }

  lemma ReadOne(done: seq<string>, key: string)
    ensures ReadAll(BLANK, done + [key]) == Read(ReadAll(BLANK, done), key)
  {
    assert (done + [key])[..|done|] == done;
  }

  lemma TakenStep(done: seq<string>, buf: string, pos: nat, n: nat)
    requires pos <= n <= |buf| && n == pos + IndexOf(buf[pos..], NUL) && Taken(done, buf, pos)
    ensures n == pos ==> done == SplitNul(buf)
    ensures n > pos ==> Taken(done + [buf[pos..n]], buf, if n < |buf| then n + 1 else n)
  {
    hide SplitNul, IndexOf;
    NulStep(buf, pos, n);
    Regroup(done, buf[pos..n], if n == pos then [] else SplitNul(buf[if n < |buf| then n + 1 else n..]));
  }

  lemma Regroup(done: seq<string>, x: string, rest: seq<string>)
    ensures done + ([x] + rest) == done + [x] + rest && done + [] == done
  {
  }

  lemma TakenEnd(done: seq<string>, buf: string)
    requires Taken(done, buf, |buf|)
    ensures done == SplitNul(buf)
  {
    assert buf[|buf|..] == "";
  }

  lemma NulStep(buf: string, pos: nat, n: nat)
    requires pos <= n <= |buf| && n == pos + IndexOf(buf[pos..], NUL)
    ensures SplitNul(buf[pos..]) ==
      if n == pos then []
      else if n == |buf| then [buf[pos..n]] + SplitNul(buf[n..])
      else [buf[pos..n]] + SplitNul(buf[n + 1..])
  {
    hide IndexOf, SplitNul;
    OneString(buf[pos..], n - pos);
    if n < |buf| {
      CutAt(buf, pos, n);
    } else {
      assert buf[pos..] == buf[pos..n] && buf[n..] == "";
      OneString("", IndexOf("", NUL));
    }
  }

  lemma OneString(t: string, m: nat)
    requires m == IndexOf(t, NUL)
    ensures m == 0 ==> SplitNul(t) == []
    ensures 0 < m == |t| ==> SplitNul(t) == [t]
    ensures 0 < m < |t| ==> SplitNul(t) == [t[..m]] + SplitNul(t[m + 1..])
  {
    hide IndexOf;
  }
}
