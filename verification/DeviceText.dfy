/**
  The text form of a device: its properties as `key=value` strings, each ended by
  a zero character, as they are sent and read back.
  */
module DeviceText {

  const NUL: char := '\0'
  const ENVP_SIZE: nat := 128
  const MONITOR_BUF_SIZE: nat := 4096
  const UTIL_PATH_SIZE: nat := 1024
  const UTIL_LINE_SIZE: nat := 16384

  datatype Option<T> = None | Some(value: T)

  /** An entry of the property list. */
  datatype Prop = Prop(key: string, value: string)

  // ---------- searching ----------

  /** The first place of `c`, or the length. */
  function IndexOf(s: string, c: char): (r: nat)
    ensures r <= |s|
    ensures r < |s| ==> s[r] == c
  {
    if s == "" || s[0] == c then 0 else 1 + IndexOf(s[1..], c)
  }

  lemma {:induction false} IndexIs(a: string, c: char, b: string)
    requires c !in a
    ensures IndexOf(a + [c] + b, c) == |a|
  {
    var s := a + [c] + b;
    if a != "" {
      assert s[1..] == a[1..] + [c] + b;
      IndexIs(a[1..], c, b);
    }
  }

  lemma {:induction false} IndexNone(a: string, c: char)
    requires c !in a
    ensures IndexOf(a, c) == |a|
  {
    if a != "" { IndexNone(a[1..], c); }
  }

  predicate StartsWith(s: string, p: string) { |p| <= |s| && s[..|p|] == p }

  // ---------- writing ----------

  predicate Private(p: Prop) { p.key != "" && p.key[0] == '.' }

  function Line(p: Prop): string { p.key + "=" + p.value }

  /** The strings that are written. */
  function Public(ps: seq<Prop>): seq<string> {
    if ps == [] then []
    else Public(ps[..|ps| - 1]) + if Private(ps[|ps| - 1]) then [] else [Line(ps[|ps| - 1])]
  }

  function Joined(ss: seq<string>): string {
    if ss == [] then "" else Joined(ss[..|ss| - 1]) + ss[|ss| - 1] + [NUL]
  }

  /** The environment array and the buffer are large enough. */
  predicate Fits(ps: seq<Prop>) { |Public(ps)| + 1 < ENVP_SIZE && |Joined(Public(ps))| <= MONITOR_BUF_SIZE }

  /** What the list of links becomes as a property. */
  function JoinLinks(ls: seq<string>): string
    requires ls != []
  {
    if |ls| == 1 then ls[0] else ls[0] + " " + JoinLinks(ls[1..])
  }

  function TagsFrom(ts: seq<string>): string {
    if ts == [] then "" else ts[0] + ":" + TagsFrom(ts[1..])
  }

  function JoinTags(ts: seq<string>): string { ":" + TagsFrom(ts) }

  // ---------- reading ----------

  /** The strings of a buffer, up to an empty one. */
  function SplitNul(buf: string): seq<string>
    decreases |buf|
  {
    var n := IndexOf(buf, NUL);
    if n == 0 then []
    else if n == |buf| then [buf]
    else [buf[..n]] + SplitNul(buf[n + 1..])
  }

  function SplitLinks(s: string): seq<string>
    decreases |s|
  {
    var n := IndexOf(s, ' ');
    if n < |s| then [s[..n]] + SplitLinks(s[n + 1..]) else if s == "" then [] else [s]
  }

  function TagsOf(s: string): seq<string>
    decreases |s|
  {
    var n := IndexOf(s, ':');
    if n < |s| then [s[..n]] + TagsOf(s[n + 1..]) else []
  }

  function SplitTags(s: string): seq<string> {
    var n := IndexOf(s, ':');
    if n < |s| then TagsOf(s[n + 1..]) else []
  }

  function Truncated(s: string, size: nat): string
    requires size > 0
  {
    if |s| >= size then s[..size - 1] else s
  }

  predicate ValidTag(t: string) { ':' !in t && ' ' !in t }

  function SetOf(ss: seq<string>): set<string> { set s | s in ss }

  /** What is known of a device while it is read. */
  datatype Device = Device(devpath: Option<string>, subsystem: Option<string>,
                           ordinary: map<string, string>, links: set<string>, tags: set<string>)

  /** Keys that set something else than an ordinary property. */
  const RESERVED: seq<string> :=
    ["DEVPATH", "SUBSYSTEM", "DEVTYPE", "DEVNAME", "DEVLINKS", "TAGS", "USEC_INITIALIZED", "DRIVER", "ACTION",
     "MAJOR", "MINOR", "DEVPATH_OLD", "SEQNUM", "IFINDEX", "DEVMODE", "DEVUID", "DEVGID"]

  predicate Reserved(k: string) { k in RESERVED }

  /** The line sets one of the reserved keys. */
  predicate SetsReserved(s: string) { exists k :: k in RESERVED && StartsWith(s, k + "=") }

  /** An ordinary line, cut to its buffer: the first `=` separates, and an empty value deletes. */
  function ReadOrdinary(d: Device, line: string): Device {
    var s := Truncated(line, UTIL_LINE_SIZE);
    var n := IndexOf(s, '=');
    if n == |s| then d
    else if n + 1 == |s| then d.(ordinary := d.ordinary - {s[..n]})
    else d.(ordinary := d.ordinary[s[..n] := s[n + 1..]])
  }

  /** What is left of a path when its place below `/sys` is put into a buffer. */
  function CutPath(path: string): string { Truncated("/sys" + path, UTIL_PATH_SIZE)[4..] }

  /** Reads one line; of the reserved keys only those with a part in the text form are followed. */
  function Read(d: Device, s: string): Device {
    if StartsWith(s, "DEVPATH=") then d.(devpath := Some(CutPath(s[8..])))
    else if StartsWith(s, "SUBSYSTEM=") then d.(subsystem := Some(s[10..]))
    else if StartsWith(s, "DEVLINKS=") then d.(links := d.links + SetOf(SplitLinks(Truncated(s[9..], UTIL_PATH_SIZE))))
    else if StartsWith(s, "TAGS=") then
      d.(tags := d.tags + set t | t in SplitTags(Truncated(s[5..], UTIL_PATH_SIZE)) && ValidTag(t))
    else if SetsReserved(s) then d
    else ReadOrdinary(d, s)
  }

  function ReadAll(d: Device, ss: seq<string>): Device {
    if ss == [] then d else Read(ReadAll(d, ss[..|ss| - 1]), ss[|ss| - 1])
  }

  const BLANK: Device := Device(None, None, map[], {}, {})

  /** A device without path or subsystem is refused, and so is an empty buffer. */
  function FromText(buf: string): Option<Device> {
    var d := ReadAll(BLANK, SplitNul(buf));
    if buf == "" || d.devpath.None? || d.subsystem.None? then None else Some(d)
  }

  // ---------- what is written is read back ----------

  lemma {:induction false} LinksBack(ls: seq<string>)
    requires ls != [] && forall i :: 0 <= i < |ls| ==> ls[i] != "" && ' ' !in ls[i]
    ensures SplitLinks(JoinLinks(ls)) == ls
  {
    if |ls| == 1 {
      IndexNone(ls[0], ' ');
    } else {
      LinksBack(ls[1..]);
      FirstLink(ls[0], JoinLinks(ls[1..]));
    }
  }

  lemma FirstLink(l: string, rest: string)
    requires ' ' !in l
    ensures SplitLinks(l + " " + rest) == [l] + SplitLinks(rest)
  {
    IndexIs(l, ' ', rest);
    var s := l + " " + rest;
    assert s[..|l|] == l && s[|l| + 1..] == rest;
  }

  lemma {:induction false} TagsBack(ts: seq<string>)
    requires forall i :: 0 <= i < |ts| ==> ':' !in ts[i]
    ensures TagsOf(TagsFrom(ts)) == ts
  {
    if ts != [] {
      var rest := TagsFrom(ts[1..]);
      TagsBack(ts[1..]);
      IndexIs(ts[0], ':', rest);
      var s := ts[0] + ":" + rest;
      assert s[..|ts[0]|] == ts[0] && s[|ts[0]| + 1..] == rest;
    }
  }

  lemma AllTagsBack(ts: seq<string>)
    requires forall i :: 0 <= i < |ts| ==> ':' !in ts[i]
    ensures SplitTags(JoinTags(ts)) == ts
  {
    TagsBack(ts);
    assert JoinTags(ts)[1..] == TagsFrom(ts);
  }

  /** The same text, from the front. */
  function JoinedFront(ss: seq<string>): string {
    if ss == [] then "" else ss[0] + [NUL] + JoinedFront(ss[1..])
  }

  lemma {:induction false} FrontSnoc(a: seq<string>, x: string)
    ensures JoinedFront(a + [x]) == JoinedFront(a) + x + [NUL]
  {
    if a != [] {
      assert (a + [x])[1..] == a[1..] + [x];
      FrontSnoc(a[1..], x);
    }
  }

  lemma {:induction false} JoinedIsFront(ss: seq<string>)
    ensures Joined(ss) == JoinedFront(ss)
  {
    if ss != [] {
      var init, last := ss[..|ss| - 1], ss[|ss| - 1];
      JoinedIsFront(init);
      FrontSnoc(init, last);
      assert ss == init + [last];
    }
  }

  lemma {:induction false} NulBack(ss: seq<string>)
    requires forall i :: 0 <= i < |ss| ==> ss[i] != "" && NUL !in ss[i]
    ensures SplitNul(JoinedFront(ss)) == ss
  {
    if ss != [] {
      var rest := JoinedFront(ss[1..]);
      NulBack(ss[1..]);
      IndexIs(ss[0], NUL, rest);
      var s := ss[0] + [NUL] + rest;
      assert s[..|ss[0]|] == ss[0] && s[|ss[0]| + 1..] == rest;
    }
  }

  /** A line starts with a key and `=` if and only if that is its key. */
  lemma LineStarts(p: Prop, r: string)
    requires '=' !in p.key && '=' !in r
    ensures StartsWith(Line(p), r + "=") <==> p.key == r
  {
    var s, t := Line(p), r + "=";
    assert s == p.key + ['='] + p.value;
    IndexIs(p.key, '=', p.value);
    if StartsWith(s, t) {
      assert s == r + ['='] + s[|t|..];
      IndexIs(r, '=', s[|t|..]);
      assert s[..|r|] == r && s[..|p.key|] == p.key;
    }
    if p.key == r { assert s[..|t|] == t; }
  }

  /** What a property does to the device that is read. */
  function Effect(d: Device, p: Prop): Device {
    if p.key == "DEVPATH" then d.(devpath := Some(CutPath(p.value)))
    else if p.key == "SUBSYSTEM" then d.(subsystem := Some(p.value))
    else if p.key == "DEVLINKS" then d.(links := d.links + SetOf(SplitLinks(Truncated(p.value, UTIL_PATH_SIZE))))
    else if p.key == "TAGS" then
      d.(tags := d.tags + set t | t in SplitTags(Truncated(p.value, UTIL_PATH_SIZE)) && ValidTag(t))
    else if Reserved(p.key) then d
    else d.(ordinary := d.ordinary[p.key := p.value])
  }

  ghost predicate Sendable(p: Prop) {
    && p.key != "" && '=' !in p.key && NUL !in p.key && p.value != "" && NUL !in p.value
    && |Line(p)| < UTIL_LINE_SIZE
  }

  lemma ReservedHaveNoEquals(k: string)
    requires k in RESERVED
    ensures '=' !in k
  {
  }

  lemma LineReserved(p: Prop)
    requires '=' !in p.key
    ensures SetsReserved(Line(p)) <==> Reserved(p.key)
  {
    if SetsReserved(Line(p)) {
      var k :| k in RESERVED && StartsWith(Line(p), k + "=");
      ReservedHaveNoEquals(k);
      LineStarts(p, k);
    }
    if Reserved(p.key) { LineStarts(p, p.key); }
  }

  lemma LineOrdinary(d: Device, p: Prop)
    requires Sendable(p)
    ensures ReadOrdinary(d, Line(p)) == d.(ordinary := d.ordinary[p.key := p.value])
  {
    IndexIs(p.key, '=', p.value);
    assert p.key + ['='] + p.value == Line(p);
    assert Line(p)[..|p.key|] == p.key && Line(p)[|p.key| + 1..] == p.value;
  }

  lemma ReadLine(d: Device, p: Prop)
    requires Sendable(p)
    ensures Read(d, Line(p)) == Effect(d, p)
  {
    LineStarts(p, "DEVPATH");
    LineStarts(p, "SUBSYSTEM");
    LineStarts(p, "DEVLINKS");
    LineStarts(p, "TAGS");
    assert "DEVPATH" + "=" == "DEVPATH=" && "SUBSYSTEM" + "=" == "SUBSYSTEM=";
    assert "DEVLINKS" + "=" == "DEVLINKS=" && "TAGS" + "=" == "TAGS=";
    var s := Line(p);
    assert s[|p.key| + 1..] == p.value;
    LineReserved(p);
    LineOrdinary(d, p);
    hide Line, StartsWith, SetsReserved, Reserved, ReadOrdinary, SplitLinks, SplitTags, Truncated, CutPath;
  }

  /** A line sets the property of its key, except for seventeen keys that mean something else. */
  lemma OrdinaryIff(d: Device, p: Prop)
    requires Sendable(p)
    ensures Read(d, Line(p)).ordinary ==
      if p.key in ["DEVPATH", "SUBSYSTEM", "DEVTYPE", "DEVNAME", "DEVLINKS", "TAGS", "USEC_INITIALIZED", "DRIVER",
                   "ACTION", "MAJOR", "MINOR", "DEVPATH_OLD", "SEQNUM", "IFINDEX", "DEVMODE", "DEVUID", "DEVGID"]
      then d.ordinary else d.ordinary[p.key := p.value]
  {
    ReadLine(d, p);
    hide Read, Line, SplitLinks, SplitTags, CutPath;
  }

  function EffectAll(d: Device, ps: seq<Prop>): Device {
    if ps == [] then d
    else
      var d', p := EffectAll(d, ps[..|ps| - 1]), ps[|ps| - 1];
      if Private(p) then d' else Effect(d', p)
  }

  lemma {:induction false} ReadIsEffect(d: Device, ps: seq<Prop>)
    requires forall i :: 0 <= i < |ps| && !Private(ps[i]) ==> Sendable(ps[i])
    ensures ReadAll(d, Public(ps)) == EffectAll(d, ps)
    ensures forall i :: 0 <= i < |Public(ps)| ==> Public(ps)[i] != "" && NUL !in Public(ps)[i]
  {
    hide Read, Effect, Sendable;
    if ps != [] {
      var init, p := ps[..|ps| - 1], ps[|ps| - 1];
      ReadIsEffect(d, init);
      if !Private(p) {
        var ss := Public(init) + [Line(p)];
        assert ss[..|ss| - 1] == Public(init);
        ReadLine(ReadAll(d, Public(init)), p);
        LineIsString(p);
      } else {
        assert Public(ps) == Public(init);
      }
    }
  }

  lemma LineIsString(p: Prop)
    requires Sendable(p)
    ensures Line(p) != "" && NUL !in Line(p)
  {
  }

  /** Keys are distinct. */
  ghost predicate Keyed(ps: seq<Prop>) { forall i, j :: 0 <= i < j < |ps| ==> ps[i].key != ps[j].key }

  ghost predicate IsOrdinary(p: Prop) { !Private(p) && !Reserved(p.key) }

  lemma KeyedParts(ps: seq<Prop>)
    requires Keyed(ps) && ps != []
    ensures Keyed(ps[..|ps| - 1])
    ensures forall i :: 0 <= i < |ps| - 1 ==> ps[i].key != ps[|ps| - 1].key
  {
  }

  /** The ordinary properties that are read are the ones that were written. */
  lemma {:induction false} OrdinaryBack(ps: seq<Prop>, k: string)
    requires Keyed(ps)
    ensures var m := EffectAll(BLANK, ps).ordinary;
      && (k in m <==> exists i :: 0 <= i < |ps| && IsOrdinary(ps[i]) && ps[i].key == k)
      && (forall i :: 0 <= i < |ps| && IsOrdinary(ps[i]) && ps[i].key == k ==> k in m && m[k] == ps[i].value)
  {
    hide Private, Reserved, Effect, Keyed;
    if ps != [] {
      var init, p := ps[..|ps| - 1], ps[|ps| - 1];
      KeyedParts(ps);
      OrdinaryBack(init, k);
      OrdinaryEffect(EffectAll(BLANK, init), p);
      assert forall i :: 0 <= i < |init| ==> init[i] == ps[i];
    }
  }

  lemma FourAreReserved()
    ensures Reserved("DEVPATH") && Reserved("SUBSYSTEM") && Reserved("DEVLINKS") && Reserved("TAGS")
  {
    assert RESERVED[0] == "DEVPATH" && RESERVED[1] == "SUBSYSTEM" && RESERVED[4] == "DEVLINKS" && RESERVED[5] == "TAGS";
  }

  lemma OrdinaryEffect(d: Device, p: Prop)
    ensures Effect(d, p).ordinary == if Reserved(p.key) then d.ordinary else d.ordinary[p.key := p.value]
  {
    FourAreReserved();
  }

  ghost predicate Absent(ps: seq<Prop>, k: string) { forall i :: 0 <= i < |ps| ==> ps[i].key != k }

  lemma {:induction false} AbsentBack(ps: seq<Prop>)
    ensures var d := EffectAll(BLANK, ps);
      && (Absent(ps, "DEVPATH") ==> d.devpath == None) && (Absent(ps, "SUBSYSTEM") ==> d.subsystem == None)
      && (Absent(ps, "DEVLINKS") ==> d.links == {}) && (Absent(ps, "TAGS") ==> d.tags == {})
  {
    hide Private, Reserved, SplitLinks, SplitTags, Truncated, CutPath, ValidTag;
    if ps != [] { AbsentBack(ps[..|ps| - 1]); }
  }

  /** The four keys with a part in the text form are read back too. */
  lemma {:induction false} PresentBack(ps: seq<Prop>, i: nat)
    requires Keyed(ps) && i < |ps| && !Private(ps[i])
    ensures var d, k, v := EffectAll(BLANK, ps), ps[i].key, ps[i].value;
      && (k == "DEVPATH" ==> d.devpath == Some(CutPath(v))) && (k == "SUBSYSTEM" ==> d.subsystem == Some(v))
      && (k == "DEVLINKS" ==> d.links == SetOf(SplitLinks(Truncated(v, UTIL_PATH_SIZE))))
      && (k == "TAGS" ==> d.tags == set t | t in SplitTags(Truncated(v, UTIL_PATH_SIZE)) && ValidTag(t))
  {
    hide Private, Reserved, SplitLinks, SplitTags, Truncated, CutPath, ValidTag;
    var init := ps[..|ps| - 1];
    KeyedParts(ps);
    if i < |init| {
      PresentBack(init, i);
    } else {
      AbsentBack(init);
    }
  }

  /** The property list says what the device has: its links and tags are in it as joined values. */
  ghost predicate Lists(ps: seq<Prop>, links: seq<string>, tags: seq<string>) {
    && Keyed(ps) && !Absent(ps, "DEVPATH") && !Absent(ps, "SUBSYSTEM")
    && (forall i :: 0 <= i < |ps| && !Private(ps[i]) ==> Sendable(ps[i]))
    && (if links == [] then Absent(ps, "DEVLINKS") else Prop("DEVLINKS", JoinLinks(links)) in ps)
    && (if tags == [] then Absent(ps, "TAGS") else Prop("TAGS", JoinTags(tags)) in ps)
  }

  /** Links without spaces and valid tags, short enough for their buffers. */
  ghost predicate Joinable(links: seq<string>, tags: seq<string>) {
    && (forall i :: 0 <= i < |links| ==> links[i] != "" && ' ' !in links[i])
    && (forall i :: 0 <= i < |tags| ==> ValidTag(tags[i]))
    && (links != [] ==> |JoinLinks(links)| < UTIL_PATH_SIZE) && |JoinTags(tags)| < UTIL_PATH_SIZE
  }

  lemma LinksRead(ps: seq<Prop>, links: seq<string>, tags: seq<string>)
    requires Lists(ps, links, tags) && Joinable(links, tags)
    ensures EffectAll(BLANK, ps).links == SetOf(links)
  {
    AbsentBack(ps);
    if links != [] {
      var i :| 0 <= i < |ps| && ps[i] == Prop("DEVLINKS", JoinLinks(links));
      PresentBack(ps, i);
      LinksBack(links);
    }
  }

  lemma TagsRead(ps: seq<Prop>, links: seq<string>, tags: seq<string>)
    requires Lists(ps, links, tags) && Joinable(links, tags)
    ensures EffectAll(BLANK, ps).tags == SetOf(tags)
  {
    AbsentBack(ps);
    if tags != [] {
      var i :| 0 <= i < |ps| && ps[i] == Prop("TAGS", JoinTags(tags));
      PresentBack(ps, i);
      AllTagsBack(tags);
    }
  }

  lemma PathRead(ps: seq<Prop>, links: seq<string>, tags: seq<string>)
    requires Lists(ps, links, tags)
    ensures var d := EffectAll(BLANK, ps);
      && (exists i :: 0 <= i < |ps| && ps[i].key == "DEVPATH" && d.devpath == Some(CutPath(ps[i].value)))
      && (exists i :: 0 <= i < |ps| && ps[i].key == "SUBSYSTEM" && d.subsystem == Some(ps[i].value))
  {
    hide EffectAll, CutPath;
    var i :| 0 <= i < |ps| && ps[i].key == "DEVPATH";
    var j :| 0 <= j < |ps| && ps[j].key == "SUBSYSTEM";
    PresentBack(ps, i);
    PresentBack(ps, j);
  }

  /** A path survives if it is short enough; a longer one is cut. */
  lemma CutPathKeeps(path: string)
    ensures CutPath(path) == if |path| + 4 < UTIL_PATH_SIZE then path else path[..UTIL_PATH_SIZE - 5]
  {
    var s := "/sys" + path;
    assert s[4..] == path;
    if |s| >= UTIL_PATH_SIZE { assert s[..UTIL_PATH_SIZE - 1][4..] == path[..UTIL_PATH_SIZE - 5]; }
  }

  lemma TextReadsBack(ps: seq<Prop>, links: seq<string>, tags: seq<string>)
    requires Lists(ps, links, tags)
    ensures FromText(Joined(Public(ps))) == Some(EffectAll(BLANK, ps))
  {
    hide EffectAll, Public, SplitNul;
    PathRead(ps, links, tags);
    ReadIsEffect(BLANK, ps);
    JoinedIsFront(Public(ps));
    NulBack(Public(ps));
  }

  /** What the writer accepts has no line that the reader would cut. */
  lemma {:induction false} WrittenIsShort(ps: seq<Prop>, i: nat)
    requires i < |ps| && !Private(ps[i]) && |Joined(Public(ps))| <= MONITOR_BUF_SIZE
    ensures |Line(ps[i])| < UTIL_LINE_SIZE
  {
    hide Private, Line;
    var init, p := ps[..|ps| - 1], ps[|ps| - 1];
    if !Private(p) {
      var ss := Public(ps);
      assert ss[..|ss| - 1] == Public(init);
    } else {
      assert Public(ps) == Public(init);
    }
    if i < |init| { WrittenIsShort(init, i); }
  }

  /** Reading back what was written gives the same ordinary properties, links and tags. */
  lemma RoundTrip(ps: seq<Prop>, links: seq<string>, tags: seq<string>, k: string)
    requires Lists(ps, links, tags) && Joinable(links, tags)
    ensures var r := FromText(Joined(Public(ps)));
      && r.Some? && r.value.links == SetOf(links) && r.value.tags == SetOf(tags)
      && (exists i :: 0 <= i < |ps| && ps[i].key == "DEVPATH" && r.value.devpath == Some(CutPath(ps[i].value)))
      && (exists i :: 0 <= i < |ps| && ps[i].key == "SUBSYSTEM" && r.value.subsystem == Some(ps[i].value))
      && (k in r.value.ordinary <==> exists i :: 0 <= i < |ps| && IsOrdinary(ps[i]) && ps[i].key == k)
      && (forall i :: 0 <= i < |ps| && IsOrdinary(ps[i]) && ps[i].key == k ==>
            k in r.value.ordinary && r.value.ordinary[k] == ps[i].value)
  {
    assert Keyed(ps);
    hide EffectAll, FromText, Public, Joined, IsOrdinary, Lists, Joinable, Keyed, SetOf, CutPath;
    TextReadsBack(ps, links, tags);
    PathRead(ps, links, tags);
    LinksRead(ps, links, tags);
    TagsRead(ps, links, tags);
    OrdinaryBack(ps, k);
  }

  // ---------- the form of the text, and what is refused ----------

  /** What is written is one string for each property whose key does not begin with a dot. */
  lemma {:induction false} PublicHas(ps: seq<Prop>, line: string)
    ensures line in Public(ps) <==>
      exists i :: 0 <= i < |ps| && (ps[i].key == "" || ps[i].key[0] != '.') && line == ps[i].key + "=" + ps[i].value
  {
    if ps != [] {
      var n := |ps| - 1;
      PublicHas(ps[..n], line);
      assert forall i :: 0 <= i < n ==> ps[..n][i] == ps[i];
    }
  }

  /** How strings, links and tags are put together. */
  lemma TextForms(a: string, b: string)
    ensures Joined([a, b]) == a + "\0" + b + "\0"
    ensures JoinLinks([a, b]) == a + " " + b
    ensures JoinTags([a, b]) == ":" + a + ":" + b + ":"
  {
    var ss := [a, b];
    assert ss[..1] == [a] && [a][..0] == [] && ss[1..] == [b] && [b][1..] == [];
    assert Joined([a]) == a + [NUL];
    assert TagsFrom([b]) == b + ":";
    assert TagsFrom(ss) == a + ":" + TagsFrom([b]);
  }

  ghost predicate SomeLine(ss: seq<string>, start: string) {
    exists i :: 0 <= i < |ss| && |start| <= |ss[i]| && ss[i][..|start|] == start
  }

  lemma SomeLineOn(ss: seq<string>, s: string, start: string)
    ensures SomeLine(ss + [s], start) <==> SomeLine(ss, start) || StartsWith(s, start)
  {
    var all := ss + [s];
    assert all[|ss|] == s && forall i :: 0 <= i < |ss| ==> all[i] == ss[i];
  }

  lemma ReadPath(d: Device, s: string)
    ensures Read(d, s).devpath.Some? <==> d.devpath.Some? || StartsWith(s, "DEVPATH=")
    ensures Read(d, s).subsystem.Some? <==> d.subsystem.Some? || StartsWith(s, "SUBSYSTEM=")
  {
    hide SplitLinks, SplitTags, Truncated, CutPath, SetsReserved, ReadOrdinary;
    OnlyOne(s);
    OrdinaryOnly(d, s);
  }

  lemma FirstChar(s: string, p: string)
    requires p != ""
    ensures StartsWith(s, p) ==> s != "" && s[0] == p[0]
  {
    if StartsWith(s, p) { assert s[..|p|][0] == s[0]; }
  }

  lemma OnlyOne(s: string)
    ensures !(StartsWith(s, "DEVPATH=") && StartsWith(s, "SUBSYSTEM="))
  {
    FirstChar(s, "DEVPATH=");
    FirstChar(s, "SUBSYSTEM=");
  }

  lemma OrdinaryOnly(d: Device, s: string)
    ensures ReadOrdinary(d, s).devpath == d.devpath && ReadOrdinary(d, s).subsystem == d.subsystem
    ensures ReadOrdinary(d, s).links == d.links && ReadOrdinary(d, s).tags == d.tags
  {
  }

  lemma {:induction false} ReadAllPath(ss: seq<string>)
    ensures ReadAll(BLANK, ss).devpath.Some? <==> SomeLine(ss, "DEVPATH=")
    ensures ReadAll(BLANK, ss).subsystem.Some? <==> SomeLine(ss, "SUBSYSTEM=")
  {
    hide Read, SomeLine, StartsWith;
    if ss == [] {
      NoLine();
    } else {
      var init, s := ss[..|ss| - 1], ss[|ss| - 1];
      assert ss == init + [s];
      ReadAllPath(init);
      ReadPath(ReadAll(BLANK, init), s);
      SomeLineOn(init, s, "DEVPATH=");
      SomeLineOn(init, s, "SUBSYSTEM=");
    }
  }

  lemma NoLine()
    ensures !SomeLine([], "DEVPATH=") && !SomeLine([], "SUBSYSTEM=")
  {
  }

  /** A text is read as a device exactly when it has both a path and a subsystem. */
  lemma FromTextIff(buf: string)
    ensures FromText(buf).Some? <==> SomeLine(SplitNul(buf), "DEVPATH=") && SomeLine(SplitNul(buf), "SUBSYSTEM=")
  {
    hide ReadAll, SomeLine;
    ReadAllPath(SplitNul(buf));
    if buf == "" { NoStrings(); }
  }

  lemma NoStrings()
    ensures SplitNul("") == [] && !SomeLine([], "DEVPATH=")
  {
  }

  /** An ordinary line without a value deletes the property, and one without `=` does nothing. */
  lemma EmptyDeletes(d: Device, key: string)
    requires '=' !in key && !Reserved(key) && |key| + 1 < UTIL_LINE_SIZE
    ensures Read(d, key + "=") == d.(ordinary := d.ordinary - {key})
    ensures Read(d, key) == d
  {
    hide SplitLinks, SplitTags, CutPath, Reserved, StartsWith, SetsReserved;
    var p := Prop(key, "");
    assert Line(p) == key + "=" == key + ['='] + "";
    LineReserved(p);
    FourAreReserved();
    LineStarts(p, "DEVPATH");
    LineStarts(p, "SUBSYSTEM");
    LineStarts(p, "DEVLINKS");
    LineStarts(p, "TAGS");
    assert "DEVPATH" + "=" == "DEVPATH=" && "SUBSYSTEM" + "=" == "SUBSYSTEM=";
    assert "DEVLINKS" + "=" == "DEVLINKS=" && "TAGS" + "=" == "TAGS=";
    IndexIs(key, '=', "");
    assert (key + "=")[..|key|] == key;
    NoEquals(d, key);
  }

  lemma NoEquals(d: Device, key: string)
    requires '=' !in key && |key| < UTIL_LINE_SIZE
    ensures Read(d, key) == d
  {
    hide SplitLinks, SplitTags, CutPath;
    IndexNone(key, '=');
    EqualsIn(key, "DEVPATH");
    EqualsIn(key, "SUBSYSTEM");
    EqualsIn(key, "DEVLINKS");
    EqualsIn(key, "TAGS");
    assert "DEVPATH" + "=" == "DEVPATH=" && "SUBSYSTEM" + "=" == "SUBSYSTEM=";
    assert "DEVLINKS" + "=" == "DEVLINKS=" && "TAGS" + "=" == "TAGS=";
    hide SetsReserved;
  }

  lemma EqualsIn(s: string, k: string)
    ensures StartsWith(s, k + "=") ==> '=' in s
  {
    if StartsWith(s, k + "=") { assert s[..|k| + 1][|k|] == s[|k|]; }
  }

  /** Of the tags in a text those with a blank are dropped. */
  lemma TagsDropped(d: Device, ts: seq<string>)
    requires (forall i :: 0 <= i < |ts| ==> ':' !in ts[i]) && |JoinTags(ts)| < UTIL_PATH_SIZE
    ensures Read(d, "TAGS=" + JoinTags(ts)) == d.(tags := d.tags + set t | t in ts && ' ' !in t)
  {
    hide SplitLinks, CutPath, SetsReserved, ReadOrdinary, JoinTags;
    var s := "TAGS=" + JoinTags(ts);
    assert s[..5] == "TAGS=" && s[5..] == JoinTags(ts);
    assert s[0] == 'T';
    AllTagsBack(ts);
    NotTheOthers(s);
    assert (set t | t in ts && ValidTag(t)) == set t | t in ts && ' ' !in t;
  }

  lemma NotTheOthers(s: string)
    requires s != "" && s[0] == 'T'
    ensures !StartsWith(s, "DEVPATH=") && !StartsWith(s, "SUBSYSTEM=") && !StartsWith(s, "DEVLINKS=")
  {
    FirstChar(s, "DEVPATH=");
    FirstChar(s, "SUBSYSTEM=");
    FirstChar(s, "DEVLINKS=");
  }

  // ---------- when the initialization time is read back ----------

  predicate Digit(c: char) { '0' <= c <= '9' }

  /** The number that the digits at the front of `s` spell. */
  function Number(s: string): nat { Spelled(s, 0) }

  function Spelled(s: string, n: nat): nat {
    if s == "" || !Digit(s[0]) then n else Spelled(s[1..], 10 * n + (s[0] - '0') as nat)
  }

  function Decimal(n: nat): (r: string)
    ensures r != "" && (forall i :: 0 <= i < |r| ==> Digit(r[i])) && (n > 0 ==> r[0] != '0')
  {
    var last := [('0' as int + n % 10) as char];
    if n < 10 then last else Decimal(n / 10) + last
  }

  lemma {:induction false} SpelledOn(a: string, b: string, n: nat)
    requires forall i :: 0 <= i < |a| ==> Digit(a[i])
    ensures Spelled(a + b, n) == Spelled(b, Spelled(a, n))
  {
    if a == "" {
      assert a + b == b;
    } else {
      assert (a + b)[1..] == a[1..] + b;
      SpelledOn(a[1..], b, 10 * n + (a[0] - '0') as nat);
    }
  }

  /** The digits of a number spell it. */
  lemma {:induction false} DecimalSpells(n: nat)
    ensures Number(Decimal(n)) == n
  {
    var last := [('0' as int + n % 10) as char];
    if n >= 10 {
      DecimalSpells(n / 10);
      SpelledOn(Decimal(n / 10), last, 0);
      LastSpelled(n / 10, n % 10);
    } else {
      LastSpelled(0, n);
    }
  }

  lemma LastSpelled(v: nat, d: nat)
    requires d < 10
    ensures Spelled([('0' as int + d) as char], v) == 10 * v + d
  {
    var s := [('0' as int + d) as char];
    assert s[1..] == "";
  }

  const ULLONG_MAX: nat := 0xFFFF_FFFF_FFFF_FFFF

  predicate IsSpace(c: char) { c == ' ' || '\t' <= c <= '\r' }

  /** `strtoull` in base 10. */
  function StrToULL(s: string): (r: nat)
    ensures r <= ULLONG_MAX
  {
    if s == "" then 0
    else if IsSpace(s[0]) then StrToULL(s[1..])
    else if s[0] == '+' then Capped(Number(s[1..]))
    else if s[0] == '-' then
      var v := Number(s[1..]);
      if v > ULLONG_MAX then ULLONG_MAX else (ULLONG_MAX + 1 - v) % (ULLONG_MAX + 1)
    else Capped(Number(s))
  }

  function Capped(n: nat): nat { if n > ULLONG_MAX then ULLONG_MAX else n }

  /** The time is read from two places too far into its line; `mem` is the memory from the line on. */
  function TimeRead(mem: string): nat
    requires |mem| >= 19
  {
    StrToULL(mem[19..])
  }

  /** `n` with `k` zeros behind it. */
  function Shifted(n: nat, k: nat): nat
    decreases k
  {
    if k == 0 then n else Shifted(10 * n, k - 1)
  }

  lemma {:induction false} ShiftedGrows(a: nat, b: nat, k: nat)
    requires a <= b
    ensures a <= Shifted(a, k) <= Shifted(b, k)
    decreases k
  {
    if k > 0 { ShiftedGrows(10 * a, 10 * b, k - 1); }
  }

  lemma {:induction false} ShiftedTen(n: nat, k: nat)
    ensures Shifted(10 * n, k) == 10 * Shifted(n, k)
    decreases k
  {
    if k > 0 { ShiftedTen(10 * n, k - 1); }
  }

  lemma {:induction false} SpelledBelow(s: string, n: nat)
    ensures Spelled(s, n) < Shifted(n + 1, |s|)
  {
    if s != "" && Digit(s[0]) {
      var m := 10 * n + (s[0] - '0') as nat;
      SpelledBelow(s[1..], m);
      ShiftedGrows(m + 1, 10 * (n + 1), |s| - 1);
    } else {
      ShiftedGrows(n + 1, n + 1, |s|);
    }
  }

  lemma {:induction false} DecimalAtLeast(n: nat)
    requires n > 0
    ensures n >= Shifted(1, |Decimal(n)| - 1)
  {
    if n >= 10 {
      DecimalAtLeast(n / 10);
      ShiftedTen(1, |Decimal(n)| - 2);
    }
  }

  lemma DecimalsGrow(n: nat)
    requires n >= 10
    ensures |Decimal(n)| >= 2
  {
  }

  lemma BehindTwo(k: string, s: string, tail: string)
    requires |k| == 16 && |s| + |tail| >= 2 && s != ""
    ensures |k + "=" + s + tail| >= 19
    ensures (k + "=" + s + tail)[19..] == if |s| >= 2 then s[2..] + tail else tail[1..]
  {
  }

  lemma ShiftedMore(n: nat, k: nat)
    ensures Shifted(n, k) <= Shifted(n, k + 1)
  {
    ShiftedGrows(n, 10 * n, k);
  }

  /** Without its first two digits a number is smaller. */
  lemma TwoLess(n: nat)
    requires n >= 10
    ensures |Decimal(n)| >= 2 && Number(Decimal(n)[2..]) < n
  {
    hide Shifted, Spelled, Decimal;
    var s := Decimal(n);
    DecimalsGrow(n);
    SpelledBelow(s[2..], 0);
    ShiftedGrows(1, 1, |s| - 2);
    DecimalAtLeast(n);
    ShiftedMore(1, |s| - 2);
  }

  /** Digits end at the end of the string that they are in. */
  lemma {:induction false} SpelledStops(s: string, rest: string, n: nat)
    ensures Spelled(s + [NUL] + rest, n) == Spelled(s, n)
  {
    var t := s + [NUL] + rest;
    if s != "" && Digit(s[0]) {
      assert t[1..] == s[1..] + [NUL] + rest;
      SpelledStops(s[1..], rest, 10 * n + (s[0] - '0') as nat);
    }
  }

  lemma DigitsRead(s: string, rest: string)
    requires forall i :: 0 <= i < |s| ==> Digit(s[i])
    ensures StrToULL(s + [NUL] + rest) == Capped(Number(s))
  {
    hide Spelled;
    SpelledStops(s, rest, 0);
    assert (s + [NUL] + rest)[0] == if s == "" then NUL else s[0];
  }

  /**
    A time is read back exactly when it has one digit and what stands behind the end of
    its string happens to spell it again; `rest` is the memory behind the end.
    */
  lemma TimeBackIff(n: nat, rest: string)
    requires n <= ULLONG_MAX
    ensures var mem := Line(Prop("USEC_INITIALIZED", Decimal(n))) + [NUL] + rest;
      |mem| >= 19 && (TimeRead(mem) == n <==> n < 10 && StrToULL(rest) == n)
  {
    hide Decimal, StrToULL, Spelled;
    var s, tail := Decimal(n), [NUL] + rest;
    var mem := Line(Prop("USEC_INITIALIZED", s)) + [NUL] + rest;
    assert mem == "USEC_INITIALIZED" + "=" + s + tail;
    BehindTwo("USEC_INITIALIZED", s, tail);
    if n >= 10 {
      TwoLess(n);
      DigitsRead(s[2..], rest);
      assert s[2..] + [NUL] + rest == s[2..] + tail;
    } else {
      OneDigit(n);
      assert tail[1..] == rest;
    }
  }

  lemma OneDigit(n: nat)
    requires n < 10
    ensures |Decimal(n)| == 1
  {
  }
}
