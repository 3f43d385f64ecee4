/**
  Escaping of device names and paths, and the replacement of characters that are
  not allowed in them.  Strings have no zero byte.
  */
module Escape {
  import opened Utf8

  const BACKSLASH: Byte := 0x5C
  const SLASH: Byte := 0x2F
  const LETTER_X: Byte := 0x78
  const SPACE: Byte := 0x20
  const UNDERSCORE: Byte := 0x5F

  predicate Digit09(c: Byte) { 0x30 <= c <= 0x39 }

  /** Letters, digits, and a few other characters, and those in `white`. */
  predicate Whitelisted(c: Byte, white: seq<Byte>) {
    || Digit09(c) || 0x41 <= c <= 0x5A || 0x61 <= c <= 0x7A
    || c in [0x23, 0x2B, 0x2D, 0x2E, 0x3A, 0x3D, 0x40, 0x5F]
    || c in white
  }

  function HexDigit(n: nat): Byte
    requires n < 16
  {
    if n < 10 then 0x30 + n else 0x61 + (n - 10)
  }

  function Hex(c: Byte): (r: seq<Byte>)
    ensures |r| == 4
  {
    [BACKSLASH, LETTER_X, HexDigit(c / 16), HexDigit(c % 16)]
  }

  predicate IsHex(c: Byte) { Digit09(c) || 0x61 <= c <= 0x66 }

  function HexValue(c: Byte): nat
    requires IsHex(c)
  {
    if Digit09(c) then c - 0x30 else c - 0x61 + 10
  }

  /** Reads every escape back as the byte it stands for. */
  function Unescape(s: seq<Byte>): seq<Byte> {
    if s == [] then []
    else if |s| >= 4 && s[0] == BACKSLASH && s[1] == LETTER_X && IsHex(s[2]) && IsHex(s[3]) then
      [16 * HexValue(s[2]) + HexValue(s[3])] + Unescape(s[4..])
    else [s[0]] + Unescape(s[1..])
  }

  lemma UnescapeHex(c: Byte, rest: seq<Byte>)
    ensures Unescape(Hex(c) + rest) == [c] + Unescape(rest)
  {
    var s := Hex(c) + rest;
    assert s[4..] == rest;
    assert HexValue(s[2]) == c / 16 && HexValue(s[3]) == c % 16;
  }

  lemma {:induction false} UnescapePlain(w: seq<Byte>, rest: seq<Byte>)
    requires BACKSLASH !in w
    ensures Unescape(w + rest) == w + Unescape(rest)
  {
    if w != [] {
      assert (w + rest)[1..] == w[1..] + rest;
      UnescapePlain(w[1..], rest);
    } else {
      assert w + rest == rest;
    }
  }

  // ---------- paths ----------

  function PathPiece(c: Byte): seq<Byte> { if c == SLASH || c == BACKSLASH then Hex(c) else [c] }

  function PathEncode(s: seq<Byte>): seq<Byte> {
    if s == [] then [] else PathEncode(s[..|s| - 1]) + PathPiece(s[|s| - 1])
  }

  /** The same from the front. */
  function PathEncodeFront(s: seq<Byte>): seq<Byte> {
    if s == [] then [] else PathPiece(s[0]) + PathEncodeFront(s[1..])
  }

  lemma {:induction false} PathFrontSnoc(s: seq<Byte>, c: Byte)
    ensures PathEncodeFront(s + [c]) == PathEncodeFront(s) + PathPiece(c)
  {
    if s != [] {
      assert (s + [c])[1..] == s[1..] + [c];
      PathFrontSnoc(s[1..], c);
    }
  }

  lemma {:induction false} PathIsFront(s: seq<Byte>)
    ensures PathEncode(s) == PathEncodeFront(s)
  {
    if s != [] {
      PathIsFront(s[..|s| - 1]);
      PathFrontSnoc(s[..|s| - 1], s[|s| - 1]);
      assert s == s[..|s| - 1] + [s[|s| - 1]];
    }
  }

  lemma {:induction false} PathFrontInverts(s: seq<Byte>)
    ensures Unescape(PathEncodeFront(s)) == s
    ensures SLASH !in PathEncodeFront(s)
  {
    if s != [] {
      var rest := PathEncodeFront(s[1..]);
      PathFrontInverts(s[1..]);
      if s[0] == SLASH || s[0] == BACKSLASH { UnescapeHex(s[0], rest); } else { UnescapePlain([s[0]], rest); }
      assert s == [s[0]] + s[1..];
    }
  }

  /** An encoded path has no slash, and reading the escapes back gives the path. */
  lemma PathInverts(s: seq<Byte>)
    ensures Unescape(PathEncode(s)) == s && SLASH !in PathEncode(s)
  {
    PathIsFront(s);
    PathFrontInverts(s);
  }

  lemma {:induction false} PathGrows(s: seq<Byte>, n: nat)
    requires n <= |s|
    ensures |PathEncode(s[..n])| <= |PathEncode(s)|
  {
    if n < |s| {
      PathGrows(s[..|s| - 1], n);
      assert s[..|s| - 1][..n] == s[..n];
    } else {
      assert s[..n] == s;
    }
  }

  /** Encodes a path if the result and its end fit; otherwise the result is empty. */
  method UtilPathEncode(src: seq<Byte>, dest: array<Byte>) returns (j: nat)
    requires dest.Length > 0
    modifies dest
    ensures j == if |PathEncode(src)| < dest.Length then |PathEncode(src)| else 0
    ensures j < dest.Length && dest[j] == 0
    ensures |PathEncode(src)| < dest.Length ==> dest[..j] == PathEncode(src)
  {
    var i := 0;
    j := 0;
    while i < |src|
      invariant 0 <= i <= |src| && j < dest.Length && dest[..j] == PathEncode(src[..i])
    {
      var piece := PathPiece(src[i]);
      assert src[..i + 1][..i] == src[..i];
      PathGrows(src, i + 1);
      if j + |piece| >= dest.Length {
        j := 0;
        dest[0] := 0;
        return;
      }
      Write(dest, j, piece);
      j := j + |piece|;
      i := i + 1;
    }
    assert src[..i] == src;
    dest[j] := 0;
  }

  // ---------- device names ----------

  /** Valid multi-byte characters and allowed ones are copied, everything else is escaped. */
  function DevnodeEncode(s: seq<Byte>): seq<Byte>
    decreases |s|
  {
    if s == [] then []
    else
      var n := ValidUnichar(s);
      if 1 < n <= |s| then s[..n] + DevnodeEncode(s[n..])
      else if s[0] == BACKSLASH || !Whitelisted(s[0], []) then Hex(s[0]) + DevnodeEncode(s[1..])
      else [s[0]] + DevnodeEncode(s[1..])
  }

  /** A multi-byte character has no ASCII byte. */
  lemma MultiByte(s: seq<Byte>)
    requires s != [] && ValidUnichar(s) > 1
    ensures ValidUnichar(s) <= |s| && forall i :: 0 <= i < ValidUnichar(s) ==> s[i] >= 0x80
  {
    ValidIsEncoded(s);
    var n := ValidUnichar(s);
    assert forall i :: 0 <= i < n ==> At(s, i) >= 0x80;
  }

  /** Reading the escapes back gives the name, so different names have different encodings. */
  lemma {:induction false} DevnodeInverts(s: seq<Byte>)
    ensures Unescape(DevnodeEncode(s)) == s
    decreases |s|
  {
    hide ValidUnichar, Unescape, Whitelisted, Hex;
    if s == [] {
      NothingEscaped();
    } else {
      var n := ValidUnichar(s);
      if n > 1 {
        MultiByte(s);
        DevnodeInverts(s[n..]);
        UnescapePlain(s[..n], DevnodeEncode(s[n..]));
        assert s == s[..n] + s[n..];
      } else {
        DevnodeInverts(s[1..]);
        UnescapeHex(s[0], DevnodeEncode(s[1..]));
        if s[0] != BACKSLASH { UnescapePlain([s[0]], DevnodeEncode(s[1..])); }
        assert s == [s[0]] + s[1..];
      }
    }
  }

  lemma NothingEscaped()
    ensures Unescape([]) == []
  {
  }

  lemma DevnodeInjective(s: seq<Byte>, t: seq<Byte>)
    requires DevnodeEncode(s) == DevnodeEncode(t)
    ensures s == t
  {
    DevnodeInverts(s);
    DevnodeInverts(t);
  }

  /** The first character is escaped. */
  predicate Escaped(s: seq<Byte>)
    requires s != []
  {
    ValidUnichar(s) <= 1 && (s[0] == BACKSLASH || !Whitelisted(s[0], []))
  }

  /**
    With `room` bytes left, some escape finds exactly four.  Each escape is written
    with a zero behind it, which then falls past the end.
    */
  predicate Overruns(s: seq<Byte>, room: nat)
    decreases |s|
  {
    s != [] &&
    var n := if ValidUnichar(s) > 1 then ValidUnichar(s) else 1;
    var size := if Escaped(s) then 4 else n;
    && n <= |s| && size <= room
    && ((Escaped(s) && room == 4) || Overruns(s[n..], room - size))
  }

  lemma EncodeStep(s: seq<Byte>)
    requires s != []
    ensures var n := if ValidUnichar(s) > 1 then ValidUnichar(s) else 1;
      && n <= |s|
      && DevnodeEncode(s) == (if Escaped(s) then Hex(s[0]) else s[..n]) + DevnodeEncode(s[n..])
  {
    if ValidUnichar(s) > 1 { MultiByte(s); } else { assert s[..1] == [s[0]]; }
  }

  /** This happens only to names that do not fit anyway. */
  lemma {:induction false} OverrunsWhenFull(s: seq<Byte>, room: nat)
    requires Overruns(s, room)
    ensures |DevnodeEncode(s)| >= room
    decreases |s|
  {
    EncodeStep(s);
    var n := if ValidUnichar(s) > 1 then ValidUnichar(s) else 1;
    if !(Escaped(s) && room == 4) { OverrunsWhenFull(s[n..], room - if Escaped(s) then 4 else n); }
  }

  /** An escape that fills the room up does overrun it. */
  lemma {:induction false} FilledUpOverruns(s: seq<Byte>, c: Byte)
    requires c == BACKSLASH || !Whitelisted(c, [])
    requires c < 0x80 && forall i :: 0 <= i < |s| ==> s[i] < 0x80
    ensures Overruns(s + [c], |DevnodeEncode(s)| + 4)
  {
    var t := s + [c];
    if s == [] {
      assert t[0] == c;
    } else {
      assert t[0] == s[0] && t[1..] == s[1..] + [c];
      EncodeStep(s);
      FilledUpOverruns(s[1..], c);
    }
  }

  /** Encodes a name exactly when the result and its end fit; `past` tells that a zero was written past the end. */
  method EncodeDevnodeName(str: seq<Byte>, dest: array<Byte>) returns (ok: bool, j: nat, past: bool)
    modifies dest
    ensures ok <==> |DevnodeEncode(str)| < dest.Length
    ensures ok ==> j == |DevnodeEncode(str)| && dest[..j] == DevnodeEncode(str) && dest[j] == 0
    ensures past <==> Overruns(str, dest.Length)
  {
    hide DevnodeEncode, Overruns, Going;
    ghost var out := DevnodeEncode(str);
    var i := 0;
    j, past := 0, false;
    Starts(str, dest[..], out);
    while i < |str|
      invariant i <= |str| && Going(str, i, dest[..], j, past, out)
      decreases |str| - i
    {
      i, ok, j, past := EncodeOne(str, i, dest, j, past, out);
      if !ok {
        return;
      }
    }
    Finishes(str, dest[..], j, past, out);
    if dest.Length - j < 1 {
      return false, j, past;
    }
    dest[j] := 0;
    assert dest[..j] == out;
    ok := true;
  }

  /** The first `i` bytes are encoded into the first `j`. */
  ghost predicate Going(str: seq<Byte>, i: nat, d: seq<Byte>, j: nat, past: bool, out: seq<Byte>) {
    && i <= |str| && j <= |d| && Written(d, j, DevnodeEncode(str[i..]), out)
    && (Overruns(str, |d|) <==> past || Overruns(str[i..], |d| - j))
  }

  lemma Starts(str: seq<Byte>, d: seq<Byte>, out: seq<Byte>)
    requires out == DevnodeEncode(str)
    ensures Going(str, 0, d, 0, false, out)
  {
    assert str[0..] == str;
  }

  lemma Finishes(str: seq<Byte>, d: seq<Byte>, j: nat, past: bool, out: seq<Byte>)
    requires Going(str, |str|, d, j, past, out)
    ensures j == |out| <= |d| && d[..j] == out && (past <==> Overruns(str, |d|))
  {
    assert str[|str|..] == [];
  }

  method EncodeOne(str: seq<Byte>, i: nat, dest: array<Byte>, j: nat, past: bool, ghost out: seq<Byte>)
    returns (i': nat, ok: bool, j': nat, past': bool)
    requires i < |str| && Going(str, i, dest[..], j, past, out)
    modifies dest
    ensures ok ==> i < i' <= |str| && Going(str, i', dest[..], j', past', out)
    ensures !ok ==> |out| > dest.Length && (past' <==> Overruns(str, dest.Length))
  {
    hide DevnodeEncode, Overruns, ValidUnichar, Written;
    ghost var rest, room := str[i..], dest.Length - j;
    OverrunsStep(rest, room);
    var piece, seqlen, escaped := NextPiece(str, i);
    assert rest[seqlen..] == str[i + seqlen..];
    i' := i + seqlen;
    var over;
    ok, j', over := Put(dest, j, piece, escaped, DevnodeEncode(str[i'..]), out);
    past' := past || over;
  }

  lemma OverrunsStep(s: seq<Byte>, room: nat)
    requires s != []
    ensures var n := if ValidUnichar(s) > 1 then ValidUnichar(s) else 1; var size := if Escaped(s) then 4 else n;
      && n <= |s|
      && (Overruns(s, room) <==> size <= room && ((Escaped(s) && room == 4) || Overruns(s[n..], room - size)))
  {
    EncodeStep(s);
  }

  /** Writes a piece if there is room for it, and behind an escape a zero, which may fall past the end. */
  method Put(dest: array<Byte>, j: nat, piece: seq<Byte>, escaped: bool, ghost rest: seq<Byte>, ghost out: seq<Byte>)
    returns (ok: bool, j': nat, past: bool)
    requires Written(dest[..], j, piece + rest, out) && (escaped ==> |piece| == 4)
    modifies dest
    ensures ok <==> j + |piece| <= dest.Length
    ensures ok ==> Written(dest[..], j', rest, out) && j' == j + |piece|
    ensures !ok ==> |out| > dest.Length
    ensures past <==> escaped && dest.Length - j == 4
  {
    ghost var before := dest[..j];
    if dest.Length - j < |piece| {
      return false, j, false;
    }
    Write(dest, j, piece);
    j' := j + |piece|;
    assert before + piece + rest == out;
    past := false;
    if escaped {
      if j' < dest.Length { dest[j'] := 0; } else { past := true; }
    }
    assert dest[..j'] == before + piece;
    ok := true;
  }

  /** What the character at `i` becomes, and how long it is. */
  method NextPiece(str: seq<Byte>, i: nat) returns (piece: seq<Byte>, seqlen: nat, escaped: bool)
    requires i < |str|
    ensures var s := str[i..];
      && seqlen == (if ValidUnichar(s) > 1 then ValidUnichar(s) else 1) && i + seqlen <= |str|
      && escaped == Escaped(s) && |piece| == (if escaped then 4 else seqlen)
      && DevnodeEncode(s) == piece + DevnodeEncode(str[i + seqlen..])
  {
    hide DevnodeEncode, ValidUnichar, Hex, Whitelisted;
    EncodeStep(str[i..]);
    var n := EncodedValidUnichar(str, i);
    escaped := false;
    if n > 1 {
      piece, seqlen := str[i..i + n], n;
    } else {
      escaped := str[i] == BACKSLASH || !Whitelisted(str[i], []);
      piece := if escaped then Hex(str[i]) else [str[i]];
      seqlen := 1;
    }
    Slices(str, i, seqlen);
  }

  // ---------- replacement ----------

  predicate IsSpace(c: Byte) { c == SPACE || 0x09 <= c <= 0x0D }

  /** How many bytes at the front are acceptable as they are. */
  function Accepted(s: seq<Byte>, white: seq<Byte>): nat
    requires s != []
  {
    if Whitelisted(s[0], white) then 1
    else if s[0] == BACKSLASH && At(s, 1) == LETTER_X then 2
    else if ValidUnichar(s) > 1 then ValidUnichar(s)
    else 0
  }

  function Substitute(c: Byte, white: seq<Byte>): Byte {
    if IsSpace(c) && SPACE in white then SPACE else UNDERSCORE
  }

  lemma AcceptedFits(s: seq<Byte>, white: seq<Byte>)
    requires s != []
    ensures Accepted(s, white) <= |s|
  {
    if ValidUnichar(s) > 1 { MultiByte(s); }
  }

  function Replaced(s: seq<Byte>, white: seq<Byte>): (r: seq<Byte>)
    ensures |r| == |s|
    decreases |s|
  {
    if s == [] then []
    else
      var n := Accepted(s, white);
      if 0 < n <= |s| then s[..n] + Replaced(s[n..], white) else [Substitute(s[0], white)] + Replaced(s[1..], white)
  }

  /** How many bytes are replaced. */
  function Count(s: seq<Byte>, white: seq<Byte>): nat
    decreases |s|
  {
    if s == [] then 0
    else
      var n := Accepted(s, white);
      if 0 < n <= |s| then Count(s[n..], white) else 1 + Count(s[1..], white)
  }

  /** What was accepted is accepted again in front of anything of the same length. */
  lemma AcceptedAgain(s: seq<Byte>, white: seq<Byte>, rest: seq<Byte>)
    requires s != [] && Accepted(s, white) > 0
    ensures var n := Accepted(s, white); n <= |s| && Accepted(s[..n] + rest, white) == n
  {
    AcceptedFits(s, white);
    var n := Accepted(s, white);
    var t := s[..n] + rest;
    assert t[0] == s[0];
    if !Whitelisted(s[0], white) && !(s[0] == BACKSLASH && At(s, 1) == LETTER_X) {
      MultiByte(s);
      ValidIsEncoded(s);
      assert s[..n] == Encode(Decode(s));
      EncodedIsValid(Decode(s), rest);
    }
  }

  lemma SubstituteAccepted(c: Byte, white: seq<Byte>, rest: seq<Byte>)
    ensures Accepted([Substitute(c, white)] + rest, white) == 1
  {
  }

  /** A second pass replaces nothing. */
  lemma {:induction false} ReplaceTwice(s: seq<Byte>, white: seq<Byte>)
    ensures Count(Replaced(s, white), white) == 0 && Replaced(Replaced(s, white), white) == Replaced(s, white)
    decreases |s|
  {
    if s != [] {
      var n := Accepted(s, white);
      var r := Replaced(s, white);
      if n > 0 {
        AcceptedFits(s, white);
        var rest := Replaced(s[n..], white);
        ReplaceTwice(s[n..], white);
        AcceptedAgain(s, white, rest);
        assert r[..n] == s[..n] && r[n..] == rest;
      } else {
        var rest := Replaced(s[1..], white);
        ReplaceTwice(s[1..], white);
        SubstituteAccepted(s[0], white, rest);
        assert r[..1] == [Substitute(s[0], white)] && r[1..] == rest;
      }
    }
  }

  /** The first `i` bytes are done. */
  ghost predicate Halfway(s: seq<Byte>, i: nat, s0: seq<Byte>, white: seq<Byte>, replaced: nat) {
    && i <= |s| == |s0| && s[i..] == s0[i..]
    && s[..i] + Replaced(s0[i..], white) == Replaced(s0, white)
    && replaced + Count(s0[i..], white) == Count(s0, white)
  }

  lemma ReplacedStep(s: seq<Byte>, white: seq<Byte>)
    requires s != []
    ensures var n := Accepted(s, white);
      && n <= |s|
      && Replaced(s, white) ==
           (if n > 0 then s[..n] + Replaced(s[n..], white) else [Substitute(s[0], white)] + Replaced(s[1..], white))
      && Count(s, white) == if n > 0 then Count(s[n..], white) else 1 + Count(s[1..], white)
  {
    AcceptedFits(s, white);
    hide Accepted, Substitute;
  }

  /** One step over what is accepted at the front. */
  lemma StepOver(s: seq<Byte>, i: nat, s0: seq<Byte>, white: seq<Byte>, replaced: nat)
    requires Halfway(s, i, s0, white, replaced) && i < |s|
    ensures var n := Accepted(s[i..], white);
      n <= |s| - i && (n > 0 ==> Halfway(s, i + n, s0, white, replaced))
  {
    hide Accepted, Replaced, Count, Substitute;
    var rest, n := s0[i..], Accepted(s[i..], white);
    ReplacedStep(rest, white);
    if n > 0 {
      assert rest[n..] == s0[i + n..] && s[i + n..] == s[i..][n..];
      assert s[..i + n] == s[..i] + rest[..n];
      assert s[..i] + (rest[..n] + Replaced(rest[n..], white)) == s[..i + n] + Replaced(rest[n..], white);
    }
  }

  lemma StepReplace(s: seq<Byte>, i: nat, s0: seq<Byte>, white: seq<Byte>, replaced: nat)
    requires Halfway(s, i, s0, white, replaced) && i < |s| && Accepted(s[i..], white) == 0
    ensures Halfway(s[i := Substitute(s[i], white)], i + 1, s0, white, replaced + 1)
  {
    hide Accepted, Replaced, Count, Substitute;
    var rest, c := s0[i..], Substitute(s[i], white);
    ReplacedStep(rest, white);
    var t := s[i := c];
    assert rest[0] == s[i] by { assert s[i..][0] == s[i]; }
    assert rest[1..] == s0[i + 1..] && t[i + 1..] == s[i..][1..];
    assert t[..i + 1] == s[..i] + [c];
    assert s[..i] + ([c] + Replaced(rest[1..], white)) == t[..i + 1] + Replaced(rest[1..], white);
  }

  /** Replaces in place. */
  method UtilReplaceChars(str: array<Byte>, white: seq<Byte>) returns (replaced: nat)
    modifies str
    ensures str[..] == Replaced(old(str[..]), white)
    ensures replaced == Count(old(str[..]), white)
  {
    var i := 0;
    replaced := 0;
    hide Halfway, Accepted, Substitute, Replaced, Count;
    ghost var s0 := str[..];
    NoneReplaced(s0, white);
    while i < str.Length
      invariant i <= str.Length && Halfway(str[..], i, s0, white, replaced)
      decreases str.Length - i
    {
      i, replaced := ReplaceOne(str, i, s0, white, replaced);
    }
    AllReplaced(str[..], s0, white, replaced);
  }

  /** Steps over what is acceptable at `i`, or replaces the byte. */
  method ReplaceOne(str: array<Byte>, i: nat, ghost s0: seq<Byte>, white: seq<Byte>, replaced: nat)
    returns (i': nat, replaced': nat)
    requires i < str.Length && Halfway(str[..], i, s0, white, replaced)
    modifies str
    ensures i < i' <= str.Length && Halfway(str[..], i', s0, white, replaced')
  {
    hide Halfway, Accepted, Substitute, Replaced, Count;
    ghost var s := str[..];
    assert s[i..] == str[i..];
    StepOver(s, i, s0, white, replaced);
    var n := AcceptedLen(str[i..], white);
    if n > 0 {
      return i + n, replaced;
    }
    StepReplace(s, i, s0, white, replaced);
    str[i] := Substitute(str[i], white);
    assert str[..] == s[i := Substitute(s[i], white)];
    i', replaced' := i + 1, replaced + 1;
  }

  lemma NoneReplaced(s0: seq<Byte>, white: seq<Byte>)
    ensures Halfway(s0, 0, s0, white, 0)
  {
    hide Replaced, Count;
    assert s0[0..] == s0;
  }

  lemma AllReplaced(s: seq<Byte>, s0: seq<Byte>, white: seq<Byte>, replaced: nat)
    requires Halfway(s, |s|, s0, white, replaced)
    ensures s == Replaced(s0, white) && replaced == Count(s0, white)
  {
    assert s0[|s|..] == [] && s[..|s|] == s;
  }

  /** The tests for an acceptable byte, escape or character. */
  method AcceptedLen(s: seq<Byte>, white: seq<Byte>) returns (n: nat)
    requires s != []
    ensures n == Accepted(s, white)
  {
    if Whitelisted(s[0], white) {
      return 1;
    }
    if s[0] == BACKSLASH && At(s, 1) == LETTER_X {
      return 2;
    }
    assert s[0..] == s;
    var len := EncodedValidUnichar(s, 0);
    n := if len > 1 then len else 0;
  }

  // ---------- character by character ----------

  /** The characters of a device name that stay as they are: letters, digits, and eight others. */
  lemma WhitelistedIs(c: Byte, white: seq<Byte>)
    ensures Whitelisted(c, white) <==>
      var x := c as char;
      '0' <= x <= '9' || 'A' <= x <= 'Z' || 'a' <= x <= 'z' || x in "#+-.:=@_" || c in white
  {
  }

  /** Only slash and backslash are changed in a path. */
  lemma {:induction false} PathEncodeIs(s: seq<Byte>, c: Byte)
    ensures PathEncode(s + [c]) == PathEncode(s) +
      if c == 0x2F then [0x5C, 0x78, 0x32, 0x66] else if c == 0x5C then [0x5C, 0x78, 0x35, 0x63] else [c]
  {
    assert (s + [c])[..|s|] == s;
  }

  /** A byte that is not part of a longer character is kept, or becomes an escape with its hexadecimal digits. */
  lemma DevnodeIs(c: Byte, s: seq<Byte>)
    requires c < 0x80 || ValidUnichar([c] + s) < 0
    ensures DevnodeEncode([c] + s) == DevnodeEncode([c]) + DevnodeEncode(s)
    ensures var digits := "0123456789abcdef";
      DevnodeEncode([c]) == if Whitelisted(c, []) then [c]
                            else [0x5C, 0x78, digits[c / 16] as int, digits[c % 16] as int]
  {
    hide ValidUnichar, DevnodeEncode, Whitelisted, Hex;
    if c < 0x80 { OneByte([c] + s); }
    OneEncoded(c, s);
    Alone(c);
    assert [c] + [] == [c];
    OneEncoded(c, []);
    NothingEncoded();
    HexIs(c);
    BackslashEscaped();
  }

  lemma OneEncoded(c: Byte, s: seq<Byte>)
    requires ValidUnichar([c] + s) <= 1
    ensures DevnodeEncode([c] + s) ==
      (if c == BACKSLASH || !Whitelisted(c, []) then Hex(c) else [c]) + DevnodeEncode(s)
  {
    hide ValidUnichar, Whitelisted, Hex;
    assert ([c] + s)[1..] == s;
  }

  lemma BackslashEscaped()
    ensures !Whitelisted(BACKSLASH, [])
  {
  }

  lemma HexIs(c: Byte)
    ensures Hex(c) == [0x5C, 0x78, "0123456789abcdef"[c / 16] as int, "0123456789abcdef"[c % 16] as int]
  {
    DigitIs(c / 16);
    DigitIs(c % 16);
  }

  lemma DigitIs(n: nat)
    requires n < 16
    ensures HexDigit(n) == "0123456789abcdef"[n] as int
  {
  }

  lemma NothingEncoded()
    ensures DevnodeEncode([]) == []
  {
  }

  lemma Alone(c: Byte)
    ensures ValidUnichar([c]) <= 1
  {
    if ValidUnichar([c]) > 1 { MultiByte([c]); }
  }

  /** A valid character of several bytes is kept. */
  lemma MultiByteKept(g: nat, s: seq<Byte>, white: seq<Byte>)
    requires Scalar(g) && g >= 0x80 && forall i :: 0 <= i < |white| ==> white[i] < 0x80
    ensures DevnodeEncode(Encode(g) + s) == Encode(g) + DevnodeEncode(s)
    ensures Replaced(Encode(g) + s, white) == Encode(g) + Replaced(s, white)
  {
    hide ValidUnichar, Encode;
    var t := Encode(g) + s;
    EncodedIsValid(g, s);
    LongCode(g);
    MultiByte(t);
    assert t[..|Encode(g)|] == Encode(g) && t[|Encode(g)|..] == s;
  }

  lemma LongCode(g: nat)
    requires Scalar(g) && g >= 0x80
    ensures |Encode(g)| > 1
  {
  }

  lemma OneByte(t: seq<Byte>)
    requires t != [] && t[0] < 0x80
    ensures ValidUnichar(t) == 1
  {
  }

  /** A 7-bit character is kept, or becomes a blank if it is white space and blanks are allowed, or an underscore. */
  lemma ReplacedIs(c: Byte, s: seq<Byte>, white: seq<Byte>)
    requires c < 0x80 && c != 0x5C
    ensures Replaced([c] + s, white) ==
      [if Whitelisted(c, white) then c
       else if (c == 0x20 || 0x09 <= c <= 0x0D) && 0x20 in white then 0x20
       else 0x5F] + Replaced(s, white)
    ensures Count([c] + s, white) == Count(s, white) + if Whitelisted(c, white) then 0 else 1
  {
    var t := [c] + s;
    assert t[1..] == s && t[0] == c && t[..1] == [c];
    OneByte(t);
  }

  /** An escape that begins with a backslash and an `x` is kept. */
  lemma EscapeKept(s: seq<Byte>, white: seq<Byte>)
    requires 0x5C !in white
    ensures Replaced([0x5C, 0x78] + s, white) == [0x5C, 0x78] + Replaced(s, white)
  {
    var t: seq<Byte> := [0x5C, 0x78] + s;
    assert t[2..] == s && t[..2] == [0x5C, 0x78] && At(t, 1) == 0x78;
  }
}
