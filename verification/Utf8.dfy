/**
  UTF-8 encoding, decoding, validation and repair, and the conversion from
  UTF-16 (section 3 of RFC 3629 and section 2.2 of RFC 2781).  Masks and shifts
  are written as remainders and quotients.
  */
module Utf8 {

  type Byte = x: int | 0 <= x < 256

  /** A character of a string that ends with a zero byte. */
  function At(s: seq<Byte>, i: nat): Byte { if i < |s| then s[i] else 0 }

  predicate NoZero(s: seq<Byte>) { forall i :: 0 <= i < |s| ==> s[i] != 0 }

  predicate IsUnicodeValid(ch: int) {
    && ch < 0x110000
    && !(0xD800 <= ch < 0xE000)
    && !(0xFDD0 <= ch <= 0xFDEF)
    && ch % 0x10000 < 0xFFFE
  }

  function ExpectedLen(c: Byte): nat {
    if c < 0x80 then 1
    else if c < 0xC0 then 0
    else if c < 0xE0 then 2
    else if c < 0xF0 then 3
    else if c < 0xF8 then 4
    else if c < 0xFC then 5
    else if c < 0xFE then 6
    else 0
  }

  /** The bits of the value in the first byte. */
  function LeadBits(c: Byte, len: nat): nat {
    match len
    case 1 => c
    case 2 => c % 0x20
    case 3 => c % 0x10
    case 4 => c % 0x08
    case 5 => c % 0x04
    case _ => c % 0x02
  }

  predicate Continues(c: Byte) { 0x80 <= c < 0xC0 }

  /** Takes `n` continuation bytes from position `i` on into the value. */
  function Gather(s: seq<Byte>, i: nat, n: nat, v: nat): int
    decreases n
  {
    if n == 0 then v
    else if !Continues(At(s, i)) then -1
    else Gather(s, i + 1, n - 1, 64 * v + At(s, i) % 0x40)
  }

  /** The value of the first encoded character, or -1. */
  function Decode(s: seq<Byte>): int {
    var len := ExpectedLen(At(s, 0));
    if len == 0 then -1 else Gather(s, 1, len - 1, LeadBits(At(s, 0), len))
  }

  function EncodedLen(ch: int): nat {
    if ch < 0x80 then 1
    else if ch < 0x800 then 2
    else if ch < 0x10000 then 3
    else if ch < 0x200000 then 4
    else if ch < 0x4000000 then 5
    else 6
  }

  /** Empty for values that have no encoding. */
  function Encode(g: nat): (r: seq<Byte>)
    ensures |r| == if g < 0x200000 then EncodedLen(g) else 0
  {
    var g6 := g / 0x40;
    var g12 := g6 / 0x40;
    if g < 0x80 then [g]
    else if g < 0x800 then [0xC0 + g6, 0x80 + g % 0x40]
    else if g < 0x10000 then [0xE0 + g12, 0x80 + g6 % 0x40, 0x80 + g % 0x40]
    else if g < 0x200000 then [0xF0 + g12 / 0x40, 0x80 + g12 % 0x40, 0x80 + g6 % 0x40, 0x80 + g % 0x40]
    else []
  }

  /** The length of the first encoded character if it is valid, or -1. */
  function ValidUnichar(s: seq<Byte>): int {
    var len := ExpectedLen(At(s, 0));
    if len == 0 then -1
    else if len == 1 then 1
    else if exists i :: 0 <= i < len && At(s, i) < 0x80 then -1
    else
      var ch := Decode(s);
      if EncodedLen(ch) != len || !IsUnicodeValid(ch) then -1 else len
  }

  // ---------- one character ----------

  /** The value of up to three continuation bytes behind the leading bits `v`. */
  lemma GatherIs(s: seq<Byte>, n: nat, v: nat)
    requires n <= 3
    requires forall i :: 1 <= i <= n ==> Continues(At(s, i))
    ensures Gather(s, 1, n, v) ==
      match n
      case 0 => v
      case 1 => 64 * v + At(s, 1) % 64
      case 2 => 64 * (64 * v + At(s, 1) % 64) + At(s, 2) % 64
      case _ => 64 * (64 * (64 * v + At(s, 1) % 64) + At(s, 2) % 64) + At(s, 3) % 64
  {
    if n > 0 {
      var v1 := 64 * v + At(s, 1) % 64;
      assert Gather(s, 1, n, v) == Gather(s, 2, n - 1, v1);
      if n > 1 {
        var v2 := 64 * v1 + At(s, 2) % 64;
        assert Gather(s, 2, n - 1, v1) == Gather(s, 3, n - 2, v2);
        if n > 2 { assert Gather(s, 3, n - 2, v2) == Gather(s, 4, n - 3, 64 * v2 + At(s, 3) % 64); }
      }
    }
  }

  lemma Front(w: seq<Byte>, rest: seq<Byte>)
    ensures forall i :: 0 <= i < |w| ==> At(w + rest, i) == w[i]
  {
  }

  lemma Digit(q: nat, d: nat)
    requires d < 64
    ensures (64 * q + d) / 64 == q && (64 * q + d) % 64 == d
  {
  }

  /** The leading byte tells the length and the first bits. */
  lemma Lead(len: nat, v: nat)
    requires 2 <= len <= 4 && v < (match len case 2 => 0x20 case 3 => 0x10 case _ => 0x08)
    ensures var c := (match len case 2 => 0xC0 case 3 => 0xE0 case _ => 0xF0) + v;
      ExpectedLen(c) == len && LeadBits(c, len) == v
  {
  }

  lemma Follow(d: nat)
    requires d < 64
    ensures Continues(0x80 + d) && (0x80 + d) % 64 == d
  {
  }

  /** Decoding inverts encoding for every value that has an encoding. */
  lemma DecodeEncode(g: nat, rest: seq<Byte>)
    requires g < 0x200000
    ensures Decode(Encode(g) + rest) == g
  {
    var s, w := Encode(g) + rest, Encode(g);
    Front(w, rest);
    var g6 := g / 0x40;
    var g12 := g6 / 0x40;
    Follow(g % 64);
    Follow(g6 % 64);
    Follow(g12 % 64);
    hide Gather, ExpectedLen, LeadBits, At, Continues;
    if g < 0x80 {
      Ascii(s);
    } else if g < 0x800 {
      Lead(2, g6);
      GatherIs(s, 1, g6);
    } else if g < 0x10000 {
      Lead(3, g12);
      GatherIs(s, 2, g12);
    } else {
      Lead(4, g12 / 0x40);
      GatherIs(s, 3, g12 / 0x40);
    }
  }

  lemma Ascii(s: seq<Byte>)
    requires At(s, 0) < 0x80
    ensures Decode(s) == At(s, 0)
  {
  }

  /** A character that may be in a text: plain ASCII, or a valid character beyond. */
  predicate Scalar(g: nat) { g < 0x80 || IsUnicodeValid(g) }

  ghost predicate Begins(s: seq<Byte>, w: seq<Byte>) { |w| <= |s| && s[..|w|] == w }

  /** Every encoded character is accepted, with its length. */
  lemma EncodedIsValid(g: nat, rest: seq<Byte>)
    requires Scalar(g)
    ensures ValidUnichar(Encode(g) + rest) == |Encode(g)|
  {
    var s := Encode(g) + rest;
    DecodeEncode(g, rest);
    assert forall i :: 0 <= i < |Encode(g)| ==> At(s, i) == Encode(g)[i];
    if g < 0x80 {
    } else if g < 0x800 {
    } else if g < 0x10000 {
    } else {
    }
  }

  /** Whatever is accepted is the encoding of its value: no overlong form, no surrogate, no five or six bytes. */
  lemma ValidIsEncoded(s: seq<Byte>)
    requires s != [] && ValidUnichar(s) > 0
    ensures var g := Decode(s); 0 <= g && Scalar(g) && Begins(s, Encode(g)) && |Encode(g)| == ValidUnichar(s)
  {
    var len, g := ValidUnichar(s), Decode(s);
    if len > 1 {
      assert forall i :: 0 <= i < len ==> At(s, i) >= 0x80;
      assert len <= 4;
      GatherGood(s, 1, len - 1, LeadBits(At(s, 0), len));
      Rebuilt(s, len, g);
    }
  }

  /** A value was gathered, so all bytes were continuation bytes. */
  lemma {:induction false} GatherGood(s: seq<Byte>, i: nat, n: nat, v: nat)
    requires Gather(s, i, n, v) != -1
    ensures forall j :: i <= j < i + n ==> Continues(At(s, j))
    ensures Gather(s, i, n, v) >= 0
    decreases n
  {
    if n > 0 { GatherGood(s, i + 1, n - 1, 64 * v + At(s, i) % 0x40); }
  }

  lemma LeadIs(c: Byte, len: nat)
    requires 2 <= len <= 4 && ExpectedLen(c) == len
    ensures c == (match len case 2 => 0xC0 case 3 => 0xE0 case _ => 0xF0) + LeadBits(c, len)
  {
  }

  lemma FollowIs(c: Byte)
    requires Continues(c)
    ensures c == 0x80 + c % 64
  {
  }

  lemma Rebuilt(s: seq<Byte>, len: nat, g: nat)
    requires 2 <= len <= 4 && ExpectedLen(At(s, 0)) == len && EncodedLen(g) == len && g < 0x200000
    requires forall j :: 1 <= j < len ==> Continues(At(s, j))
    requires Gather(s, 1, len - 1, LeadBits(At(s, 0), len)) == g
    ensures Begins(s, Encode(g))
  {
    hide Gather, ExpectedLen, LeadBits, Encode;
    assert |s| >= len by { assert Continues(At(s, len - 1)); }
    GatherIs(s, len - 1, LeadBits(s[0], len));
    LeadIs(s[0], len);
    forall j | 1 <= j < len ensures At(s, j) == s[j] == 0x80 + s[j] % 64 { FollowIs(s[j]); }
    hide Continues, At;
    EncodeIs(g, len, LeadBits(s[0], len),
             s[1] % 64, if len > 2 then s[2] % 64 else 0, if len > 3 then s[3] % 64 else 0);
    assert s[..len] == Encode(g);
  }

  /** The bytes of a value that is put together from its bits. */
  lemma EncodeIs(g: nat, len: nat, v: nat, a: nat, b: nat, c: nat)
    requires 2 <= len <= 4 && EncodedLen(g) == len && g < 0x200000 && a < 64 && b < 64 && c < 64
    requires g == if len == 2 then 64 * v + a
                  else if len == 3 then 64 * (64 * v + a) + b
                  else 64 * (64 * (64 * v + a) + b) + c
    ensures len == 2 ==> Encode(g) == [0xC0 + v, 0x80 + a]
    ensures len == 3 ==> Encode(g) == [0xE0 + v, 0x80 + a, 0x80 + b]
    ensures len == 4 ==> Encode(g) == [0xF0 + v, 0x80 + a, 0x80 + b, 0x80 + c]
  {
    Digit(v, a);
    if len >= 3 { Digit(64 * v + a, b); }
    if len == 4 { Digit(64 * (64 * v + a) + b, c); }
  }

  // ---------- texts ----------

  /** The encoding of a text. */
  function EncodeAll(gs: seq<nat>): seq<Byte> {
    if gs == [] then [] else Encode(gs[0]) + EncodeAll(gs[1..])
  }

  ghost predicate Scalars(gs: seq<nat>) { forall i :: 0 <= i < |gs| ==> Scalar(gs[i]) && gs[i] != 0 }

  /** The characters of a string, as far as they are valid. */
  ghost predicate IsText(s: seq<Byte>) { exists gs :: Scalars(gs) && s == EncodeAll(gs) }

  /** The same by stepping over the string. */
  predicate AllValid(s: seq<Byte>)
    decreases |s|
  {
    s == [] || (var n := ValidUnichar(s); n > 0 && n <= |s| && AllValid(s[n..]))
  }

  lemma NoZeroLead(s: seq<Byte>)
    requires s != [] && NoZero(s) && ValidUnichar(s) > 0
    ensures ValidUnichar(s) <= |s| && Decode(s) > 0
  {
    ValidIsEncoded(s);
    assert s[..1][0] == s[0];
  }

  lemma TextCons(g: nat, gs: seq<nat>)
    requires Scalar(g) && g != 0 && Scalars(gs)
    ensures IsText(Encode(g) + EncodeAll(gs))
  {
    var all := [g] + gs;
    assert all[1..] == gs;
    assert Scalars(all) && EncodeAll(all) == Encode(g) + EncodeAll(gs);
  }

  /** A string without zero bytes steps through as valid if and only if it is the encoding of a text. */
  lemma ValidIsText(s: seq<Byte>)
    requires NoZero(s)
    ensures AllValid(s) <==> IsText(s)
  {
    hide AllValid, EncodeAll, Scalars;
    if AllValid(s) { ValidHasText(s); }
    if IsText(s) {
      var gs :| Scalars(gs) && s == EncodeAll(gs);
      TextIsValid(gs);
    }
  }

  lemma {:induction false} ValidHasText(s: seq<Byte>)
    requires NoZero(s) && AllValid(s)
    ensures IsText(s)
    decreases |s|
  {
    hide ValidUnichar, Decode, Encode, Scalar;
    if s == [] {
      assert Scalars([]) && s == EncodeAll([]);
    } else {
      var n := ValidUnichar(s);
      ValidIsEncoded(s);
      NoZeroLead(s);
      ValidHasText(s[n..]);
      var gs :| Scalars(gs) && s[n..] == EncodeAll(gs);
      assert s == s[..n] + s[n..];
      TextCons(Decode(s), gs);
    }
  }

  lemma {:induction false} TextIsValid(gs: seq<nat>)
    requires Scalars(gs)
    ensures AllValid(EncodeAll(gs))
  {
    if gs != [] {
      var rest := EncodeAll(gs[1..]);
      TextIsValid(gs[1..]);
      EncodedIsValid(gs[0], rest);
      assert (Encode(gs[0]) + rest)[|Encode(gs[0])|..] == rest;
    }
  }

  method Utf8IsValid(s: seq<Byte>) returns (ok: bool)
    requires NoZero(s)
    ensures ok <==> IsText(s)
  {
    hide ValidUnichar, IsText, Decode, AllValid;
    var p := 0;
    assert s[0..] == s;
    while p < |s|
      invariant p <= |s| && (AllValid(s) <==> AllValid(s[p..]))
      decreases |s| - p
    {
      var len := EncodedValidUnichar(s, p);
      ValidStep(s[p..]);
      if len < 0 {
        ValidIsText(s);
        return false;
      }
      NoZeroLead(s[p..]);
      assert s[p..][len..] == s[p + len..];
      p := p + len;
    }
    assert s[p..] == [];
    ValidEnd();
    ValidIsText(s);
    ok := true;
  }

  lemma ValidStep(s: seq<Byte>)
    requires s != []
    ensures AllValid(s) <==> (var n := ValidUnichar(s); n > 0 && n <= |s| && AllValid(s[n..]))
  {
  }

  lemma ValidEnd()
    ensures AllValid([])
  {
  }

  /** Validates the character at `p`. */
  method EncodedValidUnichar(s: seq<Byte>, p: nat) returns (r: int)
    requires p < |s|
    ensures r == ValidUnichar(s[p..])
    ensures r < 0 || 0 < r
  {
    ghost var t := s[p..];
    assert forall i: nat :: At(s, p + i) == At(t, i);
    var len := ExpectedLen(s[p]);
    if len == 0 {
      return -1;
    }
    if len == 1 {
      return 1;
    }
    var i := 0;
    while i < len
      invariant 0 <= i <= len
      invariant forall j :: 0 <= j < i ==> At(t, j) >= 0x80
    {
      if At(s, p + i) < 0x80 {
        assert At(t, i) < 0x80;
        return -1;
      }
      i := i + 1;
    }
    var ch := EncodedToUnichar(s, p);
    if EncodedLen(ch) != len || !IsUnicodeValid(ch) {
      return -1;
    }
    r := len;
  }

  method EncodedToUnichar(s: seq<Byte>, p: nat) returns (ch: int)
    requires p < |s|
    ensures ch == Decode(s[p..])
  {
    ghost var t := s[p..];
    assert forall i: nat :: At(s, p + i) == At(t, i);
    var len := ExpectedLen(s[p]);
    if len == 0 {
      return -1;
    }
    ch := LeadBits(s[p], len);
    var i := 1;
    while i < len
      invariant 1 <= i <= len && 0 <= ch
      invariant Decode(t) == Gather(t, i, len - i, ch)
    {
      if !Continues(At(s, p + i)) {
        assert !Continues(At(t, i));
        return -1;
      }
      assert At(s, p + i) == At(t, i);
      ch := 64 * ch + At(s, p + i) % 0x40;
      i := i + 1;
    }
  }

  // ---------- repair ----------

  const REPLACEMENT: seq<Byte> := [0xEF, 0xBF, 0xBD]

  function Escape(s: seq<Byte>): seq<Byte>
    decreases |s|
  {
    if s == [] then []
    else
      var n := ValidUnichar(s);
      if 0 < n <= |s| then s[..n] + Escape(s[n..]) else REPLACEMENT + Escape(s[1..])
  }

  /** Putting one encoded character in front keeps a string valid. */
  lemma ValidCons(g: nat, t: seq<Byte>)
    requires Scalar(g) && g != 0 && NoZero(t) && AllValid(t)
    ensures NoZero(Encode(g) + t) && AllValid(Encode(g) + t)
  {
    EncodedIsValid(g, t);
    assert (Encode(g) + t)[|Encode(g)|..] == t;
  }

  /** The repaired string is valid, and at most three times as long. */
  lemma {:induction false} EscapeIsValid(s: seq<Byte>)
    requires NoZero(s)
    ensures NoZero(Escape(s)) && AllValid(Escape(s)) && |Escape(s)| <= 3 * |s|
    decreases |s|
  {
    if s != [] {
      var n := ValidUnichar(s);
      if n > 0 {
        ValidIsEncoded(s);
        NoZeroLead(s);
        EscapeIsValid(s[n..]);
        ValidCons(Decode(s), Escape(s[n..]));
      } else {
        EscapeIsValid(s[1..]);
        ReplacementIs();
        ValidCons(0xFFFD, Escape(s[1..]));
      }
    }
  }

  lemma ReplacementIs()
    ensures Encode(0xFFFD) == REPLACEMENT && Scalar(0xFFFD)
  {
  }

  /** A valid string is left alone. */
  lemma {:induction false} EscapeOfValid(s: seq<Byte>)
    requires AllValid(s)
    ensures Escape(s) == s
    decreases |s|
  {
    if s != [] {
      var n := ValidUnichar(s);
      EscapeOfValid(s[n..]);
      assert s == s[..n] + s[n..];
    }
  }

  lemma EscapeTwice(s: seq<Byte>)
    requires NoZero(s)
    ensures Escape(Escape(s)) == Escape(s)
  {
    EscapeIsValid(s);
    EscapeOfValid(Escape(s));
  }

  /** The output never leaves its buffer, which ends with a zero byte. */
  method EscapeInvalid(str: seq<Byte>) returns (p: array<Byte>, n: nat)
    requires NoZero(str)
    ensures fresh(p) && n < p.Length == 4 * |str| + 1
    ensures p[..n] == Escape(str) && p[n] == 0 && IsText(p[..n])
  {
    hide Escape, IsText, AllValid, ValidUnichar, Written;
    p := new Byte[|str| * 4 + 1](_ => 0);
    n := 0;
    var i := 0;
    ghost var out := Escape(str);
    EscapeIsValid(str);
    ValidIsText(out);
    NoneWritten(p[..], str);
    while i < |str|
      invariant i <= |str| && Written(p[..], n, Escape(str[i..]), out)
      decreases |str| - i
    {
      i, n := EscapeOne(str, i, p, n, out);
    }
    NothingLeft(p[..], n, str[i..], out);
    p[n] := 0;
    assert p[..n] == out;
  }

  lemma NoneWritten(p: seq<Byte>, str: seq<Byte>)
    ensures Written(p, 0, Escape(str[0..]), Escape(str))
  {
    hide Escape;
    assert str[0..] == str;
  }

  lemma NothingLeft(p: seq<Byte>, n: nat, rest: seq<Byte>, out: seq<Byte>)
    requires rest == [] && Written(p, n, Escape(rest), out)
    ensures n == |out| <= |p| && p[..n] == out
  {
  }

  /** `n` bytes are written, and with `rest` they are `out`. */
  ghost predicate Written(p: seq<Byte>, n: nat, rest: seq<Byte>, out: seq<Byte>) {
    n <= |p| && p[..n] + rest == out
  }

  method EscapeOne(str: seq<Byte>, i: nat, p: array<Byte>, n: nat, ghost out: seq<Byte>) returns (i': nat, n': nat)
    requires NoZero(str) && i < |str| && Written(p[..], n, Escape(str[i..]), out) && |out| <= p.Length
    modifies p
    ensures i < i' <= |str| && Written(p[..], n', Escape(str[i'..]), out)
  {
    hide Escape, ValidUnichar;
    ghost var before, rest := p[..n], str[i..];
    var len := EncodedValidUnichar(str, i);
    var piece := REPLACEMENT;
    EscapeStep(rest);
    if len > 0 {
      NoZeroLead(rest);
      piece := str[i..i + len];
      i' := i + len;
      Slices(str, i, len);
    } else {
      i' := i + 1;
      Slices(str, i, 1);
    }
    n' := n + |piece|;
    Regroup(before, piece, Escape(str[i'..]), out);
    Write(p, n, piece);
  }

  lemma Slices(s: seq<Byte>, i: nat, n: nat)
    requires i + n <= |s|
    ensures s[i..][..n] == s[i..i + n] && s[i..][n..] == s[i + n..]
  {
  }

  lemma Regroup(before: seq<Byte>, piece: seq<Byte>, rest: seq<Byte>, out: seq<Byte>)
    requires before + (piece + rest) == out
    ensures before + piece + rest == out
  {
  }

  lemma EscapeStep(s: seq<Byte>)
    requires s != []
    ensures var n := ValidUnichar(s);
      Escape(s) == if 0 < n <= |s| then s[..n] + Escape(s[n..]) else REPLACEMENT + Escape(s[1..])
  {
  }

  method Write(p: array<Byte>, n: nat, piece: seq<Byte>)
    requires n + |piece| <= p.Length
    modifies p
    ensures p[..n + |piece|] == old(p[..n]) + piece
  {
    var j := 0;
    while j < |piece|
      invariant j <= |piece| && p[..n + j] == old(p[..n]) + piece[..j]
    {
      p[n + j] := piece[j];
      assert p[..n + j + 1] == p[..n + j] + [piece[j]] && piece[..j + 1] == piece[..j] + [piece[j]];
      j := j + 1;
    }
    assert piece[..j] == piece;
  }

  // ---------- UTF-16 ----------

  predicate IsSurrogate(w: int) { 0xD800 <= w <= 0xDFFF }

  predicate IsTrailing(w: int) { 0xDC00 <= w <= 0xDFFF }

  function Pair(lead: int, trail: int): int { (lead - 0xD800) * 0x400 + (trail - 0xDC00) + 0x10000 }

  type Unit = w: int | 0 <= w < 0x10000

  /** The characters of a sequence of units; what does not pair up is dropped. */
  function From16(ws: seq<Unit>): seq<nat> {
    if ws == [] then []
    else if !IsSurrogate(ws[0]) then [ws[0]] + From16(ws[1..])
    else if IsTrailing(ws[0]) then From16(ws[1..])
    else if |ws| == 1 then []
    else if !IsTrailing(ws[1]) then From16(ws[1..])
    else [Pair(ws[0], ws[1])] + From16(ws[2..])
  }

  function To16(g: nat): seq<Unit>
    requires g < 0x110000
  {
    if g < 0x10000 then [g] else [0xD800 + (g - 0x10000) / 0x400, 0xDC00 + (g - 0x10000) % 0x400]
  }

  ghost predicate Characters(gs: seq<nat>) { forall i :: 0 <= i < |gs| ==> gs[i] < 0x110000 && !IsSurrogate(gs[i]) }

  function AllTo16(gs: seq<nat>): seq<Unit>
    requires forall i :: 0 <= i < |gs| ==> gs[i] < 0x110000
  {
    if gs == [] then [] else To16(gs[0]) + AllTo16(gs[1..])
  }

  lemma PairOf(g: nat)
    requires 0x10000 <= g < 0x110000
    ensures Pair(0xD800 + (g - 0x10000) / 0x400, 0xDC00 + (g - 0x10000) % 0x400) == g
    ensures 0xD800 <= 0xD800 + (g - 0x10000) / 0x400 < 0xDC00
  {
  }

  lemma FirstFrom16(g: nat, rest: seq<Unit>)
    requires g < 0x110000 && !IsSurrogate(g)
    ensures From16(To16(g) + rest) == [g] + From16(rest)
  {
    var w := To16(g);
    assert (w + rest)[|w|..] == rest;
    if g >= 0x10000 { PairOf(g); }
    hide Pair;
  }

  /** The conversion reads back every text that was written as UTF-16. */
  lemma {:induction false} From16Inverts(gs: seq<nat>)
    requires Characters(gs)
    ensures From16(AllTo16(gs)) == gs
  {
    hide From16, To16;
    if gs != [] {
      From16Inverts(gs[1..]);
      FirstFrom16(gs[0], AllTo16(gs[1..]));
      assert gs == [gs[0]] + gs[1..];
    } else {
      NoUnits();
    }
  }

  lemma NoUnits()
    ensures From16([]) == []
  {
  }

  /** A unit becomes at most three bytes. */
  lemma {:induction false} From16Size(ws: seq<Unit>)
    ensures |EncodeAll(From16(ws))| <= 3 * |ws|
  {
    if ws != [] {
      From16Size(ws[1..]);
      if !IsSurrogate(ws[0]) {
        assert From16(ws)[1..] == From16(ws[1..]);
      } else if |ws| > 1 && !IsTrailing(ws[0]) && IsTrailing(ws[1]) {
        From16Size(ws[2..]);
        assert From16(ws)[1..] == From16(ws[2..]);
      }
    }
  }

  predicate Even(n: nat) { n % 2 == 0 }

  lemma EvenOn(n: nat)
    requires Even(n)
    ensures Even(n + 2)
  {
  }

  lemma EvenGap(n: nat, m: nat)
    requires Even(n) && Even(m) && n < m
    ensures n + 1 < m
  {
  }

  /** The units of a string of bytes, low byte first. */
  function Units(s: seq<Byte>): (r: seq<Unit>)
    requires Even(|s|)
    ensures |r| == |s| / 2
  {
    if s == [] then [] else [(s[1] as int) * 256 + (s[0] as int)] + Units(s[2..])
  }

  /** What is left to be written when the input from `f` on is left to be read. */
  ghost function Left(s: seq<Byte>, f: nat): seq<Byte>
    requires Even(|s|) && Even(f) && f <= |s|
  {
    EncodeAll(From16(Units(s[f..])))
  }

  function UnitAt(s: seq<Byte>, f: nat): Unit
    requires f + 1 < |s|
  {
    (s[f + 1] as int) * 256 + (s[f] as int)
  }

  lemma UnitsAt(s: seq<Byte>, f: nat)
    requires Even(|s|) && Even(f) && f < |s|
    ensures Units(s[f..]) == [UnitAt(s, f)] + Units(s[f + 2..])
  {
    assert s[f..][2..] == s[f + 2..];
  }

  /** One turn of the conversion: skip a unit, end, write a unit, or write a pair. */
  lemma LeftStep(s: seq<Byte>, f: nat)
    requires Even(|s|) && Even(f) && f < |s|
    ensures var w1 := UnitAt(s, f);
      if !IsSurrogate(w1) then Left(s, f) == Encode(w1) + Left(s, f + 2)
      else if IsTrailing(w1) then Left(s, f) == Left(s, f + 2)
      else if f + 2 == |s| then Left(s, f) == []
      else if !IsTrailing(UnitAt(s, f + 2)) then Left(s, f) == Left(s, f + 2)
      else Left(s, f) == Encode(Pair(w1, UnitAt(s, f + 2))) + Left(s, f + 4)
  {
    hide Units, Encode, Pair, UnitAt;
    UnitsAt(s, f);
    var ws := Units(s[f..]);
    assert ws[1..] == Units(s[f + 2..]);
    if f + 2 < |s| {
      UnitsAt(s, f + 2);
      assert ws[1] == UnitAt(s, f + 2) && ws[2..] == Units(s[f + 4..]);
    } else {
      assert s[f + 2..] == [];
      NoUnitsLeft();
    }
    var gs := From16(ws);
    assert gs != [] ==> gs == [gs[0]] + gs[1..];
  }

  lemma NoUnitsLeft()
    ensures Units([]) == []
  {
  }

  lemma LeftAll(s: seq<Byte>)
    requires Even(|s|)
    ensures Left(s, 0) == EncodeAll(From16(Units(s))) && |Left(s, 0)| <= 2 * |s|
    ensures Left(s, |s|) == []
  {
    From16Size(Units(s[0..]));
    assert s[0..] == s;
    assert s[|s|..] == [];
  }

  /** The output fits the buffer that is computed from the length of the input. */
  method Utf16ToUtf8(s: seq<Byte>) returns (r: array<Byte>, t: nat)
    requires Even(|s|)
    ensures fresh(r) && t < r.Length == (|s| * 4 + 1) / 2 + 1
    ensures r[..t] == EncodeAll(From16(Units(s))) && r[t] == 0
  {
    assert Even(0);
    var size := (|s| * 4 + 1) / 2 + 1;
    assert size == 2 * |s| + 1;
    r := new Byte[size](_ => 0);
    t := 0;
    var f := 0;
    ghost var out := EncodeAll(From16(Units(s)));
    hide Left, Encode, Pair, IsSurrogate, IsTrailing, UnitAt, Written, EncodeAll, From16, Units, Even;
    LeftAll(s);
    Unwritten(r[..], out);
    while f < |s|
      invariant f <= |s| && Even(f) && Written(r[..], t, Left(s, f), out)
      decreases |s| - f
    {
      LeftStep(s, f);
      EvenOn(f);
      EvenGap(f, |s|);
      var w1 := UnitAt(s, f);
      f := f + 2;
      if !IsSurrogate(w1) {
        t := Append(r, t, Encode(w1), Left(s, f), out);
        continue;
      }
      if IsTrailing(w1) {
        continue;
      } else if f >= |s| {
        break;
      }
      EvenGap(f, |s|);
      var w2 := UnitAt(s, f);
      EvenOn(f);
      f := f + 2;
      if !IsTrailing(w2) {
        f := f - 2;
        continue;
      }
      PairInRange(w1, w2);
      t := Append(r, t, Encode(Pair(w1, w2)), Left(s, f), out);
    }
    AllWritten(r[..], t, out);
    r[t] := 0;
    assert r[..t] == out;
  }

  lemma Unwritten(p: seq<Byte>, out: seq<Byte>)
    ensures Written(p, 0, out, out)
  {
  }

  lemma AllWritten(p: seq<Byte>, n: nat, out: seq<Byte>)
    requires Written(p, n, [], out)
    ensures n == |out| <= |p| && p[..n] == out
  {
  }

  lemma PairInRange(w1: Unit, w2: Unit)
    requires IsSurrogate(w1) && !IsTrailing(w1) && IsTrailing(w2)
    ensures 0x10000 <= Pair(w1, w2) < 0x110000
  {
  }

  method Append(r: array<Byte>, t: nat, piece: seq<Byte>, ghost rest: seq<Byte>, ghost out: seq<Byte>) returns (t': nat)
    requires Written(r[..], t, piece + rest, out) && |out| <= r.Length
    modifies r
    ensures Written(r[..], t', rest, out)
  {
    ghost var before := r[..t];
    Write(r, t, piece);
    t' := t + |piece|;
    assert before + piece + rest == out;
  }

  // ---------- the forms ----------

  /** Which values are characters: no surrogates, nothing behind the last plane, and no noncharacters. */
  lemma ScalarMeans(g: nat)
    ensures Scalar(g) <==>
      && (g < 0xD800 || 0xE000 <= g < 0xFDD0 || 0xFDF0 <= g < 0x110000)
      && forall plane :: 0 <= plane <= 16 ==> g != plane * 0x10000 + 0xFFFE && g != plane * 0x10000 + 0xFFFF
  {
    var plane := g / 0x10000;
    assert g == plane * 0x10000 + g % 0x10000;
  }

  /** The cent sign, the euro sign, a character behind the first plane; and what is refused. */
  lemma Samples()
    ensures Encode(0x24) == [0x24] && Encode(0xA2) == [0xC2, 0xA2]
    ensures Encode(0x20AC) == [0xE2, 0x82, 0xAC] && Encode(0x1F600) == [0xF0, 0x9F, 0x98, 0x80]
    ensures From16([0xD83D, 0xDE00]) == [0x1F600] && From16([0x20AC]) == [0x20AC]
    ensures Escape([0xC0]) == [0xEF, 0xBF, 0xBD]
  {
    var ws: seq<Unit> := [0xD83D, 0xDE00];
    assert ws[2..] == [] && [0x20AC][1..] == [];
    OneBad();
  }

  lemma OneBad()
    ensures Escape([0xC0]) == [0xEF, 0xBF, 0xBD]
  {
    var s: seq<Byte> := [0xC0];
    assert s[1..] == [] && At(s, 1) == 0;
  }

  /** The bytes of a unit: the low one comes first. */
  lemma {:induction false} UnitsAre(s: seq<Byte>, i: nat)
    requires Even(|s|) && 2 * i + 1 < |s|
    ensures Units(s)[i] == (s[2 * i] as int) + 256 * (s[2 * i + 1] as int)
  {
    if i > 0 { UnitsAre(s[2..], i - 1); }
  }
}
