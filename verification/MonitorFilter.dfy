/** Compiling the lists of a monitor into a socket filter. */
module MonitorFilter {
  // The program compiled from the subsystem and tag lists, the header that a sender
  // puts before a device, and the plain meaning of the lists.

  import opened SocketFilter

  datatype Option<T> = None | Some(value: T)

  /** An entry of the subsystem list. */
  datatype SubsystemMatch = SubsystemMatch(subsystem: string, devtype: Option<string>)

  datatype Device = Device(subsystem: string, devtype: Option<string>, tags: seq<string>)

  /** MurmurHash2 of a string, of which nothing but its being a function matters. */
  type Hash = string -> bv32

  // Offsets of the header fields.
  const MAGIC_OFF: nat := 8
  const SUBSYSTEM_OFF: nat := 24
  const DEVTYPE_OFF: nat := 28
  const BLOOM_HI_OFF: nat := 32
  const BLOOM_LO_OFF: nat := 36

  const MAGIC: bv32 := 0xfeed_cafe
  const INS_MAX: nat := 512

  // ---------- bloom bits ----------

  /** The lowest six bits. */
  function Low(n: bv32): bv32 { n & 63 }

  function Down(h: bv32, n: bv32): bv32
    requires n <= 32
  {
    h >> n
  }

  function Bit(n: bv32): bv64 { (1 as bv64) << Low(n) }

  function Union(a: bv64, b: bv64): bv64 { a | b }

  function FourBits(a: bv32, b: bv32, c: bv32, d: bv32): bv64 {
    Union(Union(Union(Bit(a), Bit(b)), Bit(c)), Bit(d))
  }

  /** Four bits picked by the hash. */
  function Bloom(hash: Hash, s: string): bv64 {
    var h := hash(s);
    FourBits(h, Down(h, 6), Down(h, 12), Down(h, 18))
  }

  function BloomOf(hash: Hash, tags: seq<string>): bv64 {
    if tags == [] then 0 else Union(BloomOf(hash, tags[..|tags| - 1]), Bloom(hash, tags[|tags| - 1]))
  }

  function Hi(b: bv64): bv32 { ((b >> 32) & 0xffff_ffff) as bv32 }

  function Lo(b: bv64): bv32 { (b & 0xffff_ffff) as bv32 }

  /** All bits of `t` are in `b`. */
  predicate Covers(b: bv64, t: bv64) { b & t == t }

  predicate CoversHi(b: bv64, t: bv64) { Mask(Hi(b), Hi(t)) == Hi(t) }

  predicate CoversLo(b: bv64, t: bv64) { Mask(Lo(b), Lo(t)) == Lo(t) }

  lemma HalvesCover(b: bv64, t: bv64)
    ensures Covers(b, t) <==> CoversHi(b, t) && CoversLo(b, t)
  {
    hide Hi, Lo, Covers, CoversHi, CoversLo;
    if Covers(b, t) { CoverHalves(b, t); }
    if CoversHi(b, t) && CoversLo(b, t) { CoverWhole(b, t); }
  }

  lemma CoverHalves(b: bv64, t: bv64)
    requires Covers(b, t)
    ensures CoversHi(b, t) && CoversLo(b, t)
  {
  }

  lemma CoverWhole(b: bv64, t: bv64)
    requires CoversHi(b, t) && CoversLo(b, t)
    ensures Covers(b, t)
  {
  }

  lemma CoversOr(a: bv64, b: bv64, t: bv64)
    ensures Covers(a, t) ==> Covers(Union(a, b), t) && Covers(Union(b, a), t)
  {
  }

  lemma CoversTransitive(a: bv64, b: bv64, c: bv64)
    requires Covers(a, b)
    ensures Covers(b, c) ==> Covers(a, c)
    ensures CoversLo(b, c) ==> CoversLo(a, c)
  {
  }

  lemma CoversSelf(b: bv64)
    ensures Covers(b, b)
  {
  }

  lemma {:induction false} BloomCovers(hash: Hash, tags: seq<string>, i: nat)
    requires i < |tags|
    ensures Covers(BloomOf(hash, tags), Bloom(hash, tags[i]))
  {
    hide Bloom, Covers, Union;
    var n := |tags| - 1;
    var rest, last := BloomOf(hash, tags[..n]), Bloom(hash, tags[n]);
    if i < n {
      BloomCovers(hash, tags[..n], i);
      CoversOr(rest, last, Bloom(hash, tags[i]));
    } else {
      CoversSelf(last);
      CoversOr(last, rest, last);
    }
  }

  predicate IsSet(b: bv64, m: bv64) { b & m != 0 }

  lemma IsSetIs(b: bv64, k: bv32)
    requires k < 64
    ensures IsSet(b, Bit(k)) <==> (b >> k) & 1 == 1
  {
  }

  lemma BitIs(n: bv32, k: bv32)
    requires k < 64
    ensures IsSet(Bit(n), Bit(k)) <==> Low(n) == k
  {
  }

  lemma OrSet(a: bv64, b: bv64, m: bv64)
    ensures IsSet(Union(a, b), m) <==> IsSet(a, m) || IsSet(b, m)
  {
    hide IsSet, Union;
    if IsSet(a, m) { PartSet(a, b, m); }
    if IsSet(b, m) { PartSet(b, a, m); }
    if !IsSet(a, m) && !IsSet(b, m) { NeitherSet(a, b, m); }
  }

  lemma PartSet(a: bv64, b: bv64, m: bv64)
    requires IsSet(a, m)
    ensures IsSet(Union(a, b), m) && IsSet(Union(b, a), m)
  {
  }

  lemma NeitherSet(a: bv64, b: bv64, m: bv64)
    requires !IsSet(a, m) && !IsSet(b, m)
    ensures !IsSet(Union(a, b), m)
  {
  }

  lemma FourSet(a: bv32, b: bv32, c: bv32, d: bv32, k: bv32)
    requires k < 64
    ensures IsSet(FourBits(a, b, c, d), Bit(k)) <==> k in [Low(a), Low(b), Low(c), Low(d)]
  {
    hide Bit, IsSet, Union, Low;
    BitIs(a, k);
    BitIs(b, k);
    BitIs(c, k);
    BitIs(d, k);
    OrSet(Bit(a), Bit(b), Bit(k));
    OrSet(Union(Bit(a), Bit(b)), Bit(c), Bit(k));
    OrSet(Union(Union(Bit(a), Bit(b)), Bit(c)), Bit(d), Bit(k));
  }

  lemma CoversBit(b: bv64, n: bv32)
    ensures Covers(b, Bit(n)) <==> IsSet(b, Bit(n))
  {
  }

  lemma CoversParts(b: bv64, x: bv64, y: bv64)
    requires Covers(b, Union(x, y))
    ensures Covers(b, x) && Covers(b, y)
  {
  }

  lemma CoversBoth(b: bv64, x: bv64, y: bv64)
    requires Covers(b, x) && Covers(b, y)
    ensures Covers(b, Union(x, y))
  {
  }

  /** The four fields of six bits at the bottom of a hash. */
  function Fields(h: bv32): seq<bv32> { [Low(h), Low(Down(h, 6)), Low(Down(h, 12)), Low(Down(h, 18))] }

  lemma BloomSet(hash: Hash, s: string, k: bv32)
    requires k < 64
    ensures IsSet(Bloom(hash, s), Bit(k)) <==> k in Fields(hash(s))
  {
    hide Bit, IsSet, FourBits, Low, Down;
    var h := hash(s);
    FourSet(h, Down(h, 6), Down(h, 12), Down(h, 18), k);
  }

  lemma {:induction false} BloomOfSet(hash: Hash, tags: seq<string>, k: bv32)
    requires k < 64
    ensures IsSet(BloomOf(hash, tags), Bit(k)) <==> exists i :: 0 <= i < |tags| && k in Fields(hash(tags[i]))
  {
    hide Bloom, IsSet, Union, Fields, Bit;
    if tags == [] {
      NoneSet(Bit(k));
    } else {
      var n := |tags| - 1;
      var init := tags[..n];
      BloomOfSet(hash, init, k);
      BloomSet(hash, tags[n], k);
      OrSet(BloomOf(hash, init), Bloom(hash, tags[n]), Bit(k));
      assert forall i :: 0 <= i < n ==> init[i] == tags[i];
    }
  }

  lemma NoneSet(m: bv64)
    ensures !IsSet(0, m)
  {
  }

  /** The fields, with their shifts and masks. */
  lemma FieldsAre(h: bv32, k: bv32)
    ensures k in Fields(h) <==> k in [h & 63, (h >> 6) & 63, (h >> 12) & 63, (h >> 18) & 63]
  {
  }

  /** The bloom of a device has exactly the bits that a field of six bits in the hash of some tag names. */
  lemma BloomBits(hash: Hash, tags: seq<string>, k: bv32)
    requires k < 64
    ensures (BloomOf(hash, tags) >> k) & 1 == 1 <==> exists i :: 0 <= i < |tags| && k in Fields(hash(tags[i]))
  {
    hide BloomOf, IsSet, Bit, Fields, Low, Down;
    BloomOfSet(hash, tags, k);
    IsSetIs(BloomOf(hash, tags), k);
  }

  lemma CoversFour(b: bv64, x: bv32, y: bv32, z: bv32, w: bv32)
    ensures Covers(b, FourBits(x, y, z, w)) <==>
      IsSet(b, Bit(x)) && IsSet(b, Bit(y)) && IsSet(b, Bit(z)) && IsSet(b, Bit(w))
  {
    hide Bit, IsSet, Union, Covers, Low;
    CoversBit(b, x);
    CoversBit(b, y);
    CoversBit(b, z);
    CoversBit(b, w);
    CoversUnion(b, Bit(x), Bit(y));
    CoversUnion(b, Union(Bit(x), Bit(y)), Bit(z));
    CoversUnion(b, Union(Union(Bit(x), Bit(y)), Bit(z)), Bit(w));
  }

  lemma CoversUnion(b: bv64, x: bv64, y: bv64)
    ensures Covers(b, Union(x, y)) <==> Covers(b, x) && Covers(b, y)
  {
    hide Covers, Union;
    if Covers(b, Union(x, y)) { CoversParts(b, x, y); }
    if Covers(b, x) && Covers(b, y) { CoversBoth(b, x, y); }
  }

  lemma SameBit(n: bv32)
    ensures Bit(n) == Bit(Low(n))
  {
  }

  /** A bloom has all bits of a string when each field of its hash names one that is there. */
  lemma CoversFields(hash: Hash, s: string, b: bv64)
    ensures Covers(b, Bloom(hash, s)) <==> forall k :: k in Fields(hash(s)) ==> IsSet(b, Bit(k))
  {
    hide Bit, IsSet, FourBits, Covers, Low, Down;
    var h := hash(s);
    CoversFour(b, h, Down(h, 6), Down(h, 12), Down(h, 18));
    SameBit(h);
    SameBit(Down(h, 6));
    SameBit(Down(h, 12));
    SameBit(Down(h, 18));
    var fs := Fields(h);
    assert fs[0] in fs && fs[1] in fs && fs[2] in fs && fs[3] in fs;
  }

  // ---------- the program ----------

  /** The jump to the end of the tag block, in the byte that the instruction has for it. */
  function JumpByte(remaining: nat): nat { (1 + remaining * 6) % 256 }

  /** Matches one tag; `remaining` more follow. */
  function TagMatch(bits: bv64, remaining: nat): seq<Ins> {
    [LdAbs(BLOOM_HI_OFF), And(Hi(bits)), Jeq(Hi(bits), 0, 3),
     LdAbs(BLOOM_LO_OFF), And(Lo(bits)), Jeq(Lo(bits), JumpByte(remaining), 0)]
  }

  /** The first `i` tag matches out of those for `bits`. */
  function TagMatches(bits: seq<bv64>, i: nat): (r: seq<Ins>)
    requires i <= |bits|
    ensures |r| == 6 * i
  {
    if i == 0 then [] else TagMatches(bits, i - 1) + TagMatch(bits[i - 1], |bits| - i)
  }

  function BitsOf(hash: Hash, tags: seq<string>): (bits: seq<bv64>)
    ensures |bits| == |tags| && forall i :: 0 <= i < |tags| ==> bits[i] == Bloom(hash, tags[i])
  {
    seq(|tags|, i requires 0 <= i < |tags| => Bloom(hash, tags[i]))
  }

  function TagBlock(bits: seq<bv64>): seq<Ins> {
    if bits == [] then [] else TagMatches(bits, |bits|) + [Ret(DROP)]
  }

  function SubsystemEntry(hash: Hash, sub: SubsystemMatch): seq<Ins> {
    match sub.devtype
    case None => [LdAbs(SUBSYSTEM_OFF), Jeq(hash(sub.subsystem), 0, 1), Ret(PASS)]
    case Some(devtype) =>
      [LdAbs(SUBSYSTEM_OFF), Jeq(hash(sub.subsystem), 0, 3), LdAbs(DEVTYPE_OFF), Jeq(hash(devtype), 0, 1), Ret(PASS)]
  }

  function SubsystemEntries(hash: Hash, subs: seq<SubsystemMatch>): seq<Ins> {
    if subs == [] then []
    else SubsystemEntries(hash, subs[..|subs| - 1]) + SubsystemEntry(hash, subs[|subs| - 1])
  }

  function SubsystemBlock(hash: Hash, subs: seq<SubsystemMatch>): seq<Ins> {
    if subs == [] then [] else SubsystemEntries(hash, subs) + [Ret(DROP)]
  }

  const Prologue: seq<Ins> := [LdAbs(MAGIC_OFF), Jeq(MAGIC, 1, 0), Ret(PASS)]

  function Program(hash: Hash, subs: seq<SubsystemMatch>, tags: seq<string>): seq<Ins> {
    Prologue + TagBlock(BitsOf(hash, tags)) + SubsystemBlock(hash, subs) + [Ret(PASS)]
  }

  // ---------- what a run of the program does ----------

  /** The words that a sender puts into the header of a device. */
  function Header(hash: Hash, device: Device): Packet {
    var bloom := BloomOf(hash, device.tags);
    map[MAGIC_OFF := MAGIC,
        SUBSYSTEM_OFF := hash(device.subsystem),
        DEVTYPE_OFF := (match device.devtype case None => 0 case Some(d) => hash(d)),
        BLOOM_HI_OFF := Hi(bloom),
        BLOOM_LO_OFF := Lo(bloom)]
  }

  /** A packet with the magic number and the four filter words. */
  ghost predicate Tagged(packet: Packet, bloom: bv64) {
    && MAGIC_OFF in packet && packet[MAGIC_OFF] == MAGIC
    && SUBSYSTEM_OFF in packet && DEVTYPE_OFF in packet
    && BLOOM_HI_OFF in packet && packet[BLOOM_HI_OFF] == Hi(bloom)
    && BLOOM_LO_OFF in packet && packet[BLOOM_LO_OFF] == Lo(bloom)
  }

  ghost predicate At(prog: seq<Ins>, base: nat, block: seq<Ins>) {
    base + |block| <= |prog| && prog[base..base + |block|] == block
  }

  lemma AtIndex(prog: seq<Ins>, base: nat, block: seq<Ins>, k: nat)
    requires At(prog, base, block) && k < |block|
    ensures base + k < |prog| && prog[base + k] == block[k]
  {
    assert prog[base..base + |block|][k] == block[k];
  }

  lemma AtPart(prog: seq<Ins>, base: nat, a: seq<Ins>, b: seq<Ins>)
    requires At(prog, base, a + b)
    ensures At(prog, base, a) && At(prog, base + |a|, b)
  {
    var block := prog[base..base + |a + b|];
    assert prog[base..base + |a|] == block[..|a|] == a;
    assert prog[base + |a|..base + |a| + |b|] == block[|a|..] == b;
  }

  lemma {:induction false} TagMatchAt(prog: seq<Ins>, base: nat, bits: seq<bv64>, n: nat, j: nat)
    requires j < n <= |bits| && At(prog, base, TagMatches(bits, n))
    ensures At(prog, base + 6 * j, TagMatch(bits[j], |bits| - 1 - j))
  {
    AtPart(prog, base, TagMatches(bits, n - 1), TagMatch(bits[n - 1], |bits| - n));
    if j < n - 1 { TagMatchAt(prog, base, bits, n - 1, j); }
  }

  /**
    Tags from here on reach the end of the block with their jump; the jump of an
    earlier tag wraps around its byte and lands in the middle of this tag's match.
    */
  function Cut(n: nat): nat { if n <= 43 then 0 else n - 43 }

  /** What the tag block decides from its `i`-th match on, with jumps as the bytes hold them. */
  predicate AcceptedFrom(bits: seq<bv64>, i: nat, bloom: bv64)
    decreases |bits| - i
  {
    if i >= |bits| then false
    else if !Covers(bloom, bits[i]) then AcceptedFrom(bits, i + 1, bloom)
    else if i >= Cut(|bits|) then true
    else CoversLo(bloom, bits[Cut(|bits|)]) || AcceptedFrom(bits, Cut(|bits|) + 1, bloom)
  }

  /** The second half of the `j`-th match: to the end of the block, or on to the next match. */
  lemma LoHalf(prog: seq<Ins>, packet: Packet, base: nat, bits: seq<bv64>, bloom: bv64, j: nat, acc: bv32)
    returns (lo: bv32)
    requires Tagged(packet, bloom) && j < |bits| && At(prog, base, TagMatches(bits, |bits|))
    ensures Exec(prog, packet, base + 6 * j + 3, acc)
            == Exec(prog, packet,
                    base + 6 * j + 6 + (if CoversLo(bloom, bits[j]) then JumpByte(|bits| - 1 - j) else 0), lo)
  {
    hide Hi, Lo, Mask, JumpByte;
    TagMatchAt(prog, base, bits, |bits|, j);
    var block, pc := TagMatch(bits[j], |bits| - 1 - j), base + 6 * j;
    AtIndex(prog, pc, block, 3);
    AtIndex(prog, pc, block, 4);
    AtIndex(prog, pc, block, 5);
    lo := Mask(Lo(bloom), Lo(bits[j]));
    assert Exec(prog, packet, pc + 4, Lo(bloom)) == Exec(prog, packet, pc + 5, lo);
  }

  /** The first half of the `j`-th match: on to the second half, or to the next match. */
  lemma HiHalf(prog: seq<Ins>, packet: Packet, base: nat, bits: seq<bv64>, bloom: bv64, j: nat, acc: bv32)
    returns (hi: bv32)
    requires Tagged(packet, bloom) && j < |bits| && At(prog, base, TagMatches(bits, |bits|))
    ensures Exec(prog, packet, base + 6 * j, acc)
            == Exec(prog, packet, base + 6 * j + (if CoversHi(bloom, bits[j]) then 3 else 6), hi)
  {
    hide Hi, Lo, Mask, JumpByte;
    TagMatchAt(prog, base, bits, |bits|, j);
    var block, pc := TagMatch(bits[j], |bits| - 1 - j), base + 6 * j;
    AtIndex(prog, pc, block, 0);
    AtIndex(prog, pc, block, 1);
    AtIndex(prog, pc, block, 2);
    hi := Mask(Hi(bloom), Hi(bits[j]));
    assert Exec(prog, packet, pc + 1, Hi(bloom)) == Exec(prog, packet, pc + 2, hi);
  }

  /** Whatever the accumulator, the program decides `rest` from instruction `pc` on. */
  ghost predicate Decides(prog: seq<Ins>, packet: Packet, pc: nat, rest: Outcome) {
    forall acc :: Exec(prog, packet, pc, acc) == rest
  }

  /** Where the jump of a matching tag lands. */
  lemma JumpLands(n: nat, i: nat)
    requires i < n <= 84
    ensures 6 * i + 6 + JumpByte(n - 1 - i) == if i >= Cut(n) then 6 * n + 1 else 6 * Cut(n) + 3
  {
  }

  /** The tag block decides as `AcceptedFrom` says: on to the rest of the program, or drop. */
  lemma {:induction false} TagsExec(prog: seq<Ins>, packet: Packet, base: nat, bits: seq<bv64>, bloom: bv64,
                                    rest: Outcome, i: nat, acc: bv32)
    requires Tagged(packet, bloom) && i <= |bits| <= 84
    requires At(prog, base, TagMatches(bits, |bits|)) && At(prog, base + 6 * |bits|, [Ret(DROP)])
    requires Decides(prog, packet, base + 6 * |bits| + 1, rest)
    ensures Exec(prog, packet, base + 6 * i, acc)
            == if AcceptedFrom(bits, i, bloom) then rest else Returned(DROP)
    decreases |bits| - i
  {
    hide Covers, CoversHi, CoversLo, JumpByte, Exec, TagMatches;
    if i == |bits| {
      Returns(prog, packet, base + 6 * i, acc, DROP);
    } else {
      HalvesCover(bloom, bits[i]);
      var hi := HiHalf(prog, packet, base, bits, bloom, i, acc);
      if !CoversHi(bloom, bits[i]) {
        TagsExec(prog, packet, base, bits, bloom, rest, i + 1, hi);
      } else {
        var lo := LoHalf(prog, packet, base, bits, bloom, i, hi);
        if !CoversLo(bloom, bits[i]) {
          TagsExec(prog, packet, base, bits, bloom, rest, i + 1, lo);
        } else {
          JumpLands(|bits|, i);
          if i < Cut(|bits|) { TagsMid(prog, packet, base, bits, bloom, rest, i, lo); }
        }
      }
    }
  }

  lemma Returns(prog: seq<Ins>, packet: Packet, pc: nat, acc: bv32, k: bv32)
    requires At(prog, pc, [Ret(k)])
    ensures Exec(prog, packet, pc, acc) == Returned(k)
  {
    AtIndex(prog, pc, [Ret(k)], 0);
  }

  /** A wrapped jump lands behind the first half of the match at the cut. */
  lemma {:induction false} TagsMid(prog: seq<Ins>, packet: Packet, base: nat, bits: seq<bv64>, bloom: bv64,
                                   rest: Outcome, i: nat, acc: bv32)
    requires Tagged(packet, bloom) && i < Cut(|bits|) && |bits| <= 84
    requires At(prog, base, TagMatches(bits, |bits|)) && At(prog, base + 6 * |bits|, [Ret(DROP)])
    requires Decides(prog, packet, base + 6 * |bits| + 1, rest)
    ensures var cut := Cut(|bits|);
            Exec(prog, packet, base + 6 * cut + 3, acc)
            == if CoversLo(bloom, bits[cut]) || AcceptedFrom(bits, cut + 1, bloom) then rest else Returned(DROP)
    decreases |bits| - i - 1, 1
  {
    hide Covers, CoversHi, CoversLo, JumpByte;
    var cut := Cut(|bits|);
    var lo := LoHalf(prog, packet, base, bits, bloom, cut, acc);
    JumpLands(|bits|, cut);
    if !CoversLo(bloom, bits[cut]) {
      TagsExec(prog, packet, base, bits, bloom, rest, cut + 1, lo);
    }
  }

  // ---------- the subsystem block ----------

  /** A subsystem entry matches the hashes in a packet. */
  predicate EntryMatches(hash: Hash, sub: SubsystemMatch, packet: Packet)
    requires SUBSYSTEM_OFF in packet && DEVTYPE_OFF in packet
  {
    && packet[SUBSYSTEM_OFF] == hash(sub.subsystem)
    && (sub.devtype.Some? ==> packet[DEVTYPE_OFF] == hash(sub.devtype.value))
  }

  predicate SubsystemMatches(hash: Hash, subs: seq<SubsystemMatch>, packet: Packet)
    requires SUBSYSTEM_OFF in packet && DEVTYPE_OFF in packet
  {
    exists i :: 0 <= i < |subs| && EntryMatches(hash, subs[i], packet)
  }

  lemma EntryExec(prog: seq<Ins>, packet: Packet, base: nat, hash: Hash, sub: SubsystemMatch, acc: bv32)
    returns (acc': bv32)
    requires SUBSYSTEM_OFF in packet && DEVTYPE_OFF in packet
    requires At(prog, base, SubsystemEntry(hash, sub))
    ensures Exec(prog, packet, base, acc)
            == if EntryMatches(hash, sub, packet) then Returned(PASS)
               else Exec(prog, packet, base + |SubsystemEntry(hash, sub)|, acc')
  {
    var block := SubsystemEntry(hash, sub);
    AtIndex(prog, base, block, 0);
    AtIndex(prog, base, block, 1);
    AtIndex(prog, base, block, 2);
    var sh, dh := packet[SUBSYSTEM_OFF], packet[DEVTYPE_OFF];
    acc' := sh;
    assert Exec(prog, packet, base, acc) == Exec(prog, packet, base + 1, sh);
    if sub.devtype.Some? {
      AtIndex(prog, base, block, 3);
      AtIndex(prog, base, block, 4);
      if sh == hash(sub.subsystem) {
        acc' := dh;
        assert Exec(prog, packet, base + 1, sh) == Exec(prog, packet, base + 2, sh);
        assert Exec(prog, packet, base + 2, sh) == Exec(prog, packet, base + 3, dh);
        assert Exec(prog, packet, base + 4, dh) == Returned(PASS);
        assert dh != hash(sub.devtype.value) ==> Exec(prog, packet, base + 3, dh) == Exec(prog, packet, base + 5, dh);
      } else {
        assert Exec(prog, packet, base + 1, sh) == Exec(prog, packet, base + 5, sh);
      }
    } else {
      assert Exec(prog, packet, base + 2, sh) == Returned(PASS);
      assert sh != hash(sub.subsystem) ==> Exec(prog, packet, base + 1, sh) == Exec(prog, packet, base + 3, sh);
    }
  }

  lemma {:induction false} EntriesExec(prog: seq<Ins>, packet: Packet, base: nat, hash: Hash,
                                       subs: seq<SubsystemMatch>, acc: bv32)
    returns (acc': bv32)
    requires SUBSYSTEM_OFF in packet && DEVTYPE_OFF in packet
    requires At(prog, base, SubsystemEntries(hash, subs))
    ensures Exec(prog, packet, base, acc)
            == if SubsystemMatches(hash, subs, packet) then Returned(PASS)
               else Exec(prog, packet, base + |SubsystemEntries(hash, subs)|, acc')
  {
    hide EntryMatches, Exec, SubsystemEntry, SubsystemMatches, At;
    if subs == [] {
      NoneMatches(hash, packet);
      return acc;
    }
    var n := |subs| - 1;
    var front, last := SubsystemEntries(hash, subs[..n]), SubsystemEntry(hash, subs[n]);
    AtPart(prog, base, front, last);
    var mid := EntriesExec(prog, packet, base, hash, subs[..n], acc);
    acc' := EntryExec(prog, packet, base + |front|, hash, subs[n], mid);
    MatchesStep(hash, subs, packet);
  }

  lemma NoneMatches(hash: Hash, packet: Packet)
    requires SUBSYSTEM_OFF in packet && DEVTYPE_OFF in packet
    ensures !SubsystemMatches(hash, [], packet)
  {
  }

  lemma MatchesStep(hash: Hash, subs: seq<SubsystemMatch>, packet: Packet)
    requires SUBSYSTEM_OFF in packet && DEVTYPE_OFF in packet && subs != []
    ensures var n := |subs| - 1;
            SubsystemMatches(hash, subs, packet)
            <==> SubsystemMatches(hash, subs[..n], packet) || EntryMatches(hash, subs[n], packet)
  {
    hide EntryMatches;
    var n := |subs| - 1;
    if SubsystemMatches(hash, subs[..n], packet) {
      var i :| 0 <= i < n && EntryMatches(hash, subs[..n][i], packet);
      assert EntryMatches(hash, subs[i], packet);
    }
    if SubsystemMatches(hash, subs, packet) {
      var i :| 0 <= i < |subs| && EntryMatches(hash, subs[i], packet);
      assert i < n ==> subs[..n][i] == subs[i];
    }
  }

  // ---------- the whole program ----------

  /** What the compiled tag list says about the bloom bits of a packet. */
  predicate TagsAccept(bits: seq<bv64>, bloom: bv64) { bits == [] || AcceptedFrom(bits, 0, bloom) }

  predicate SubsystemsAccept(hash: Hash, subs: seq<SubsystemMatch>, packet: Packet)
    requires SUBSYSTEM_OFF in packet && DEVTYPE_OFF in packet
  {
    subs == [] || SubsystemMatches(hash, subs, packet)
  }

  lemma SubsystemsExec(prog: seq<Ins>, packet: Packet, base: nat, hash: Hash, subs: seq<SubsystemMatch>)
    requires SUBSYSTEM_OFF in packet && DEVTYPE_OFF in packet
    requires At(prog, base, SubsystemBlock(hash, subs) + [Ret(PASS)])
    ensures Decides(prog, packet, base, Returned(if SubsystemsAccept(hash, subs, packet) then PASS else DROP))
  {
    AtPart(prog, base, SubsystemBlock(hash, subs), [Ret(PASS)]);
    if subs == [] {
      AtIndex(prog, base, [Ret(PASS)], 0);
    } else {
      var entries := SubsystemEntries(hash, subs);
      AtPart(prog, base, entries, [Ret(DROP)]);
      AtIndex(prog, base + |entries|, [Ret(DROP)], 0);
      forall acc ensures Exec(prog, packet, base, acc)
                         == Returned(if SubsystemsAccept(hash, subs, packet) then PASS else DROP)
      {
        var acc' := EntriesExec(prog, packet, base, hash, subs, acc);
      }
    }
  }

  /**
    The compiled program passes a packet with the right magic number exactly when the
    compiled tag list accepts its bloom bits and the subsystem list its hashes.  Every
    run returns.
    */
  lemma ProgramCorrect(hash: Hash, subs: seq<SubsystemMatch>, tags: seq<string>, packet: Packet, bloom: bv64)
    requires Tagged(packet, bloom) && |tags| <= 84
    ensures Exec(Program(hash, subs, tags), packet, 0, 0)
            == Returned(if TagsAccept(BitsOf(hash, tags), bloom) && SubsystemsAccept(hash, subs, packet)
                        then PASS else DROP)
  {
    hide Exec, AcceptedFrom, SubsystemsAccept, SubsystemBlock, TagMatches;
    var prog, bits := Program(hash, subs, tags), BitsOf(hash, tags);
    var tail := SubsystemBlock(hash, subs) + [Ret(PASS)];
    assert prog == Prologue + (TagBlock(bits) + tail) && prog[0..|prog|] == prog;
    AtPart(prog, 0, Prologue, TagBlock(bits) + tail);
    AtPart(prog, 3, TagBlock(bits), tail);
    var base := 3 + |TagBlock(bits)|;
    SubsystemsExec(prog, packet, base, hash, subs);
    var rest := Returned(if SubsystemsAccept(hash, subs, packet) then PASS else DROP);
    if bits != [] {
      AtPart(prog, 3, TagMatches(bits, |bits|), [Ret(DROP)]);
      TagsExec(prog, packet, 3, bits, bloom, rest, 0, MAGIC);
    }
    PrologueExec(prog, packet, bloom);
  }

  lemma PrologueExec(prog: seq<Ins>, packet: Packet, bloom: bv64)
    requires Tagged(packet, bloom) && At(prog, 0, Prologue)
    ensures Exec(prog, packet, 0, 0) == Exec(prog, packet, 3, MAGIC)
  {
    AtIndex(prog, 0, Prologue, 0);
    AtIndex(prog, 0, Prologue, 1);
    assert Exec(prog, packet, 1, MAGIC) == Exec(prog, packet, 3, MAGIC);
  }

  /** A packet of another protocol is passed, whatever the lists say. */
  lemma OtherMagicPasses(hash: Hash, subs: seq<SubsystemMatch>, tags: seq<string>, packet: Packet)
    requires MAGIC_OFF in packet && packet[MAGIC_OFF] != MAGIC
    ensures Exec(Program(hash, subs, tags), packet, 0, 0) == Returned(PASS)
  {
    var prog := Program(hash, subs, tags);
    assert prog[0] == Prologue[0] && prog[1] == Prologue[1] && prog[2] == Prologue[2];
    assert Exec(prog, packet, 1, packet[MAGIC_OFF]) == Exec(prog, packet, 2, packet[MAGIC_OFF]);
  }

  // ---------- what the tag list means ----------

  /** Some tag from the `i`-th on, and before the `n`-th, has all its bits in `bloom`. */
  ghost predicate SomeCovered(bits: seq<bv64>, i: nat, n: nat, bloom: bv64)
    requires n <= |bits|
  {
    exists j :: i <= j < n && Covers(bloom, bits[j])
  }

  /** No tag list, or some tag of it has all its bits in `bloom`. */
  ghost predicate TagsMean(bits: seq<bv64>, bloom: bv64) { bits == [] || SomeCovered(bits, 0, |bits|, bloom) }

  lemma SomeCoveredStep(bits: seq<bv64>, i: nat, n: nat, bloom: bv64)
    requires i < n <= |bits|
    ensures SomeCovered(bits, i, n, bloom) <==> Covers(bloom, bits[i]) || SomeCovered(bits, i + 1, n, bloom)
  {
    hide Covers;
  }

  lemma {:induction false} AcceptedAfterCut(bits: seq<bv64>, i: nat, bloom: bv64)
    requires Cut(|bits|) <= i <= |bits|
    ensures AcceptedFrom(bits, i, bloom) <==> SomeCovered(bits, i, |bits|, bloom)
    decreases |bits| - i
  {
    hide Covers, CoversLo;
    if i < |bits| {
      SomeCoveredStep(bits, i, |bits|, bloom);
      AcceptedAfterCut(bits, i + 1, bloom);
    }
  }

  /** Before the cut a matching tag counts only if the tag at the cut matches in its lower half, or a later one does. */
  lemma {:induction false} AcceptedBeforeCut(bits: seq<bv64>, i: nat, bloom: bv64)
    requires i <= Cut(|bits|) && 0 < |bits|
    ensures var cut := Cut(|bits|);
            AcceptedFrom(bits, i, bloom) <==>
            || SomeCovered(bits, cut, |bits|, bloom)
            || (SomeCovered(bits, i, cut, bloom) && CoversLo(bloom, bits[cut]))
    decreases |bits| - i
  {
    var cut := Cut(|bits|);
    HalvesCover(bloom, bits[cut]);
    hide Covers, CoversLo, CoversHi;
    if i == cut {
      AcceptedAfterCut(bits, cut, bloom);
    } else {
      AcceptedAfterCut(bits, cut + 1, bloom);
      SomeCoveredStep(bits, cut, |bits|, bloom);
      SomeCoveredStep(bits, i, cut, bloom);
      AcceptedBeforeCut(bits, i + 1, bloom);
    }
  }

  /** Every tag whose jump wraps around is backed by a tag that the wrapped jump still finds. */
  ghost predicate WrapHarmless(bits: seq<bv64>) {
    var cut := Cut(|bits|);
    forall i :: 0 <= i < cut ==> CoversLo(bits[i], bits[cut]) || SomeCovered(bits, cut, |bits|, bits[i])
  }

  lemma WrapHarmlessSuffices(bits: seq<bv64>, bloom: bv64)
    requires WrapHarmless(bits)
    ensures TagsAccept(bits, bloom) <==> TagsMean(bits, bloom)
  {
    hide Covers, CoversLo;
    if bits != [] {
      var cut := Cut(|bits|);
      AcceptedBeforeCut(bits, 0, bloom);
      if SomeCovered(bits, 0, cut, bloom) {
        var i :| 0 <= i < cut && Covers(bloom, bits[i]);
        CoversTransitive(bloom, bits[i], bits[cut]);
        if SomeCovered(bits, cut, |bits|, bits[i]) {
          var j :| cut <= j < |bits| && Covers(bits[i], bits[j]);
          CoversTransitive(bloom, bits[i], bits[j]);
        }
      }
    }
  }

  lemma WrapHarmlessNeeded(bits: seq<bv64>, i: nat)
    requires i < Cut(|bits|) && TagsAccept(bits, bits[i]) == TagsMean(bits, bits[i])
    ensures CoversLo(bits[i], bits[Cut(|bits|)]) || SomeCovered(bits, Cut(|bits|), |bits|, bits[i])
  {
    CoversSelf(bits[i]);
    hide Covers, CoversLo;
    AcceptedBeforeCut(bits, 0, bits[i]);
  }

  /**
    The compiled tag list means what it should, for every packet, exactly when no
    wrapped jump does harm; in particular for up to 43 tags.
    */
  lemma TagListExact(bits: seq<bv64>)
    ensures (forall bloom :: TagsAccept(bits, bloom) == TagsMean(bits, bloom)) <==> WrapHarmless(bits)
    ensures |bits| <= 43 ==> WrapHarmless(bits)
  {
    if WrapHarmless(bits) {
      forall bloom ensures TagsAccept(bits, bloom) == TagsMean(bits, bloom) { WrapHarmlessSuffices(bits, bloom); }
    }
    if forall bloom :: TagsAccept(bits, bloom) == TagsMean(bits, bloom) {
      var cut := Cut(|bits|);
      forall i | 0 <= i < cut ensures CoversLo(bits[i], bits[cut]) || SomeCovered(bits, cut, |bits|, bits[i]) {
        WrapHarmlessNeeded(bits, i);
      }
    }
  }

  // ---------- which devices pass ----------

  predicate SubsystemPasses(sub: SubsystemMatch, device: Device) {
    sub.subsystem == device.subsystem && (sub.devtype == None || sub.devtype == device.devtype)
  }

  /** The plain meaning of a monitor's lists. */
  ghost predicate Passes(subs: seq<SubsystemMatch>, tags: seq<string>, device: Device) {
    && (subs == [] || exists i :: 0 <= i < |subs| && SubsystemPasses(subs[i], device))
    && (tags == [] || exists i :: 0 <= i < |tags| && tags[i] in device.tags)
  }

  lemma HeaderTagged(hash: Hash, device: Device)
    ensures Tagged(Header(hash, device), BloomOf(hash, device.tags))
  {
  }

  /**
    With up to 43 tags a device passes the program exactly when each field of the hash of
    some listed tag is a field of the hash of some tag of the device, and the subsystem and
    devtype of some entry have the hashes of the device.
    */
  lemma ProgramPasses(hash: Hash, subs: seq<SubsystemMatch>, tags: seq<string>, device: Device)
    requires |tags| <= 43
    ensures Exec(Program(hash, subs, tags), Header(hash, device), 0, 0) == Returned(0xffff_ffff) <==>
      && (tags == [] || exists i :: 0 <= i < |tags| && AllFieldsIn(hash, tags[i], device.tags))
      && (subs == [] || exists i :: 0 <= i < |subs| && hash(subs[i].subsystem) == hash(device.subsystem)
                                    && (subs[i].devtype.Some? ==>
                                          hash(subs[i].devtype.value)
                                          == if device.devtype.Some? then hash(device.devtype.value) else 0))
  {
    hide Covers, Exec, Bloom, BloomOf, Program, AllFieldsIn;
    var packet, bloom, bits := Header(hash, device), BloomOf(hash, device.tags), BitsOf(hash, tags);
    HeaderTagged(hash, device);
    ProgramCorrect(hash, subs, tags, packet, bloom);
    TagListExact(bits);
    WrapHarmlessSuffices(bits, bloom);
    forall i | 0 <= i < |tags| ensures Covers(bloom, bits[i]) <==> AllFieldsIn(hash, tags[i], device.tags) {
      CoversDevice(hash, tags[i], device.tags);
    }
    HashesMatch(hash, subs, device);
  }

  /** Each field of the hash of `s` is a field of the hash of one of `tags`. */
  ghost predicate AllFieldsIn(hash: Hash, s: string, tags: seq<string>) {
    forall k :: k in Fields(hash(s)) ==> exists j :: 0 <= j < |tags| && k in Fields(hash(tags[j]))
  }

  lemma CoversDevice(hash: Hash, s: string, tags: seq<string>)
    ensures Covers(BloomOf(hash, tags), Bloom(hash, s)) <==> AllFieldsIn(hash, s, tags)
  {
    hide Covers, Bloom, BloomOf, Fields, IsSet, Bit;
    CoversFields(hash, s, BloomOf(hash, tags));
    forall k | k in Fields(hash(s))
      ensures IsSet(BloomOf(hash, tags), Bit(k)) <==> exists j :: 0 <= j < |tags| && k in Fields(hash(tags[j]))
    {
      FieldSmall(hash(s), k);
      BloomOfSet(hash, tags, k);
    }
  }

  lemma FieldSmall(h: bv32, k: bv32)
    requires k in Fields(h)
    ensures k < 64
  {
    hide Down;
  }

  lemma HashesMatch(hash: Hash, subs: seq<SubsystemMatch>, device: Device)
    ensures SubsystemsAccept(hash, subs, Header(hash, device)) <==>
      (subs == [] || exists i :: 0 <= i < |subs| && hash(subs[i].subsystem) == hash(device.subsystem)
                                 && (subs[i].devtype.Some? ==>
                                       hash(subs[i].devtype.value)
                                       == if device.devtype.Some? then hash(device.devtype.value) else 0))
  {
    hide Hi, Lo, BloomOf;
  }

  /** A device that passes the lists passes the compiled program, if no wrapped jump does harm. */
  lemma PassesProgram(hash: Hash, subs: seq<SubsystemMatch>, tags: seq<string>, device: Device)
    requires Passes(subs, tags, device) && |tags| <= 84 && WrapHarmless(BitsOf(hash, tags))
    ensures Exec(Program(hash, subs, tags), Header(hash, device), 0, 0) == Returned(PASS)
  {
    hide Covers, Exec, Bloom;
    var packet, bloom, bits := Header(hash, device), BloomOf(hash, device.tags), BitsOf(hash, tags);
    HeaderTagged(hash, device);
    ProgramCorrect(hash, subs, tags, packet, bloom);
    WrapHarmlessSuffices(bits, bloom);
    if tags != [] {
      var i :| 0 <= i < |tags| && tags[i] in device.tags;
      var k :| 0 <= k < |device.tags| && device.tags[k] == tags[i];
      BloomCovers(hash, device.tags, k);
      assert Covers(bloom, bits[i]);
    }
    if subs != [] {
      var i :| 0 <= i < |subs| && SubsystemPasses(subs[i], device);
      assert EntryMatches(hash, subs[i], packet);
    }
  }

  /** A device that passes the lists with only the `i`-th tag. */
  function TaggedDevice(subs: seq<SubsystemMatch>, tags: seq<string>, i: nat): Device
    requires i < |tags|
  {
    if subs == [] then Device("", None, [tags[i]]) else Device(subs[0].subsystem, subs[0].devtype, [tags[i]])
  }

  lemma TaggedDevicePasses(hash: Hash, subs: seq<SubsystemMatch>, tags: seq<string>, i: nat)
    requires i < |tags|
    ensures var device := TaggedDevice(subs, tags, i);
      Passes(subs, tags, device) && BloomOf(hash, device.tags) == BitsOf(hash, tags)[i]
  {
    hide Bloom;
    var device := TaggedDevice(subs, tags, i);
    assert device.tags[0] == tags[i] && device.tags[..0] == [];
    assert subs != [] ==> SubsystemPasses(subs[0], device);
    UnionNothing(Bloom(hash, tags[i]));
  }

  lemma UnionNothing(b: bv64)
    ensures Union(0, b) == b
  {
  }

  /** With a harmful jump, the device that has only the tag of the jump is dropped. */
  lemma HarmfulDrops(hash: Hash, subs: seq<SubsystemMatch>, tags: seq<string>, i: nat)
    requires |tags| <= 84 && i < Cut(|tags|)
    requires var bits := BitsOf(hash, tags); !TagsAccept(bits, bits[i])
    ensures Exec(Program(hash, subs, tags), Header(hash, TaggedDevice(subs, tags, i)), 0, 0) == Returned(DROP)
  {
    hide Exec, Program, Header, Tagged, TagsAccept, SubsystemsAccept;
    var device := TaggedDevice(subs, tags, i);
    TaggedDevicePasses(hash, subs, tags, i);
    HeaderTagged(hash, device);
    ProgramCorrect(hash, subs, tags, Header(hash, device), BloomOf(hash, device.tags));
  }

  /** Every device that passes the lists passes the compiled program exactly when no wrapped jump does harm. */
  lemma NoFalseNegatives(hash: Hash, subs: seq<SubsystemMatch>, tags: seq<string>)
    requires |tags| <= 84
    ensures (forall device :: Passes(subs, tags, device) ==>
              Exec(Program(hash, subs, tags), Header(hash, device), 0, 0) == Returned(PASS))
            <==> WrapHarmless(BitsOf(hash, tags))
  {
    hide Exec, Program, Header, Passes, TagsAccept;
    var bits := BitsOf(hash, tags);
    if WrapHarmless(bits) {
      forall device | Passes(subs, tags, device)
        ensures Exec(Program(hash, subs, tags), Header(hash, device), 0, 0) == Returned(PASS)
      {
        PassesProgram(hash, subs, tags, device);
      }
    } else {
      var i := HarmfulJump(bits);
      TaggedDevicePasses(hash, subs, tags, i);
      HarmfulDrops(hash, subs, tags, i);
      assert Passes(subs, tags, TaggedDevice(subs, tags, i));
    }
  }

  lemma HarmfulJump(bits: seq<bv64>) returns (i: nat)
    requires !WrapHarmless(bits)
    ensures i < Cut(|bits|) && !TagsAccept(bits, bits[i])
  {
    hide Covers, CoversLo;
    var cut := Cut(|bits|);
    i :| 0 <= i < cut && !CoversLo(bits[i], bits[cut]) && !SomeCovered(bits, cut, |bits|, bits[i]);
    AcceptedBeforeCut(bits, 0, bits[i]);
  }

  // ---------- 44 tags ----------

  /** A list of `n` tags: "", "a", "aa", and so on. */
  function ManyTags(n: nat): seq<string> { seq(n, i requires 0 <= i => seq(i, _ => 'a')) }

  /** A hash that sends the empty string to bit 0 and every other string to bit 1. */
  function TwoBits(s: string): bv32 { if s == "" then 0 else 0x4_1041 }

  lemma TwoBlooms(s: string)
    ensures Bloom(TwoBits, s) == if s == "" then 1 else 2
  {
  }

  /** With 44 tags a device can pass the lists and be dropped by the program. */
  lemma WrappedJumpDrops()
    ensures var tags, device := ManyTags(44), Device("net", None, [""]);
            && Passes([], tags, device)
            && Exec(Program(TwoBits, [], tags), Header(TwoBits, device), 0, 0) == Returned(DROP)
  {
    var tags, device := ManyTags(44), Device("net", None, [""]);
    var bits, bloom := BitsOf(TwoBits, tags), BloomOf(TwoBits, device.tags);
    assert tags[0] == "";
    TwoBlooms("");
    assert bloom == 1 by { assert device.tags[..0] == []; }
    forall i | 0 <= i < 44 ensures bits[i] == if i == 0 then 1 else 2 {
      TwoBlooms(tags[i]);
      assert |tags[i]| == i;
    }
    HeaderTagged(TwoBits, device);
    ProgramCorrect(TwoBits, [], tags, Header(TwoBits, device), bloom);
    AcceptedBeforeCut(bits, 0, bloom);
    assert !CoversLo(1, 2) && !Covers(1, 2);
  }

  // ---------- the code ----------

  /** The read-only filter of a monitor. */
  method PassesFilter(subs: seq<SubsystemMatch>, tags: seq<string>, device: Device) returns (passes: bool)
    ensures passes == Passes(subs, tags, device)
    ensures passes <==>
      && (subs == [] || exists i :: 0 <= i < |subs| && subs[i].subsystem == device.subsystem
                                    && (subs[i].devtype == None || subs[i].devtype == device.devtype))
      && (tags == [] || exists i :: 0 <= i < |tags| && tags[i] in device.tags)
  {
    if |subs| > 0 {
      var i, found := 0, false;
      while i < |subs| && !found
        invariant i <= |subs|
        invariant !found ==> forall k :: 0 <= k < i ==> !SubsystemPasses(subs[k], device)
        invariant found ==> i < |subs| && SubsystemPasses(subs[i], device)
        decreases |subs| - i, !found
      {
        if subs[i].subsystem != device.subsystem {
          i := i + 1;
        } else if subs[i].devtype == None {
          found := true;
        } else if device.devtype == None {
          i := i + 1;
        } else if device.devtype.value == subs[i].devtype.value {
          found := true;
        } else {
          i := i + 1;
        }
      }
      if !found { return false; }
    }
    if |tags| == 0 { return true; }
    var i := 0;
    while i < |tags|
      invariant i <= |tags| && forall k :: 0 <= k < i ==> tags[k] !in device.tags
    {
      if tags[i] in device.tags { return true; }
      i := i + 1;
    }
    return false;
  }

  /** The upper and the lower half of a word, bit for bit. */
  lemma HalfBits(b: bv64, k: bv32)
    requires k < 32
    ensures (Hi(b) >> k) & 1 == 1 <==> (b >> (k + 32)) & 1 == 1
    ensures (Lo(b) >> k) & 1 == 1 <==> (b >> k) & 1 == 1
  {
  }

  /** The filter words of the header that a sender puts before a device. */
  method SendHeader(hash: Hash, device: Device) returns (header: Packet)
    ensures header.Keys == {8, 24, 28, 32, 36}
    ensures header[8] == 0xfeed_cafe && header[24] == hash(device.subsystem)
    ensures header[28] == if device.devtype.Some? then hash(device.devtype.value) else 0
    ensures header[32] == Hi(BloomOf(hash, device.tags)) && header[36] == Lo(BloomOf(hash, device.tags))
    ensures header == Header(hash, device)
  {
    hide Bloom, Hi, Lo, Union;
    var bits: bv64 := 0;
    var i := 0;
    while i < |device.tags|
      invariant i <= |device.tags| && bits == BloomOf(hash, device.tags[..i])
    {
      assert device.tags[..i + 1][..i] == device.tags[..i];
      bits := Union(bits, Bloom(hash, device.tags[i]));
      i := i + 1;
    }
    assert device.tags[..i] == device.tags;
    header := map[MAGIC_OFF := MAGIC, SUBSYSTEM_OFF := hash(device.subsystem),
                  DEVTYPE_OFF := if device.devtype.Some? then hash(device.devtype.value) else 0,
                  BLOOM_HI_OFF := Hi(bits), BLOOM_LO_OFF := Lo(bits)];
  }

  datatype Update = NoFilter | TooBig | Installed(prog: seq<Ins>)

  function EntryLength(sub: SubsystemMatch): nat { if sub.devtype == None then 3 else 5 }

  /** Writing the entries of `subs` from cursor `i` on stays inside the instruction array. */
  predicate EntriesFit(i: nat, subs: seq<SubsystemMatch>)
    decreases |subs|
  {
    subs != [] ==>
      var j := i + EntryLength(subs[0]);
      j <= INS_MAX && (j + 1 < INS_MAX ==> EntriesFit(j, subs[1..]))
  }

  function TagLength(tags: seq<string>): nat { if tags == [] then 0 else 6 * |tags| + 1 }

  predicate Fits(subs: seq<SubsystemMatch>, tags: seq<string>) {
    3 + TagLength(tags) + 1 <= INS_MAX && EntriesFit(3 + TagLength(tags), subs)
  }

  /** Appends instructions at the cursor. */
  method Emit(ins: array<Ins>, i: nat, block: seq<Ins>) returns (j: nat)
    requires i + |block| <= ins.Length
    modifies ins
    ensures j == i + |block| && ins[..j] == old(ins[..i]) + block
  {
    j := i;
    var k := 0;
    while k < |block|
      invariant k <= |block| && j == i + k
      invariant ins[..j] == old(ins[..i]) + block[..k]
    {
      ins[j] := block[k];
      assert ins[..j + 1] == ins[..j] + [block[k]];
      j, k := j + 1, k + 1;
    }
    assert block[..k] == block;
  }

  lemma NoMatches(bits: seq<bv64>)
    ensures TagMatches(bits, 0) == []
  {
  }

  lemma MatchesOn(bits: seq<bv64>, k: nat)
    requires k < |bits|
    ensures TagMatches(bits, k + 1) == TagMatches(bits, k) + TagMatch(bits[k], |bits| - 1 - k)
    ensures |TagMatch(bits[k], |bits| - 1 - k)| == 6
  {
    hide Hi, Lo;
  }

  method EmitTags(hash: Hash, tags: seq<string>, ins: array<Ins>, start: nat) returns (i: nat)
    requires start + 6 * |tags| <= ins.Length
    modifies ins
    ensures i == start + 6 * |tags|
    ensures ins[..i] == old(ins[..start]) + TagMatches(BitsOf(hash, tags), |tags|)
  {
    hide Bloom, BitsOf, TagMatch, TagMatches;
    ghost var front, bits := ins[..start], BitsOf(hash, tags);
    i := start;
    var k, remaining := 0, |tags|;
    NoMatches(bits);
    while k < |tags|
      invariant k <= |tags| && remaining == |tags| - k && i == start + 6 * k
      invariant ins[..i] == old(ins[..start]) + TagMatches(bits, k)
    {
      MatchesOn(bits, k);
      var tagBits := Bloom(hash, tags[k]);
      remaining := remaining - 1;
      i := Emit(ins, i, TagMatch(tagBits, remaining));
      Regroup(front, TagMatches(bits, k), TagMatch(tagBits, remaining));
      k := k + 1;
    }
  }

  /** Writes the subsystem entries; stops early when the array has no room for the epilogue. */
  method EmitSubsystems(hash: Hash, subs: seq<SubsystemMatch>, ins: array<Ins>, start: nat) returns (ok: bool, i: nat)
    requires ins.Length == INS_MAX && start <= ins.Length && EntriesFit(start, subs)
    modifies ins
    ensures ok ==> i == start + |SubsystemEntries(hash, subs)| <= ins.Length
    ensures ok && subs != [] ==> i + 2 <= ins.Length
    ensures ok ==> ins[..i] == old(ins[..start]) + SubsystemEntries(hash, subs)
    ensures !ok ==> start + |SubsystemEntries(hash, subs)| + 2 > INS_MAX
  {
    hide SubsystemEntries, SubsystemEntry, EntriesFit, EntryLength;
    i := start;
    var k := 0;
    NoEntries(hash);
    assert subs[..0] == [] && subs[0..] == subs;
    while k < |subs|
      invariant k <= |subs| && i == start + |SubsystemEntries(hash, subs[..k])| <= ins.Length
      invariant k > 0 ==> i + 2 <= ins.Length
      invariant EntriesFit(i, subs[k..])
      invariant ins[..i] == old(ins[..start]) + SubsystemEntries(hash, subs[..k])
    {
      EntriesOn(hash, subs, k);
      FitsOn(i, subs, k);
      i := Emit(ins, i, SubsystemEntry(hash, subs[k]));
      k := k + 1;
      if i + 1 >= ins.Length {
        EntriesGrow(hash, subs, k);
        return false, i;
      }
    }
    assert subs[..k] == subs;
    ok := true;
  }

  lemma NoEntries(hash: Hash)
    ensures SubsystemEntries(hash, []) == []
  {
  }

  lemma EntriesOn(hash: Hash, subs: seq<SubsystemMatch>, k: nat)
    requires k < |subs|
    ensures SubsystemEntries(hash, subs[..k + 1]) == SubsystemEntries(hash, subs[..k]) + SubsystemEntry(hash, subs[k])
    ensures |SubsystemEntry(hash, subs[k])| == EntryLength(subs[k])
  {
    assert subs[..k + 1][..k] == subs[..k];
  }

  lemma FitsOn(i: nat, subs: seq<SubsystemMatch>, k: nat)
    requires k < |subs| && EntriesFit(i, subs[k..])
    ensures var j := i + EntryLength(subs[k]);
      j <= INS_MAX && (j + 1 < INS_MAX ==> EntriesFit(j, subs[k + 1..]))
  {
    assert subs[k..][1..] == subs[k + 1..];
  }

  lemma {:induction false} EntriesGrow(hash: Hash, subs: seq<SubsystemMatch>, k: nat)
    requires k <= |subs|
    ensures |SubsystemEntries(hash, subs[..k])| <= |SubsystemEntries(hash, subs)|
    decreases |subs|
  {
    if k < |subs| {
      var front := subs[..|subs| - 1];
      assert front[..k] == subs[..k];
      EntriesGrow(hash, front, k);
    } else {
      assert subs[..k] == subs;
    }
  }

  /** Compiles the lists of a monitor into the program that is attached to its socket. */
  method FilterUpdate(hash: Hash, subs: seq<SubsystemMatch>, tags: seq<string>) returns (r: Update)
    requires Fits(subs, tags)
    ensures r.NoFilter? <==> subs == [] && tags == []
    ensures r.Installed? ==> r.prog == Program(hash, subs, tags)
    ensures r.TooBig? <==> |Program(hash, subs, tags)| > 512
  {
    if |subs| == 0 && |tags| == 0 { return NoFilter; }
    var ins := new Ins[INS_MAX](_ => Unset);
    var ok, i := EmitProgram(hash, subs, tags, ins);
    r := if ok then Installed(ins[..i]) else TooBig;
  }

  method EmitProgram(hash: Hash, subs: seq<SubsystemMatch>, tags: seq<string>, ins: array<Ins>)
    returns (ok: bool, i: nat)
    requires Fits(subs, tags) && ins.Length == INS_MAX
    modifies ins
    ensures ok <==> |Program(hash, subs, tags)| <= INS_MAX
    ensures ok ==> i <= INS_MAX && ins[..i] == Program(hash, subs, tags)
  {
    ghost var bits := BitsOf(hash, tags);
    hide Bloom, Hi, Lo, BitsOf, TagBlock, SubsystemBlock, EntriesFit;
    i := Emit(ins, 0, Prologue);
    assert ins[..i] == Prologue;
    i := EmitTagBlock(hash, tags, ins, i);
    assert ins[..i] == Prologue + TagBlock(bits);
    ok, i := EmitSubsystemBlock(hash, subs, ins, i);
    if ok { i := Emit(ins, i, [Ret(PASS)]); }
  }

  method EmitTagBlock(hash: Hash, tags: seq<string>, ins: array<Ins>, start: nat) returns (i: nat)
    requires start + TagLength(tags) <= ins.Length
    modifies ins
    ensures i == start + TagLength(tags) && |TagBlock(BitsOf(hash, tags))| == TagLength(tags)
    ensures ins[..i] == old(ins[..start]) + TagBlock(BitsOf(hash, tags))
  {
    hide BitsOf, TagMatches;
    ghost var front, bits := ins[..start], BitsOf(hash, tags);
    i := start;
    if |tags| > 0 {
      i := EmitTags(hash, tags, ins, i);
      i := Emit(ins, i, [Ret(DROP)]);
      Regroup(front, TagMatches(bits, |bits|), [Ret(DROP)]);
    }
  }

  lemma Regroup(a: seq<Ins>, b: seq<Ins>, c: seq<Ins>)
    ensures a + b + c == a + (b + c)
  {
  }

  method EmitSubsystemBlock(hash: Hash, subs: seq<SubsystemMatch>, ins: array<Ins>, start: nat)
    returns (ok: bool, i: nat)
    requires ins.Length == INS_MAX && start + 1 <= ins.Length && EntriesFit(start, subs)
    modifies ins
    ensures ok <==> start + |SubsystemBlock(hash, subs)| + 1 <= INS_MAX
    ensures ok ==>
              i == start + |SubsystemBlock(hash, subs)| && ins[..i] == old(ins[..start]) + SubsystemBlock(hash, subs)
  {
    ok, i := true, start;
    if |subs| > 0 {
      ok, i := EmitSubsystems(hash, subs, ins, i);
      if ok { i := Emit(ins, i, [Ret(DROP)]); }
    }
  }
}
