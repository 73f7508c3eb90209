/**
 * The CRC-32 that guards every frame (section 3.2.9 of IEEE 802.3). The datalink and transport layers
 * shift the register with a branch, the RPC layer with a mask; both loops are proved against the one
 * register function below, whose error-detection property is proved for whole byte strings.
 */
module Crc32 {
  import opened Bytes

  const POLYNOMIAL: bv32 := 0xedb8_8320
  const INITIAL: bv32 := 0xffff_ffff

  // ---- words and the numbers they stand for ------------------------------------------------

  function Pow2(k: nat): (p: nat)
    ensures p > 0
  {
    if k == 0 then 1 else 2 * Pow2(k - 1)
  }

  predicate Odd(w: bv32) { w & 1 == 1 }

  function Half(w: bv32): bv32 { w >> 1 }

  function Xor(x: bv32, y: bv32): bv32 { x ^ y }

  /** Shifts one binary digit in at the low end. */
  function PushBit(w: bv32, one: bool): bv32 {
    if one then (w << 1) | 1 else w << 1
  }

  /** The word whose low k bits are the binary digits of n. */
  function Word(n: nat, k: nat): bv32 {
    if k == 0 then 0 else PushBit(Word(n / 2, k - 1), n % 2 == 1)
  }

  /** The number written by the low k bits of w. */
  function Number(w: bv32, k: nat): (n: nat)
    ensures n < Pow2(k)
  {
    if k == 0 then 0 else (if Odd(w) then 1 else 0) + 2 * Number(Half(w), k - 1)
  }

  /** A word with exactly the low k bits set. */
  function LowMask(k: nat): bv32 {
    if k == 0 then 0 else PushBit(LowMask(k - 1), true)
  }

  /** x and y have the same bits wherever m has one. */
  predicate AgreeOn(x: bv32, y: bv32, m: bv32) { (x ^ y) & m == 0 }

  predicate Within(x: bv32, m: bv32) { x | m == m }

  lemma NothingToAgreeOn(x: bv32, y: bv32)
    ensures AgreeOn(x, y, 0)
  {}

  lemma AgreeOnMore(x: bv32, y: bv32, m: bv32)
    requires Odd(x) == Odd(y) && AgreeOn(Half(x), Half(y), m)
    ensures AgreeOn(x, y, PushBit(m, true))
  {}

  lemma PushWithin(x: bv32, m: bv32, one: bool)
    requires Within(x, m)
    ensures Within(PushBit(x, one), PushBit(m, true))
  {
    if one {
      PushOneWithin(x, m);
    } else {
      PushZeroWithin(x, m);
    }
  }

  lemma PushOneWithin(x: bv32, m: bv32)
    requires Within(x, m)
    ensures Within((x << 1) | 1, (m << 1) | 1)
  {}

  lemma PushZeroWithin(x: bv32, m: bv32)
    requires Within(x, m)
    ensures Within(x << 1, (m << 1) | 1)
  {}

  lemma HalfOfPush(x: bv32, one: bool)
    requires Within(x, 0x7fff_ffff)
    ensures Half(PushBit(x, one)) == x && Odd(PushBit(x, one)) == one
  {}

  lemma NumberParts(x: bv32, y: bv32, k: nat)
    requires k > 0 && Number(x, k) == Number(y, k)
    ensures Odd(x) == Odd(y) && Number(Half(x), k - 1) == Number(Half(y), k - 1)
  {}

  lemma {:induction false} NumberDetermines(x: bv32, y: bv32, k: nat)
    requires Number(x, k) == Number(y, k)
    ensures AgreeOn(x, y, LowMask(k))
  {
    if k == 0 {
      NothingToAgreeOn(x, y);
    } else {
      NumberParts(x, y, k);
      NumberDetermines(Half(x), Half(y), k - 1);
      AgreeOnMore(x, y, LowMask(k - 1));
    }
  }

  lemma NothingWithin()
    ensures Within(0, 0)
  {}

  lemma {:induction false} WordWithin(n: nat, k: nat)
    ensures Within(Word(n, k), LowMask(k))
  {
    if k == 0 {
      NothingWithin();
    } else {
      WordWithin(n / 2, k - 1);
      PushWithin(Word(n / 2, k - 1), LowMask(k - 1), n % 2 == 1);
    }
  }

  lemma Masks()
    ensures LowMask(8) == 0xff && LowMask(32) == 0xffff_ffff
    ensures Pow2(8) == 0x100 && Pow2(32) == 0x1_0000_0000
  {
    assert LowMask(8) == 0xff;
    assert LowMask(16) == 0xffff;
    assert LowMask(24) == 0xff_ffff;
    assert Pow2(8) == 0x100;
    assert Pow2(16) == 0x1_0000;
    assert Pow2(24) == 0x100_0000;
  }

  lemma AgreeEverywhere(x: bv32, y: bv32)
    requires AgreeOn(x, y, 0xffff_ffff)
    ensures x == y
  {}

  lemma SmallMask(k: nat)
    requires k < 8
    ensures Within(LowMask(k), 0x7fff_ffff)
  {
    assert LowMask(0) == 0 && LowMask(1) == 1 && LowMask(2) == 3 && LowMask(3) == 7;
    assert LowMask(4) == 15 && LowMask(5) == 31 && LowMask(6) == 63 && LowMask(7) == 127;
  }

  lemma WithinWider(x: bv32, m: bv32, wider: bv32)
    requires Within(x, m) && Within(m, wider)
    ensures Within(x, wider)
  {}

  lemma WordSplits(n: nat, k: nat)
    requires 0 < k <= 8
    ensures Half(Word(n, k)) == Word(n / 2, k - 1) && Odd(Word(n, k)) == (n % 2 == 1)
  {
    WordWithin(n / 2, k - 1);
    SmallMask(k - 1);
    WithinWider(Word(n / 2, k - 1), LowMask(k - 1), 0x7fff_ffff);
    HalfOfPush(Word(n / 2, k - 1), n % 2 == 1);
  }

  /** Different octets are different words. */
  lemma {:induction false} WordInjective(a: nat, b: nat, k: nat)
    requires a < Pow2(k) && b < Pow2(k) && k <= 8 && Word(a, k) == Word(b, k)
    ensures a == b
  {
    if k > 0 {
      WordSplits(a, k);
      WordSplits(b, k);
      WordInjective(a / 2, b / 2, k - 1);
    }
  }

  // ---- the register ------------------------------------------------------------------------

  /** One shift of the register, as the datalink and transport layers branch on it. */
  function BitStep(c: bv32): bv32 {
    if Odd(c) then Xor(Half(c), POLYNOMIAL) else Half(c)
  }

  /** One shift of the register, as the RPC layer masks it. */
  function MaskStep(c: bv32): bv32 {
    (c >> 1) ^ (0xedb8_8320 & (0 - (c & 1)))
  }

  lemma MaskStepIsBitStep(c: bv32)
    ensures MaskStep(c) == BitStep(c)
  {
    var low := c & 1;
    OneBit(low, c);
    if low == 1 {
      assert 0 - low == 0xffff_ffff;
    } else {
      assert 0 - low == 0;
    }
  }

  lemma OneBit(low: bv32, c: bv32)
    requires low == c & 1
    ensures low == 0 || low == 1
  {}

  function Steps(c: bv32, n: nat): bv32 {
    if n == 0 then c else BitStep(Steps(c, n - 1))
  }

  function Octet(b: byte): bv32 { Word(b, 8) }

  function Absorb(c: bv32, b: byte): bv32 { Steps(Xor(c, Octet(b)), 8) }

  function AbsorbAll(c: bv32, data: seq<byte>): bv32 {
    if data == [] then c
    else Absorb(AbsorbAll(c, data[..|data| - 1]), data[|data| - 1])
  }

  function Complement(w: bv32): bv32 { !w }

  /** The checksum of a byte string, as the number the frame headers store. */
  function Crc(data: seq<byte>): (r: u32) {
    Masks();
    Number(Complement(AbsorbAll(INITIAL, data)), 32)
  }

  /** ac_crc32: the branching loop. */
  method AcCrc32(data: seq<byte>) returns (r: u32)
    ensures r == Crc(data)
  {
    var crc := INITIAL;
    for i := 0 to |data|
      invariant crc == AbsorbAll(INITIAL, data[..i])
    {
      ghost var before := crc;
      assert data[..i + 1][..i] == data[..i];
      crc := Xor(crc, Octet(data[i]));
      for bit := 0 to 8
        invariant crc == Steps(Xor(before, Octet(data[i])), bit)
      {
        crc := if Odd(crc) then Xor(Half(crc), POLYNOMIAL) else Half(crc);
      }
    }
    assert data[..|data|] == data;
    Masks();
    r := Number(Complement(crc), 32);
  }

  /** rpcCrc32: the masking loop, which computes the same checksum. */
  method RpcCrc32(data: seq<byte>) returns (r: u32)
    ensures r == Crc(data)
  {
    var crc := INITIAL;
    for i := 0 to |data|
      invariant crc == AbsorbAll(INITIAL, data[..i])
    {
      ghost var before := crc;
      assert data[..i + 1][..i] == data[..i];
      crc := Xor(crc, Octet(data[i]));
      for bit := 0 to 8
        invariant crc == Steps(Xor(before, Octet(data[i])), bit)
      {
        MaskStepIsBitStep(crc);
        crc := MaskStep(crc);
      }
    }
    assert data[..|data|] == data;
    Masks();
    r := Number(Complement(crc), 32);
  }

  // ---- the register is linear and loses nothing --------------------------------------------

  lemma HalfXor(x: bv32, y: bv32)
    ensures Half(Xor(x, y)) == Xor(Half(x), Half(y)) && Odd(Xor(x, y)) == (Odd(x) != Odd(y))
  {}

  lemma XorRules(x: bv32, y: bv32, p: bv32)
    ensures Xor(x, Xor(y, p)) == Xor(Xor(x, y), p) == Xor(Xor(x, p), y)
    ensures Xor(Xor(x, p), Xor(y, p)) == Xor(x, y)
    ensures Xor(0, x) == x
  {}

  lemma XorCancels(p: bv32, x: bv32, y: bv32)
    ensures Xor(p, x) == Xor(p, y) ==> x == y
    ensures Xor(x, p) == Xor(y, p) ==> x == y
  {}

  lemma BitStepLinear(x: bv32, y: bv32)
    ensures BitStep(Xor(x, y)) == Xor(BitStep(x), BitStep(y))
  {
    HalfXor(x, y);
    XorRules(Half(x), Half(y), POLYNOMIAL);
  }

  lemma BitStepInjective(x: bv32, y: bv32)
    requires BitStep(x) == BitStep(y)
    ensures x == y
  {}

  lemma {:induction false} StepsLinear(x: bv32, y: bv32, n: nat)
    ensures Steps(Xor(x, y), n) == Xor(Steps(x, n), Steps(y, n))
  {
    if n > 0 {
      StepsLinear(x, y, n - 1);
      BitStepLinear(Steps(x, n - 1), Steps(y, n - 1));
    }
  }

  lemma {:induction false} StepsInjective(x: bv32, y: bv32, n: nat)
    requires Steps(x, n) == Steps(y, n)
    ensures x == y
  {
    if n > 0 {
      BitStepInjective(Steps(x, n - 1), Steps(y, n - 1));
      StepsInjective(x, y, n - 1);
    }
  }

  lemma {:induction false} StepsAdd(x: bv32, m: nat, n: nat)
    ensures Steps(Steps(x, m), n) == Steps(x, m + n)
  {
    if n > 0 {
      StepsAdd(x, m, n - 1);
    }
  }

  lemma {:induction false} AbsorbAllSplit(c: bv32, a: seq<byte>, b: seq<byte>)
    ensures AbsorbAll(c, a + b) == AbsorbAll(AbsorbAll(c, a), b)
  {
    if b == [] {
      assert a + b == a;
    } else {
      AbsorbAllSplit(c, a, b[..|b| - 1]);
      assert (a + b)[..|a + b| - 1] == a + b[..|b| - 1];
    }
  }

  lemma {:induction false} AbsorbAllInjective(c: bv32, d: bv32, data: seq<byte>)
    requires AbsorbAll(c, data) == AbsorbAll(d, data)
    ensures c == d
  {
    if data != [] {
      var front, o := data[..|data| - 1], Octet(data[|data| - 1]);
      var x, y := AbsorbAll(c, front), AbsorbAll(d, front);
      StepsInjective(Xor(x, o), Xor(y, o), 8);
      XorCancels(o, x, y);
      AbsorbAllInjective(c, d, front);
    }
  }

  // ---- bursts ------------------------------------------------------------------------------

  function Shift8(v: bv32): bv32 { v << 8 }

  /** Up to four octets side by side in one word, the first one lowest. */
  function Pack(w: seq<byte>): bv32 {
    if w == [] then 0 else Xor(Octet(w[0]), Shift8(Pack(w[1..])))
  }

  function Mask(octets: nat): bv32
    requires octets <= 4
  {
    if octets == 0 then 0 else if octets == 1 then 0xff else if octets == 2 then 0xffff
    else if octets == 3 then 0xff_ffff else 0xffff_ffff
  }

  lemma ShiftWithin(o: bv32, v: bv32, m: bv32)
    requires Within(o, 0xff) && Within(v, m)
    ensures Within(Xor(o, Shift8(v)), (m << 8) | 0xff)
  {}

  lemma {:induction false} PackWithin(w: seq<byte>)
    requires |w| <= 4
    ensures Within(Pack(w), Mask(|w|))
  {
    if w == [] {
      NothingWithin();
    } else {
      PackWithin(w[1..]);
      WordWithin(w[0], 8);
      Masks();
      ShiftWithin(Octet(w[0]), Pack(w[1..]), Mask(|w| - 1));
    }
  }

  lemma UnpackTwo(o: bv32, p: bv32, v: bv32, w: bv32)
    requires Within(o, 0xff) && Within(p, 0xff) && Within(v, 0xff_ffff) && Within(w, 0xff_ffff)
    requires Xor(o, Shift8(v)) == Xor(p, Shift8(w))
    ensures o == p && v == w
  {}

  lemma SmallerMasks(x: bv32, octets: nat)
    requires octets <= 3 && Within(x, Mask(octets))
    ensures Within(x, 0xff_ffff)
  {}

  lemma {:induction false} PackInjective(a: seq<byte>, b: seq<byte>)
    requires |a| == |b| <= 4 && Pack(a) == Pack(b)
    ensures a == b
  {
    if a != [] {
      PackWithin(a[1..]);
      PackWithin(b[1..]);
      SmallerMasks(Pack(a[1..]), |a| - 1);
      SmallerMasks(Pack(b[1..]), |a| - 1);
      WordWithin(a[0], 8);
      WordWithin(b[0], 8);
      Masks();
      UnpackTwo(Octet(a[0]), Octet(b[0]), Pack(a[1..]), Pack(b[1..]));
      WordInjective(a[0], b[0], 8);
      PackInjective(a[1..], b[1..]);
      assert a == [a[0]] + a[1..] && b == [b[0]] + b[1..];
    }
  }

  function Twice(v: bv32): bv32 { v << 1 }

  lemma FallBack(v: bv32, m: bv32)
    requires Within(v, m) && Within(m, 0x7fff_ffff)
    ensures BitStep(Twice(v)) == v && Within(Twice(v), (m << 1) | 1)
  {}

  lemma Shift8IsTwice(v: bv32)
    ensures Shift8(v) == Twice(Twice(Twice(Twice(Twice(Twice(Twice(Twice(v))))))))
  {}

  /** A word of three octets shifted up by eight falls back after eight shifts of the register. */
  lemma ShiftBack(v: bv32)
    requires Within(v, 0xff_ffff)
    ensures Steps(Shift8(v), 8) == v
  {
    Shift8IsTwice(v);
    var v1 := Twice(v);
    var v2 := Twice(v1);
    var v3 := Twice(v2);
    var v4 := Twice(v3);
    var v5 := Twice(v4);
    var v6 := Twice(v5);
    var v7 := Twice(v6);
    var v8 := Twice(v7);
    FallBack(v, 0xff_ffff);
    FallBack(v1, 0x1ff_ffff);
    FallBack(v2, 0x3ff_ffff);
    FallBack(v3, 0x7ff_ffff);
    FallBack(v4, 0xfff_ffff);
    FallBack(v5, 0x1fff_ffff);
    FallBack(v6, 0x3fff_ffff);
    FallBack(v7, 0x7fff_ffff);
    assert Steps(v8, 1) == v7;
    assert Steps(v8, 2) == v6;
    assert Steps(v8, 3) == v5;
    assert Steps(v8, 4) == v4;
    assert Steps(v8, 5) == v3;
    assert Steps(v8, 6) == v2;
    assert Steps(v8, 7) == v1;
  }

  /** Up to four octets act on the register like one word added in at once. */
  lemma {:induction false} AbsorbAsWord(c: bv32, w: seq<byte>)
    requires |w| <= 4
    ensures AbsorbAll(c, w) == Steps(Xor(c, Pack(w)), 8 * |w|)
    decreases |w|
  {
    if w == [] {
      XorRules(c, c, 0);
      assert Xor(c, 0) == c;
    } else {
      var rest, o := w[1..], Octet(w[0]);
      assert w == [w[0]] + rest;
      AbsorbAllSplit(c, [w[0]], rest);
      assert AbsorbAll(c, [w[0]]) == Absorb(c, w[0]) by {
        assert [w[0]][..0] == [];
      }
      AbsorbAsWord(Absorb(c, w[0]), rest);
      PackWithin(rest);
      SmallerMasks(Pack(rest), |rest|);
      ShiftBack(Pack(rest));
      StepsLinear(Xor(c, o), Shift8(Pack(rest)), 8);
      XorRules(c, o, Shift8(Pack(rest)));
      StepsAdd(Xor(c, Pack(w)), 8, 8 * |rest|);
    }
  }

  lemma ComplementInjective(x: bv32, y: bv32)
    requires Complement(x) == Complement(y)
    ensures x == y
  {}

  lemma ChecksumDetermines(u: bv32, v: bv32)
    requires Number(Complement(u), 32) == Number(Complement(v), 32)
    ensures u == v
  {
    Masks();
    NumberDetermines(Complement(u), Complement(v), 32);
    AgreeEverywhere(Complement(u), Complement(v));
    ComplementInjective(u, v);
  }

  /** Different octets behind one another leave the register in different states. */
  lemma WindowSeen(c: bv32, sent: seq<byte>, received: seq<byte>)
    requires |sent| == |received| <= 4 && AbsorbAll(c, sent) == AbsorbAll(c, received)
    ensures sent == received
  {
    AbsorbAsWord(c, sent);
    AbsorbAsWord(c, received);
    StepsInjective(Xor(c, Pack(sent)), Xor(c, Pack(received)), 8 * |sent|);
    XorCancels(c, Pack(sent), Pack(received));
    PackInjective(sent, received);
  }

  /**
   * Burst detection: two byte strings of equal length that differ only inside a window of at most
   * four consecutive bytes never have the same checksum.
   */
  lemma BurstDetected(before: seq<byte>, sent: seq<byte>, received: seq<byte>, after: seq<byte>)
    requires |sent| == |received| <= 4 && sent != received
    ensures Crc(before + sent + after) != Crc(before + received + after)
  {
    var c := AbsorbAll(INITIAL, before);
    var x, y := AbsorbAll(c, sent), AbsorbAll(c, received);
    if x == y {
      WindowSeen(c, sent, received);
    }
    AbsorbAllSplit(INITIAL, before, sent);
    AbsorbAllSplit(INITIAL, before, received);
    AbsorbAllSplit(INITIAL, before + sent, after);
    AbsorbAllSplit(INITIAL, before + received, after);
    var u, v := AbsorbAll(x, after), AbsorbAll(y, after);
    if Crc(before + sent + after) == Crc(before + received + after) {
      ChecksumDetermines(u, v);
      AbsorbAllInjective(x, y, after);
    }
  }

  // ---- the standard's constants ----------------------------------------------------------------

  /** The place of x to the k in the register, whose highest bit stands for 1. */
  function Term(k: bv32): bv32
    requires k < 32
  {
    0x8000_0000 >> k
  }

  /** The generator of section 3.2.9: the sum of x to these powers, and to the 32, which is shifted out. */
  lemma Generator()
    ensures POLYNOMIAL == Term(26) | Term(23) | Term(22) | Term(16) | Term(12) | Term(11) | Term(10)
                          | Term(8) | Term(7) | Term(5) | Term(4) | Term(2) | Term(1) | Term(0)
  {}

  /** No bytes have checksum 0. */
  lemma EmptyChecksum()
    ensures Crc([]) == 0
  {
    ZeroNumber(32);
  }

  lemma {:induction false} ZeroNumber(k: nat)
    ensures Number(0, k) == 0
  {
    if k > 0 {
      ZeroNumber(k - 1);
    }
  }

  lemma AbsorbsFirst(c: bv32, b: byte)
    ensures AbsorbAll(c, [b]) == Absorb(c, b)
  {
    assert [b][..0] == [] && AbsorbAll(c, []) == c;
  }

  lemma AbsorbsSecond(c: bv32, a: byte, b: byte)
    ensures AbsorbAll(c, [a, b]) == Absorb(Absorb(c, a), b)
  {
    assert [a, b][..1] == [a];
    AbsorbsFirst(c, a);
  }

  /** The register after two octets is that of the published CRC-32 of the text "12", 4f5344cd. */
  lemma CheckValue()
    ensures Complement(AbsorbAll(INITIAL, [0x31, 0x32])) == 0x4f53_44cd
  {
    assert Octet(0x31) == 0x31 && Octet(0x32) == 0x32 by {
      assert Word(3, 4) == 3;
    }
    assert Steps(0xffff_ffce, 8) == 0x7c23_1048;
    assert Steps(0x7c23_107a, 8) == 0xb0ac_bb32;
    AbsorbsSecond(INITIAL, 0x31, 0x32);
  }
}
