/**
  The bitwise CRC-16 (polynomial 0xA001, initial value 0xFFFF) of
  app/monitor_board_handle.c and its twin in app/circuit_breaker_rs485_handle.c.
  Bit vectors stay inside this module: clients see bytes and 16-bit words as integers.
  */
module Crc16 {
  import opened Bytes

  const POLYNOM: bv16 := 0xA001
  const INITIAL: bv16 := 0xFFFF

  function BitStep(crc: bv16): bv16 {
    if crc & 1 == 1 then (crc >> 1) ^ POLYNOM else crc >> 1
  }

  function TwoBits(crc: bv16): bv16 {
    BitStep(BitStep(crc))
  }

  function FourBits(crc: bv16): bv16 {
    TwoBits(TwoBits(crc))
  }

  function EightBits(crc: bv16): bv16 {
    FourBits(FourBits(crc))
  }

  function ByteStep(crc: bv16, b: bv8): bv16 {
    EightBits(crc ^ (b as bv16))
  }

  function CrcFrom(crc: bv16, s: seq<bv8>): bv16
    decreases s
  {
    if s == [] then crc else ByteStep(CrcFrom(crc, s[..|s| - 1]), s[|s| - 1])
  }

  function Bits(s: seq<byte>): seq<bv8> {
    seq(|s|, i requires 0 <= i < |s| => s[i] as bv8)
  }

  /** The checksum of a message, as the register value the C code returns. */
  function Crc(s: seq<byte>): u16 {
    CrcFrom(INITIAL, Bits(s)) as int
  }

  /**
    `modbus_crc16(ptr, len)`, where `mem` is the memory from `ptr` on. A length of
    zero is turned into one, so one byte is read even then.
    */
  method ModbusCrc16(mem: seq<byte>, len: u16) returns (crc: u16)
    requires 0 < |mem| && len <= |mem|
    ensures crc == Crc(mem[..if len == 0 then 1 else len])
  {
    var n := if len == 0 then 1 else len;
    var reg := INITIAL;
    var p := 0;
    while p < n
      invariant 0 <= p <= n
      invariant reg == CrcFrom(INITIAL, Bits(mem[..p]))
    {
      OneMoreByte(INITIAL, mem, p);
      reg := ShiftInByte(reg, mem[p] as bv8);
      p := p + 1;
    }
    crc := reg as int;
  }

  /** The inner loop: xor one byte in, then eight bit steps. */
  method ShiftInByte(crc: bv16, b: bv8) returns (reg: bv16)
    ensures reg == ByteStep(crc, b)
  {
    reg := crc ^ (b as bv16);
    ghost var mixed := reg;
    EightSingleSteps(mixed);
    var i := 0;
    while i < 8
      invariant 0 <= i <= 8
      invariant reg == BitSteps(mixed, i)
    {
      if reg & 1 == 1 {
        reg := reg >> 1;
        reg := reg ^ POLYNOM;
      } else {
        reg := reg >> 1;
      }
      i := i + 1;
    }
  }

  function BitSteps(crc: bv16, n: nat): bv16
    decreases n, crc
  {
    if n == 0 then crc else BitStep(BitSteps(crc, n - 1))
  }

  lemma {:induction false} EightSingleSteps(crc: bv16)
    ensures BitSteps(crc, 8) == EightBits(crc)
  {
    TwoSingleSteps(crc, 0);
    TwoSingleSteps(crc, 2);
    TwoSingleSteps(crc, 4);
    TwoSingleSteps(crc, 6);
  }

  lemma {:induction false} TwoSingleSteps(crc: bv16, n: nat)
    ensures BitSteps(crc, n + 2) == TwoBits(BitSteps(crc, n))
  {
    assert BitSteps(crc, n + 1) == BitStep(BitSteps(crc, n));
  }

  lemma {:induction false} OneMoreStep(c: bv16, s: seq<bv8>, p: nat)
    requires p < |s|
    ensures CrcFrom(c, s[..p + 1]) == ByteStep(CrcFrom(c, s[..p]), s[p])
  {
    assert s[..p + 1][..p] == s[..p];
  }

  lemma {:induction false} OneMoreByte(c: bv16, mem: seq<byte>, p: nat)
    requires p < |mem|
    ensures CrcFrom(c, Bits(mem[..p + 1])) == ByteStep(CrcFrom(c, Bits(mem[..p])), mem[p] as bv8)
  {
    OneMoreStep(c, Bits(mem), p);
    assert Bits(mem)[..p + 1] == Bits(mem[..p + 1]) && Bits(mem)[..p] == Bits(mem[..p]);
  }

  // ----- Two adjacent bytes act injectively on the register

  /** Undoing one bit step: a difference with a clear top bit came from the same branch. */
  lemma {:induction false} BitStepBack(c: bv16, d: bv16, e: bv16)
    requires BitStep(c) ^ BitStep(d) == e && e & 0x8000 == 0
    ensures c ^ d == e << 1
  {}

  lemma {:induction false} TwoBitsBack(c: bv16, d: bv16, e: bv16)
    requires TwoBits(c) ^ TwoBits(d) == e && e & 0xC000 == 0
    ensures c ^ d == e << 2
  {
    BitStepBack(BitStep(c), BitStep(d), e);
    BitStepBack(c, d, e << 1);
  }

  lemma {:induction false} FourBitsBack(c: bv16, d: bv16, e: bv16)
    requires FourBits(c) ^ FourBits(d) == e && e & 0xF000 == 0
    ensures c ^ d == e << 4
  {
    TwoBitsBack(TwoBits(c), TwoBits(d), e);
    TwoBitsBack(c, d, e << 2);
  }

  /** Registers that differ only in the low byte after eight steps differed only in the high byte before. */
  lemma {:induction false} EightBitsBack(c: bv16, d: bv16, e: bv16)
    requires EightBits(c) ^ EightBits(d) == e && e & 0xFF00 == 0
    ensures c ^ d == e << 8
  {
    FourBitsBack(FourBits(c), FourBits(d), e);
    FourBitsBack(c, d, e << 4);
  }

  lemma {:induction false} XorZero(x: bv16, y: bv16)
    ensures x ^ y == 0 <==> x == y
  {}

  lemma {:induction false} MaskIsLow(x: bv16, p: bv8, y: bv16, q: bv8)
    requires x ^ (p as bv16) == y ^ (q as bv16)
    ensures (x ^ y) & 0xFF00 == 0
  {}

  lemma {:induction false} SameMask(x: bv16, p: bv8, q: bv8)
    ensures x ^ (p as bv16) == x ^ (q as bv16) ==> p == q
  {}

  lemma {:induction false} SameMasked(x: bv16, y: bv16, p: bv8)
    ensures x ^ (p as bv16) == y ^ (p as bv16) ==> x == y
  {}

  lemma {:induction false} HighIsLow(c: bv16, p: bv8, q: bv8, e: bv16)
    requires (c ^ (p as bv16)) ^ (c ^ (q as bv16)) == e << 8 && e & 0xFF00 == 0
    ensures p == q && e == 0
  {}

  lemma {:induction false} ByteStepInput(x: bv16, p: bv8, y: bv16, q: bv8)
    requires ByteStep(x, p) == ByteStep(y, q)
    ensures x ^ (p as bv16) == y ^ (q as bv16)
  {
    XorZero(ByteStep(x, p), ByteStep(y, q));
    EightBitsBack(x ^ (p as bv16), y ^ (q as bv16), 0);
    XorZero(x ^ (p as bv16), y ^ (q as bv16));
  }

  /** A byte step is a bijection of the register. */
  lemma {:induction false} ByteStepInjective(c: bv16, d: bv16, b: bv8)
    requires ByteStep(c, b) == ByteStep(d, b)
    ensures c == d
  {
    ByteStepInput(c, b, d, b);
    SameMasked(c, d, b);
  }

  lemma {:induction false} TwoByteStepsInjective(c: bv16, a0: bv8, b0: bv8, a1: bv8, b1: bv8)
    requires ByteStep(ByteStep(c, a0), b0) == ByteStep(ByteStep(c, a1), b1)
    ensures a0 == a1 && b0 == b1
  {
    var x, y := ByteStep(c, a0), ByteStep(c, a1);
    ByteStepInput(x, b0, y, b1);
    MaskIsLow(x, b0, y, b1);
    FirstByte(c, a0, a1);
    SameMask(x, b0, b1);
  }

  lemma {:induction false} FirstByte(c: bv16, a0: bv8, a1: bv8)
    requires (ByteStep(c, a0) ^ ByteStep(c, a1)) & 0xFF00 == 0
    ensures a0 == a1
  {
    var e := ByteStep(c, a0) ^ ByteStep(c, a1);
    EightBitsBack(c ^ (a0 as bv16), c ^ (a1 as bv16), e);
    HighIsLow(c, a0, a1, e);
  }

  // ----- Whole messages

  lemma {:induction false} DifferenceStays(c: bv16, s: seq<bv8>, t: seq<bv8>, i: nat, j: nat)
    requires i <= j <= |s| == |t|
    requires forall k | i <= k < j :: s[k] == t[k]
    requires CrcFrom(c, s[..i]) != CrcFrom(c, t[..i])
    ensures CrcFrom(c, s[..j]) != CrcFrom(c, t[..j])
    decreases j
  {
    hide *;
    if i < j {
      DifferenceStays(c, s, t, i, j - 1);
      OneMoreStep(c, s, j - 1);
      OneMoreStep(c, t, j - 1);
      if CrcFrom(c, s[..j]) == CrcFrom(c, t[..j]) {
        ByteStepInjective(CrcFrom(c, s[..j - 1]), CrcFrom(c, t[..j - 1]), s[j - 1]);
      }
    }
  }

  lemma {:induction false} BitsBurst(c: bv16, s: seq<bv8>, t: seq<bv8>, i: nat)
    requires i < |s| == |t| && s != t
    requires forall k | 0 <= k < |s| && k != i && k != i + 1 :: s[k] == t[k]
    ensures CrcFrom(c, s) != CrcFrom(c, t)
  {
    hide CrcFrom;
    assert s[..i] == t[..i];
    var j := if i + 1 == |s| then i + 1 else i + 2;
    if CrcFrom(c, s[..j]) == CrcFrom(c, t[..j]) {
      BurstBytesEqual(c, s, t, i);
    }
    DifferenceStays(c, s, t, j, |s|);
    assert s[..|s|] == s && t[..|t|] == t;
  }

  lemma {:induction false} BurstBytesEqual(c: bv16, s: seq<bv8>, t: seq<bv8>, i: nat)
    requires i < |s| == |t|
    requires s[..i] == t[..i]
    requires var j := if i + 1 == |s| then i + 1 else i + 2; CrcFrom(c, s[..j]) == CrcFrom(c, t[..j])
    ensures s[i] == t[i] && (i + 1 < |s| ==> s[i + 1] == t[i + 1])
  {
    var x := CrcFrom(c, s[..i]);
    OneMoreStep(c, s, i);
    OneMoreStep(c, t, i);
    if i + 1 == |s| {
      ByteStepInput(x, s[i], x, t[i]);
      SameMask(x, s[i], t[i]);
    } else {
      OneMoreStep(c, s, i + 1);
      OneMoreStep(c, t, i + 1);
      TwoByteStepsInjective(x, s[i], s[i + 1], t[i], t[i + 1]);
    }
  }

  lemma {:induction false} BitsDetermineByte(a: byte, b: byte)
    requires a as bv8 == b as bv8
    ensures a == b
  {
    ByteRoundTrip(a);
    ByteRoundTrip(b);
  }

  lemma {:induction false} ByteRoundTrip(a: int)
    requires 0 <= a < 256
    ensures (a as bv8) as int == a
  {
    if a > 0 {
      ByteRoundTrip(a - 1);
      NextBits((a - 1) as bv8);
      BitsRoundTrip(((a - 1) as bv8) + 1);
    }
  }

  lemma {:induction false} NextBits(x: bv8)
    requires x as int < 255
    ensures (x + 1) as int == x as int + 1
  {}

  lemma {:induction false} BitsRoundTrip(x: bv8)
    ensures (x as int) as bv8 == x
  {}

  /** Two messages of one length that differ only within two adjacent bytes have different checksums. */
  lemma {:induction false} AdjacentBurst(s: seq<byte>, t: seq<byte>, i: nat)
    requires i < |s| == |t| && s != t
    requires forall k | 0 <= k < |s| && k != i && k != i + 1 :: s[k] == t[k]
    ensures Crc(s) != Crc(t)
  {
    if Bits(s) == Bits(t) {
      forall k | 0 <= k < |s| ensures s[k] == t[k] {
        assert Bits(s)[k] == Bits(t)[k];
        BitsDetermineByte(s[k], t[k]);
      }
      assert false;
    }
    forall k | 0 <= k < |s| && k != i && k != i + 1 ensures Bits(s)[k] == Bits(t)[k] {
      assert s[k] == t[k];
    }
    BitsBurst(INITIAL, Bits(s), Bits(t), i);
    if Crc(s) == Crc(t) {
      WordDeterminesBits(CrcFrom(INITIAL, Bits(s)), CrcFrom(INITIAL, Bits(t)));
    }
  }

  lemma {:induction false} WordDeterminesBits(c: bv16, d: bv16)
    requires c as int == d as int
    ensures c == d
  {
    assert (c as int) as bv16 == c;
  }

  // ----- The residue: a message followed by its own checksum, low byte first

  function LowByte(c: bv16): bv8 {
    (c & 0xFF) as bv8
  }

  function HighByte(c: bv16): bv8 {
    (c >> 8) as bv8
  }

  /** A register with a clear low byte is shifted by a byte, without feedback. */
  lemma {:induction false} EvenBits(c: bv16)
    requires c & 0xFF == 0
    ensures EightBits(c) == c >> 8
  {
    assert TwoBits(c) == c >> 2;
    assert FourBits(c) == c >> 4;
    assert TwoBits(FourBits(c)) == c >> 6;
  }

  lemma {:induction false} ResidueOfBits(c: bv16, lo: bv8, hi: bv8)
    ensures ByteStep(ByteStep(c, lo), hi) == 0 <==> lo == LowByte(c) && hi == HighByte(c)
  {
    OwnBytesCancel(c);
    if ByteStep(ByteStep(c, lo), hi) == 0 {
      TwoByteStepsInjective(c, lo, hi, LowByte(c), HighByte(c));
    }
  }

  lemma {:induction false} OwnBytesCancel(c: bv16)
    ensures ByteStep(ByteStep(c, LowByte(c)), HighByte(c)) == 0
  {
    LowByteCancels(c);
    EvenBits(c ^ (LowByte(c) as bv16));
    EvenBits(0);
  }

  lemma {:induction false} LowByteCancels(c: bv16)
    ensures (c ^ (LowByte(c) as bv16)) & 0xFF == 0
    ensures (c ^ (LowByte(c) as bv16)) >> 8 == HighByte(c) as bv16
    ensures (HighByte(c) as bv16) ^ (HighByte(c) as bv16) == 0
  {}

  lemma {:induction false} JoinBytes(h: bv8, l: bv8)
    ensures (((h as bv16) << 8) | (l as bv16)) as int == 256 * (h as int) + l as int
  {}

  lemma {:induction false} SplitWord(c: bv16)
    ensures c == ((HighByte(c) as bv16) << 8) | (LowByte(c) as bv16)
  {}

  lemma {:induction false} WordOfBytes(c: bv16, lo: byte, hi: byte)
    ensures lo as bv8 == LowByte(c) && hi as bv8 == HighByte(c) <==> Word(hi, lo) == c as int
  {
    SplitWord(c);
    JoinBytes(HighByte(c), LowByte(c));
    ByteIs(lo, LowByte(c));
    ByteIs(hi, HighByte(c));
    SameDigits(HighByte(c) as int, LowByte(c) as int, hi, lo);
  }

  lemma {:induction false} ByteIs(b: byte, x: bv8)
    ensures b as bv8 == x <==> b == x as int
  {
    ByteRoundTrip(b);
    BitsRoundTrip(x);
  }

  lemma {:induction false} SameDigits(h: byte, l: byte, hi: byte, lo: byte)
    ensures Word(h, l) == Word(hi, lo) <==> h == hi && l == lo
  {}

  /** Followed by two bytes, a message has checksum zero exactly when they are its checksum, low byte first. */
  lemma {:induction false} Residue(m: seq<byte>, lo: byte, hi: byte)
    ensures Crc(m + [lo, hi]) == 0 <==> Word(hi, lo) == Crc(m)
  {
    var c := CrcFrom(INITIAL, Bits(m));
    TwoMoreBytes(INITIAL, m, lo, hi);
    ResidueOfBits(c, lo as bv8, hi as bv8);
    WordOfBytes(c, lo, hi);
    ZeroWord(CrcFrom(INITIAL, Bits(m + [lo, hi])));
  }

  lemma {:induction false} TwoMoreBytes(c: bv16, m: seq<byte>, lo: byte, hi: byte)
    ensures CrcFrom(c, Bits(m + [lo, hi])) == ByteStep(ByteStep(CrcFrom(c, Bits(m)), lo as bv8), hi as bv8)
  {
    var w := m + [lo, hi];
    assert w[..|m|] == m && w[..|m| + 1 + 1] == w;
    OneMoreByte(c, w, |m|);
    OneMoreByte(c, w, |m| + 1);
  }

  lemma {:induction false} ZeroWord(c: bv16)
    ensures c as int == 0 <==> c == 0
  {}

  // ----- Damage to the last byte that the checksum's high byte can make up for

  function Flipped(b: byte, mask: bv8): byte {
    ((b as bv8) ^ mask) as int
  }

  /** An even difference is shifted, an odd one is shifted into the polynomial. */
  lemma {:induction false} EvenDifference(c: bv16, d: bv16, e: bv16)
    requires c ^ d == e << 1 && e & 0x8000 == 0
    ensures BitStep(c) ^ BitStep(d) == e
  {}

  lemma {:induction false} OddDifference(c: bv16, d: bv16)
    requires c ^ d == 0x0003
    ensures BitStep(c) ^ BitStep(d) == 0xA000
  {}

  lemma {:induction false} FirstDifference(c: bv16, d: bv16)
    requires c ^ d == 0x000C
    ensures TwoBits(c) ^ TwoBits(d) == 0x0003
  {
    EvenDifference(c, d, 0x0006);
    EvenDifference(BitStep(c), BitStep(d), 0x0003);
  }

  lemma {:induction false} SecondDifference(c: bv16, d: bv16)
    requires c ^ d == 0x0003
    ensures TwoBits(c) ^ TwoBits(d) == 0x5000
  {
    OddDifference(c, d);
    EvenDifference(BitStep(c), BitStep(d), 0x5000);
  }

  lemma {:induction false} ThirdDifference(c: bv16, d: bv16)
    requires c ^ d == 0x5000
    ensures TwoBits(c) ^ TwoBits(d) == 0x1400
  {
    EvenDifference(c, d, 0x2800);
    EvenDifference(BitStep(c), BitStep(d), 0x1400);
  }

  lemma {:induction false} FourthDifference(c: bv16, d: bv16)
    requires c ^ d == 0x1400
    ensures TwoBits(c) ^ TwoBits(d) == 0x0500
  {
    EvenDifference(c, d, 0x0A00);
    EvenDifference(BitStep(c), BitStep(d), 0x0500);
  }

  /** This difference in the low byte comes out in the high byte alone. */
  lemma {:induction false} SeamBits(c: bv16, d: bv16)
    requires c ^ d == 0x000C
    ensures EightBits(c) ^ EightBits(d) == 0x0500
  {
    FirstDifference(c, d);
    SecondDifference(TwoBits(c), TwoBits(d));
    ThirdDifference(FourBits(c), FourBits(d));
    FourthDifference(TwoBits(FourBits(c)), TwoBits(FourBits(d)));
  }

  lemma {:induction false} BytesOfWord(c: bv16)
    ensures Lo(c as int) == LowByte(c) as int && Hi(c as int) == HighByte(c) as int
  {
    hide LowByte, HighByte;
    var h, l := HighByte(c), LowByte(c);
    SplitWord(c);
    JoinBytes(h, l);
    DigitsOfWord(c as int, h as int, l as int);
  }

  lemma {:induction false} DigitsOfWord(w: u16, h: byte, l: byte)
    requires w == 256 * h + l
    ensures Hi(w) == h && Lo(w) == l
  {}

  lemma {:induction false} SeamBytes(c: bv16, d: bv16)
    requires c ^ d == 0x0500
    ensures LowByte(d) == LowByte(c) && HighByte(d) == HighByte(c) ^ 0x05
  {}

  lemma {:induction false} SeamInput(c: bv16, a: bv8, b: bv8)
    requires b == a ^ 0x0C
    ensures (c ^ (a as bv16)) ^ (c ^ (b as bv16)) == 0x000C && b != a
  {}

  lemma {:induction false} SeamStep(c: bv16, a: bv8, b: bv8, p: bv16, q: bv16)
    requires p == c ^ (a as bv16) && q == c ^ (b as bv16) && p ^ q == 0x000C
    ensures ByteStep(c, a) ^ ByteStep(c, b) == 0x0500
  {
    hide EightBits;
    SeamBits(p, q);
    StepOfInput(c, a, p);
    StepOfInput(c, b, q);
    hide ByteStep;
  }

  lemma {:induction false} StepOfInput(c: bv16, a: bv8, p: bv16)
    requires p == c ^ (a as bv16)
    ensures ByteStep(c, a) == EightBits(p)
  {
    hide EightBits;
  }

  lemma {:induction false} FlippedBits(b: byte, mask: bv8)
    ensures Flipped(b, mask) as bv8 == (b as bv8) ^ mask
  {
    BitsRoundTrip((b as bv8) ^ mask);
  }

  lemma {:induction false} SeamWords(x: bv16, y: bv16)
    requires x ^ y == 0x0500
    ensures Lo(y as int) == Lo(x as int) && Hi(y as int) == Flipped(Hi(x as int), 0x05)
  {
    hide LowByte, HighByte;
    SeamBytes(x, y);
    BytesOfWord(x);
    BytesOfWord(y);
    BitsRoundTrip(HighByte(x));
  }

  lemma {:induction false} SeamRegisters(c: bv16, p: bv8, q: bv8, x: bv16, y: bv16)
    requires q == p ^ 0x0C && x == ByteStep(c, p) && y == ByteStep(c, q)
    ensures q != p && Lo(y as int) == Lo(x as int) && Hi(y as int) == Flipped(Hi(x as int), 0x05)
  {
    hide ByteStep, Flipped;
    SeamInput(c, p, q);
    SeamStep(c, p, q, c ^ (p as bv16), c ^ (q as bv16));
    SeamWords(x, y);
  }

  /** Changing the last byte so changes only the high byte of the checksum. */
  lemma {:induction false} SeamTrade(m: seq<byte>, a: byte, b: byte)
    requires b == Flipped(a, 0x0C)
    ensures b != a && Lo(Crc(m + [b])) == Lo(Crc(m + [a])) && Hi(Crc(m + [b])) == Flipped(Hi(Crc(m + [a])), 0x05)
  {
    var c := CrcFrom(INITIAL, Bits(m));
    FlippedBits(a, 0x0C);
    hide Flipped, ByteStep, CrcFrom, Bits;
    LastByte(m, a);
    LastByte(m, b);
    SeamRegisters(c, a as bv8, b as bv8, CrcFrom(INITIAL, Bits(m + [a])), CrcFrom(INITIAL, Bits(m + [b])));
  }

  lemma {:induction false} LastByte(m: seq<byte>, a: byte)
    ensures CrcFrom(INITIAL, Bits(m + [a])) == ByteStep(CrcFrom(INITIAL, Bits(m)), a as bv8)
  {
    var w := m + [a];
    assert w[..|m|] == m && w[..|m| + 1] == w;
    OneMoreByte(INITIAL, w, |m|);
  }

  // ----- The register's beginning, and two messages of the firmware

  lemma {:induction false} KnownSteps()
    ensures ByteStep(0xFFFF, 0x02) == 0x813E && ByteStep(0x813E, 0x07) == 0x1241
    ensures ByteStep(0xFFFF, 0x01) == 0x807E && ByteStep(0x807E, 0x03) == 0x2140 && ByteStep(0x2140, 0x0F) == 0xF460
    ensures ByteStep(0xF460, 0xA0) == 0x50F4 && ByteStep(0x50F4, 0x00) == 0x8751 && ByteStep(0x8751, 0x31) == 0x2887
  {}

  lemma {:induction false} AtFirst()
    ensures CrcFrom(INITIAL, Bits([])) == 0xFFFF
  {}

  /** Before the first byte, after the message 02 07, and after the request `read_hold_send_data` sends to address 1. */
  lemma {:induction false} KnownChecksums()
    ensures Crc([]) == 0xFFFF && Crc([0x02, 0x07]) == 0x1241 && Crc([0x01, 0x03, 0x0F, 0xA0, 0x00, 0x31]) == 0x2887
  {
    KnownSteps();
    AtFirst();
    hide CrcFrom, ByteStep, Bits;
    TwoKnown(0x02, 0x07, 0x02, 0x07);
    FourKnown();
    AfterTwo([0x01, 0x03, 0x0F, 0xA0], 0x00, 0x31, 0x50F4, 0x00, 0x31);
    assert [0x01, 0x03, 0x0F, 0xA0] + [0x00, 0x31] == [0x01, 0x03, 0x0F, 0xA0, 0x00, 0x31];
  }

  lemma {:induction false} FourKnown()
    ensures CrcFrom(INITIAL, Bits([0x01, 0x03, 0x0F, 0xA0])) == 0x50F4
  {
    KnownSteps();
    hide CrcFrom, ByteStep, Bits;
    TwoKnown(0x01, 0x03, 0x01, 0x03);
    AfterTwo([0x01, 0x03], 0x0F, 0xA0, 0x2140, 0x0F, 0xA0);
    assert [0x01, 0x03] + [0x0F, 0xA0] == [0x01, 0x03, 0x0F, 0xA0];
  }

  lemma {:induction false} TwoKnown(a: byte, b: byte, x: bv8, y: bv8)
    requires a as bv8 == x && b as bv8 == y
    ensures CrcFrom(INITIAL, Bits([a, b])) == ByteStep(ByteStep(0xFFFF, x), y)
  {
    AtFirst();
    hide CrcFrom, ByteStep, Bits;
    AfterTwo([], a, b, 0xFFFF, x, y);
    assert [] + [a, b] == [a, b];
  }

  lemma {:induction false} AfterTwo(m: seq<byte>, a: byte, b: byte, c: bv16, x: bv8, y: bv8)
    requires CrcFrom(INITIAL, Bits(m)) == c && a as bv8 == x && b as bv8 == y
    ensures CrcFrom(INITIAL, Bits(m + [a, b])) == ByteStep(ByteStep(c, x), y)
  {
    TwoMoreBytes(INITIAL, m, a, b);
  }
}
