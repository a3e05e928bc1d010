/**
  What the checksum of app/monitor_board_handle.c and app/circuit_breaker_rs485_handle.c means: the remainder of the message
  polynomial, its first sixteen bits inverted, on division by x^16 + x^15 + x^2 + 1, every byte lowest bit first.
  */
module CrcPolynomial {
  import opened Bytes
  import opened Crc16

  /** Coefficients of 0 and 1, highest power first. */
  type Poly = seq<bool>

  function Zeros(n: nat): (p: Poly)
    ensures |p| == n && forall i | 0 <= i < n :: !p[i]
  {
    seq(n, _ => false)
  }

  function Add(p: Poly, q: Poly): (r: Poly)
    requires |p| == |q|
    ensures |r| == |p| && forall i | 0 <= i < |p| :: r[i] == (p[i] != q[i])
  {
    seq(|p|, i requires 0 <= i < |p| => p[i] != q[i])
  }

  /** x^16 + x^15 + x^2 + 1 */
  const GENERATOR: Poly := [true, true, false, false, false, false, false, false, false, false, false, false, false, false,
                            true, false, true]

  /** `q` times the generator. */
  function Times(q: Poly): (r: Poly)
    ensures |r| == |q| + 16
  {
    if q == [] then Zeros(16)
    else
      var n := |q| - 1;
      Add(Times(q[..n]) + [false], if q[n] then Zeros(n) + GENERATOR else Zeros(n + 17))
  }

  /** The bits of a byte, lowest first. */
  function BitsOf(b: byte): (p: Poly)
    ensures |p| == 8
  {
    [b % 2 == 1, b / 2 % 2 == 1, b / 4 % 2 == 1, b / 8 % 2 == 1,
     b / 16 % 2 == 1, b / 32 % 2 == 1, b / 64 % 2 == 1, b / 128 % 2 == 1]
  }

  function MessageBits(s: seq<byte>): (p: Poly)
    ensures |p| == 8 * |s|
  {
    if s == [] then [] else MessageBits(s[..|s| - 1]) + BitsOf(s[|s| - 1])
  }

  /** The message moved up by sixteen places, its first sixteen bits inverted. */
  function Dividend(m: Poly): (p: Poly)
    ensures |p| == |m| + 16
  {
    seq(|m| + 16, i => (if 0 <= i < |m| then m[i] else false) != (i < 16))
  }

  /** A checksum as a polynomial of degree 15. */
  function Register(w: u16): (p: Poly)
    ensures |p| == 16
  {
    BitsOf(w % 256) + BitsOf(w / 256)
  }

  /** `r` is what is left of the dividend when some multiple of the generator is taken away. */
  ghost predicate IsRemainder(m: Poly, r: Poly)
    requires |r| == 16
  {
    exists q: Poly | |q| == |m| :: Dividend(m) == Add(Times(q), Zeros(|m|) + r)
  }

  // ----- Quotient and remainder

  /** One more coefficient: those above are settled, the sixteen below move up and take the generator in. */
  lemma {:induction false} TimesMore(q: Poly, b: bool)
    ensures var n, t, t' := |q|, Times(q), Times(q + [b]);
            && |GENERATOR| == 17
            && t'[..n + 1] == t[..n] + [t[n] != b]
            && t'[n + 1..] == Add(t[n + 1..] + [false], if b then GENERATOR[1..] else Zeros(16))
  {
    TimesIs(q, b);
    GeneratorEnds();
    hide *;
    AddedSlices(Times(q), |q|, b, if b then Zeros(|q|) + GENERATOR else Zeros(|q| + 17));
  }

  lemma {:induction false} AddedSlices(t: Poly, n: nat, b: bool, g: Poly)
    requires |t| == n + 16 && |GENERATOR| == 17 && GENERATOR[0]
    requires g == if b then Zeros(n) + GENERATOR else Zeros(n + 17)
    ensures |g| == n + 17 && Add(t + [false], g)[..n + 1] == t[..n] + [t[n] != b]
    ensures Add(t + [false], g)[n + 1..] == Add(t[n + 1..] + [false], if b then GENERATOR[1..] else Zeros(16))
  {
    hide *;
    TermSlices(n, b, g);
    AddSlices(t + [false], g, n);
    MovedUpSlices(t, n);
  }

  lemma {:induction false} MovedUpSlices(t: Poly, n: nat)
    requires |t| == n + 16
    ensures var p := t + [false]; p[..n] == t[..n] && p[n] == t[n] && p[n + 1..] == t[n + 1..] + [false]
  {}

  lemma {:induction false} TimesIs(q: Poly, b: bool)
    ensures Times(q + [b]) == Add(Times(q) + [false], if b then Zeros(|q|) + GENERATOR else Zeros(|q| + 17))
  {
    hide Add, GENERATOR;
    assert (q + [b])[..|q|] == q;
  }

  lemma {:induction false} TermSlices(n: nat, b: bool, g: Poly)
    requires |GENERATOR| == 17 && GENERATOR[0] && g == if b then Zeros(n) + GENERATOR else Zeros(n + 17)
    ensures |g| == n + 17 && g[..n] == Zeros(n) && g[n] == b
    ensures g[n + 1..] == if b then GENERATOR[1..] else Zeros(16)
  {
    hide *;
  }

  lemma {:induction false} AddSlices(p: Poly, g: Poly, n: nat)
    requires |p| == |g| == n + 17 && g[..n] == Zeros(n)
    ensures Add(p, g)[..n + 1] == p[..n] + [p[n] != g[n]] && Add(p, g)[n + 1..] == Add(p[n + 1..], g[n + 1..])
  {
    hide *;
    forall i | 0 <= i < n ensures Add(p, g)[i] == p[i] {
      assert !g[..n][i];
    }
  }

  lemma {:induction false} GeneratorEnds()
    ensures |GENERATOR| == 17 && GENERATOR[0]
  {}

  lemma {:induction false} SumSlices(d: Poly, t: Poly, n: nat, r: Poly)
    requires |d| == |t| == n + 16 && |r| == 16
    ensures d == Add(t, Zeros(n) + r) <==> d[..n] == t[..n] && d[n..] == Add(t[n..], r)
  {
    hide *;
    var s := Add(t, Zeros(n) + r);
    forall i | 0 <= i < n ensures s[i] == t[i] {
      assert (Zeros(n) + r)[i] == Zeros(n)[i];
    }
    assert s[..n] == t[..n] && s[n..] == Add(t[n..], r);
    assert d == d[..n] + d[n..] && s == s[..n] + s[n..];
  }

  lemma {:induction false} LeadingTerms(q: Poly, p: Poly)
    requires |q| == |p| && Times(q)[..|q|] == Times(p)[..|q|]
    ensures q == p
  {
    hide *;
    if q != [] {
      var n := |q| - 1;
      assert q == q[..n] + [q[n]] && p == p[..n] + [p[n]];
      TimesMore(q[..n], q[n]);
      TimesMore(p[..n], p[n]);
      var a, b := Times(q[..n])[..n], Times(p[..n])[..n];
      var x, y := Times(q[..n])[n], Times(p[..n])[n];
      SameJoined(a, x != q[n], b, y != p[n]);
      LeadingTerms(q[..n], p[..n]);
      assert x == y;
    }
  }

  lemma {:induction false} SameJoined(a: Poly, x: bool, b: Poly, y: bool)
    requires |a| == |b| && a + [x] == b + [y]
    ensures a == b && x == y
  {
    assert (a + [x])[..|a|] == a && (b + [y])[..|b|] == b;
    assert (a + [x])[|a|] == x && (b + [y])[|b|] == y;
  }

  /** There is one remainder. */
  lemma {:induction false} RemainderIsUnique(m: Poly, r: Poly, r': Poly)
    requires |r| == |r'| == 16 && IsRemainder(m, r) && IsRemainder(m, r')
    ensures r == r'
  {
    var n := |m|;
    var q: Poly :| |q| == n && Dividend(m) == Add(Times(q), Zeros(n) + r);
    var p: Poly :| |p| == n && Dividend(m) == Add(Times(p), Zeros(n) + r');
    hide *;
    SumSlices(Dividend(m), Times(q), n, r);
    SumSlices(Dividend(m), Times(p), n, r');
    LeadingTerms(q, p);
    SameAdded(Times(q)[n..], r, r');
  }

  lemma {:induction false} SameAdded(t: Poly, r: Poly, r': Poly)
    requires |t| == |r| == |r'| && Add(t, r) == Add(t, r')
    ensures r == r'
  {
    hide *;
    forall i | 0 <= i < |t| ensures r[i] == r'[i] {
      assert Add(t, r)[i] == Add(t, r')[i];
    }
  }

  // ----- The register holds it

  function RegisterBits(c: bv16): (p: Poly)
    ensures |p| == 16
  {
    [c & 0x0001 != 0, c & 0x0002 != 0, c & 0x0004 != 0, c & 0x0008 != 0,
     c & 0x0010 != 0, c & 0x0020 != 0, c & 0x0040 != 0, c & 0x0080 != 0,
     c & 0x0100 != 0, c & 0x0200 != 0, c & 0x0400 != 0, c & 0x0800 != 0,
     c & 0x1000 != 0, c & 0x2000 != 0, c & 0x4000 != 0, c & 0x8000 != 0]
  }

  /** One bit of the message. */
  function Fed(c: bv16, b: bool): bv16 {
    BitStep(if b then c ^ 1 else c)
  }

  function FedAll(m: Poly): bv16 {
    if m == [] then INITIAL else Fed(FedAll(m[..|m| - 1]), m[|m| - 1])
  }

  lemma {:induction false} ShiftedBits(c: bv16)
    ensures var r := RegisterBits(c);
            RegisterBits(c >> 1) == [r[1], r[2], r[3], r[4], r[5], r[6], r[7], r[8], r[9], r[10], r[11], r[12], r[13],
                                     r[14], r[15], false]
  {
    assert (c >> 1) & 0x0001 != 0 <==> c & 0x0002 != 0;
    assert (c >> 1) & 0x0002 != 0 <==> c & 0x0004 != 0;
    assert (c >> 1) & 0x0004 != 0 <==> c & 0x0008 != 0;
    assert (c >> 1) & 0x0008 != 0 <==> c & 0x0010 != 0;
    assert (c >> 1) & 0x0010 != 0 <==> c & 0x0020 != 0;
    assert (c >> 1) & 0x0020 != 0 <==> c & 0x0040 != 0;
    assert (c >> 1) & 0x0040 != 0 <==> c & 0x0080 != 0;
    assert (c >> 1) & 0x0080 != 0 <==> c & 0x0100 != 0;
    assert (c >> 1) & 0x0100 != 0 <==> c & 0x0200 != 0;
    assert (c >> 1) & 0x0200 != 0 <==> c & 0x0400 != 0;
    assert (c >> 1) & 0x0400 != 0 <==> c & 0x0800 != 0;
    assert (c >> 1) & 0x0800 != 0 <==> c & 0x1000 != 0;
    assert (c >> 1) & 0x1000 != 0 <==> c & 0x2000 != 0;
    assert (c >> 1) & 0x2000 != 0 <==> c & 0x4000 != 0;
    assert (c >> 1) & 0x4000 != 0 <==> c & 0x8000 != 0;
    assert (c >> 1) & 0x8000 == 0;
  }

  lemma {:induction false} FlippedBits(c: bv16)
    ensures var r := RegisterBits(c);
            RegisterBits(c ^ POLYNOM) == [!r[0], r[1], r[2], r[3], r[4], r[5], r[6], r[7], r[8], r[9], r[10], r[11],
                                          r[12], !r[13], r[14], !r[15]]
  {}

  lemma {:induction false} LowestFlipped(c: bv16)
    ensures var r := RegisterBits(c);
            RegisterBits(c ^ 1) == [!r[0], r[1], r[2], r[3], r[4], r[5], r[6], r[7], r[8], r[9], r[10], r[11], r[12],
                                    r[13], r[14], r[15]]
  {}

  lemma {:induction false} StepBits(c: bv16)
    ensures BitStep(c) == if RegisterBits(c)[0] then (c >> 1) ^ POLYNOM else c >> 1
  {
    assert c & 1 == 1 <==> c & 1 != 0;
  }

  lemma {:induction false} GeneratorAdded(r: Poly)
    requires |r| == 16
    ensures |GENERATOR| == 17
    ensures Add(r[1..] + [false], GENERATOR[1..])
            == [!r[1], r[2], r[3], r[4], r[5], r[6], r[7], r[8], r[9], r[10], r[11], r[12], r[13], !r[14], r[15], true]
  {
    var p, g := r[1..] + [false], GENERATOR[1..];
    MovedBits(r);
    GeneratorTail();
    hide *;
    FlipsThree(p, g);
    var x := [!r[1], r[2], r[3], r[4], r[5], r[6], r[7], r[8], r[9], r[10], r[11], r[12], r[13], !r[14], r[15], true];
    assert p[0 := !p[0]][13 := !p[13]][15 := !p[15]] == x;
  }

  lemma {:induction false} GeneratorTail()
    ensures |GENERATOR| == 17
    ensures var g := GENERATOR[1..]; g[0] && g[13] && g[15] && forall i | 0 <= i < 16 && i !in {0, 13, 15} :: !g[i]
  {}

  lemma {:induction false} FlipsThree(p: Poly, g: Poly)
    requires |p| == |g| == 16 && g[0] && g[13] && g[15] && forall i | 0 <= i < 16 && i !in {0, 13, 15} :: !g[i]
    ensures Add(p, g) == p[0 := !p[0]][13 := !p[13]][15 := !p[15]]
  {
    hide *;
  }

  lemma {:induction false} NothingAdded(p: Poly)
    requires |p| == 16
    ensures Add(p, Zeros(16)) == p
  {
    hide *;
  }

  lemma {:induction false} MovedBits(r: Poly)
    requires |r| == 16
    ensures r[1..] + [false]
            == [r[1], r[2], r[3], r[4], r[5], r[6], r[7], r[8], r[9], r[10], r[11], r[12], r[13], r[14], r[15], false]
  {}

  /** A bit shifts the register up by a place, and takes the generator away if a one comes out at the top. */
  lemma {:induction false} FedShifts(c: bv16, b: bool)
    ensures |GENERATOR| == 17
    ensures var r := RegisterBits(c);
            RegisterBits(Fed(c, b)) == Add(r[1..] + [false], if r[0] != b then GENERATOR[1..] else Zeros(16))
  {
    var r := RegisterBits(c);
    hide *;
    FedTwoWays(c, b);
    GeneratorAdded(r);
    NothingAdded(r[1..] + [false]);
    MovedBits(r);
  }

  lemma {:induction false} FedTwoWays(c: bv16, b: bool)
    ensures var r := RegisterBits(c);
            RegisterBits(Fed(c, b))
            == if r[0] != b
               then [!r[1], r[2], r[3], r[4], r[5], r[6], r[7], r[8], r[9], r[10], r[11], r[12], r[13], !r[14], r[15], true]
               else [r[1], r[2], r[3], r[4], r[5], r[6], r[7], r[8], r[9], r[10], r[11], r[12], r[13], r[14], r[15], false]
  {
    hide RegisterBits, BitStep, POLYNOM;
    var x := if b then c ^ 1 else c;
    LowestFlipped(c);
    StepBits(x);
    ShiftedBits(x);
    FlippedBits(x >> 1);
  }

  /** A further bit is added where the sixteen places below begin, which move up. */
  lemma {:induction false} DividendMore(m: Poly, b: bool)
    ensures var n, d, d' := |m|, Dividend(m), Dividend(m + [b]);
            d'[..n + 1] == d[..n] + [d[n] != b] && d'[n + 1..] == d[n + 1..] + [false]
  {}

  /** Division bit by bit. */
  lemma {:induction false} Divide(m: Poly) returns (q: Poly)
    ensures |q| == |m| && Dividend(m) == Add(Times(q), Zeros(|m|) + RegisterBits(FedAll(m)))
  {
    hide *;
    if m == [] {
      q := [];
      NothingDivided();
      assert m == [];
    } else {
      var n := |m| - 1;
      var p := Divide(m[..n]);
      var c := FedAll(m[..n]);
      q := p + [RegisterBits(c)[0] != m[n]];
      assert m == m[..n] + [m[n]];
      FedOneMore(m[..n], m[n]);
      DivideMore(m[..n], m[n], p, q, c);
    }
  }

  lemma {:induction false} FedOneMore(m: Poly, b: bool)
    ensures FedAll(m + [b]) == Fed(FedAll(m), b)
  {
    hide Fed;
    assert (m + [b])[..|m|] == m;
  }

  lemma {:induction false} NothingDivided()
    ensures Dividend([]) == Add(Times([]), Zeros(0) + RegisterBits(FedAll([])))
  {
    assert RegisterBits(INITIAL) == [true, true, true, true, true, true, true, true, true, true, true, true, true, true, true, true];
  }

  lemma {:induction false} DivideMore(m: Poly, b: bool, p: Poly, q: Poly, c: bv16)
    requires |p| == |m| && Dividend(m) == Add(Times(p), Zeros(|m|) + RegisterBits(c))
    requires q == p + [RegisterBits(c)[0] != b]
    ensures Dividend(m + [b]) == Add(Times(q), Zeros(|m| + 1) + RegisterBits(Fed(c, b)))
  {
    hide *;
    var n, d, d' := |m|, Dividend(m), Dividend(m + [b]);
    var r, r', lead := RegisterBits(c), RegisterBits(Fed(c, b)), RegisterBits(c)[0] != b;
    var t, t' := Times(p), Times(q);
    TimesMore(p, lead);
    FedShifts(c, b);
    DividendMore(m, b);
    SumSlices(d, t, n, r);
    SumSlices(d', t', n + 1, r');
    var g := if lead then GENERATOR[1..] else Zeros(16);
    Settled(d[n..], t[n..], r);
    assert d[n + 1..] == d[n..][1..] && t[n + 1..] == t[n..][1..];
    MovedUp(d[n..][1..], t[n..][1..], r[1..], g);
  }

  lemma {:induction false} Settled(d: Poly, t: Poly, r: Poly)
    requires |d| == |t| == |r| == 16 && d == Add(t, r)
    ensures d[0] == (t[0] != r[0]) && d[1..] == Add(t[1..], r[1..])
  {
    hide *;
  }

  lemma {:induction false} MovedUp(d: Poly, t: Poly, r: Poly, g: Poly)
    requires |t| == |r| == 15 && d == Add(t, r) && |g| == 16
    ensures d + [false] == Add(Add(t + [false], g), Add(r + [false], g))
  {
    hide *;
  }

  // ----- From bits to bytes

  /** What is mixed into a register. */
  function Mixed(c: bv16, x: bv16): bv16 {
    c ^ x
  }

  function Later(x: bv16): bv16 {
    x >> 1
  }

  function Lowest(x: bv16): bool {
    x & 1 != 0
  }

  lemma {:induction false} LowestMixed(c: bv16, x: bv16)
    ensures Lowest(Mixed(c, x)) == (Lowest(c) != Lowest(x))
  {}

  lemma {:induction false} LaterMixed(c: bv16, x: bv16)
    ensures Later(Mixed(c, x)) == Mixed(Later(c), Later(x))
  {}

  lemma {:induction false} OneMixed(c: bv16)
    ensures Lowest(Mixed(c, 1)) == !Lowest(c) && Later(Mixed(c, 1)) == Later(c)
  {}

  lemma {:induction false} StepOf(y: bv16, c: bv16, e: bv16)
    requires Lowest(y) == Lowest(c) && Later(y) == Mixed(Later(c), e)
    ensures BitStep(y) == Mixed(BitStep(c), e)
  {}

  lemma {:induction false} FedIs(c: bv16, b: bool)
    ensures Fed(c, b) == BitStep(if b then Mixed(c, 1) else c)
  {
    hide BitStep;
  }

  /** The register's step over what is mixed into it: the lowest bit now, the others later. */
  lemma {:induction false} MixedIn(c: bv16, x: bv16)
    ensures BitStep(Mixed(c, x)) == Mixed(Fed(c, Lowest(x)), Later(x))
  {
    hide *;
    LowestMixed(c, x);
    LaterMixed(c, x);
    OneMixed(c);
    FedIs(c, Lowest(x));
    StepOf(Mixed(c, x), if Lowest(x) then Mixed(c, 1) else c, Later(x));
  }

  /** Four bits of `x` fed one by one. */
  function FedFour(c: bv16, x: bv16): bv16 {
    var x1 := Later(x);
    var x2 := Later(x1);
    Fed(Fed(Fed(Fed(c, Lowest(x)), Lowest(x1)), Lowest(x2)), Lowest(Later(x2)))
  }

  lemma {:induction false} FourMixed(c: bv16, x: bv16)
    ensures FourBits(Mixed(c, x)) == Mixed(FedFour(c, x), Later(Later(Later(Later(x)))))
  {
    hide BitStep, Fed, Mixed, Later, Lowest;
    var x1 := Later(x);
    var x2 := Later(x1);
    var x3 := Later(x2);
    var c1 := Fed(c, Lowest(x));
    var c2 := Fed(c1, Lowest(x1));
    MixedIn(c, x);
    MixedIn(c1, x1);
    MixedIn(c2, x2);
    MixedIn(Fed(c2, Lowest(x2)), x3);
  }

  lemma {:induction false} ByteIsEightBits(c: bv16, b: bv8)
    ensures ByteStep(c, b) == FedFour(FedFour(c, b as bv16), (b as bv16) >> 4)
  {
    var x := b as bv16;
    StepInFours(c, b);
    FourLater(b);
    hide *;
    FourMixed(c, x);
    FourMixed(FedFour(c, x), x >> 4);
  }

  lemma {:induction false} FourLater(b: bv8)
    ensures var x := b as bv16;
            Later(Later(Later(Later(x)))) == x >> 4 && Later(Later(Later(Later(x >> 4)))) == 0
    ensures forall c: bv16 :: Mixed(c, 0) == c
  {}

  lemma {:induction false} StepInFours(c: bv16, b: bv8)
    ensures ByteStep(c, b) == FourBits(FourBits(Mixed(c, b as bv16)))
  {
    hide FourBits;
  }

  lemma {:induction false} BitsMixed(b: bv8)
    ensures var x := b as bv16;
            && Lowest(x) == (b & 0x01 != 0) && Lowest(Later(x)) == (b & 0x02 != 0)
            && Lowest(Later(Later(x))) == (b & 0x04 != 0) && Lowest(Later(Later(Later(x)))) == (b & 0x08 != 0)
    ensures var x := (b as bv16) >> 4;
            && Lowest(x) == (b & 0x10 != 0) && Lowest(Later(x)) == (b & 0x20 != 0)
            && Lowest(Later(Later(x))) == (b & 0x40 != 0) && Lowest(Later(Later(Later(x)))) == (b & 0x80 != 0)
  {}

  lemma {:induction false} Half(x: bv8)
    ensures x as int == 2 * ((x >> 1) as int) + if x & 1 != 0 then 1 else 0
  {}

  /** The bits of a byte held as a number are those of its bit vector. */
  lemma {:induction false} BitsOfByte(b: byte)
    ensures var x := b as bv8;
            BitsOf(b) == [x & 0x01 != 0, x & 0x02 != 0, x & 0x04 != 0, x & 0x08 != 0,
                          x & 0x10 != 0, x & 0x20 != 0, x & 0x40 != 0, x & 0x80 != 0]
  {
    var x := b as bv8;
    ByteRoundTrip(b);
    Half(x);
    Half(x >> 1);
    Half(x >> 1 >> 1);
    Half(x >> 1 >> 1 >> 1);
    Half(x >> 1 >> 1 >> 1 >> 1);
    Half(x >> 1 >> 1 >> 1 >> 1 >> 1);
    Half(x >> 1 >> 1 >> 1 >> 1 >> 1 >> 1);
    Half(x >> 1 >> 1 >> 1 >> 1 >> 1 >> 1 >> 1);
    Shifts(x);
  }

  lemma {:induction false} Shifts(x: bv8)
    ensures (x >> 1) & 1 != 0 <==> x & 0x02 != 0
    ensures (x >> 1 >> 1) & 1 != 0 <==> x & 0x04 != 0
    ensures (x >> 1 >> 1 >> 1) & 1 != 0 <==> x & 0x08 != 0
    ensures (x >> 1 >> 1 >> 1 >> 1) & 1 != 0 <==> x & 0x10 != 0
    ensures (x >> 1 >> 1 >> 1 >> 1 >> 1) & 1 != 0 <==> x & 0x20 != 0
    ensures (x >> 1 >> 1 >> 1 >> 1 >> 1 >> 1) & 1 != 0 <==> x & 0x40 != 0
    ensures (x >> 1 >> 1 >> 1 >> 1 >> 1 >> 1 >> 1) & 1 != 0 <==> x & 0x80 != 0
    ensures x >> 1 >> 1 >> 1 >> 1 >> 1 >> 1 >> 1 >> 1 == 0
  {}

  lemma {:induction false} FedByte(m: Poly, b: byte)
    ensures FedAll(m + BitsOf(b)) == ByteStep(FedAll(m), b as bv8)
  {
    hide *;
    var x := b as bv8;
    BitsOfByte(b);
    StepInEight(FedAll(m), x);
    FedListed(m, BitsOf(b), x, x & 0x01 != 0, x & 0x02 != 0, x & 0x04 != 0, x & 0x08 != 0,
              x & 0x10 != 0, x & 0x20 != 0, x & 0x40 != 0, x & 0x80 != 0);
  }

  lemma {:induction false} FedListed(m: Poly, p: Poly, x: bv8, b0: bool, b1: bool, b2: bool, b3: bool,
                                     b4: bool, b5: bool, b6: bool, b7: bool)
    requires p == [b0, b1, b2, b3, b4, b5, b6, b7]
    requires ByteStep(FedAll(m), x) == Fed(Fed(Fed(Fed(Fed(Fed(Fed(Fed(FedAll(m), b0), b1), b2), b3), b4), b5), b6), b7)
    ensures FedAll(m + p) == ByteStep(FedAll(m), x)
  {
    hide *;
    FedEight(m, b0, b1, b2, b3, b4, b5, b6, b7);
  }

  /** A byte mixed in and shifted by eight is its bits fed one by one, lowest first. */
  lemma {:induction false} StepInEight(c: bv16, x: bv8)
    ensures ByteStep(c, x)
            == Fed(Fed(Fed(Fed(Fed(Fed(Fed(Fed(c, x & 0x01 != 0), x & 0x02 != 0), x & 0x04 != 0), x & 0x08 != 0),
                               x & 0x10 != 0), x & 0x20 != 0), x & 0x40 != 0), x & 0x80 != 0)
  {
    hide *;
    BitsMixed(x);
    ByteIsEightBits(c, x);
    FedFourIs(c, x as bv16);
    FedFourIs(FedFour(c, x as bv16), (x as bv16) >> 4);
  }

  lemma {:induction false} FedFourIs(c: bv16, x: bv16)
    ensures FedFour(c, x)
            == Fed(Fed(Fed(Fed(c, Lowest(x)), Lowest(Later(x))), Lowest(Later(Later(x)))), Lowest(Later(Later(Later(x)))))
  {
    hide Fed, Lowest, Later;
  }

  lemma {:induction false} FedBehind(m: Poly, p: Poly, b: bool)
    ensures FedAll(m + (p + [b])) == Fed(FedAll(m + p), b)
  {
    hide *;
    FedOneMore(m + p, b);
    assert m + (p + [b]) == m + p + [b];
  }

  lemma {:induction false} FedInTurn(m: Poly, b0: bool, b1: bool, b2: bool, b3: bool)
    ensures FedAll(m + [b0, b1, b2, b3]) == Fed(Fed(Fed(Fed(FedAll(m), b0), b1), b2), b3)
  {
    hide *;
    assert m + [] == m;
    FedBehind(m, [], b0);
    assert [] + [b0] == [b0];
    FedBehind(m, [b0], b1);
    assert [b0] + [b1] == [b0, b1];
    FedBehind(m, [b0, b1], b2);
    assert [b0, b1] + [b2] == [b0, b1, b2];
    FedBehind(m, [b0, b1, b2], b3);
    assert [b0, b1, b2] + [b3] == [b0, b1, b2, b3];
  }

  lemma {:induction false} FedEight(m: Poly, b0: bool, b1: bool, b2: bool, b3: bool, b4: bool, b5: bool, b6: bool, b7: bool)
    ensures FedAll(m + [b0, b1, b2, b3, b4, b5, b6, b7])
            == Fed(Fed(Fed(Fed(Fed(Fed(Fed(Fed(FedAll(m), b0), b1), b2), b3), b4), b5), b6), b7)
  {
    hide *;
    FedInTurn(m, b0, b1, b2, b3);
    FedInTurn(m + [b0, b1, b2, b3], b4, b5, b6, b7);
    assert m + [b0, b1, b2, b3, b4, b5, b6, b7] == m + [b0, b1, b2, b3] + [b4, b5, b6, b7];
  }

  lemma {:induction false} MessageIsFed(s: seq<byte>)
    ensures FedAll(MessageBits(s)) == CrcFrom(INITIAL, Bits(s))
  {
    hide Fed, ByteStep, BitsOf;
    if s == [] {
      assert Bits(s) == [];
    } else {
      var n := |s| - 1;
      MessageIsFed(s[..n]);
      FedByte(MessageBits(s[..n]), s[n]);
      assert s[..n + 1] == s;
      OneMoreByte(INITIAL, s, n);
    }
  }

  /** The bits of a register and of its two bytes are the same. */
  lemma {:induction false} RegisterIsBits(c: bv16)
    ensures Register(c as int) == RegisterBits(c)
  {
    hide *;
    RegisterHalves(c);
    LowHalf(c);
    HighHalf(c);
    JoinedBits(RegisterBits(c), BitsOf(LowByte(c) as int), BitsOf(HighByte(c) as int));
  }

  lemma {:induction false} RegisterHalves(c: bv16)
    ensures Register(c as int) == BitsOf(LowByte(c) as int) + BitsOf(HighByte(c) as int)
  {
    hide BitsOf, LowByte, HighByte;
    BytesOfWord(c);
  }

  lemma {:induction false} LowHalf(c: bv16)
    ensures var r := RegisterBits(c);
            BitsOf(LowByte(c) as int) == [r[0], r[1], r[2], r[3], r[4], r[5], r[6], r[7]]
  {
    hide BitsOf, LowByte;
    BitsOfVector(LowByte(c));
    LowBits(c);
  }

  lemma {:induction false} HighHalf(c: bv16)
    ensures var r := RegisterBits(c);
            BitsOf(HighByte(c) as int) == [r[8], r[9], r[10], r[11], r[12], r[13], r[14], r[15]]
  {
    hide BitsOf, HighByte;
    BitsOfVector(HighByte(c));
    HighBits(c);
  }

  lemma {:induction false} BitsOfVector(x: bv8)
    ensures BitsOf(x as int) == [x & 0x01 != 0, x & 0x02 != 0, x & 0x04 != 0, x & 0x08 != 0,
                                 x & 0x10 != 0, x & 0x20 != 0, x & 0x40 != 0, x & 0x80 != 0]
  {
    hide BitsOf;
    BitsRoundTrip(x);
    BitsOfByte(x as int);
  }

  lemma {:induction false} JoinedBits(r: Poly, l: Poly, h: Poly)
    requires |r| == 16 && |l| == |h| == 8
    requires l == [r[0], r[1], r[2], r[3], r[4], r[5], r[6], r[7]]
    requires h == [r[8], r[9], r[10], r[11], r[12], r[13], r[14], r[15]]
    ensures l + h == r
  {
    hide *;
  }

  lemma {:induction false} LowBits(c: bv16)
    ensures LowByte(c) & 0x01 != 0 <==> c & 0x0001 != 0
    ensures LowByte(c) & 0x02 != 0 <==> c & 0x0002 != 0
    ensures LowByte(c) & 0x04 != 0 <==> c & 0x0004 != 0
    ensures LowByte(c) & 0x08 != 0 <==> c & 0x0008 != 0
    ensures LowByte(c) & 0x10 != 0 <==> c & 0x0010 != 0
    ensures LowByte(c) & 0x20 != 0 <==> c & 0x0020 != 0
    ensures LowByte(c) & 0x40 != 0 <==> c & 0x0040 != 0
    ensures LowByte(c) & 0x80 != 0 <==> c & 0x0080 != 0
  {}

  lemma {:induction false} HighBits(c: bv16)
    ensures HighByte(c) & 0x01 != 0 <==> c & 0x0100 != 0
    ensures HighByte(c) & 0x02 != 0 <==> c & 0x0200 != 0
    ensures HighByte(c) & 0x04 != 0 <==> c & 0x0400 != 0
    ensures HighByte(c) & 0x08 != 0 <==> c & 0x0800 != 0
    ensures HighByte(c) & 0x10 != 0 <==> c & 0x1000 != 0
    ensures HighByte(c) & 0x20 != 0 <==> c & 0x2000 != 0
    ensures HighByte(c) & 0x40 != 0 <==> c & 0x4000 != 0
    ensures HighByte(c) & 0x80 != 0 <==> c & 0x8000 != 0
  {}

  lemma {:induction false} BitsDetermineNumber(a: byte, b: byte)
    requires BitsOf(a) == BitsOf(b)
    ensures a == b
  {
    BitsAt(a);
    BitsAt(b);
    Recomposed(a);
    Recomposed(b);
    hide *;
    var p, q := BitsOf(a), BitsOf(b);
    assert forall i | 0 <= i < 8 :: p[i] == q[i];
  }

  lemma {:induction false} BitsAt(b: byte)
    ensures var p := BitsOf(b);
            && b % 2 == (if p[0] then 1 else 0) && b / 2 % 2 == (if p[1] then 1 else 0)
            && b / 4 % 2 == (if p[2] then 1 else 0) && b / 8 % 2 == (if p[3] then 1 else 0)
            && b / 16 % 2 == (if p[4] then 1 else 0) && b / 32 % 2 == (if p[5] then 1 else 0)
            && b / 64 % 2 == (if p[6] then 1 else 0) && b / 128 % 2 == (if p[7] then 1 else 0)
  {}

  lemma {:induction false} Recomposed(b: byte)
    ensures b == b % 2 + 2 * (b / 2 % 2) + 4 * (b / 4 % 2) + 8 * (b / 8 % 2)
                 + 16 * (b / 16 % 2) + 32 * (b / 32 % 2) + 64 * (b / 64 % 2) + 128 * (b / 128 % 2)
  {
    Quarters(b);
    assert b == 16 * (b / 16) + 8 * (b / 8 % 2) + 4 * (b / 4 % 2) + 2 * (b / 2 % 2) + b % 2;
    Sixteenths(b);
  }

  lemma {:induction false} Quarters(b: byte)
    ensures b == 2 * (b / 2) + b % 2 && b / 2 == 2 * (b / 4) + b / 2 % 2
    ensures b / 4 == 2 * (b / 8) + b / 4 % 2 && b / 8 == 2 * (b / 16) + b / 8 % 2
  {}

  lemma {:induction false} Sixteenths(b: byte)
    ensures b / 16 == 2 * (b / 32) + b / 16 % 2 && b / 32 == 2 * (b / 64) + b / 32 % 2
    ensures b / 64 == 2 * (b / 128) + b / 64 % 2 && b / 128 == b / 128 % 2
  {}

  lemma {:induction false} RegisterDetermines(w: u16, v: u16)
    requires Register(w) == Register(v)
    ensures w == v
  {
    hide BitsOf;
    assert Register(w)[..8] == BitsOf(w % 256) && Register(v)[..8] == BitsOf(v % 256);
    assert Register(w)[8..] == BitsOf(w / 256) && Register(v)[8..] == BitsOf(v / 256);
    BitsDetermineNumber(w % 256, v % 256);
    BitsDetermineNumber(w / 256, v / 256);
  }

  /** The checksum of a message is the remainder, and nothing else is. */
  lemma {:induction false} CrcIsRemainder(s: seq<byte>, c: u16)
    ensures Crc(s) == c <==> IsRemainder(MessageBits(s), Register(c))
  {
    var m := MessageBits(s);
    var reg := CrcFrom(INITIAL, Bits(s));
    assert Crc(s) == reg as int;
    hide *;
    MessageIsFed(s);
    var q := Divide(m);
    RegisterIsBits(reg);
    Remains(m, q, RegisterBits(reg));
    if IsRemainder(m, Register(c)) {
      RemainderIsUnique(m, Register(c), Register(Crc(s)));
      RegisterDetermines(c, Crc(s));
    }
  }

  lemma {:induction false} Remains(m: Poly, q: Poly, r: Poly)
    requires |q| == |m| && |r| == 16 && Dividend(m) == Add(Times(q), Zeros(|m|) + r)
    ensures IsRemainder(m, r)
  {
    hide Dividend, Add, Times, Zeros;
  }
}
