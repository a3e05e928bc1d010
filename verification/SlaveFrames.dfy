/**
  The framed RS485 protocol of app/monitor_board_handle.c: three frame builders, the
  byte-at-a-time interrupt parser with its 8-bit cursor, and its receive timeout.
  */
module SlaveFrames {
  import opened Bytes
  import opened Crc16

  const HEAD1: byte := 0xF5
  const HEAD2: byte := 0x5F
  const END1: byte := 0x0D
  const END2: byte := 0x0A

  const FUN_SEARCH: byte := 0x01
  const FUN_READ: byte := 0x02
  const FUN_WRITE: byte := 0x03
  const FUN_ASK_SEARCH: byte := 0x81

  const ADDR_RELAY1_STATUS: u16 := 0x0000
  const ADDR_DRIVER_TYPE: u16 := 0xFF00

  // ----- Frames

  datatype Message = Message(id: byte, fun: byte, payload: seq<byte>)

  /** The length field counts the function byte, the payload and two more bytes. */
  predicate Sendable(m: Message) {
    |m.payload| + 3 <= 248
  }

  /** What the checksum covers: id, length field, function, payload. */
  function Body(m: Message): (b: seq<byte>)
    requires Sendable(m)
    ensures |b| == |m.payload| + 4
  {
    var len := |m.payload| + 3;
    [m.id, Hi(len), Lo(len), m.fun] + m.payload
  }

  /** A body between the head code and the checksum, high byte first, and end code. */
  function Sealed(body: seq<byte>, crc: u16): (f: seq<byte>)
    ensures |f| == |body| + 6
  {
    [HEAD1, HEAD2] + body + [Hi(crc), Lo(crc), END1, END2]
  }

  function Frame(m: Message): (f: seq<byte>)
    requires Sendable(m)
    ensures |f| == |m.payload| + 10
  {
    Sealed(Body(m), Crc(Body(m)))
  }

  function Decode(f: seq<byte>): Message
    requires |f| >= 10
  {
    Message(f[2], f[5], f[6..|f| - 4])
  }

  // ----- The parser on the bytes it holds

  function AnnouncedLength(held: seq<byte>): u16
    requires |held| >= 5
  {
    Word(held[3], held[4])
  }

  predicate ChecksumOk(h: seq<byte>)
    requires |h| >= 5 && |h| >= AnnouncedLength(h) + 7
  {
    var len := AnnouncedLength(h);
    Word(h[len + 3], h[len + 4]) == Crc(h[2..len + 3])
  }

  /** The bytes held after one more byte: none while hunting for a head code. */
  function Next(held: seq<byte>, b: byte): seq<byte> {
    var h := held + [b];
    if |held| == 0 then (if b == HEAD1 then h else [])
    else if |held| == 1 then (if b == HEAD2 then h else [])
    else if |held| < 4 then h
    else if |held| == 4 then (if AnnouncedLength(h) >= 256 then [] else h)
    else if |h| >= 256 then []                     // the cursor wraps to zero
    else if |h| < AnnouncedLength(h) + 7 then h
    else []
  }

  predicate Completes(held: seq<byte>, b: byte) {
    var h := held + [b];
    5 <= |held| < 255 && |h| >= AnnouncedLength(h) + 7 && ChecksumOk(h)
  }

  function HeldAfter(held: seq<byte>, bytes: seq<byte>): seq<byte>
    decreases |bytes|
  {
    if bytes == [] then held
    else Next(HeldAfter(held, bytes[..|bytes| - 1]), bytes[|bytes| - 1])
  }

  /** The frames handed on while `bytes` arrive. */
  function Accepted(held: seq<byte>, bytes: seq<byte>): seq<seq<byte>>
    decreases |bytes|
  {
    if bytes == [] then []
    else
      var before, b := bytes[..|bytes| - 1], bytes[|bytes| - 1];
      var h := HeldAfter(held, before);
      if Completes(h, b) then Accepted(held, before) + [h + [b]] else Accepted(held, before)
  }

  /** What the buffer can hold between two bytes. */
  predicate Holdable(h: seq<byte>) {
    && |h| <= 255
    && (|h| >= 1 ==> h[0] == HEAD1)
    && (|h| >= 2 ==> h[1] == HEAD2)
    && (|h| >= 5 ==> AnnouncedLength(h) < 256 && |h| < AnnouncedLength(h) + 7)
  }

  /** What can be handed on. */
  predicate Acceptable(f: seq<byte>) {
    && 7 <= |f| <= 255 && f[0] == HEAD1 && f[1] == HEAD2
    && |f| == AnnouncedLength(f) + 7 && ChecksumOk(f)
  }

  lemma {:induction false} NextIsHoldable(held: seq<byte>, b: byte)
    requires Holdable(held)
    ensures Holdable(Next(held, b))
    ensures Completes(held, b) ==> Acceptable(held + [b]) && Next(held, b) == []
  {}

  /** Whatever arrives, every frame handed on is complete and has the right checksum. */
  lemma {:induction false} OnlyValidFramesAreAccepted(held: seq<byte>, bytes: seq<byte>)
    requires Holdable(held)
    ensures Holdable(HeldAfter(held, bytes))
    ensures forall f | f in Accepted(held, bytes) :: Acceptable(f)
  {
    if bytes != [] {
      var n := |bytes| - 1;
      OnlyValidFramesAreAccepted(held, bytes[..n]);
      NextIsHoldable(HeldAfter(held, bytes[..n]), bytes[n]);
    }
  }

  /** An accepted frame is the builders' frame of what it says, up to the unchecked end code. */
  lemma {:induction false} AcceptedIsBuilt(f: seq<byte>)
    requires Acceptable(f) && |f| >= 10
    ensures Sendable(Decode(f)) && f[..|f| - 2] == Frame(Decode(f))[..|f| - 2]
  {
    var len := AnnouncedLength(f);
    var body := f[2..len + 3];
    BodyOfDecoded(f);
    SealAgain(f, body, Word(f[len + 3], f[len + 4]));
  }

  lemma {:induction false} BodyOfDecoded(f: seq<byte>)
    requires 10 <= |f| <= 255 && |f| == AnnouncedLength(f) + 7
    ensures Sendable(Decode(f)) && Body(Decode(f)) == f[2..|f| - 4]
  {
    var m, b := Decode(f), f[2..|f| - 4];
    var len := AnnouncedLength(f);
    LengthBytes(f[3], f[4], len);
    assert len == |m.payload| + 3;
    assert b[4..] == m.payload;
    assert b[..4] == [f[2], f[3], f[4], f[5]] == [m.id, Hi(len), Lo(len), m.fun];
    assert b == b[..4] + b[4..];
  }

  lemma {:induction false} LengthBytes(hi: byte, lo: byte, len: u16)
    requires len == Word(hi, lo)
    ensures Hi(len) == hi && Lo(len) == lo
  {}

  lemma {:induction false} SealAgain(f: seq<byte>, body: seq<byte>, crc: u16)
    requires |f| >= 6 && f[0] == HEAD1 && f[1] == HEAD2 && body == f[2..|f| - 4]
    requires crc == Word(f[|f| - 4], f[|f| - 3])
    ensures Sealed(body, crc)[..|f| - 2] == f[..|f| - 2]
  {}

  lemma {:induction false} DecodeBuilt(m: Message)
    requires Sendable(m)
    ensures Decode(Frame(m)) == m && Acceptable(Frame(m))
  {
    BuiltParts(m, Crc(Body(m)));
  }

  lemma {:induction false} BuiltParts(m: Message, crc: u16)
    requires Sendable(m)
    ensures var f := Sealed(Body(m), crc);
            && |f| == |m.payload| + 10 && Decode(f) == m
            && f[0] == HEAD1 && f[1] == HEAD2 && AnnouncedLength(f) + 7 == |f|
            && f[2..|f| - 4] == Body(m) && Word(f[|f| - 4], f[|f| - 3]) == crc
  {}

  /** A frame byte by byte, and the checksum it carries. */
  lemma {:induction false} FrameBytes(m: Message, len: u16, crc: u16)
    requires Sendable(m) && len == |m.payload| + 3
    requires crc == Crc([m.id, len / 256, len % 256, m.fun] + m.payload)
    ensures Frame(m)
            == [0xF5, 0x5F, m.id, len / 256, len % 256, m.fun] + m.payload + [crc / 256, crc % 256, 0x0D, 0x0A]
  {
    hide Crc;
    var body := [m.id, len / 256, len % 256, m.fun] + m.payload;
    assert Body(m) == body;
    assert [HEAD1, HEAD2] + body == [0xF5, 0x5F, m.id, len / 256, len % 256, m.fun] + m.payload;
  }

  // ----- Streams of frames and noise

  /** The shape of a frame, whether or not its checksum is right. */
  predicate Framed(f: seq<byte>) {
    7 <= |f| <= 255 && f[0] == HEAD1 && f[1] == HEAD2 && |f| == AnnouncedLength(f) + 7
  }

  lemma {:induction false} NothingArrives(held: seq<byte>)
    ensures HeldAfter(held, []) == held && Accepted(held, []) == []
  {}

  lemma {:induction false} OneByteMore(held: seq<byte>, bytes: seq<byte>, b: byte)
    ensures var h := HeldAfter(held, bytes);
            && HeldAfter(held, bytes + [b]) == Next(h, b)
            && Accepted(held, bytes + [b]) == Accepted(held, bytes) + (if Completes(h, b) then [h + [b]] else [])
  {
    hide Next, Completes;
    assert (bytes + [b])[..|bytes|] == bytes;
  }

  lemma {:induction false} OneMore(held: seq<byte>, bytes: seq<byte>, k: nat)
    requires k < |bytes|
    ensures var h := HeldAfter(held, bytes[..k]);
            && HeldAfter(held, bytes[..k + 1]) == Next(h, bytes[k])
            && Accepted(held, bytes[..k + 1])
               == Accepted(held, bytes[..k]) + (if Completes(h, bytes[k]) then [h + [bytes[k]]] else [])
  {
    hide *;
    OneByteMore(held, bytes[..k], bytes[k]);
    assert bytes[..k + 1] == bytes[..k] + [bytes[k]];
  }

  lemma {:induction false} StreamsJoin(held: seq<byte>, a: seq<byte>, b: seq<byte>)
    ensures HeldAfter(held, a + b) == HeldAfter(HeldAfter(held, a), b)
    ensures Accepted(held, a + b) == Accepted(held, a) + Accepted(HeldAfter(held, a), b)
  {
    hide *;
    if b == [] {
      NothingArrives(HeldAfter(held, a));
      assert a + b == a && b == [];
    } else {
      var start, x := b[..|b| - 1], b[|b| - 1];
      StreamsJoin(held, a, start);
      OneByteMore(held, a + start, x);
      OneByteMore(HeldAfter(held, a), start, x);
      assert b == start + [x] && a + b == a + start + [x];
    }
  }

  lemma {:induction false} NoiseIsSkipped(noise: seq<byte>)
    requires HEAD1 !in noise
    ensures HeldAfter([], noise) == [] && Accepted([], noise) == []
  {
    if noise != [] {
      NoiseIsSkipped(noise[..|noise| - 1]);
    }
  }

  lemma {:induction false} FrameIsCollected(f: seq<byte>, k: nat)
    requires Framed(f) && k < |f|
    ensures HeldAfter([], f[..k]) == f[..k] && Accepted([], f[..k]) == []
  {
    if k > 0 {
      FrameIsCollected(f, k - 1);
      InsideFrame(f, f[..k], k);
      OneMore([], f, k - 1);
    }
  }

  lemma {:induction false} InsideFrame(f: seq<byte>, h: seq<byte>, k: nat)
    requires Framed(f) && 0 < k < |f| && h == f[..k]
    ensures Next(f[..k - 1], f[k - 1]) == h && !Completes(f[..k - 1], f[k - 1])
  {
    assert h == f[..k - 1] + [f[k - 1]];
    assert k >= 5 ==> AnnouncedLength(h) == AnnouncedLength(f);
  }

  /** A frame-shaped run of bytes is handed on exactly if its checksum is right, and the hunt restarts. */
  lemma {:induction false} FrameIsJudged(f: seq<byte>)
    requires Framed(f)
    ensures HeldAfter([], f) == []
    ensures Accepted([], f) == if ChecksumOk(f) then [f] else []
  {
    var n := |f| - 1;
    FrameIsCollected(f, n);
    LastByte(f, f[..n], f[n]);
    OneMore([], f, n);
    assert f[..n + 1] == f;
  }

  lemma {:induction false} LastByte(f: seq<byte>, held: seq<byte>, b: byte)
    requires Framed(f) && held == f[..|f| - 1] && b == f[|f| - 1]
    ensures held + [b] == f && Next(held, b) == []
    ensures Completes(held, b) <==> ChecksumOk(f)
  {
    assert held + [b] == f;
  }

  function Stream(noise: seq<seq<byte>>, messages: seq<Message>): seq<byte>
    requires |noise| == |messages| + 1
    requires forall m | m in messages :: Sendable(m)
    decreases |messages|
  {
    if messages == [] then noise[0]
    else noise[0] + (Frame(messages[0]) + Stream(noise[1..], messages[1..]))
  }

  function Frames(messages: seq<Message>): (fs: seq<seq<byte>>)
    requires forall m | m in messages :: Sendable(m)
    ensures |fs| == |messages| && forall i | 0 <= i < |fs| :: fs[i] == Frame(messages[i])
  {
    if messages == [] then [] else [Frame(messages[0])] + Frames(messages[1..])
  }

  lemma {:induction false} NoisyFrame(noise: seq<byte>, f: seq<byte>, rest: seq<byte>)
    requires HEAD1 !in noise && Acceptable(f)
    ensures HeldAfter([], noise + (f + rest)) == HeldAfter([], rest)
    ensures Accepted([], noise + (f + rest)) == [f] + Accepted([], rest)
  {
    AcceptableIsFramed(f);
    hide *;
    NoiseIsSkipped(noise);
    FrameIsJudged(f);
    StreamsJoin([], noise, f + rest);
    StreamsJoin([], f, rest);
  }

  lemma {:induction false} AcceptableIsFramed(f: seq<byte>)
    requires Acceptable(f)
    ensures Framed(f) && ChecksumOk(f)
  {
    hide Crc;
  }

  /** Frames separated by noise without a first head code are accepted exactly, in order, and the parser ends hunting. */
  lemma {:induction false} StreamIsParsed(noise: seq<seq<byte>>, messages: seq<Message>)
    requires |noise| == |messages| + 1
    requires forall m | m in messages :: Sendable(m)
    requires forall s | s in noise :: HEAD1 !in s
    ensures HeldAfter([], Stream(noise, messages)) == []
    ensures Accepted([], Stream(noise, messages)) == Frames(messages)
    decreases |messages|
  {
    if messages == [] {
      NoiseIsSkipped(noise[0]);
    } else {
      StreamIsParsed(noise[1..], messages[1..]);
      DecodeBuilt(messages[0]);
      NoisyFrame(noise[0], Frame(messages[0]), Stream(noise[1..], messages[1..]));
    }
  }

  /** Each accepted frame tells the id, function and payload that were sent. */
  lemma {:induction false} StreamIsUnderstood(noise: seq<seq<byte>>, messages: seq<Message>, i: nat)
    requires |noise| == |messages| + 1 && i < |messages|
    requires forall m | m in messages :: Sendable(m)
    requires forall s | s in noise :: HEAD1 !in s
    ensures var frames := Accepted([], Stream(noise, messages));
            |frames| == |messages| && |frames[i]| >= 10 && Decode(frames[i]) == messages[i]
  {
    StreamIsParsed(noise, messages);
    DecodeBuilt(messages[i]);
  }

  /** `f` is the frame `g` changed within bytes i and i + 1, its head code, length field and end code as they were. */
  predicate Damaged(g: seq<byte>, f: seq<byte>, i: nat) {
    && |f| == |g| >= 10 && f != g
    && (forall k | 0 <= k < |f| && k != i && k != i + 1 :: f[k] == g[k])
    && (forall k | 0 <= k < |f| && (k < 2 || k == 3 || k == 4 || k >= |f| - 2) :: f[k] == g[k])
  }

  lemma {:induction false} DamageIsRejected(m: Message, f: seq<byte>, i: nat)
    requires Sendable(m) && Damaged(Frame(m), f, i) && i != |f| - 5
    ensures HeldAfter([], f) == [] && Accepted([], f) == []
  {
    hide Crc, Frame, HeldAfter, Accepted, ChecksumOk, Decode;
    DecodeBuilt(m);
    if i < |f| - 5 {
      DamagedChecksum(Frame(m), f, i);
    } else {
      DamagedSeal(Frame(m), f);
    }
    FrameIsJudged(f);
  }

  lemma {:induction false} DamagedChecksum(g: seq<byte>, f: seq<byte>, i: nat)
    requires Acceptable(g) && |g| >= 10 && |f| == |g| && f != g
    requires forall k | 0 <= k < |f| && k != i && k != i + 1 :: f[k] == g[k]
    requires forall k | 0 <= k < |f| && (k < 2 || k == 3 || k == 4 || k >= |f| - 4) :: f[k] == g[k]
    ensures Framed(f) && !ChecksumOk(f)
  {
    var n := |f| - 4;
    var s, t := f[2..n], g[2..n];
    DamageIsInBody(f, g);
    var j := if i < 2 then 0 else if i < n then i - 2 else |s| - 1;
    forall k | 0 <= k < |s| && k != j && k != j + 1 ensures s[k] == t[k] {
      assert s[k] == f[k + 2] && t[k] == g[k + 2];
    }
    AdjacentBurst(s, t, j);
  }

  lemma {:induction false} DamageIsInBody(f: seq<byte>, g: seq<byte>)
    requires |f| == |g| >= 6 && f != g
    requires forall k | 0 <= k < |f| && (k < 2 || k >= |f| - 4) :: f[k] == g[k]
    ensures f[2..|f| - 4] != g[2..|g| - 4]
  {
    var n := |f| - 4;
    assert f == f[..2] + f[2..n] + f[n..] && g == g[..2] + g[2..n] + g[n..];
    assert f[..2] == g[..2] && f[n..] == g[n..];
  }

  lemma {:induction false} DamagedSeal(g: seq<byte>, f: seq<byte>)
    requires Acceptable(g) && |g| >= 10 && |f| == |g| && f != g
    requires forall k | 0 <= k < |f| && (k < |f| - 4 || k >= |f| - 2) :: f[k] == g[k]
    ensures Framed(f) && !ChecksumOk(f)
  {
    hide Crc;
    var n := |f| - 4;
    assert f[2..n] == g[2..n];
    assert f == f[..n] + [f[n], f[n + 1]] + f[n + 2..] && g == g[..n] + [g[n], g[n + 1]] + g[n + 2..];
    assert f[..n] == g[..n] && f[n + 2..] == g[n + 2..];
  }

  /** The message whose frame differs from that of `m` in its last byte and in the checksum's high byte only. */
  function SeamNeighbour(m: Message): Message {
    if m.payload == [] then m.(fun := Flipped(m.fun, 0x0C))
    else
      var n := |m.payload| - 1;
      m.(payload := m.payload[..n] + [Flipped(m.payload[n], 0x0C)])
  }

  /** Sent high byte first, the checksum does not see every damage to the two bytes at its seam with the payload. */
  lemma {:induction false} SeamDamagePasses(m: Message)
    requires Sendable(m)
    ensures var g, f := Frame(m), Frame(SeamNeighbour(m));
            Sendable(SeamNeighbour(m)) && Damaged(g, f, |g| - 5) && Accepted([], f) == [f]
  {
    hide Crc;
    var m' := SeamNeighbour(m);
    var b, b' := Body(m), Body(m');
    var n := |b| - 1;
    assert b == b[..n] + [b[n]] && b' == b[..n] + [Flipped(b[n], 0x0C)];
    SeamTrade(b[..n], b[n], b'[n]);
    SealedApart(b, b', Crc(b), Crc(b'));
    DecodeBuilt(m');
    FrameIsJudged(Frame(m'));
  }

  lemma {:induction false} SealedApart(b: seq<byte>, b': seq<byte>, crc: u16, crc': u16)
    requires |b| == |b'| >= 4 && b != b' && b[..|b| - 1] == b'[..|b| - 1] && Lo(crc) == Lo(crc')
    ensures Damaged(Sealed(b, crc), Sealed(b', crc'), |b| + 1)
  {
    var n := |b| - 1;
    assert b == b[..n] + [b[n]] && b' == b'[..n] + [b'[n]];
    assert forall k | 0 <= k < n :: b[k] == b[..n][k] == b'[k];
    assert Sealed(b, crc)[n + 2] == b[n] != b'[n] == Sealed(b', crc')[n + 2];
  }

  /** Damage within two adjacent bytes is sure to be noticed exactly away from the seam of payload and checksum. */
  lemma {:induction false} DamageIsNoticedExactlyOffTheSeam(m: Message, i: nat)
    requires Sendable(m)
    ensures (forall f | Damaged(Frame(m), f, i) :: Accepted([], f) == []) <==> i != |Frame(m)| - 5
  {
    forall f | Damaged(Frame(m), f, i) && i != |Frame(m)| - 5 ensures Accepted([], f) == [] {
      DamageIsRejected(m, f, i);
    }
    SeamDamagePasses(m);
  }

  // ----- Damage to the length field

  /** A frame with another length in its length field. */
  function WithLength(g: seq<byte>, n: u16): (f: seq<byte>)
    requires |g| >= 10
    ensures |f| == |g| && f[3] == Hi(n) && f[4] == Lo(n) && forall k | 0 <= k < |g| && k != 3 && k != 4 :: f[k] == g[k]
  {
    g[3 := Hi(n)][4 := Lo(n)]
  }

  /** Bytes that can be held are held, when they arrive at a hunting parser. */
  lemma {:induction false} HoldableIsHeld(h: seq<byte>)
    requires Holdable(h)
    ensures HeldAfter([], h) == h && Accepted([], h) == []
    decreases |h|
  {
    hide *;
    NothingArrives([]);
    if h != [] {
      var n := |h| - 1;
      HeldFurther(h, n);
      HoldableIsHeld(h[..n]);
      OneByteMore([], h[..n], h[n]);
      assert h[..n] + [h[n]] == h;
    }
  }

  lemma {:induction false} HeldFurther(h: seq<byte>, k: nat)
    requires Holdable(h) && k + 1 == |h|
    ensures Holdable(h[..k]) && Next(h[..k], h[k]) == h && !Completes(h[..k], h[k])
  {
    assert h[..k] + [h[k]] == h;
  }

  /**
    What a wrong length does: from 256 on the frame is dropped with its head; a longer one holds it, waiting for more; a
    shorter one judges the first n + 7 bytes by the checksum that then stands at their end.
    */
  lemma {:induction false} WrongLength(m: Message, n: u16)
    requires Sendable(m) && n != |m.payload| + 3
    ensures var f := WithLength(Frame(m), n);
            && (n >= 256 ==> HeldAfter([], f[..5]) == [] && Accepted([], f[..5]) == [])
            && (|m.payload| + 3 < n < 256 ==> HeldAfter([], f) == f && Accepted([], f) == [])
            && (n < |m.payload| + 3 ==>
                  var h := f[..n + 7];
                  HeldAfter([], h) == [] && Accepted([], h) == if ChecksumOk(h) then [h] else [])
  {
    var f := WithLength(Frame(m), n);
    FramedLength(m, n);
    if n >= 256 {
      HoldableIsHeld(f[..4]);
      OneMore([], f, 4);
      HeadIsDropped(f[..4], f[4]);
    } else if n > |m.payload| + 3 {
      HoldableIsHeld(f);
    } else {
      FrameIsJudged(f[..n + 7]);
    }
  }

  lemma {:induction false} HeadIsDropped(h: seq<byte>, b: byte)
    requires |h| == 4 && Word(h[3], b) >= 256
    ensures Next(h, b) == [] && !Completes(h, b)
  {}

  lemma {:induction false} FramedLength(m: Message, n: u16)
    requires Sendable(m)
    ensures var f := WithLength(Frame(m), n);
            && f[0] == HEAD1 && f[1] == HEAD2 && Word(f[3], f[4]) == n && Holdable(f[..4])
            && (|m.payload| + 3 < n < 256 ==> Holdable(f))
            && (n < |m.payload| + 3 ==> Framed(f[..n + 7]))
  {
    hide Crc;
    BytesOfLength(n);
  }

  lemma {:induction false} BytesOfLength(n: u16)
    ensures Word(Hi(n), Lo(n)) == n
  {}

  /** A longer length takes the bytes that come next for its own, and they are judged with it. */
  lemma {:induction false} LongerLengthSwallows(m: Message, n: u16, next: seq<byte>)
    requires Sendable(m) && |m.payload| + 3 < n <= 248 && |next| == n - |m.payload| - 3
    ensures var h := WithLength(Frame(m), n) + next;
            && |h| == AnnouncedLength(h) + 7
            && HeldAfter([], h) == [] && Accepted([], h) == if ChecksumOk(h) then [h] else []
  {
    FramedLength(m, n);
    FrameIsJudged(WithLength(Frame(m), n) + next);
  }

  /** A message whose payload begins with the checksum of an empty one. */
  function HidesEmpty(id: byte, fun: byte): Message {
    var c := Crc(Body(Message(id, fun, [])));
    Message(id, fun, [Hi(c), Lo(c), END1, END2])
  }

  /** So a damaged length can pass: one damaged byte makes the empty message out of that one. */
  lemma {:induction false} ShorterLengthPasses(id: byte, fun: byte)
    ensures var g := Frame(HidesEmpty(id, fun));
            var f := WithLength(g, 3);
            && f != g && (forall k | 0 <= k < |g| && k != 4 :: f[k] == g[k])
            && Accepted([], f[..10]) == [Frame(Message(id, fun, []))]
  {
    hide *;
    EmptyIsAccepted(id, fun);
    HidingFrame(id, fun);
    Shortened(Frame(HidesEmpty(id, fun)), Frame(Message(id, fun, [])));
  }

  /** What ten bytes of a frame become with the length 3. */
  lemma {:induction false} Shortened(g: seq<byte>, e: seq<byte>)
    requires |g| >= 10 && |e| == 10 && g[3] == 0 && g[4] != 3 && e[3] == 0 && e[4] == 3
    requires forall k | 0 <= k < 10 && k != 4 :: g[k] == e[k]
    ensures var f := WithLength(g, 3);
            && f != g && (forall k | 0 <= k < |g| && k != 4 :: f[k] == g[k]) && f[..10] == e
  {
    assert Hi(3) == 0 && Lo(3) == 3;
    assert WithLength(g, 3)[4] != g[4];
  }

  lemma {:induction false} HidingFrame(id: byte, fun: byte)
    ensures Sendable(HidesEmpty(id, fun)) && Sendable(Message(id, fun, []))
    ensures var g, e := Frame(HidesEmpty(id, fun)), Frame(Message(id, fun, []));
            && |g| == 14 && |e| == 10 && g[3] == e[3] == 0 && g[4] == 7 && e[4] == 3
            && forall k | 0 <= k < 10 && k != 4 :: g[k] == e[k]
  {
    hide Crc;
    assert Body(Message(id, fun, [])) == [id, 0, 3, fun];
  }

  lemma {:induction false} EmptyIsAccepted(id: byte, fun: byte)
    ensures Accepted([], Frame(Message(id, fun, []))) == [Frame(Message(id, fun, []))]
  {
    hide Crc, Accepted, Frame;
    DecodeBuilt(Message(id, fun, []));
    FrameIsJudged(Frame(Message(id, fun, [])));
  }

  // ----- Lengths the 8-bit cursor cannot reach

  predicate LongHead(head: seq<byte>) {
    |head| == 5 && Holdable(head) && AnnouncedLength(head) >= 249
  }

  lemma {:induction false} LongFrameIsHeld(head: seq<byte>, tail: seq<byte>)
    requires LongHead(head) && |tail| <= 250
    ensures HeldAfter([], head + tail) == head + tail && Accepted([], head + tail) == []
  {
    hide *;
    LongIsHoldable(head, tail);
    HoldableIsHeld(head + tail);
  }

  lemma {:induction false} LongIsHoldable(head: seq<byte>, tail: seq<byte>)
    requires LongHead(head) && |tail| <= 250
    ensures Holdable(head + tail)
  {}

  /** A frame announcing 249..255 fills the buffer, wraps the cursor and is dropped, whatever it holds. */
  lemma {:induction false} LongFrameIsDropped(head: seq<byte>, tail: seq<byte>)
    requires LongHead(head) && |tail| == 251
    ensures HeldAfter([], head + tail) == [] && Accepted([], head + tail) == []
  {
    var h := head + tail[..250];
    LongFrameIsHeld(head, tail[..250]);
    OneByteMore([], h, tail[250]);
    hide HeldAfter, Accepted;
    assert head + tail == h + [tail[250]];
  }

  // ----- Search answers

  datatype Answer = Answer(ack: bool, addr: byte, kind: byte)

  /** What the handler takes from a frame in its buffer; the device type only next to its register address. */
  function Told(a: Answer, buf: seq<byte>): Answer
    requires |buf| >= 10
  {
    if buf[5] == FUN_ASK_SEARCH
    then Answer(true, buf[2], if Word(buf[6], buf[7]) == ADDR_DRIVER_TYPE then buf[9] else a.kind)
    else a
  }

  /** Of the messages a frame can carry only that of function 0x81 is an answer; its type stands behind register 0xFF00. */
  lemma {:induction false} FrameTells(a: Answer, m: Message)
    requires Sendable(m) && |m.payload| >= 4
    ensures Told(a, Frame(m)) == if m.fun != 0x81 then a
                                 else Answer(true, m.id, if m.payload[0] == 0xFF && m.payload[1] == 0 then m.payload[3] else a.kind)
  {
    hide Frame, Acceptable;
    var f := Frame(m);
    DecodeBuilt(m);
    assert m.payload == f[6..|f| - 4];
    assert f[6] == m.payload[0] && f[7] == m.payload[1] && f[9] == m.payload[3];
  }

  predicate Telling(frames: seq<seq<byte>>) {
    forall f <- frames :: |f| >= 10
  }

  function ToldAll(a: Answer, frames: seq<seq<byte>>): Answer
    requires Telling(frames)
  {
    if frames == [] then a else Told(ToldAll(a, frames[..|frames| - 1]), frames[|frames| - 1])
  }

  lemma {:induction false} ToldByFrame(a: Answer, frame: seq<byte>, buf: seq<byte>)
    requires frame <= buf && |frame| >= 10
    ensures Told(a, buf) == Told(a, frame)
  {
    assert forall i | 0 <= i < |frame| :: frame[i] == buf[i];
  }

  /** One more frame in the buffer tells what it says, if all of them are long enough to. */
  lemma {:induction false} HeardMore(a: Answer, frames: seq<seq<byte>>, frame: seq<byte>, now: Answer, buf: seq<byte>)
    requires |buf| >= 10 && (Telling(frames) ==> now == ToldAll(a, frames))
    ensures Telling(frames + [frame]) && frame <= buf ==> Told(now, buf) == ToldAll(a, frames + [frame])
    ensures frames + [] == frames
  {
    if Telling(frames + [frame]) && frame <= buf {
      ToldOneMore(a, frames, frame);
      ToldByFrame(now, frame, buf);
    }
  }

  /** What the interrupt handler works on: the bytes held, the whole buffer, the frames handed on, the last answer. */
  datatype Listener = Listener(held: seq<byte>, buf: seq<byte>, frames: seq<seq<byte>>, heard: Answer)

  predicate Listening(l: Listener) {
    |l.buf| == 256 && |l.held| <= 255 && l.held == l.buf[..|l.held|]
  }

  /** The buffer after one more byte: a hunting parser stores only the head code it looks for. */
  function Stored(held: seq<byte>, buf: seq<byte>, b: byte): (buf': seq<byte>)
    requires |held| < |buf|
    ensures |buf'| == |buf|
  {
    if (|held| == 0 && b != HEAD1) || (|held| == 1 && b != HEAD2) then buf else buf[|held| := b]
  }

  /** An answer is taken from the buffer, where a frame shorter than ten bytes leaves older ones standing behind it. */
  function Hear(l: Listener, b: byte): (l': Listener)
    requires Listening(l)
    ensures Listening(l')
  {
    var buf := Stored(l.held, l.buf, b);
    if Completes(l.held, b) then Listener(Next(l.held, b), buf, l.frames + [l.held + [b]], Told(l.heard, buf))
    else Listener(Next(l.held, b), buf, l.frames, l.heard)
  }

  function HearAll(l: Listener, bytes: seq<byte>): (l': Listener)
    requires Listening(l)
    ensures Listening(l')
    decreases |bytes|
  {
    if bytes == [] then l else Hear(HearAll(l, bytes[..|bytes| - 1]), bytes[|bytes| - 1])
  }

  lemma {:induction false} HearOneMore(l: Listener, bytes: seq<byte>, k: nat)
    requires Listening(l) && k < |bytes|
    ensures HearAll(l, bytes[..k + 1]) == Hear(HearAll(l, bytes[..k]), bytes[k])
  {
    hide Hear, Listening;
    assert bytes[..k + 1][..k] == bytes[..k];
  }

  lemma {:induction false} CompletedInBuffer(l: Listener, b: byte)
    requires Listening(l) && Completes(l.held, b)
    ensures l.held + [b] <= Stored(l.held, l.buf, b)
  {}

  /** What is heard is what the parser's meaning says, told by the frames alone if all are long enough. */
  lemma {:induction false} HearingIsParsing(l: Listener, bytes: seq<byte>)
    requires Listening(l)
    ensures var h := HearAll(l, bytes);
            && h.held == HeldAfter(l.held, bytes) && h.frames == l.frames + Accepted(l.held, bytes)
            && (Telling(Accepted(l.held, bytes)) ==> h.heard == ToldAll(l.heard, Accepted(l.held, bytes)))
    decreases |bytes|
  {
    if bytes != [] {
      var n := |bytes| - 1;
      HearingIsParsing(l, bytes[..n]);
      HearingStep(l, HearAll(l, bytes[..n]), bytes, n);
      assert bytes[..n + 1] == bytes;
    }
  }

  lemma {:induction false} HearingStep(l: Listener, now: Listener, bytes: seq<byte>, k: nat)
    requires Listening(l) && Listening(now) && k < |bytes|
    requires now.held == HeldAfter(l.held, bytes[..k]) && now.frames == l.frames + Accepted(l.held, bytes[..k])
    requires var fs := Accepted(l.held, bytes[..k]); Telling(fs) ==> now.heard == ToldAll(l.heard, fs)
    ensures var h, fs := Hear(now, bytes[k]), Accepted(l.held, bytes[..k + 1]);
            && h.held == HeldAfter(l.held, bytes[..k + 1]) && h.frames == l.frames + fs
            && (Telling(fs) ==> h.heard == ToldAll(l.heard, fs))
  {
    OneMore(l.held, bytes, k);
    if Completes(now.held, bytes[k]) {
      CompletedInBuffer(now, bytes[k]);
    }
    hide HeldAfter, Accepted, Completes, Next, Told, ToldAll, Telling, Stored, Listening;
    HeardMore(l.heard, Accepted(l.held, bytes[..k]), now.held + [bytes[k]], now.heard, Stored(now.held, now.buf, bytes[k]));
  }

  lemma {:induction false} ToldOneMore(a: Answer, frames: seq<seq<byte>>, f: seq<byte>)
    requires Telling(frames + [f])
    ensures Telling(frames) && |f| >= 10 && ToldAll(a, frames + [f]) == Told(ToldAll(a, frames), f)
  {
    assert (frames + [f])[|frames|] == f;
    assert forall g <- frames :: g in frames + [f];
    assert (frames + [f])[..|frames|] == frames;
  }

  // ----- The receive timeout

  /** A received byte, or one turn of the control thread's timeout counter. */
  datatype Event = Received(b: byte) | Tick

  /** The bytes held, whether the timeout is armed, and the turns it has counted. */
  datatype Line = Line(held: seq<byte>, flag: bool, cnt: nat)

  const QUIET := Line([], false, 0)

  /** Only the second head code arms the timeout, every byte restarts its count, the tenth turn drops what is held. */
  function LineStep(l: Line, e: Event): Line {
    match e
    case Received(b) => Line(Next(l.held, b), l.flag || (|l.held| == 1 && b == HEAD2), 0)
    case Tick =>
      if !l.flag then l else if l.cnt + 1 >= 10 then QUIET else Line(l.held, true, l.cnt + 1)
  }

  function LineRun(l: Line, events: seq<Event>): Line {
    if events == [] then l else LineStep(LineRun(l, events[..|events| - 1]), events[|events| - 1])
  }

  /** The frames handed on over a run of bytes and turns. */
  function HandedOn(l: Line, events: seq<Event>): seq<seq<byte>> {
    if events == [] then []
    else
      var before, last := LineRun(l, events[..|events| - 1]), events[|events| - 1];
      HandedOn(l, events[..|events| - 1]) + HandsOn(before, last)
  }

  /** The frame an event completes, if it does. */
  function HandsOn(l: Line, e: Event): seq<seq<byte>> {
    if e.Received? && Completes(l.held, e.b) then [l.held + [e.b]] else []
  }

  predicate Armed(l: Line) {
    Holdable(l.held) && (|l.held| >= 2 ==> l.flag) && l.cnt < 10
  }

  /** Two bytes or more are never held without the timeout armed. */
  lemma {:induction false} RunsStayArmed(l: Line, events: seq<Event>)
    requires Armed(l)
    ensures Armed(LineRun(l, events))
    ensures forall f <- HandedOn(l, events) :: Acceptable(f)
  {
    if events != [] {
      var n := |events| - 1;
      RunsStayArmed(l, events[..n]);
      if events[n].Received? {
        NextIsHoldable(LineRun(l, events[..n]).held, events[n].b);
      }
    }
  }

  function Silence(n: nat): (events: seq<Event>)
    ensures |events| == n && forall i | 0 <= i < n :: events[i] == Tick
  {
    seq(n, _ => Tick)
  }

  /** A first head code alone, with the timeout not armed. */
  predicate Stuck(l: Line) {
    |l.held| == 1 && !l.flag
  }

  /** The line `n` silent turns later. */
  function Silenced(l: Line, n: nat): Line {
    if !l.flag then l else if l.cnt + n < 10 then l.(cnt := l.cnt + n) else QUIET
  }

  lemma {:induction false} SilentTurn(l: Line, n: nat)
    requires Armed(l)
    ensures Silenced(l, 0) == l && Silence(0) == [] && Silence(n + 1) == Silence(n) + [Tick]
    ensures LineStep(Silenced(l, n), Tick) == Silenced(l, n + 1) && HandsOn(Silenced(l, n), Tick) == []
  {
    hide Holdable;
  }

  lemma {:induction false} SilenceRuns(l: Line, n: nat)
    requires Armed(l)
    ensures LineRun(l, Silence(n)) == Silenced(l, n)
    ensures HandedOn(l, Silence(n)) == []
    decreases n
  {
    hide *;
    if n == 0 {
      SilentTurn(l, 0);
      NothingHappens(l);
    } else {
      SilentTurn(l, n - 1);
      SilenceRuns(l, n - 1);
      OneEventMore(l, Silence(n - 1), Tick);
    }
  }

  lemma {:induction false} NothingHappens(l: Line)
    ensures LineRun(l, []) == l && HandedOn(l, []) == []
  {}

  lemma {:induction false} HistoriesJoin(l: Line, a: seq<Event>, b: seq<Event>)
    ensures LineRun(l, a + b) == LineRun(LineRun(l, a), b)
    ensures HandedOn(l, a + b) == HandedOn(l, a) + HandedOn(LineRun(l, a), b)
    decreases |b|
  {
    hide *;
    if b == [] {
      NothingHappens(LineRun(l, a));
      assert a + b == a && b == [];
    } else {
      var start, e := b[..|b| - 1], b[|b| - 1];
      HistoriesJoin(l, a, start);
      HistoryGoesOn(l, a, start, e);
      assert b == start + [e];
    }
  }

  lemma {:induction false} HistoryGoesOn(l: Line, a: seq<Event>, b: seq<Event>, e: Event)
    requires LineRun(l, a + b) == LineRun(LineRun(l, a), b)
    requires HandedOn(l, a + b) == HandedOn(l, a) + HandedOn(LineRun(l, a), b)
    ensures LineRun(l, a + (b + [e])) == LineRun(LineRun(l, a), b + [e])
    ensures HandedOn(l, a + (b + [e])) == HandedOn(l, a) + HandedOn(LineRun(l, a), b + [e])
  {
    hide *;
    OneEventMore(l, a + b, e);
    OneEventMore(LineRun(l, a), b, e);
    assert a + (b + [e]) == a + b + [e];
  }

  lemma {:induction false} OneEventMore(l: Line, events: seq<Event>, e: Event)
    ensures LineRun(l, events + [e]) == LineStep(LineRun(l, events), e)
    ensures HandedOn(l, events + [e]) == HandedOn(l, events) + HandsOn(LineRun(l, events), e)
  {
    hide LineStep, HandsOn;
    assert (events + [e])[..|events|] == events;
  }

  lemma {:induction false} OneMoreEvent(l: Line, events: seq<Event>, k: nat)
    requires k < |events|
    ensures var before, e := LineRun(l, events[..k]), events[k];
            && LineRun(l, events[..k + 1]) == LineStep(before, e)
            && HandedOn(l, events[..k + 1]) == HandedOn(l, events[..k]) + HandsOn(before, e)
  {
    hide LineStep, HandsOn;
    assert events[..k + 1][..k] == events[..k];
  }

  /** After any history ten silent turns leave the parser hunting if and only if it was not stuck. */
  lemma {:induction false} SilenceRestartsUnlessStuck(history: seq<Event>, n: nat)
    requires n >= 10
    ensures LineRun(QUIET, history + Silence(n)).held == [] <==> !Stuck(LineRun(QUIET, history))
    ensures Stuck(LineRun(QUIET, history)) ==> LineRun(QUIET, history + Silence(n)) == LineRun(QUIET, history)
  {
    HistoriesJoin(QUIET, history, Silence(n));
    RunsStayArmed(QUIET, history);
    SilenceRuns(LineRun(QUIET, history), n);
  }

  /** The count of silent turns starts with each byte: nine leave what is held, the tenth drops it unless it is stuck. */
  lemma {:induction false} TenthTurnDrops(history: seq<Event>, b: byte, n: nat)
    ensures var heard := history + [Received(b)];
            var l := LineRun(QUIET, heard);
            LineRun(QUIET, heard + Silence(n)).held == if n >= 10 && !Stuck(l) then [] else l.held
  {
    var heard := history + [Received(b)];
    var l := LineRun(QUIET, heard);
    HistoriesJoin(QUIET, heard, Silence(n));
    RunsStayArmed(QUIET, heard);
    SilenceRuns(l, n);
    OneEventMore(QUIET, history, Received(b));
    hide LineRun, Holdable, HandedOn;
  }

  function Arrivals(bytes: seq<byte>): (events: seq<Event>)
    ensures |events| == |bytes| && forall i | 0 <= i < |bytes| :: events[i] == Received(bytes[i])
  {
    seq(|bytes|, i requires 0 <= i < |bytes| => Received(bytes[i]))
  }

  lemma {:induction false} ArrivalsAreParsed(l: Line, bytes: seq<byte>)
    ensures LineRun(l, Arrivals(bytes)).held == HeldAfter(l.held, bytes)
    ensures HandedOn(l, Arrivals(bytes)) == Accepted(l.held, bytes)
    decreases |bytes|
  {
    if bytes != [] {
      var n := |bytes| - 1;
      assert Arrivals(bytes)[..n] == Arrivals(bytes[..n]);
      ArrivalsAreParsed(l, bytes[..n]);
    }
  }

  lemma {:induction false} FramesAreNoLonger(bytes: seq<byte>)
    ensures |HeldAfter([], bytes)| <= |bytes|
    ensures forall f <- Accepted([], bytes) :: |f| <= |bytes|
    decreases |bytes|
  {
    if bytes != [] {
      FramesAreNoLonger(bytes[..|bytes| - 1]);
    }
  }

  /** To a stuck parser the head code of the next frame is only noise, and the frame is lost. */
  lemma {:induction false} StuckLosesFrame(held: seq<byte>, f: seq<byte>)
    requires Holdable(held) && |held| == 1 && Framed(f)
    ensures f !in Accepted(held, f)
  {
    var a, b := f[..1], f[1..];
    assert f == a + b;
    StreamsJoin(held, a, b);
    OneMore(held, f, 0);
    assert HeldAfter(held, f[..0]) == held && Accepted(held, f[..0]) == [];
    FramesAreNoLonger(b);
  }

  predicate Clean(noise: seq<seq<byte>>, messages: seq<Message>) {
    |noise| == |messages| + 1 && (forall m <- messages :: Sendable(m)) && forall s <- noise :: HEAD1 !in s
  }

  /**
    After any history and ten silent turns every clean stream is handed on as it was sent, if and only if the history did
    not leave the parser stuck.
    */
  lemma {:induction false} NextStreamIsParsedUnlessStuck(history: seq<Event>, n: nat)
    requires n >= 10
    ensures var l := LineRun(QUIET, history + Silence(n));
            (forall noise, messages | Clean(noise, messages) ::
               HandedOn(l, Arrivals(Stream(noise, messages))) == Frames(messages))
            <==> !Stuck(LineRun(QUIET, history))
  {
    var l := LineRun(QUIET, history + Silence(n));
    SilenceRestartsUnlessStuck(history, n);
    RunsStayArmed(QUIET, history);
    forall noise, messages | Clean(noise, messages) && l.held == []
      ensures HandedOn(l, Arrivals(Stream(noise, messages))) == Frames(messages)
    {
      StreamIsParsed(noise, messages);
      ArrivalsAreParsed(l, Stream(noise, messages));
    }
    if l.held != [] {
      var m := Message(0, 0, []);
      var noise: seq<seq<byte>> := [[], []];
      StuckStream(l, noise, m);
      assert Clean(noise, [m]);
    }
  }

  lemma {:induction false} StuckStream(l: Line, noise: seq<seq<byte>>, m: Message)
    requires Holdable(l.held) && |l.held| == 1 && Sendable(m) && noise == [[], []]
    ensures HandedOn(l, Arrivals(Stream(noise, [m]))) != Frames([m])
  {
    hide Frame, Stream, HandedOn, LineRun, Accepted, HeldAfter, Decode, Crc;
    DecodeBuilt(m);
    var f := Frame(m);
    OneFrameStream(noise, m);
    ArrivalsAreParsed(l, f);
    StuckLosesFrame(l.held, f);
    assert Frames([m])[0] == f;
  }

  lemma {:induction false} OneFrameStream(noise: seq<seq<byte>>, m: Message)
    requires noise == [[], []] && Sendable(m)
    ensures Stream(noise, [m]) == Frame(m)
  {
    hide Frame;
    assert noise[1..] == [[]] && [m][1..] == [];
    assert Stream(noise[1..], []) == [];
  }

  /** One byte of noise is enough: 0xF5 after start-up is held through any silence. */
  lemma {:induction false} LoneHeadIsStuck()
    ensures Stuck(LineRun(QUIET, [Received(HEAD1)]))
  {
    assert LineRun(QUIET, [Received(HEAD1)][..0]) == QUIET;
  }

  // ----- The port: interrupt handler, receive timeout, builders

  class SlavePort {
    const buf_rev: array<byte>
    var buf_rev_cnt: int             // an 8-bit cursor: 256 is 0
    var mcu_data_len: u16
    var rev_timerout_cnt: nat
    var rev_timerout_flag: bool
    var slave_addr: byte             // slave_device_tmp
    var device_type: byte
    var slave_device_have_ack_flag: bool
    ghost var handedOn: seq<seq<byte>>
    var wire: seq<byte>              // transmitted by the builders

    ghost predicate Valid()
      reads this, buf_rev
    {
      && buf_rev.Length == 256
      && 0 <= buf_rev_cnt < 256
      && Holdable(Held())
      && (buf_rev_cnt >= 5 ==> mcu_data_len == AnnouncedLength(Held()))
      && (buf_rev_cnt >= 2 ==> rev_timerout_flag) && rev_timerout_cnt < 10
    }

    /** The parser with its timeout. */
    ghost function State(): Line
      requires buf_rev.Length == 256 && 0 <= buf_rev_cnt < 256
      reads this, buf_rev
    {
      Line(Held(), rev_timerout_flag, rev_timerout_cnt)
    }

    ghost function Held(): seq<byte>
      requires buf_rev.Length == 256 && 0 <= buf_rev_cnt < 256
      reads this, buf_rev
    {
      buf_rev[..buf_rev_cnt]
    }

    /** What the last search answer said, and whether the control thread has yet to look at it. */
    function Heard(): Answer
      reads this
    {
      Answer(slave_device_have_ack_flag, slave_addr, device_type)
    }

    /** The handler's whole state. */
    ghost function Ear(): (l: Listener)
      requires buf_rev.Length == 256 && 0 <= buf_rev_cnt < 256
      reads this, buf_rev
      ensures Listening(l)
    {
      Listener(Held(), buf_rev[..], handedOn, Heard())
    }

    constructor ()
      ensures Valid() && State() == QUIET && handedOn == [] && wire == [] && !Heard().ack && fresh(buf_rev)
    {
      buf_rev := new byte[256](_ => 0);
      buf_rev_cnt, mcu_data_len := 0, 0;
      rev_timerout_cnt, rev_timerout_flag := 0, false;
      slave_addr, device_type, slave_device_have_ack_flag := 0, 0, false;
      handedOn, wire := [], [];
    }

    /**
      `USART4_RxFull_IrqCallback`. A frame is handed on whole; of the answers to it only
      the search answer is modelled, which fills in the device that answered.
      */
    method RxFull(tmp: byte)
      requires Valid()
      modifies this, buf_rev
      ensures Valid() && wire == old(wire)
      ensures Held() == Next(old(Held()), tmp)
      ensures handedOn == old(handedOn) + (if Completes(old(Held()), tmp) then [old(Held()) + [tmp]] else [])
      ensures Heard() == if Completes(old(Held()), tmp) then Told(old(Heard()), buf_rev[..]) else old(Heard())
      ensures buf_rev[..] == Stored(old(Held()), old(buf_rev[..]), tmp)
      ensures rev_timerout_cnt == 0
      ensures rev_timerout_flag == (old(rev_timerout_flag) || (|old(Held())| == 1 && tmp == HEAD2))
    {
      hide Told, ChecksumOk;
      ghost var held := Held();
      rev_timerout_cnt := 0;
      if buf_rev_cnt == 0 {
        if tmp == HEAD1 {
          Store(tmp);
        }
      } else if buf_rev_cnt == 1 {
        if tmp == HEAD2 {
          Store(tmp);
          rev_timerout_flag := true;
        } else {
          buf_rev_cnt := 0;
        }
      } else if buf_rev_cnt == 2 {
        Store(tmp);
      } else if buf_rev_cnt == 3 || buf_rev_cnt == 4 {
        Store(tmp);
        if buf_rev_cnt == 5 {
          mcu_data_len := Word(buf_rev[3], buf_rev[4]);
          if mcu_data_len >= 256 {
            buf_rev_cnt := 0;
          }
        }
      } else {
        Store(tmp);
        if buf_rev_cnt >= mcu_data_len + 7 {
          FrameComplete(held + [tmp]);
        }
      }
    }

    /** The last part of the handler: check the checksum, act on the frame, hunt again. */
    method FrameComplete(ghost frame: seq<byte>)
      requires buf_rev.Length == 256 && 7 <= |frame| <= 255 && frame == buf_rev[..|frame|]
      requires AnnouncedLength(frame) == mcu_data_len && |frame| == mcu_data_len + 7
      modifies this`handedOn, this`slave_addr, this`device_type, this`slave_device_have_ack_flag, this`buf_rev_cnt
      ensures buf_rev_cnt == 0
      ensures handedOn == old(handedOn) + (if ChecksumOk(frame) then [frame] else [])
      ensures Heard() == if ChecksumOk(frame) then Told(old(Heard()), buf_rev[..]) else old(Heard())
    {
      var checksumRead := Word(buf_rev[mcu_data_len + 3], buf_rev[mcu_data_len + 4]);
      var checksum := ModbusCrc16(buf_rev[2..], mcu_data_len + 1);
      assert buf_rev[2..][..mcu_data_len + 1] == frame[2..mcu_data_len + 3];
      if checksumRead == checksum {
        handedOn := handedOn + [frame];
        if buf_rev[5] == FUN_ASK_SEARCH {
          slave_addr := buf_rev[2];
          if Word(buf_rev[6], buf_rev[7]) == ADDR_DRIVER_TYPE {
            device_type := buf_rev[9];
          }
          slave_device_have_ack_flag := true;
        }
      }
      buf_rev_cnt := 0;
    }

    /** `buf_rev[buf_rev_cnt] = tmp; buf_rev_cnt++` on an 8-bit cursor. */
    method Store(tmp: byte)
      requires buf_rev.Length == 256 && 0 <= buf_rev_cnt < 256
      modifies this`buf_rev_cnt, buf_rev
      ensures buf_rev_cnt == if old(buf_rev_cnt) == 255 then 0 else old(buf_rev_cnt) + 1
      ensures buf_rev[..] == old(buf_rev[..])[old(buf_rev_cnt) := tmp]
      ensures buf_rev[..old(buf_rev_cnt) + 1] == old(Held()) + [tmp]
    {
      buf_rev[buf_rev_cnt] := tmp;
      buf_rev_cnt := (buf_rev_cnt + 1) % 256;
    }

    /** The timeout part of `modbus_control_thread`. */
    method Tick()
      requires Valid()
      modifies this`rev_timerout_cnt, this`rev_timerout_flag, this`buf_rev_cnt
      ensures Valid() && State() == LineStep(old(State()), Event.Tick)
    {
      if rev_timerout_flag {
        rev_timerout_cnt := rev_timerout_cnt + 1;
        if rev_timerout_cnt >= 10 {
          rev_timerout_flag := false;
          rev_timerout_cnt := 0;
          buf_rev_cnt := 0;
        }
      }
    }

    /** Bytes arriving without a timeout between them do what the parser's meaning says. */
    method Receive(bytes: seq<byte>)
      requires Valid()
      modifies this, buf_rev
      ensures Valid() && Held() == HeldAfter(old(Held()), bytes) && wire == old(wire)
      ensures handedOn == old(handedOn) + Accepted(old(Held()), bytes)
      ensures Heard() == HearAll(old(Ear()), bytes).heard
    {
      ghost var l := Ear();
      HearingIsParsing(l, bytes);
      ReceiveAll(bytes, l);
    }

    method ReceiveAll(bytes: seq<byte>, ghost l: Listener)
      requires Valid() && l == Ear()
      modifies this, buf_rev
      ensures Valid() && wire == old(wire) && Listening(l) && Ear() == HearAll(l, bytes)
    {
      var k := 0;
      while k < |bytes|
        invariant 0 <= k <= |bytes| && Valid() && wire == old(wire) && Ear() == HearAll(l, bytes[..k])
      {
        hide *;
        HearOneMore(l, bytes, k);
        HearByte(bytes[k]);
        k := k + 1;
      }
      assert bytes[..k] == bytes;
    }

    /** The interrupt, on the handler's whole state. */
    method HearByte(tmp: byte)
      requires Valid()
      modifies this, buf_rev
      ensures Valid() && wire == old(wire) && Ear() == Hear(old(Ear()), tmp)
    {
      hide Next, Completes, Told, Stored, Holdable;
      RxFull(tmp);
    }

    /** An interrupt or a turn of the timeout. */
    method Handle(e: Event)
      requires Valid()
      modifies this, buf_rev
      ensures Valid() && State() == LineStep(old(State()), e)
      ensures handedOn == old(handedOn) + HandsOn(old(State()), e)
    {
      hide Next, Completes, Told, Holdable;
      match e {
        case Received(b) => RxFull(b);
        case Tick => Tick();
      }
    }

    /** For every mix of bytes and timeout turns the port does what the line's meaning says. */
    method Run(events: seq<Event>)
      requires Valid()
      modifies this, buf_rev
      ensures Valid() && State() == LineRun(old(State()), events)
      ensures handedOn == old(handedOn) + HandedOn(old(State()), events)
    {
      ghost var l, before := State(), handedOn;
      assert events[..0] == [];
      var k := 0;
      while k < |events|
        invariant 0 <= k <= |events| && Valid() && State() == LineRun(l, events[..k])
        invariant handedOn == before + HandedOn(l, events[..k])
      {
        hide *;
        OneMoreEvent(l, events, k);
        Handle(events[k]);
        k := k + 1;
      }
      assert events[..k] == events;
    }

    /** The end of every builder: checksum, high byte first, and end code after the body. */
    method Seal(buf_send: array<byte>, len: u16, ghost m: Message)
      requires Sendable(m) && len == |m.payload| + 3 && len + 7 <= buf_send.Length
      requires buf_send[..len + 3] == [HEAD1, HEAD2] + Body(m)
      modifies buf_send
      ensures buf_send[..len + 7] == Frame(m)
    {
      ghost var body := Body(m);
      SealedBody(buf_send[..], body);
      var checksum := ModbusCrc16(buf_send[2..], len + 1);
      buf_send[len + 3] := Hi(checksum);
      buf_send[len + 4] := Lo(checksum);
      buf_send[len + 5] := END1;
      buf_send[len + 6] := END2;
      assert buf_send[..len + 3] == [HEAD1, HEAD2] + body;
      SealedParts(buf_send[..], body, checksum);
    }

    method SearchSlaveDriverId(slaveAddr: byte)
      modifies this`wire
      ensures wire == old(wire) + Frame(SearchQuery(slaveAddr))
    {
      var buf_send := new byte[64];
      var len: u16 := 6;
      buf_send[0], buf_send[1], buf_send[2] := HEAD1, HEAD2, slaveAddr;
      buf_send[3], buf_send[4], buf_send[5] := Hi(len), Lo(len), FUN_SEARCH;
      buf_send[6], buf_send[7], buf_send[8] := Hi(ADDR_DRIVER_TYPE), Lo(ADDR_DRIVER_TYPE), 0xFE;
      assert buf_send[..9] == [HEAD1, HEAD2] + Body(SearchQuery(slaveAddr));
      Seal(buf_send, len, SearchQuery(slaveAddr));
      wire := wire + buf_send[..13];
    }

    method ControlSlaveRelay(slaveAddr: byte, relayData: u16)
      modifies this`wire
      ensures wire == old(wire) + Frame(RelayCommand(slaveAddr, relayData))
    {
      var buf_send := new byte[64];
      var len: u16 := 7;
      buf_send[0], buf_send[1], buf_send[2] := HEAD1, HEAD2, slaveAddr;
      buf_send[3], buf_send[4], buf_send[5] := Hi(len), Lo(len), FUN_WRITE;
      buf_send[6], buf_send[7] := Hi(ADDR_RELAY1_STATUS), Lo(ADDR_RELAY1_STATUS);
      buf_send[8], buf_send[9] := Hi(relayData), Lo(relayData);
      assert buf_send[..10] == [HEAD1, HEAD2] + Body(RelayCommand(slaveAddr, relayData));
      Seal(buf_send, len, RelayCommand(slaveAddr, relayData));
      wire := wire + buf_send[..14];
    }

    /** This builder sends its frame twice: byte by byte, then as a block. */
    method ReadSlaveData(slaveAddr: byte, slaveType: byte)
      modifies this`wire
      ensures wire == old(wire) + Frame(ReadQuery(slaveAddr, slaveType)) + Frame(ReadQuery(slaveAddr, slaveType))
    {
      var buf_send := new byte[64];
      var len: u16 := 7;
      buf_send[0], buf_send[1], buf_send[2] := HEAD1, HEAD2, slaveAddr;
      buf_send[3], buf_send[4], buf_send[5] := Hi(len), Lo(len), FUN_READ;
      buf_send[6], buf_send[7] := Hi(ADDR_DRIVER_TYPE), Lo(ADDR_DRIVER_TYPE);
      buf_send[8], buf_send[9] := 0x00, slaveType;
      assert buf_send[..10] == [HEAD1, HEAD2] + Body(ReadQuery(slaveAddr, slaveType));
      Seal(buf_send, len, ReadQuery(slaveAddr, slaveType));
      Transmit(buf_send, 14);
      wire := wire + buf_send[..14];
    }

    /** Byte by byte. */
    method Transmit(buf_send: array<byte>, len: nat)
      requires len <= buf_send.Length
      modifies this`wire
      ensures wire == old(wire) + buf_send[..len]
    {
      var t := 0;
      while t < len
        invariant 0 <= t <= len && wire == old(wire) + buf_send[..t]
      {
        wire := wire + [buf_send[t]];
        t := t + 1;
      }
    }
  }

  lemma {:induction false} SealedBody(buf: seq<byte>, body: seq<byte>)
    requires |body| + 2 <= |buf| && buf[..|body| + 2] == [HEAD1, HEAD2] + body
    ensures buf[2..][..|body|] == body
  {
    assert buf[2..][..|body|] == buf[..|body| + 2][2..];
  }

  lemma {:induction false} SealedParts(buf: seq<byte>, body: seq<byte>, crc: u16)
    requires |body| + 6 <= |buf| && buf[..|body| + 2] == [HEAD1, HEAD2] + body
    requires buf[|body| + 2] == Hi(crc) && buf[|body| + 3] == Lo(crc)
    requires buf[|body| + 4] == END1 && buf[|body| + 5] == END2
    ensures buf[..|body| + 6] == Sealed(body, crc)
  {
    var n := |body| + 2;
    assert buf[..n + 4] == buf[..n] + [buf[n], buf[n + 1], buf[n + 2], buf[n + 3]];
  }

  function SearchQuery(slaveAddr: byte): Message {
    Message(slaveAddr, FUN_SEARCH, [Hi(ADDR_DRIVER_TYPE), Lo(ADDR_DRIVER_TYPE), 0xFE])
  }

  function RelayCommand(slaveAddr: byte, relayData: u16): Message {
    Message(slaveAddr, FUN_WRITE,
            [Hi(ADDR_RELAY1_STATUS), Lo(ADDR_RELAY1_STATUS), Hi(relayData), Lo(relayData)])
  }

  function ReadQuery(slaveAddr: byte, slaveType: byte): Message {
    Message(slaveAddr, FUN_READ, [Hi(ADDR_DRIVER_TYPE), Lo(ADDR_DRIVER_TYPE), 0x00, slaveType])
  }

  /** What the three builders send, byte by byte. */
  lemma {:induction false} SearchBytes(addr: byte)
    ensures var c := Crc([addr, 0x00, 0x06, 0x01, 0xFF, 0x00, 0xFE]);
            Frame(SearchQuery(addr))
            == [0xF5, 0x5F, addr, 0x00, 0x06, 0x01, 0xFF, 0x00, 0xFE, c / 256, c % 256, 0x0D, 0x0A]
  {
    hide *;
    var payload: seq<byte> := [0xFF, 0x00, 0xFE];
    CommandMessages(addr, 0, 0);
    ShortFrame(addr, 0x01, payload);
    assert [addr, 0x00, 0x06, 0x01] + payload == [addr, 0x00, 0x06, 0x01, 0xFF, 0x00, 0xFE];
  }

  lemma {:induction false} RelayBytes(addr: byte, data: u16)
    ensures var c := Crc([addr, 0x00, 0x07, 0x03, 0x00, 0x00, data / 256, data % 256]);
            Frame(RelayCommand(addr, data))
            == [0xF5, 0x5F, addr, 0x00, 0x07, 0x03, 0x00, 0x00, data / 256, data % 256, c / 256, c % 256, 0x0D, 0x0A]
  {
    hide *;
    var hi: byte, lo: byte := data / 256, data % 256;
    var payload: seq<byte> := [0x00, 0x00, hi, lo];
    CommandMessages(addr, data, 0);
    ShortFrame(addr, 0x03, payload);
    assert [addr, 0x00, 0x07, 0x03] + payload == [addr, 0x00, 0x07, 0x03, 0x00, 0x00, hi, lo];
  }

  lemma {:induction false} ReadBytes(addr: byte, kind: byte)
    ensures var c := Crc([addr, 0x00, 0x07, 0x02, 0xFF, 0x00, 0x00, kind]);
            Frame(ReadQuery(addr, kind))
            == [0xF5, 0x5F, addr, 0x00, 0x07, 0x02, 0xFF, 0x00, 0x00, kind, c / 256, c % 256, 0x0D, 0x0A]
  {
    hide *;
    var payload: seq<byte> := [0xFF, 0x00, 0x00, kind];
    CommandMessages(addr, 0, kind);
    ShortFrame(addr, 0x02, payload);
    assert [addr, 0x00, 0x07, 0x02] + payload == [addr, 0x00, 0x07, 0x02, 0xFF, 0x00, 0x00, kind];
  }

  lemma {:induction false} CommandMessages(addr: byte, data: u16, kind: byte)
    ensures SearchQuery(addr) == Message(addr, 0x01, [0xFF, 0x00, 0xFE])
    ensures RelayCommand(addr, data) == Message(addr, 0x03, [0x00, 0x00, data / 256, data % 256])
    ensures ReadQuery(addr, kind) == Message(addr, 0x02, [0xFF, 0x00, 0x00, kind])
  {}

  lemma {:induction false} ShortFrame(addr: byte, fun: byte, payload: seq<byte>)
    requires |payload| <= 4
    ensures var m := Message(addr, fun, payload);
            var len := |payload| + 3;
            var crc := Crc([addr, 0x00, len, fun] + payload);
            Sendable(m) && Frame(m) == [0xF5, 0x5F, addr, 0x00, len, fun] + payload + [crc / 256, crc % 256, 0x0D, 0x0A]
  {
    var m, len := Message(addr, fun, payload), |payload| + 3;
    hide Crc, Frame;
    assert len / 256 == 0 && len % 256 == len;
    FrameBytes(m, len, Crc([addr, 0x00, len, fun] + payload));
  }
}
