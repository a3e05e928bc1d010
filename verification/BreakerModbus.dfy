/**
  The Modbus RTU master of app/circuit_breaker_rs485_handle.c for the holding registers of
  a circuit breaker, against a slave that follows sections 6.3, 6.5 and 6.12 of the MODBUS
  Application Protocol V1.1b3 and section 2.5.1.2 of MODBUS over Serial Line V1.02.
  */
module BreakerModbus {
  import opened Bytes
  import opened Options
  import opened Crc16

  const FIRST_REGISTER: nat := 0x0FA0   // 4000, the rated current
  const REGISTERS: nat := 49
  const BUFFER_SIZE: nat := 300

  const WRITE_COIL: byte := 0x05
  const READ_HOLDING: byte := 0x03
  const WRITE_MULTIPLE: byte := 0x10

  /** The fields of `cb_reg_holding` in register order. */
  type Image = s: seq<u16> | |s| == REGISTERS witness seq(REGISTERS, _ => 0)

  // ----- Messages

  /** Big-endian registers. */
  function RegisterBytes(regs: seq<u16>): (b: seq<byte>)
    ensures |b| == 2 * |regs|
    ensures forall i | 0 <= i < |regs| :: b[2 * i] == Hi(regs[i]) && b[2 * i + 1] == Lo(regs[i])
  {
    if regs == [] then []
    else RegisterBytes(regs[..|regs| - 1]) + [Hi(regs[|regs| - 1]), Lo(regs[|regs| - 1])]
  }

  lemma {:induction false} OneMoreRegister(regs: seq<u16>, k: nat)
    requires k < |regs|
    ensures RegisterBytes(regs[..k + 1]) == RegisterBytes(regs[..k]) + [Hi(regs[k]), Lo(regs[k])]
  {
    assert regs[..k + 1][..k] == regs[..k];
  }

  /** The last two bytes are the checksum of the others, low byte first. */
  predicate Intact(m: seq<byte>) {
    |m| >= 2 && Word(m[|m| - 1], m[|m| - 2]) == Crc(m[..|m| - 2])
  }

  function Sealed(body: seq<byte>): (m: seq<byte>)
    ensures |m| == |body| + 2 && m[..|body|] == body && Intact(m)
  {
    var crc := Crc(body);
    assert (body + [Lo(crc), Hi(crc)])[..|body|] == body;
    body + [Lo(crc), Hi(crc)]
  }

  /** Every register but the first. */
  function WriteRequest(addr: byte, image: Image): seq<byte> {
    Sealed([addr, WRITE_MULTIPLE, 0x0F, 0xA1, 0x00, 0x30, 0x60] + RegisterBytes(image[1..]))
  }

  function ReadRequest(addr: byte): seq<byte> {
    Sealed([addr, READ_HOLDING, 0x0F, 0xA0, 0x00, 0x31])
  }

  function CoilRequest(addr: byte, close: bool): seq<byte> {
    Sealed([addr, WRITE_COIL, 0x00, 0x00, if close then 0xFF else 0x00, 0x00])
  }

  // ----- What the master accepts

  /** `read_coil_handle` and `write_hold_handle`: address, function, and a checksum over six bytes. */
  predicate EchoAccepted(rx: seq<byte>, addr: byte, fun: byte)
    requires |rx| >= 8
  {
    rx[0] == addr && rx[1] == fun && Intact(rx[..8])
  }

  /** `read_hold_handle`: the checksum follows as many data bytes as the reply announces. */
  predicate DataAccepted(rx: seq<byte>, addr: byte, fun: byte)
    requires |rx| >= 3 && rx[2] <= |rx| - 5
  {
    rx[0] == addr && rx[1] == fun && Intact(rx[..5 + rx[2] as int])
  }

  function ImageOf(rx: seq<byte>): Image
    requires |rx| >= 101
  {
    seq(REGISTERS, i requires 0 <= i < REGISTERS => Word(rx[3 + 2 * i], rx[4 + 2 * i]))
  }

  lemma {:induction false} SealedIsIntact(m: seq<byte>, body: seq<byte>)
    requires |m| == |body| + 2 && m[..|body|] == body
    ensures Intact(m) <==> m == Sealed(body)
  {
    hide Crc;
    var c := Crc(body);
    assert Intact(m) ==> m[|body|] == Lo(c) && m[|body| + 1] == Hi(c);
    assert m == m[..|body|] + [m[|body|], m[|body| + 1]];
  }

  /** What is accepted as an echo: a whole message from that slave with that function, and no other. */
  lemma {:induction false} EchoIsFromSlave(rx: seq<byte>, addr: byte, fun: byte)
    requires |rx| >= 8
    ensures EchoAccepted(rx, addr, fun) <==> rx[..8] == Sealed([addr, fun, rx[2], rx[3], rx[4], rx[5]])
  {
    hide Crc, Intact, Sealed;
    var body: seq<byte> := [addr, fun, rx[2], rx[3], rx[4], rx[5]];
    if rx[0] == addr && rx[1] == fun {
      assert rx[..8][..6] == body;
      SealedIsIntact(rx[..8], body);
    } else {
      assert Sealed(body)[..6] == body;
      assert Sealed(body)[0] == body[0] && Sealed(body)[1] == body[1];
    }
  }

  /** What is accepted as data: a whole message from that slave with that function and as many bytes as it announces. */
  lemma {:induction false} DataIsFromSlave(rx: seq<byte>, addr: byte, fun: byte)
    requires |rx| >= 3 && rx[2] <= |rx| - 5
    ensures DataAccepted(rx, addr, fun)
            <==> rx[..5 + rx[2] as int] == Sealed([addr, fun, rx[2]] + rx[3..3 + rx[2] as int])
  {
    hide Crc, Intact, Sealed;
    var n: int := rx[2];
    var body: seq<byte> := [addr, fun, rx[2]] + rx[3..3 + n];
    if rx[0] == addr && rx[1] == fun {
      assert rx[..5 + n][..3 + n] == body;
      SealedIsIntact(rx[..5 + n], body);
    } else {
      assert Sealed(body)[..3 + n] == body;
      assert Sealed(body)[0] == body[0] && Sealed(body)[1] == body[1];
    }
  }

  /** The requests byte by byte. */
  lemma {:induction false} RequestBytes(addr: byte, image: Image, close: bool)
    ensures ReadRequest(addr) == Sealed([addr, 0x03, 0x0F, 0xA0, 0x00, 0x31])
    ensures CoilRequest(addr, close) == Sealed([addr, 0x05, 0x00, 0x00, if close then 0xFF else 0x00, 0x00])
    ensures var m := WriteRequest(addr, image);
            && |m| == 105 && m[..7] == [addr, 0x10, 0x0F, 0xA1, 0x00, 0x30, 0x60] && Intact(m)
            && forall i | 0 <= i < 48 :: m[7 + 2 * i] == image[i + 1] / 256 && m[8 + 2 * i] == image[i + 1] % 256
  {
    hide Crc;
    var head: seq<byte> := [addr, WRITE_MULTIPLE, 0x0F, 0xA1, 0x00, 0x30, 0x60];
    var b, m := RegisterBytes(image[1..]), WriteRequest(addr, image);
    SealedParts(head, b);
    assert m[..7] == head;
    forall i | 0 <= i < 48 ensures m[7 + 2 * i] == image[i + 1] / 256 && m[8 + 2 * i] == image[i + 1] % 256 {
      assert m[7..103] == b && m[7 + 2 * i] == b[2 * i] && m[8 + 2 * i] == b[2 * i + 1];
      assert image[1..][i] == image[i + 1];
    }
  }

  /** The request for the registers of slave 1. */
  lemma {:induction false} KnownRequest()
    ensures ReadRequest(1) == [0x01, 0x03, 0x0F, 0xA0, 0x00, 0x31, 0x87, 0x28]
  {
    hide *;
    var body: seq<byte> := [0x01, 0x03, 0x0F, 0xA0, 0x00, 0x31];
    ReadRequestIs(1);
    KnownChecksums();
    SealBytes(body, 0x2887);
    assert body + [0x87, 0x28] == [0x01, 0x03, 0x0F, 0xA0, 0x00, 0x31, 0x87, 0x28];
  }

  lemma {:induction false} ReadRequestIs(addr: byte)
    ensures ReadRequest(addr) == Sealed([addr, 0x03, 0x0F, 0xA0, 0x00, 0x31])
  {
    hide Crc, Sealed;
  }

  /** The checksum follows low byte first. */
  lemma {:induction false} SealBytes(body: seq<byte>, c: u16)
    requires Crc(body) == c
    ensures Sealed(body) == body + [c % 256, c / 256]
  {
    hide Crc;
  }

  // ----- Damage on the line

  /** A message is intact exactly if its checksum, taken over its checksum bytes too, is zero. */
  lemma {:induction false} IntactMeansResidueZero(m: seq<byte>)
    requires |m| >= 2
    ensures Intact(m) <==> Crc(m) == 0
  {
    var n := |m| - 2;
    Residue(m[..n], m[n], m[n + 1]);
    assert m == m[..n] + [m[n], m[n + 1]];
  }

  lemma {:induction false} DamageIsNoticed(genuine: seq<byte>, rx: seq<byte>, i: nat)
    requires |genuine| == |rx| >= 2 && genuine != rx && i < |rx|
    requires forall k | 0 <= k < |rx| && k != i && k != i + 1 :: genuine[k] == rx[k]
    requires Intact(genuine)
    ensures !Intact(rx)
  {
    IntactMeansResidueZero(genuine);
    IntactMeansResidueZero(rx);
    AdjacentBurst(genuine, rx, i);
  }

  /** An eight-byte reply differing from a genuine one only within two adjacent bytes is never accepted. */
  lemma {:induction false} DamagedEchoIsRejected(genuine: seq<byte>, rx: seq<byte>, addr: byte, fun: byte, i: nat)
    requires |genuine| == |rx| == 8 && genuine != rx && i < 8
    requires forall k | 0 <= k < 8 && k != i && k != i + 1 :: genuine[k] == rx[k]
    requires EchoAccepted(genuine, addr, fun)
    ensures !EchoAccepted(rx, addr, fun)
  {
    assert genuine[..8] == genuine && rx[..8] == rx;
    DamageIsNoticed(genuine, rx, i);
  }

  /** The same for a reply with data, as long as it is anywhere but at the byte count. */
  lemma {:induction false} DamagedDataIsRejected(genuine: seq<byte>, rx: seq<byte>, addr: byte, fun: byte, i: nat)
    requires |genuine| == |rx| >= 5 && genuine != rx && i < |rx| && i != 1 && i != 2
    requires genuine[2] == |genuine| - 5
    requires forall k | 0 <= k < |rx| && k != i && k != i + 1 :: genuine[k] == rx[k]
    requires DataAccepted(genuine, addr, fun)
    ensures !DataAccepted(rx, addr, fun)
  {
    assert genuine[..|rx|] == genuine && rx[..|rx|] == rx;
    DamageIsNoticed(genuine, rx, i);
  }

  // ----- Damage to the byte count

  /** The receive buffer after a genuine reply with the register image; `rest` is behind it. */
  function Replied(addr: byte, image: Image, rest: seq<byte>): (buf: seq<byte>)
    requires |rest| == BUFFER_SIZE - 103
    ensures |buf| == BUFFER_SIZE
  {
    Sealed([addr, READ_HOLDING, 98] + RegisterBytes(image)) + rest
  }

  /** The reply in the buffer is changed, only within bytes i and i + 1. */
  predicate Damaged(buf: seq<byte>, rx: seq<byte>, i: nat) {
    && |rx| == |buf| == BUFFER_SIZE && rx != buf
    && forall k | 0 <= k < BUFFER_SIZE && ((k != i && k != i + 1) || k >= 103) :: rx[k] == buf[k]
  }

  lemma {:induction false} RepliedParts(addr: byte, image: Image, rest: seq<byte>)
    requires |rest| == BUFFER_SIZE - 103
    ensures var buf := Replied(addr, image, rest);
            && buf[0] == addr && buf[1] == READ_HOLDING && buf[2] == 98
            && Intact(buf[..103]) && DataAccepted(buf, addr, READ_HOLDING)
            && forall r | 0 <= r < REGISTERS :: buf[3 + 2 * r] == Hi(image[r]) && buf[4 + 2 * r] == Lo(image[r])
  {
    hide Crc;
    var head: seq<byte> := [addr, READ_HOLDING, 98];
    var b, m := RegisterBytes(image), Sealed(head + RegisterBytes(image));
    SealedParts(head, b);
    var buf := Replied(addr, image, rest);
    assert buf[..103] == m;
    forall r | 0 <= r < REGISTERS ensures buf[3 + 2 * r] == Hi(image[r]) && buf[4 + 2 * r] == Lo(image[r]) {
      assert buf[3 + 2 * r] == m[3..101][2 * r] && buf[4 + 2 * r] == m[3..101][2 * r + 1];
    }
  }

  lemma {:induction false} OffCountIsNoticed(addr: byte, image: Image, rest: seq<byte>, rx: seq<byte>, i: nat)
    requires |rest| == BUFFER_SIZE - 103 && Damaged(Replied(addr, image, rest), rx, i) && i != 1 && i != 2
    ensures !DataAccepted(rx, addr, READ_HOLDING)
  {
    hide Crc, Intact;
    var buf := Replied(addr, image, rest);
    RepliedParts(addr, image, rest);
    var g, f := buf[..103], rx[..103];
    assert buf == g + buf[103..] && rx == f + rx[103..] && buf[103..] == rx[103..];
    assert forall k | 0 <= k < 103 && k != i && k != i + 1 :: g[k] == buf[k] == rx[k] == f[k];
    assert i < 103;
    DamageIsNoticed(g, f, i);
  }

  /** An image whose first register happens to hold the checksum of a reply without data. */
  predicate HoldsShortSeal(addr: byte, image: Image) {
    var c := Crc([addr, READ_HOLDING, 0]);
    image[0] == Word(Lo(c), Hi(c))
  }

  /** The reply with its byte count damaged to 0. */
  function WithoutCount(buf: seq<byte>): (rx: seq<byte>)
    requires |buf| == BUFFER_SIZE
    ensures |rx| == BUFFER_SIZE && rx[2] == 0 && forall k | 0 <= k < BUFFER_SIZE && k != 2 :: rx[k] == buf[k]
  {
    buf[2 := 0]
  }

  /** Then the byte count 98 damaged to 0 makes a reply that is accepted. */
  lemma {:induction false} CountDamagePasses(addr: byte, image: Image, rest: seq<byte>)
    requires |rest| == BUFFER_SIZE - 103 && HoldsShortSeal(addr, image)
    ensures Damaged(Replied(addr, image, rest), WithoutCount(Replied(addr, image, rest)), 1)
    ensures Damaged(Replied(addr, image, rest), WithoutCount(Replied(addr, image, rest)), 2)
    ensures DataAccepted(WithoutCount(Replied(addr, image, rest)), addr, READ_HOLDING)
  {
    hide Crc, Replied, WithoutCount, Intact;
    var buf := Replied(addr, image, rest);
    RepliedParts(addr, image, rest);
    var rx := WithoutCount(buf);
    assert rx[2] != buf[2];
    var c := Crc([addr, READ_HOLDING, 0]);
    assert rx[3] == buf[3 + 2 * 0] == Lo(c) && rx[4] == buf[4 + 2 * 0] == Hi(c);
    SealFits(rx[..5], [addr, READ_HOLDING, 0], c);
  }

  lemma {:induction false} SealFits(m: seq<byte>, body: seq<byte>, c: u16)
    requires |m| == |body| + 2 && c == Crc(body) && m[|body|] == Lo(c) && m[|body| + 1] == Hi(c)
    requires forall k | 0 <= k < |body| :: m[k] == body[k]
    ensures Intact(m)
  {
    hide Crc;
    assert m[..|body|] == body;
  }

  /** All damage to a reply within bytes i and i + 1 is noticed. */
  ghost predicate SurelyNoticed(addr: byte, i: nat) {
    forall image: Image, rest: seq<byte>, rx: seq<byte>
      | |rest| == BUFFER_SIZE - 103 && Damaged(Replied(addr, image, rest), rx, i) ::
      !DataAccepted(rx, addr, READ_HOLDING)
  }

  function ShortSealed(addr: byte): (image: Image)
    ensures HoldsShortSeal(addr, image)
  {
    hide Crc;
    var c := Crc([addr, READ_HOLDING, 0]);
    var first: u16 := Word(Lo(c), Hi(c));
    seq(REGISTERS, i => if i == 0 then first else 0)
  }

  /** Damage within two adjacent bytes of a reply is sure to be noticed exactly if it does not reach the byte count. */
  lemma {:induction false} DataDamageIsNoticedExactlyOffTheCount(addr: byte, i: nat)
    ensures SurelyNoticed(addr, i) <==> i != 1 && i != 2
  {
    hide Crc, Intact, Replied, DataAccepted, HoldsShortSeal, ShortSealed, WithoutCount;
    forall image: Image, rest: seq<byte>, rx: seq<byte>
      | |rest| == BUFFER_SIZE - 103 && Damaged(Replied(addr, image, rest), rx, i) && i != 1 && i != 2
      ensures !DataAccepted(rx, addr, READ_HOLDING)
    {
      OffCountIsNoticed(addr, image, rest, rx, i);
    }
    var image, rest := ShortSealed(addr), seq(BUFFER_SIZE - 103, _ => 0);
    CountDamagePasses(addr, image, rest);
  }

  /** Count and first data byte damaged. */
  function WithCountTwo(buf: seq<byte>, x: byte): (rx: seq<byte>)
    requires |buf| == BUFFER_SIZE
    ensures |rx| == BUFFER_SIZE && rx[2] == 2 && rx[3] == x
    ensures forall k | 0 <= k < BUFFER_SIZE && k != 2 && k != 3 :: rx[k] == buf[k]
  {
    buf[2 := 2][3 := x]
  }

  /** The second register fits the damage: it holds the checksum of a reply with the one damaged register. */
  predicate HoldsSealOf(addr: byte, image: Image, x: byte) {
    var c := Crc([addr, READ_HOLDING, 2, x, Lo(image[0])]);
    image[1] == Word(Lo(c), Hi(c))
  }

  /** Then the table takes a wrong value. */
  lemma {:induction false} WrongRegisterIsTaken(addr: byte, image: Image, rest: seq<byte>, x: byte)
    requires |rest| == BUFFER_SIZE - 103 && x != Hi(image[0]) && HoldsSealOf(addr, image, x)
    ensures Damaged(Replied(addr, image, rest), WithCountTwo(Replied(addr, image, rest), x), 2)
    ensures DataAccepted(WithCountTwo(Replied(addr, image, rest), x), addr, READ_HOLDING)
    ensures ImageOf(WithCountTwo(Replied(addr, image, rest), x))[0] == Word(x, Lo(image[0])) != image[0]
  {
    hide Crc, Replied, WithCountTwo, Intact;
    var buf := Replied(addr, image, rest);
    RepliedParts(addr, image, rest);
    var rx, body := WithCountTwo(buf, x), [addr, READ_HOLDING, 2, x, Lo(image[0])];
    var c := Crc(body);
    assert rx[2] != buf[2];
    assert rx[4] == buf[4 + 2 * 0] && rx[5] == buf[3 + 2 * 1] == Lo(c) && rx[6] == buf[4 + 2 * 1] == Hi(c);
    SealFits(rx[..7], body, c);
  }

  // ----- The slave

  datatype Slave = Slave(addr: byte, regs: map<nat, u16>, coils: map<nat, bool>)

  function Exception(addr: byte, fun: byte, code: byte): seq<byte> {
    Sealed([addr, (fun + 128) % 256, code])
  }

  predicate Has(regs: map<nat, u16>, start: nat, n: nat) {
    forall a | start <= a < start + n :: a in regs
  }

  function Stored(regs: map<nat, u16>, start: nat, values: seq<u16>): map<nat, u16> {
    map a | a in regs :: if start <= a < start + |values| then values[a - start] else regs[a]
  }

  function Fetched(regs: map<nat, u16>, start: nat, n: nat): (values: seq<u16>)
    requires Has(regs, start, n)
    ensures |values| == n && forall i | 0 <= i < n :: values[i] == regs[start + i]
  {
    seq(n, i requires 0 <= i < n => regs[start + i])
  }

  function WordsOf(b: seq<byte>): (w: seq<u16>)
    requires |b| % 2 == 0
    ensures |w| == |b| / 2
  {
    seq(|b| / 2, i requires 0 <= i < |b| / 2 => Word(b[2 * i], b[2 * i + 1]))
  }

  function ServeWrite(s: Slave, req: seq<byte>): (Slave, seq<byte>)
    requires |req| >= 8
  {
    var start, qty := Word(req[2], req[3]), Word(req[4], req[5]);
    if !(1 <= qty <= 0x7B && |req| == 9 + 2 * qty as int && req[6] as int == 2 * qty as int) then
      (s, Exception(s.addr, req[1], 3))
    else if !Has(s.regs, start, qty) then (s, Exception(s.addr, req[1], 2))
    else (s.(regs := Stored(s.regs, start, WordsOf(req[7..|req| - 2]))), Sealed(req[..6]))
  }

  function ServeRead(s: Slave, req: seq<byte>): seq<byte>
    requires |req| >= 8
  {
    var start, qty := Word(req[2], req[3]), Word(req[4], req[5]);
    if !(|req| == 8 && 1 <= qty <= 0x7D) then Exception(s.addr, req[1], 3)
    else if !Has(s.regs, start, qty) then Exception(s.addr, req[1], 2)
    else Sealed([s.addr, 0x03, 2 * qty] + RegisterBytes(Fetched(s.regs, start, qty)))
  }

  /** A coil is closed by the value FF 00 and opened by 00 00; the reply is the request. */
  function ServeCoil(s: Slave, req: seq<byte>): (Slave, seq<byte>)
    requires |req| >= 8
  {
    var coil, value := Word(req[2], req[3]), Word(req[4], req[5]);
    if !(|req| == 8 && (value == 0xFF00 || value == 0x0000)) then (s, Exception(s.addr, req[1], 3))
    else if coil !in s.coils then (s, Exception(s.addr, req[1], 2))
    else (s.(coils := s.coils[coil := value == 0xFF00]), req)
  }

  /** Requests for another address or with a bad checksum are not answered. */
  function Serve(s: Slave, req: seq<byte>): (Slave, Option<seq<byte>>) {
    if |req| < 8 || req[0] != s.addr || !Intact(req) then (s, None)
    else if req[1] == 0x10 then var (s', reply) := ServeWrite(s, req); (s', Some(reply))
    else if req[1] == 0x03 then (s, Some(ServeRead(s, req)))
    else if req[1] == 0x05 then var (s', reply) := ServeCoil(s, req); (s', Some(reply))
    else (s, Some(Exception(s.addr, req[1], 1)))
  }

  // ----- Writing, then reading back

  lemma {:induction false} WordsOfRegisters(regs: seq<u16>)
    ensures WordsOf(RegisterBytes(regs)) == regs
  {
    var b := RegisterBytes(regs);
    forall i | 0 <= i < |regs| ensures WordsOf(b)[i] == regs[i] {
      assert b[2 * i] == Hi(regs[i]) && b[2 * i + 1] == Lo(regs[i]);
    }
  }

  lemma {:induction false} SealedParts(head: seq<byte>, data: seq<byte>)
    ensures var m := Sealed(head + data);
            && |m| == |head| + |data| + 2 && Intact(m)
            && (forall i | 0 <= i < |head| :: m[i] == head[i])
            && m[|head|..|m| - 2] == data
  {
    var m, b := Sealed(head + data), head + data;
    assert forall i | 0 <= i < |b| :: m[i] == m[..|b|][i] == b[i];
  }

  lemma {:induction false} WriteIsServed(s: Slave, image: Image)
    requires Has(s.regs, 4000, 49)
    ensures Serve(s, WriteRequest(s.addr, image)).0 == s.(regs := Stored(s.regs, 4001, image[1..]))
    ensures var reply := Serve(s, WriteRequest(s.addr, image)).1;
            reply.Some? && |reply.value| == 8 && EchoAccepted(reply.value, s.addr, 0x10)
  {
    hide Crc;
    var head: seq<byte> := [s.addr, WRITE_MULTIPLE, 0x0F, 0xA1, 0x00, 0x30, 0x60];
    var req := WriteRequest(s.addr, image);
    SealedParts(head, RegisterBytes(image[1..]));
    WordsOfRegisters(image[1..]);
    EchoOf(s.addr, req);
  }

  lemma {:induction false} EchoOf(addr: byte, req: seq<byte>)
    requires |req| >= 6 && req[0] == addr && req[1] == WRITE_MULTIPLE
    ensures |Sealed(req[..6])| == 8 && EchoAccepted(Sealed(req[..6]), addr, WRITE_MULTIPLE)
  {
    hide Crc;
    var m := Sealed(req[..6]);
    assert m[..8] == m && m[0] == m[..6][0] && m[1] == m[..6][1];
  }

  lemma {:induction false} ReadIsServed(s: Slave)
    requires Has(s.regs, 4000, 49)
    ensures Serve(s, ReadRequest(s.addr)).0 == s
    ensures var reply := Serve(s, ReadRequest(s.addr)).1;
            && reply.Some? && |reply.value| == 103 && reply.value[2] == 98
            && DataAccepted(reply.value, s.addr, 0x03)
            && ImageOf(reply.value) == Fetched(s.regs, 4000, 49)
  {
    hide *;
    var req := ReadRequest(s.addr);
    ReadRequestParts(s.addr);
    ReadIsAnswered(s, req);
    DataReply(s.addr, Fetched(s.regs, 4000, 49));
  }

  lemma {:induction false} ReadRequestParts(addr: byte)
    ensures var req := ReadRequest(addr);
            && |req| == 8 && Intact(req) && req[0] == addr && req[1] == 0x03
            && Word(req[2], req[3]) == 4000 && Word(req[4], req[5]) == 49
    ensures REGISTERS == 49 && READ_HOLDING == 0x03
  {
    hide Crc, Intact;
    var head: seq<byte> := [addr, READ_HOLDING, 0x0F, 0xA0, 0x00, 0x31];
    SealedParts(head, []);
    assert head + [] == head;
  }

  lemma {:induction false} ReadIsAnswered(s: Slave, req: seq<byte>)
    requires |req| == 8 && Intact(req) && req[0] == s.addr && req[1] == 0x03
    requires Word(req[2], req[3]) == 4000 && Word(req[4], req[5]) == 49 && Has(s.regs, 4000, 49)
    ensures Serve(s, req) == (s, Some(Sealed([s.addr, 0x03, 98] + RegisterBytes(Fetched(s.regs, 4000, 49)))))
  {
    hide Intact, ServeWrite, ServeCoil, Exception, Sealed, RegisterBytes, Has, Fetched, Word;
  }

  /** A slave closes its coil 0 on the one command and opens it on the other, and its echo is accepted. */
  lemma {:induction false} CoilIsServed(s: Slave, close: bool)
    requires 0 in s.coils
    ensures Serve(s, CoilRequest(s.addr, close)).0 == s.(coils := s.coils[0 := close])
    ensures var reply := Serve(s, CoilRequest(s.addr, close)).1;
            reply.Some? && |reply.value| == 8 && EchoAccepted(reply.value, s.addr, 0x05)
  {
    hide *;
    var req := CoilRequest(s.addr, close);
    CoilRequestParts(s.addr, close);
    CommandIsServed(s, req, close);
    CommandIsEcho(s.addr, req);
  }

  lemma {:induction false} CoilRequestParts(addr: byte, close: bool)
    ensures var req := CoilRequest(addr, close);
            && |req| == 8 && Intact(req) && req[0] == addr && req[1] == 0x05 && req[2] == req[3] == req[5] == 0
            && req[4] == if close then 0xFF else 0x00
  {
    hide Crc, Intact;
    var head: seq<byte> := [addr, 0x05, 0x00, 0x00, if close then 0xFF else 0x00, 0x00];
    SealedParts(head, []);
    assert head + [] == head;
  }

  lemma {:induction false} CommandIsServed(s: Slave, req: seq<byte>, close: bool)
    requires |req| == 8 && Intact(req) && req[0] == s.addr && req[1] == 0x05 && req[2] == req[3] == req[5] == 0
    requires 0 in s.coils && req[4] == if close then 0xFF else 0x00
    ensures Serve(s, req) == (s.(coils := s.coils[0 := close]), Some(req))
  {
    hide *;
    CoilIsAnswered(s, req);
    CoilIsSet(s, req, close);
  }

  lemma {:induction false} CoilIsAnswered(s: Slave, req: seq<byte>)
    requires |req| >= 8 && Intact(req) && req[0] == s.addr && req[1] == 0x05
    ensures Serve(s, req) == (ServeCoil(s, req).0, Some(ServeCoil(s, req).1))
  {
    hide Intact, ServeWrite, ServeRead, ServeCoil, Exception;
  }

  lemma {:induction false} CoilIsSet(s: Slave, req: seq<byte>, close: bool)
    requires |req| == 8 && req[2] == req[3] == req[5] == 0 && req[4] == if close then 0xFF else 0x00
    requires 0 in s.coils
    ensures ServeCoil(s, req) == (s.(coils := s.coils[0 := close]), req)
  {
    hide Exception, Word;
    CommandWord(0);
    CommandWord(req[4]);
  }

  lemma {:induction false} CommandWord(c: byte)
    ensures (Word(c, 0) == 0xFF00 <==> c == 0xFF) && (Word(c, 0) == 0 <==> c == 0)
  {}

  lemma {:induction false} CommandIsEcho(addr: byte, req: seq<byte>)
    requires |req| == 8 && Intact(req) && req[0] == addr && req[1] == 0x05
    ensures EchoAccepted(req, addr, 0x05)
  {
    hide Intact;
    assert req[..8] == req;
  }

  lemma {:induction false} DataReply(addr: byte, image: Image)
    ensures var reply := Sealed([addr, READ_HOLDING, 98] + RegisterBytes(image));
            && |reply| == 103 && reply[2] == 98
            && DataAccepted(reply, addr, READ_HOLDING) && ImageOf(reply) == image
  {
    hide Crc;
    var head: seq<byte> := [addr, READ_HOLDING, 98];
    var b := RegisterBytes(image);
    SealedParts(head, b);
    var reply := Sealed(head + b);
    assert reply[..103] == reply;
    forall i | 0 <= i < REGISTERS ensures ImageOf(reply)[i] == image[i] {
      assert reply[3 + 2 * i] == reply[3..101][2 * i] && reply[4 + 2 * i] == reply[3..101][2 * i + 1];
      assert b[2 * i] == Hi(image[i]) && b[2 * i + 1] == Lo(image[i]);
    }
  }

  /** Writing an image and reading it back restores every register but the first, which the slave keeps. */
  lemma {:induction false} WriteThenRead(s: Slave, image: Image)
    requires Has(s.regs, 4000, 49)
    ensures var s1 := Serve(s, WriteRequest(s.addr, image)).0;
            var echo := Serve(s, WriteRequest(s.addr, image)).1;
            var data := Serve(s1, ReadRequest(s.addr)).1;
            && echo.Some? && |echo.value| == 8 && EchoAccepted(echo.value, s.addr, 0x10)
            && data.Some? && |data.value| == 103 && data.value[2] == 98
            && DataAccepted(data.value, s.addr, 0x03)
            && ImageOf(data.value) == [s.regs[4000]] + image[1..]
            && s1.regs.Keys == s.regs.Keys
            && forall a | a in s.regs && !(4000 < a < 4049) :: s1.regs[a] == s.regs[a]
  {
    hide Crc;
    WriteIsServed(s, image);
    var regs1 := Stored(s.regs, FIRST_REGISTER + 1, image[1..]);
    assert regs1.Keys == s.regs.Keys;
    ReadIsServed(s.(regs := regs1));
    StoredThenFetched(s.regs, image);
  }

  lemma {:induction false} StoredThenFetched(regs: map<nat, u16>, image: Image)
    requires Has(regs, FIRST_REGISTER, REGISTERS)
    ensures var regs1 := Stored(regs, FIRST_REGISTER + 1, image[1..]);
            && Has(regs1, FIRST_REGISTER, REGISTERS)
            && Fetched(regs1, FIRST_REGISTER, REGISTERS) == [regs[FIRST_REGISTER]] + image[1..]
  {}

  // ----- The master's buffers and handlers

  datatype Status = SYS_OK | SYS_FAIL | SYS_E_TIMEOUT

  /** A handler polls every 10 ms; `quietAt` is the poll that first finds the line idle again. */
  predicate Arrives(quietAt: nat, timeout: u16) {
    0 < timeout && quietAt <= timeout
  }

  /** The request's seven leading bytes are in place, and after them k registers. */
  ghost predicate Filled(b: seq<byte>, front: seq<byte>, regs: seq<u16>, k: nat) {
    |b| == BUFFER_SIZE && k <= |regs| == 48 && b[..7] == front && b[7..7 + 2 * k] == RegisterBytes(regs[..k])
  }

  lemma {:induction false} FilledOneMore(b: seq<byte>, front: seq<byte>, regs: seq<u16>, k: nat)
    requires Filled(b, front, regs, k) && k < |regs|
    ensures Filled(b[7 + 2 * k := Hi(regs[k])][8 + 2 * k := Lo(regs[k])], front, regs, k + 1)
  {
    OneMoreRegister(regs, k);
    hide RegisterBytes, Hi, Lo;
    var b' := b[7 + 2 * k := Hi(regs[k])][8 + 2 * k := Lo(regs[k])];
    assert b'[..7] == b[..7];
    assert b'[7..7 + 2 * (k + 1)] == b[7..7 + 2 * k] + [Hi(regs[k]), Lo(regs[k])];
  }

  class Master {
    const rx_buf: array<byte>
    const tx_buf: array<byte>
    var reg_hold: map<byte, Image>   // the register table, by bus address
    var wire: seq<byte>

    ghost predicate Valid()
      reads this
    {
      rx_buf.Length == tx_buf.Length == BUFFER_SIZE && rx_buf != tx_buf
    }

    constructor (table: map<byte, Image>)
      ensures Valid() && reg_hold == table && wire == [] && fresh(rx_buf) && fresh(tx_buf)
    {
      rx_buf, tx_buf := new byte[BUFFER_SIZE](_ => 0), new byte[BUFFER_SIZE](_ => 0);
      reg_hold, wire := table, [];
    }

    /** The end of every request: checksum, low byte first, then the bytes one by one. */
    method Send(n: nat, ghost body: seq<byte>)
      requires Valid() && 0 < n == |body| <= BUFFER_SIZE - 2 && tx_buf[..n] == body
      modifies this`wire, tx_buf
      ensures wire == old(wire) + Sealed(body)
    {
      hide Crc;
      var checksum := ModbusCrc16(tx_buf[..], n);
      assert tx_buf[..][..n] == body;
      tx_buf[n] := Lo(checksum);
      tx_buf[n + 1] := Hi(checksum);
      ghost var message := tx_buf[..n + 2];
      assert message == body + [Lo(checksum), Hi(checksum)] == Sealed(body);
      var i := 0;
      while i < n + 2
        invariant 0 <= i <= n + 2 && tx_buf[..n + 2] == message
        invariant wire == old(wire) + message[..i]
      {
        wire := wire + [tx_buf[i]];
        assert message[..i + 1] == message[..i] + [message[i]];
        i := i + 1;
      }
      assert message[..i] == message;
    }

    /** `read_hold_send_data` */
    method ReadHoldSendData(addr: byte)
      requires Valid()
      modifies this`wire, tx_buf
      ensures wire == old(wire) + ReadRequest(addr)
    {
      hide Crc;
      tx_buf[0], tx_buf[1], tx_buf[2], tx_buf[3] := addr, READ_HOLDING, 0x0F, 0xA0;
      tx_buf[4], tx_buf[5] := 0x00, 0x31;
      assert tx_buf[..6] == [addr, READ_HOLDING, 0x0F, 0xA0, 0x00, 0x31];
      Send(6, tx_buf[..6]);
    }

    /** `set_coil_send_data` */
    method SetCoilSendData(addr: byte, openCloseFlag: byte)
      requires Valid()
      modifies this`wire, tx_buf
      ensures wire == old(wire) + CoilRequest(addr, openCloseFlag == 1)
    {
      hide Crc;
      tx_buf[0], tx_buf[1], tx_buf[2], tx_buf[3] := addr, WRITE_COIL, 0x00, 0x00;
      if openCloseFlag == 1 {
        tx_buf[4] := 0xFF;
      } else {
        tx_buf[4] := 0x00;
      }
      tx_buf[5] := 0x00;
      assert tx_buf[..6] == [addr, WRITE_COIL, 0x00, 0x00, if openCloseFlag == 1 then 0xFF else 0x00, 0x00];
      Send(6, tx_buf[..6]);
    }

    /** `write_hold_send_data` */
    method WriteHoldSendData(addr: byte)
      requires Valid() && addr in reg_hold
      modifies this`wire, tx_buf
      ensures wire == old(wire) + WriteRequest(addr, reg_hold[addr])
    {
      hide Crc;
      var image := reg_hold[addr];
      tx_buf[0], tx_buf[1], tx_buf[2], tx_buf[3] := addr, WRITE_MULTIPLE, 0x0F, 0xA1;
      tx_buf[4], tx_buf[5], tx_buf[6] := 0x00, 0x30, 0x60;
      ghost var head: seq<byte> := [addr, WRITE_MULTIPLE, 0x0F, 0xA1, 0x00, 0x30, 0x60];
      assert tx_buf[..7] == head;
      FillRegisters(image);
      assert tx_buf[..103] == tx_buf[..7] + tx_buf[7..103];
      Send(103, head + RegisterBytes(image[1..]));
    }

    /** The run of field assignments in `write_hold_send_data`, as a loop over the fields but the first. */
    method FillRegisters(image: Image)
      requires Valid()
      modifies tx_buf
      ensures tx_buf[..7] == old(tx_buf[..7]) && tx_buf[7..103] == RegisterBytes(image[1..])
    {
      ghost var regs, front := image[1..], tx_buf[..7];
      var r := 1;
      while r < REGISTERS
        invariant 1 <= r <= REGISTERS && Filled(tx_buf[..], front, regs, r - 1)
      {
        hide *;
        ghost var b: seq<byte> := tx_buf[..];
        tx_buf[5 + 2 * r] := Hi(image[r]);
        tx_buf[6 + 2 * r] := Lo(image[r]);
        assert tx_buf[..] == b[5 + 2 * r := Hi(image[r])][6 + 2 * r := Lo(image[r])];
        FilledOneMore(b, front, regs, r - 1);
        r := r + 1;
      }
      assert regs[..48] == regs;
    }

    /** The receive interrupt: the reply goes to the front of the receive buffer. */
    method Receive(reply: seq<byte>)
      requires Valid() && |reply| <= BUFFER_SIZE
      modifies rx_buf
      ensures rx_buf[..|reply|] == reply && rx_buf[|reply|..] == old(rx_buf[|reply|..])
    {
      var cnt := 0;
      while cnt < |reply|
        invariant 0 <= cnt <= |reply|
        invariant rx_buf[..cnt] == reply[..cnt] && rx_buf[|reply|..] == old(rx_buf[|reply|..])
      {
        rx_buf[cnt] := reply[cnt];
        cnt := cnt + 1;
      }
    }

    /** `memset(circuit_breaker_rx_buf, 0, ...)` */
    method ClearReceived()
      modifies rx_buf
      ensures forall i | 0 <= i < rx_buf.Length :: rx_buf[i] == 0
    {
      forall i | 0 <= i < rx_buf.Length {
        rx_buf[i] := 0;
      }
    }

    /** `read_coil_handle` with function 0x05 and `write_hold_handle` with function 0x10. */
    method EchoHandle(addr: byte, fun: byte, timeout: u16, quietAt: nat) returns (rc: Status)
      requires Valid()
      modifies rx_buf
      ensures rc == if !Arrives(quietAt, timeout) then SYS_E_TIMEOUT
                    else if EchoAccepted(old(rx_buf[..]), addr, fun) then SYS_OK else SYS_FAIL
      ensures if Arrives(quietAt, timeout) then forall i | 0 <= i < BUFFER_SIZE :: rx_buf[i] == 0
              else rx_buf[..] == old(rx_buf[..])
    {
      hide Crc;
      var time := 0;
      while time < timeout
        invariant 0 <= time <= timeout && (time > 0 ==> time < quietAt)
        invariant rx_buf[..] == old(rx_buf[..])
      {
        time := time + 1;
        if time >= quietAt {
          ghost var rx := rx_buf[..];
          if rx_buf[0] == addr {
            if rx_buf[1] == fun {
              var checksum := ModbusCrc16(rx_buf[..], 6);
              var read := Word(rx_buf[7], rx_buf[6]);
              assert rx[..8][..6] == rx[..6];
              rc := if checksum == read then SYS_OK else SYS_FAIL;
              ClearReceived();
              return;
            }
          }
          ClearReceived();
          return SYS_FAIL;
        }
      }
      rc := SYS_E_TIMEOUT;
    }

    /** `read_hold_handle` */
    method ReadHoldHandle(addr: byte, timeout: u16, quietAt: nat) returns (rc: Status)
      requires Valid()
      modifies this`reg_hold, rx_buf
      ensures rc == if !Arrives(quietAt, timeout) then SYS_E_TIMEOUT
                    else if DataAccepted(old(rx_buf[..]), addr, READ_HOLDING) then SYS_OK else SYS_FAIL
      ensures reg_hold == if rc == SYS_OK then old(reg_hold)[addr := ImageOf(old(rx_buf[..]))] else old(reg_hold)
      ensures if Arrives(quietAt, timeout) then forall i | 0 <= i < BUFFER_SIZE :: rx_buf[i] == 0
              else rx_buf[..] == old(rx_buf[..])
    {
      hide Crc;
      ghost var rx := rx_buf[..];
      var time := 0;
      while time < timeout
        invariant 0 <= time <= timeout && (time > 0 ==> time < quietAt)
        invariant rx_buf[..] == rx && reg_hold == old(reg_hold)
      {
        time := time + 1;
        if time >= quietAt {
          if rx_buf[0] == addr {
            if rx_buf[1] == READ_HOLDING {
              var n: int := rx_buf[2];
              var checksum := ModbusCrc16(rx_buf[..], n + 3);
              var read := Word(rx_buf[4 + n], rx_buf[3 + n]);
              assert rx[..n + 5][..n + 3] == rx[..n + 3];
              if checksum == read {
                var image: seq<u16> := [];
                var r := 0;
                while r < REGISTERS
                  invariant 0 <= r <= REGISTERS && image == ImageOf(rx)[..r]
                  invariant rx_buf[..] == rx
                {
                  image := image + [Word(rx_buf[3 + 2 * r], rx_buf[4 + 2 * r])];
                  r := r + 1;
                }
                assert image == ImageOf(rx);
                reg_hold := reg_hold[addr := image];
                ClearReceived();
                return SYS_OK;
              }
            }
          }
          ClearReceived();
          return SYS_FAIL;
        }
      }
      rc := SYS_E_TIMEOUT;
    }

    /**
      The four steps on a quiet line: the master writes its image to a slave, takes the
      echo, reads the registers back and takes the data. Its table is as it was, but for
      the rated current, which is now what the slave had all along.
      */
    method WriteAndReadBack(addr: byte, slave: Slave, timeout: u16)
      returns (written: Status, read: Status, slave': Slave)
      requires Valid() && addr in reg_hold && timeout > 0
      requires slave.addr == addr && Has(slave.regs, 4000, 49)
      modifies this`wire, this`reg_hold, rx_buf, tx_buf
      ensures written == SYS_OK && read == SYS_OK
      ensures reg_hold == old(reg_hold)[addr := [slave.regs[4000]] + old(reg_hold)[addr][1..]]
      ensures slave' == slave.(regs := Stored(slave.regs, 4001, old(reg_hold)[addr][1..]))
    {
      hide Crc;
      ghost var image := reg_hold[addr];
      WriteThenRead(slave, image);
      WriteIsServed(slave, image);
      var sent := |wire|;
      WriteHoldSendData(addr);
      assert wire[sent..] == WriteRequest(addr, image);
      var reply;
      slave', reply := Serve(slave, wire[sent..]).0, Serve(slave, wire[sent..]).1;
      Receive(reply.value);
      assert rx_buf[..][..8] == reply.value == reply.value[..8];
      written := EchoHandle(addr, WRITE_MULTIPLE, timeout, 1);
      sent := |wire|;
      ReadHoldSendData(addr);
      assert wire[sent..] == ReadRequest(addr);
      reply := Serve(slave', wire[sent..]).1;
      Receive(reply.value);
      PrefixDecides(rx_buf[..], reply.value, addr);
      read := ReadHoldHandle(addr, timeout, 1);
    }
  }

  lemma {:induction false} PrefixDecides(rx: seq<byte>, reply: seq<byte>, addr: byte)
    requires |rx| == BUFFER_SIZE && |reply| == 103 && reply[2] == 98 && rx[..103] == reply
    requires DataAccepted(reply, addr, READ_HOLDING)
    ensures DataAccepted(rx, addr, READ_HOLDING) && ImageOf(rx) == ImageOf(reply)
  {
    hide Crc;
    assert forall i | 0 <= i < 103 :: rx[i] == rx[..103][i];
    assert reply[..103] == reply;
  }
}
