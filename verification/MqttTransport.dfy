/**
  The socket read and write loops of app/eth_to_freertos.c. What the chip reports at each poll, and what the tick count is
  by then, is a script: every partial transfer, error and timing is some script, and once a script has run out every
  timeout has.
  */
module MqttTransport {
  import opened Bytes
  import TickTimer

  /**
    One turn of a do-while loop: `rc` is what `recv`/`send` reports when the socket is usable. The tick count is `checked` at
    the turn's timeout test, and before the turn `tested`, `asked` and `entered` where `TimerIsExpired`, `TimerLeftMS` or
    the beginning of a loop may read it.
    */
  datatype Poll = Poll(usable: bool, rc: int, tested: nat, asked: nat, entered: nat, checked: nat)

  const LAST_POLL := Poll(false, 0, 0, 0, 0, 0)

  function PollAt(script: seq<Poll>, i: nat): Poll {
    if i < |script| then script[i] else LAST_POLL
  }

  // ----- One clock

  /** The tick count never goes back. */
  predicate Ordered(script: seq<Poll>) {
    && (forall i | 0 <= i < |script| :: script[i].tested <= script[i].asked <= script[i].entered <= script[i].checked)
    && forall i, j | 0 <= i < j < |script| :: script[i].checked <= script[j].tested
  }

  /** The timeout test of turn `i` against the tick `due`. */
  predicate TimedOut(script: seq<Poll>, due: nat, i: nat) {
    i >= |script| || due <= script[i].checked
  }

  /** `TimerIsExpired`, for a timer that runs out at `due`. */
  predicate Expired(script: seq<Poll>, due: nat, i: nat) {
    i >= |script| || due <= script[i].tested
  }

  /** `TimerLeftMS`, in ticks. */
  function TicksLeft(script: seq<Poll>, due: nat, i: nat): nat {
    if i < |script| && script[i].asked < due then due - script[i].asked else 0
  }

  /** When a loop entered before turn `i` times out. */
  function Due(script: seq<Poll>, timeout: nat, i: nat): nat {
    PollAt(script, i).entered + timeout
  }

  /** Loops with that timeout, entered from turn `i` on, do not time out before the tick `due`. */
  predicate Outlasts(script: seq<Poll>, timeout: nat, due: nat, i: nat) {
    forall j | i <= j < |script| :: due <= script[j].entered + timeout
  }

  /** Such is the timeout that a timer gives as what it has left. */
  lemma {:induction false} TimeLeftOutlasts(script: seq<Poll>, due: nat, i: nat)
    requires Ordered(script)
    ensures Outlasts(script, TicksLeft(script, due, i), due, i)
  {
    forall j | i <= j < |script| ensures due <= script[j].entered + TicksLeft(script, due, i) {
      assert script[i].asked <= script[i].entered;
      assert i < j ==> script[i].checked <= script[j].tested;
    }
  }

  /** These are what the timers on the wrapping tick count say, looked at less than 2^32 ticks after they were set. */
  lemma {:induction false} TimersSayWhenTimedOut(script: seq<Poll>, timeout: TickTimer.u32, i: nat, j: nat)
    requires i < |script| && j < |script| && script[i].entered <= script[j].checked < script[i].entered + 0x1_0000_0000
    requires timeout != 0xFFFF_FFFF
    ensures TimedOut(script, Due(script, timeout, i), j)
            == TickTimer.Check(TickTimer.At(script[i].entered), timeout, script[j].checked).expired
  {
    TickTimer.CheckIsRightUnlessLapped(script[i].entered, timeout, script[j].checked);
  }

  lemma {:induction false} TimersSayWhatIsLeft(script: seq<Poll>, since: nat, left: TickTimer.u32, i: nat)
    requires i < |script| && left != 0xFFFF_FFFF
    requires since <= script[i].tested <= script[i].asked < since + 0x1_0000_0000
    ensures Expired(script, since + left, i) == TickTimer.Check(TickTimer.At(since), left, script[i].tested).expired
    ensures TicksLeft(script, since + left, i) == TickTimer.Check(TickTimer.At(since), left, script[i].asked).left
  {
    TickTimer.CheckIsRightUnlessLapped(since, left, script[i].tested);
    TickTimer.CheckIsRightUnlessLapped(since, left, script[i].asked);
    hide TickTimer.At;
  }

  function Min(a: int, b: int): int {
    if a <= b then a else b
  }

  /** What `recv` or `send` reports of at most `want` bytes: zero when the socket is not usable. */
  function Moved(p: Poll, want: nat): int {
    if !p.usable then 0 else if p.rc < 0 then p.rc else Min(p.rc, want)
  }

  /** What a read or write loop returns, how many bytes it has moved, and the next poll of the script. */
  datatype Transfer = Transfer(rc: int, run: nat, next: nat)

  /** The write loop from poll `i` on, with `sent` of `len` bytes out, until the tick `due`. */
  function WriteFrom(script: seq<Poll>, due: nat, i: nat, len: nat, sent: nat): (t: Transfer)
    requires sent <= len
    ensures sent <= t.run <= len && (t.rc >= 0 ==> t.rc == t.run) && i < t.next
    ensures sent < len && t.rc < 0 ==> t.run < len
    decreases |script| - i
  {
    var p := PollAt(script, i);
    var rc := Moved(p, len - sent);
    if rc < 0 then Transfer(rc, sent, i + 1)
    else if sent + rc < len && !TimedOut(script, due, i) then WriteFrom(script, due, i + 1, len, sent + rc)
    else Transfer(sent + rc, sent + rc, i + 1)
  }

  /** The read loop from poll `i` on, with `got` of `len` bytes in and `waiting` still to come from the peer. */
  function ReadFrom(script: seq<Poll>, due: nat, i: nat, len: nat, got: nat, waiting: nat): (t: Transfer)
    requires got <= len
    ensures got <= t.run <= len && t.run - got <= waiting && (t.rc >= 0 ==> t.rc == t.run) && i < t.next
    ensures got < len && t.rc < 0 ==> t.run < len
    decreases |script| - i
  {
    var p := PollAt(script, i);
    var rc := Min(Moved(p, len - got), waiting);
    if rc < 0 then Transfer(rc, got, i + 1)
    else if got + rc < len && !TimedOut(script, due, i) then ReadFrom(script, due, i + 1, len, got + rc, waiting - rc)
    else Transfer(got + rc, got + rc, i + 1)
  }

  /** The write loop is on its way to `t`. */
  predicate Writing(t: Transfer, script: seq<Poll>, due: nat, i: nat, len: nat, sent: nat) {
    sent <= len && t == WriteFrom(script, due, i, len, sent)
  }

  /** A poll that reports `rc` takes it further, or to its end. */
  lemma {:induction false} WriteTurn(t: Transfer, script: seq<Poll>, due: nat, i: nat, len: nat, sent: nat, rc: int)
    requires Writing(t, script, due, i, len, sent) && rc == Moved(PollAt(script, i), len - sent)
    ensures rc < 0 ==> t == Transfer(rc, sent, i + 1)
    ensures rc >= 0 && (sent + rc >= len || TimedOut(script, due, i)) ==> t == Transfer(sent + rc, sent + rc, i + 1)
    ensures rc >= 0 && sent + rc < len && !TimedOut(script, due, i) ==> Writing(t, script, due, i + 1, len, sent + rc)
    ensures sent + rc <= len && (i >= |script| ==> TimedOut(script, due, i))
  {}

  /** The read loop is on its way to `t`. */
  predicate Reading(t: Transfer, script: seq<Poll>, due: nat, i: nat, len: nat, got: nat, waiting: nat) {
    got <= len && t == ReadFrom(script, due, i, len, got, waiting)
  }

  lemma {:induction false} ReadTurn(t: Transfer, script: seq<Poll>, due: nat, i: nat, len: nat, got: nat, waiting: nat, rc: int)
    requires Reading(t, script, due, i, len, got, waiting) && rc == Min(Moved(PollAt(script, i), len - got), waiting)
    ensures rc < 0 ==> t == Transfer(rc, got, i + 1)
    ensures rc >= 0 && (got + rc >= len || TimedOut(script, due, i)) ==> t == Transfer(got + rc, got + rc, i + 1)
    ensures rc >= 0 && got + rc < len && !TimedOut(script, due, i) ==> Reading(t, script, due, i + 1, len, got + rc, waiting - rc)
    ensures got + rc <= len && rc <= waiting && (i >= |script| ==> TimedOut(script, due, i))
  {}

  // ----- What a script offers

  /** The bytes the chip would take from poll `i` on, however many were asked for, before the first error or timeout. */
  function Offer(script: seq<Poll>, due: nat, i: nat): nat
    decreases |script| - i
  {
    var p := PollAt(script, i);
    if p.usable && p.rc < 0 then 0
    else (if p.usable then p.rc else 0) + if TimedOut(script, due, i) then 0 else Offer(script, due, i + 1)
  }

  /** The error code if an error comes first, else zero. */
  function Failure(script: seq<Poll>, due: nat, i: nat): (rc: int)
    ensures rc <= 0
    decreases |script| - i
  {
    var p := PollAt(script, i);
    if p.usable && p.rc < 0 then p.rc else if TimedOut(script, due, i) then 0 else Failure(script, due, i + 1)
  }

  /** A write sends what is offered, up to its length; it fails exactly if an error comes before all of it is out. */
  lemma {:induction false} WriteTakesOffer(script: seq<Poll>, due: nat, i: nat, len: nat, sent: nat)
    requires sent < len
    ensures var t := WriteFrom(script, due, i, len, sent);
            && t.run == Min(len, sent + Offer(script, due, i))
            && t.rc == (if sent + Offer(script, due, i) < len && Failure(script, due, i) < 0 then Failure(script, due, i) else t.run)
    decreases |script| - i
  {
    var p := PollAt(script, i);
    var rc := Moved(p, len - sent);
    if rc >= 0 && sent + rc < len && !TimedOut(script, due, i) {
      WriteTakesOffer(script, due, i + 1, len, sent + rc);
    }
  }

  /** As much of what is offered and there as is wanted, and the error exactly if it comes before. */
  predicate Takes(t: Transfer, len: nat, got: nat, waiting: nat, offer: nat, failure: int) {
    var there := got + Min(waiting, offer);
    t.run == Min(len, there) && t.rc == if there < len && failure < 0 then failure else t.run
  }

  /** A read takes what is offered of the bytes that are there, up to its length; it fails exactly if an error comes before. */
  lemma {:induction false} ReadTakesOffer(script: seq<Poll>, due: nat, i: nat, len: nat, got: nat, waiting: nat)
    requires got < len
    ensures Takes(ReadFrom(script, due, i, len, got, waiting), len, got, waiting, Offer(script, due, i), Failure(script, due, i))
    decreases |script| - i
  {
    var t := ReadFrom(script, due, i, len, got, waiting);
    hide *;
    ReadingBegins(script, due, i, len, got, waiting);
    ReadTakes(t, script, due, i, len, got, waiting);
  }

  lemma {:induction false} ReadingBegins(script: seq<Poll>, due: nat, i: nat, len: nat, got: nat, waiting: nat)
    requires got <= len
    ensures Reading(ReadFrom(script, due, i, len, got, waiting), script, due, i, len, got, waiting)
  {}

  lemma {:induction false} ReadTakes(t: Transfer, script: seq<Poll>, due: nat, i: nat, len: nat, got: nat, waiting: nat)
    requires got < len && Reading(t, script, due, i, len, got, waiting)
    ensures Takes(t, len, got, waiting, Offer(script, due, i), Failure(script, due, i))
    decreases |script| - i
  {
    hide ReadFrom, Offer, Failure, PollAt, TimedOut, Moved, Reading, Takes;
    var m, more := Moved(PollAt(script, i), len - got), !TimedOut(script, due, i);
    var rc := Min(m, waiting);
    ReadTurn(t, script, due, i, len, got, waiting, rc);
    OfferTurn(script, due, i, len - got);
    if rc >= 0 && got + rc < len && more {
      ReadTakes(t, script, due, i + 1, len, got + rc, waiting - rc);
      TakesOn(t, len, got, waiting, m, Offer(script, due, i), Offer(script, due, i + 1), Failure(script, due, i));
    } else {
      TakesLast(t, len, got, waiting, m, Offer(script, due, i), Failure(script, due, i), i + 1);
    }
  }

  lemma {:induction false} TakesOn(t: Transfer, len: nat, got: nat, waiting: nat, m: int, offer: nat, later: nat, failure: int)
    requires 0 <= m <= len - got && (m < len - got ==> offer == m + later) && (m == len - got ==> offer >= m)
    requires got + Min(m, waiting) < len && Takes(t, len, got + Min(m, waiting), waiting - Min(m, waiting), later, failure)
    ensures Takes(t, len, got, waiting, offer, failure)
  {}

  lemma {:induction false} TakesLast(t: Transfer, len: nat, got: nat, waiting: nat, m: int, offer: nat, failure: int, next: nat)
    requires got < len && m <= len - got
    requires if m < 0 then t == Transfer(m, got, next) && offer == 0 && failure == m
             else var run := got + Min(m, waiting); t == Transfer(run, run, next)
    requires 0 <= m && got + Min(m, waiting) < len ==> failure == 0
    requires (0 <= m < len - got ==> offer == m) && (m == len - got ==> offer >= m)
    ensures Takes(t, len, got, waiting, offer, failure)
  {}

  /** What one poll adds to the offer: what it moves, or at least what was wanted. */
  lemma {:induction false} OfferTurn(script: seq<Poll>, due: nat, i: nat, want: nat)
    ensures var m, more := Moved(PollAt(script, i), want), !TimedOut(script, due, i);
            && m <= want && (i >= |script| ==> !more)
            && Failure(script, due, i) == (if m < 0 then m else if more then Failure(script, due, i + 1) else 0)
            && (m < 0 ==> Offer(script, due, i) == 0)
            && (0 <= m < want ==> Offer(script, due, i) == m + if more then Offer(script, due, i + 1) else 0)
            && (m == want ==> Offer(script, due, i) >= want)
  {}

  /** A write that returns less than was asked for, and no error, has timed out at its last poll. */
  lemma {:induction false} ShortMeansTimedOut(script: seq<Poll>, due: nat, i: nat, len: nat, sent: nat)
    requires sent <= len
    ensures var t := WriteFrom(script, due, i, len, sent); 0 <= t.rc < len ==> TimedOut(script, due, t.next - 1)
    decreases |script| - i
  {
    var rc := Moved(PollAt(script, i), len - sent);
    if rc >= 0 && sent + rc < len && !TimedOut(script, due, i) {
      ShortMeansTimedOut(script, due, i + 1, len, sent + rc);
    }
  }

  /** How many polls from `i` on make progress before the first error or the tick `due`. */
  function Credit(script: seq<Poll>, due: nat, i: nat): nat
    decreases |script| - i
  {
    var p := PollAt(script, i);
    if TimedOut(script, due, i) || (p.usable && p.rc < 0) then 0
    else (if p.usable && p.rc > 0 then 1 else 0) + Credit(script, due, i + 1)
  }

  /** Enough progress by some tick before the timeout, and everything is written, with the unused progress left. */
  lemma {:induction false} CreditWrites(script: seq<Poll>, due: nat, early: nat, i: nat, len: nat, sent: nat)
    requires early <= due && sent < len <= sent + Credit(script, early, i)
    ensures var t := WriteFrom(script, due, i, len, sent);
            t.rc == t.run == len && Credit(script, early, t.next) >= Credit(script, early, i) - (len - sent)
    decreases |script| - i
  {
    var now := sent + Moved(PollAt(script, i), len - sent);
    if now < len {
      CreditWrites(script, due, early, i + 1, len, now);
    }
  }

  /** A read of bytes that are there goes poll by poll like a write. */
  lemma {:induction false} ReadsLikeWrite(script: seq<Poll>, due: nat, i: nat, len: nat, got: nat, waiting: nat)
    requires got <= len <= got + waiting
    ensures ReadFrom(script, due, i, len, got, waiting) == WriteFrom(script, due, i, len, got)
  {
    SameTransfer(WriteFrom(script, due, i, len, got), ReadFrom(script, due, i, len, got, waiting),
                 script, due, i, len, got, waiting);
  }

  lemma {:induction false} SameTransfer(w: Transfer, r: Transfer, script: seq<Poll>, due: nat, i: nat, len: nat, got: nat, waiting: nat)
    requires Writing(w, script, due, i, len, got) && Reading(r, script, due, i, len, got, waiting)
    requires got <= len <= got + waiting
    ensures w == r
    decreases |script| - i
  {
    hide *;
    var p := PollAt(script, i);
    var rc := Moved(p, len - got);
    MovedAtMost(p, len - got, waiting);
    WriteTurn(w, script, due, i, len, got, rc);
    ReadTurn(r, script, due, i, len, got, waiting, rc);
    if rc >= 0 && got + rc < len && !TimedOut(script, due, i) {
      SameTransfer(w, r, script, due, i + 1, len, got + rc, waiting - rc);
    }
  }

  lemma {:induction false} MovedAtMost(p: Poll, want: nat, waiting: nat)
    requires want <= waiting
    ensures Min(Moved(p, want), waiting) == Moved(p, want)
  {}

  // ----- Whole calls

  /** A call of the read loop with a timeout in ticks. */
  function ReadIn(script: seq<Poll>, timeout: nat, i: nat, len: nat, waiting: nat): (t: Transfer)
    ensures t.run <= len && t.run <= waiting && (t.rc >= 0 ==> t.rc == t.run) && i < t.next
    ensures 0 < len && t.rc < 0 ==> t.run < len
  {
    ReadFrom(script, Due(script, timeout, i), i, len, 0, waiting)
  }

  /** A call of the write loop with a timeout in ticks. */
  function WriteIn(script: seq<Poll>, timeout: nat, i: nat, len: nat): (t: Transfer)
    ensures t.run <= len && (t.rc >= 0 ==> t.rc == t.run) && i < t.next
    ensures 0 < len && t.rc < 0 ==> t.run < len
  {
    WriteFrom(script, Due(script, timeout, i), i, len, 0)
  }

  /** A read given at least what a timer has left makes use of the progress before that timer runs out. */
  lemma {:induction false} CreditReads(script: seq<Poll>, timeout: nat, early: nat, i: nat, len: nat, waiting: nat)
    requires Outlasts(script, timeout, early, i) && 0 < len <= waiting && len <= Credit(script, early, i)
    ensures var t := ReadIn(script, timeout, i, len, waiting);
            t.rc == t.run == len && Credit(script, early, t.next) >= Credit(script, early, i) - len
  {
    CreditWrites(script, Due(script, timeout, i), early, i, len, 0);
    ReadsLikeWrite(script, Due(script, timeout, i), i, len, 0, waiting);
  }

  /**
    On one clock a write that is given what a timer has left and comes back short, without an error, leaves that timer
    expired.
    */
  lemma {:induction false} ShortWriteExpiresTimer(script: seq<Poll>, due: nat, i: nat, len: nat)
    requires Ordered(script)
    ensures var t := WriteIn(script, TicksLeft(script, due, i), i, len); 0 <= t.rc < len ==> Expired(script, due, t.next)
  {
    var d := Due(script, TicksLeft(script, due, i), i);
    ShortMeansTimedOut(script, d, i, len, 0);
    TimeLeftOutlasts(script, due, i);
  }

  // ----- Memory and buffers

  /** The bytes of memory from `off` on. */
  function Window(mem: nat -> byte, off: nat, n: nat): (w: seq<byte>)
    ensures |w| == n && forall i | 0 <= i < n :: w[i] == mem(off + i)
  {
    seq(n, i requires 0 <= i < n => mem(off + i))
  }

  lemma {:induction false} WindowsJoin(mem: nat -> byte, off: nat, a: nat, b: nat)
    ensures Window(mem, off, a) + Window(mem, off + a, b) == Window(mem, off, a + b)
  {}

  /** A buffer after `data` has been stored from index `at` on. */
  function Filled(buf: seq<byte>, at: nat, data: seq<byte>): (r: seq<byte>)
    requires at + |data| <= |buf|
    ensures |r| == |buf|
  {
    buf[..at] + data + buf[at + |data|..]
  }

  lemma {:induction false} FillFurther(buf: seq<byte>, at: nat, a: seq<byte>, b: seq<byte>)
    requires at + |a| + |b| <= |buf|
    ensures Filled(Filled(buf, at, a), at + |a|, b) == Filled(buf, at, a + b)
  {}

  lemma {:induction false} FillNothing(buf: seq<byte>, at: nat)
    requires at <= |buf|
    ensures Filled(buf, at, []) == buf
  {}

  class Network {
    const stream: seq<byte>   // what the peer sends
    const script: seq<Poll>
    var taken: nat            // how much of the stream the firmware has taken
    var polls: nat            // how many polls have been made
    var wire: seq<byte>       // accepted by the chip for sending

    ghost predicate Valid()
      reads this
    {
      taken <= |stream| && Ordered(script)
    }

    lemma {:induction false} TakenIsThere()
      requires Valid()
      ensures taken <= |stream|
    {}

    constructor (stream: seq<byte>, script: seq<Poll>)
      requires Ordered(script)
      ensures Valid() && this.stream == stream && this.script == script && taken == polls == 0 && wire == []
    {
      this.stream, this.script := stream, script;
      taken, polls, wire := 0, 0, [];
    }

    method NextPoll() returns (p: Poll)
      modifies this`polls
      ensures p == PollAt(script, old(polls)) && polls == old(polls) + 1
    {
      p := if polls < |script| then script[polls] else LAST_POLL;
      polls := polls + 1;
    }

    /** The chip's `recv`: a negative code, or at most `want` of the waiting bytes. */
    method Recv(rc: int, buffer: array<byte>, at: nat, want: nat) returns (n: int)
      requires taken <= |stream| && at + want <= buffer.Length
      modifies this`taken, buffer
      ensures taken <= |stream| && n == if rc < 0 then rc else Min(Min(rc, want), |stream| - old(taken))
      ensures taken == old(taken) + if n < 0 then 0 else n
      ensures buffer[..] == Filled(old(buffer[..]), at, stream[old(taken)..taken])
    {
      if rc < 0 {
        n := rc;
        FillNothing(buffer[..], at);
      } else {
        n := Min(Min(rc, want), |stream| - taken);
        forall i | 0 <= i < n {
          buffer[at + i] := stream[taken + i];
        }
        taken := taken + n;
      }
    }

    /** What was `buf0` holds the stream from `from` on, as far as taken, at index `at`. */
    ghost predicate Holds(buffer: array<byte>, buf0: seq<byte>, at: nat, from: nat)
      reads this, buffer
    {
      && from <= taken <= |stream| && at + taken - from <= |buf0|
      && buffer[..] == Filled(buf0, at, stream[from..taken])
    }

    lemma {:induction false} HoldsIs(buffer: array<byte>, buf0: seq<byte>, at: nat, from: nat)
      requires Holds(buffer, buf0, at, from)
      ensures from <= taken <= |stream| && at + taken - from <= |buf0|
      ensures buffer[..] == Filled(buf0, at, stream[from..taken])
    {}

    /** One poll of the read loop; `rc` is zero when the socket has nothing. */
    method ReadPoll(buffer: array<byte>, at: nat, recvLen: nat, len: nat, due: nat, ghost buf0: seq<byte>)
      returns (rc: int, expired: bool)
      requires recvLen <= len && at + len <= buffer.Length && recvLen <= taken && Holds(buffer, buf0, at, taken - recvLen)
      modifies this`taken, this`polls, buffer
      ensures polls == old(polls) + 1 && expired == TimedOut(script, due, old(polls))
      ensures taken == old(taken) + if rc < 0 then 0 else rc
      ensures rc == Min(Moved(PollAt(script, old(polls)), len - recvLen), |stream| - old(taken))
      ensures Holds(buffer, buf0, at, old(taken) - recvLen)
    {
      ghost var from, now := taken - recvLen, taken;
      var p := NextPoll();
      assert buffer[..] == old(buffer[..]);
      rc, expired := 0, TimedOut(script, due, polls - 1);
      if p.usable {
        rc := Recv(p.rc, buffer, at + recvLen, len - recvLen);
        FillFurther(buf0, at, stream[from..now], stream[now..taken]);
        assert stream[from..now] + stream[now..taken] == stream[from..taken];
      }
    }

    /** The loop of `FreeRTOS_read`, on its way to `t`. */
    method ReadLoop(buffer: array<byte>, at: nat, len: nat, due: nat, ghost buf0: seq<byte>, ghost t: Transfer)
      returns (recvLen: int, ghost took: nat)
      requires at + len <= buffer.Length && Holds(buffer, buf0, at, taken)
      requires Reading(t, script, due, polls, len, 0, |stream| - taken)
      modifies this`taken, this`polls, buffer
      ensures taken == old(taken) + took && took <= len && Holds(buffer, buf0, at, old(taken))
      ensures t == Transfer(recvLen, took, polls)
    {
      hide *;
      recvLen, took := 0, 0;
      ghost var from := taken;
      HoldsIs(buffer, buf0, at, from);
      while true
        invariant 0 <= recvLen == took <= len && taken == from + took <= |stream|
        invariant Holds(buffer, buf0, at, from) && Reading(t, script, due, polls, len, took, |stream| - taken)
        decreases |script| - polls
      {
        ghost var i, now := polls, taken;
        var rc, expired := ReadPoll(buffer, at, recvLen, len, due, buf0);
        ReadTurn(t, script, due, i, len, took, |stream| - now, rc);
        if rc < 0 {
          recvLen := rc;
          break;
        }
        recvLen, took := recvLen + rc, took + rc;
        if recvLen >= len || expired {
          break;
        }
      }
    }

    /** `FreeRTOS_read`: `took` bytes have left the stream, which an error return does not tell. */
    method Read(buffer: array<byte>, at: nat, len: nat, timeout: nat) returns (recvLen: int, ghost took: nat)
      requires Valid() && at + len <= buffer.Length
      modifies this`taken, this`polls, buffer
      ensures Valid() && taken == old(taken) + took && took <= len
      ensures Transfer(recvLen, took, polls) == ReadIn(script, timeout, old(polls), len, |stream| - old(taken))
      ensures Holds(buffer, old(buffer[..]), at, old(taken))
    {
      FillNothing(buffer[..], at);
      var due := Due(script, timeout, polls);
      recvLen, took := ReadLoop(buffer, at, len, due, buffer[..], ReadFrom(script, due, polls, len, 0, |stream| - taken));
    }

    /** The chip's `send`: a negative code, or at most `want` bytes accepted. */
    method Send(rc: int, mem: nat -> byte, off: nat, want: nat) returns (n: int)
      modifies this`wire
      ensures n == if rc < 0 then rc else Min(rc, want)
      ensures wire == old(wire) + Window(mem, off, if n < 0 then 0 else n)
    {
      if rc < 0 {
        n := rc;
      } else {
        n := Min(rc, want);
        wire := wire + Window(mem, off, n);
      }
    }

    /** One poll of the write loop; `rc` is zero when the socket is not usable. */
    method WritePoll(mem: nat -> byte, off: nat, want: nat, due: nat) returns (rc: int, expired: bool)
      modifies this`wire, this`polls
      ensures polls == old(polls) + 1 && expired == TimedOut(script, due, old(polls))
      ensures rc == Moved(PollAt(script, old(polls)), want)
      ensures wire == old(wire) + Window(mem, off, if rc < 0 then 0 else rc)
    {
      var p := NextPoll();
      rc, expired := 0, TimedOut(script, due, polls - 1);
      if p.usable {
        rc := Send(p.rc, mem, off, want);
      } else {
        assert wire == wire + Window(mem, off, 0);
      }
    }

    /** `FreeRTOS_write`: `run` bytes from `off` on have gone out, which an error return does not tell. */
    method Write(mem: nat -> byte, off: nat, len: nat, timeout: nat) returns (sentLen: int, ghost run: nat)
      modifies this`wire, this`polls
      ensures Transfer(sentLen, run, polls) == WriteIn(script, timeout, old(polls), len)
      ensures wire == old(wire) + Window(mem, off, run)
    {
      var due := Due(script, timeout, polls);
      sentLen, run := 0, 0;
      ghost var t := WriteFrom(script, due, polls, len, 0);
      assert wire == wire + Window(mem, off, 0);
      hide WriteFrom, Window, Moved, PollAt, TimedOut;
      while true
        invariant 0 <= sentLen == run <= len && wire == old(wire) + Window(mem, off, run)
        invariant Writing(t, script, due, polls, len, run)
        decreases |script| - polls
      {
        ghost var i := polls;
        var rc, expired := WritePoll(mem, off + sentLen, len - sentLen, due);
        WriteTurn(t, script, due, i, len, run, rc);
        WindowsJoin(mem, off, run, if rc < 0 then 0 else rc);
        if rc < 0 {
          sentLen := rc;
          break;
        }
        sentLen, run := sentLen + rc, run + rc;
        if sentLen >= len || expired {
          break;
        }
      }
    }
  }
}
