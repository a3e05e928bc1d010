/**
  The scan and poll loop of `circuit_breaker_control_thread` in
  app/circuit_breaker_rs485_handle.c: sweeps over the bus addresses 1..32 until one is
  answered, then a round robin over the addresses found.
  */
module BreakerScan {
  import opened Bytes

  const SLOTS: nat := 0x20
  const ABSENT: byte := 0xFF

  datatype Request = ReadInput(addr: byte) | ReadHold(addr: byte) | ReadDiscrete(addr: byte)

  /** `cursor` is the table slot of the turn; while scanning, slot i stands for address i + 1. */
  datatype Poller = Poller(scanning: bool, heard: bool, cursor: nat, table: seq<byte>,
                           holdsRead: bool, requests: seq<Request>)

  predicate WellFormed(p: Poller) {
    p.cursor < SLOTS == |p.table|
  }

  function ScanTurn(p: Poller, answered: bool): Poller
    requires WellFormed(p)
  {
    var addr: byte := p.cursor + 1;
    var p' := p.(heard := p.heard || answered,
                 table := p.table[p.cursor := if answered then addr else ABSENT],
                 requests := p.requests + [ReadInput(addr)]);
    if p.cursor + 1 < SLOTS then p'.(cursor := p.cursor + 1)
    else p'.(cursor := 0, scanning := !p'.heard)
  }

  /** What a polling turn asks the device in a slot. */
  function Polled(slot: byte, holdsRead: bool): seq<Request> {
    if slot == ABSENT then []
    else (if holdsRead then [] else [ReadHold(slot)]) + [ReadInput(slot), ReadDiscrete(slot)]
  }

  function PollTurn(p: Poller): Poller
    requires WellFormed(p)
  {
    var p' := p.(requests := p.requests + Polled(p.table[p.cursor], p.holdsRead));
    if p.cursor + 1 < SLOTS then p'.(cursor := p.cursor + 1) else p'.(cursor := 0, holdsRead := true)
  }

  function Turn(p: Poller, answered: bool): (p': Poller)
    requires WellFormed(p)
    ensures WellFormed(p')
  {
    if p.scanning then ScanTurn(p, answered) else PollTurn(p)
  }

  function Turns(p: Poller, answers: seq<bool>): (p': Poller)
    requires WellFormed(p)
    ensures WellFormed(p')
    decreases |answers|
  {
    if answers == [] then p else Turn(Turns(p, answers[..|answers| - 1]), answers[|answers| - 1])
  }

  lemma {:induction false} TurnsJoin(p: Poller, a: seq<bool>, b: seq<bool>)
    requires WellFormed(p)
    ensures Turns(p, a + b) == Turns(Turns(p, a), b)
  {
    if b == [] {
      assert a + b == a;
    } else {
      TurnsJoin(p, a, b[..|b| - 1]);
      assert (a + b)[..|a + b| - 1] == a + b[..|b| - 1];
    }
  }

  // ----- A sweep

  function SlotOf(i: nat, answered: bool): byte
    requires i < SLOTS
  {
    if answered then i + 1 else ABSENT
  }

  /** In `n` turns of a sweep the addresses from 1 on have been asked for their input registers, one a turn. */
  predicate AsksInOrder(before: seq<Request>, after: seq<Request>, n: nat) {
    && |after| == |before| + n && after[..|before|] == before
    && forall k | |before| <= k < |after| :: after[k].ReadInput? && after[k].addr == k - |before| + 1
  }

  lemma {:induction false} AsksNext(before: seq<Request>, after: seq<Request>, n: nat, addr: byte)
    requires AsksInOrder(before, after, n) && addr == n + 1
    ensures AsksInOrder(before, after + [ReadInput(addr)], n + 1)
  {}

  lemma {:induction false} InsideSweep(p: Poller, answers: seq<bool>)
    requires WellFormed(p) && p.scanning && !p.heard && p.cursor == 0 && |answers| < SLOTS
    ensures var q := Turns(p, answers);
            && q.scanning && q.cursor == |answers| && q.heard == (true in answers) && q.holdsRead == p.holdsRead
            && AsksInOrder(p.requests, q.requests, |answers|)
            && (forall i | 0 <= i < |answers| :: q.table[i] == SlotOf(i, answers[i]))
  {
    if answers != [] {
      var n := |answers| - 1;
      InsideSweep(p, answers[..n]);
      assert answers == answers[..n] + [answers[n]];
      hide AsksInOrder;
      AsksNext(p.requests, Turns(p, answers[..n]).requests, n, n + 1);
    }
  }

  /**
    A sweep asks the addresses 1 to 32, one a turn. At its end slot i holds i + 1 exactly if the turn that asked that
    address was answered; polling starts exactly if one was.
    */
  lemma {:induction false} SweepFillsTable(p: Poller, answers: seq<bool>)
    requires WellFormed(p) && p.scanning && !p.heard && p.cursor == 0 && |answers| == 32
    ensures var q := Turns(p, answers);
            && q.cursor == 0 && q.holdsRead == p.holdsRead
            && AsksInOrder(p.requests, q.requests, 32)
            && (q.scanning <==> true !in answers) && (q.heard <==> true in answers)
            && |q.table| == 32 && forall i | 0 <= i < 32 :: q.table[i] == if answers[i] then i + 1 else 0xFF
  {
    InsideSweep(p, answers[..31]);
    assert answers == answers[..31] + [answers[31]] && answers[..32] == answers;
    hide AsksInOrder;
    AsksNext(p.requests, Turns(p, answers[..31]).requests, 31, 32);
  }

  lemma {:induction false} SilentSweeps(p: Poller, answers: seq<bool>, k: nat)
    requires WellFormed(p) && p.scanning && !p.heard && p.cursor == 0
    requires |answers| == 32 * k && true !in answers
    ensures var q := Turns(p, answers);
            q.scanning && !q.heard && q.cursor == 0 && q.holdsRead == p.holdsRead
    decreases k
  {
    if k > 0 {
      var n := 32 * (k - 1);
      SilentSweeps(p, answers[..n], k - 1);
      TurnsJoin(p, answers[..n], answers[n..]);
      SweepFillsTable(Turns(p, answers[..n]), answers[n..]);
      assert answers == answers[..n] + answers[n..];
    }
  }

  /** The scan lasts through every silent sweep and ends with the first answered one, whose table it keeps. */
  lemma {:induction false} ScanEndsWithFirstAnswer(p: Poller, silent: seq<bool>, sweep: seq<bool>, k: nat)
    requires WellFormed(p) && p.scanning && !p.heard && p.cursor == 0
    requires |silent| == 32 * k && true !in silent && |sweep| == 32 && true in sweep
    ensures Turns(p, silent).scanning
    ensures var q := Turns(p, silent + sweep);
            && !q.scanning && q.cursor == 0 && q.holdsRead == p.holdsRead
            && forall i | 0 <= i < 32 :: q.table[i] == if sweep[i] then i + 1 else 0xFF
  {
    hide AsksInOrder;
    SilentSweeps(p, silent, k);
    TurnsJoin(p, silent, sweep);
    SweepFillsTable(Turns(p, silent), sweep);
  }

  // ----- Polling rounds

  /** What a round asks, slot by slot up to slot n. */
  function RoundRequests(table: seq<byte>, n: nat, holdsRead: bool): seq<Request>
    requires n <= |table|
  {
    if n == 0 then [] else RoundRequests(table, n - 1, holdsRead) + Polled(table[n - 1], holdsRead)
  }

  lemma {:induction false} RequestsGrow(r: seq<Request>, table: seq<byte>, n: nat, holdsRead: bool)
    requires 0 < n <= |table|
    ensures r + RoundRequests(table, n - 1, holdsRead) + Polled(table[n - 1], holdsRead)
            == r + RoundRequests(table, n, holdsRead)
  {}

  /** The poller n turns into a round. */
  function InRound(p: Poller, n: nat): Poller
    requires n <= |p.table|
  {
    p.(cursor := n, requests := p.requests + RoundRequests(p.table, n, p.holdsRead))
  }

  lemma {:induction false} RoundGoesOn(p: Poller, n: nat, answered: bool)
    requires WellFormed(p) && !p.scanning && n + 1 < SLOTS
    ensures Turn(InRound(p, n), answered) == InRound(p, n + 1)
  {
    hide Polled;
    RequestsGrow(p.requests, p.table, n + 1, p.holdsRead);
  }

  lemma {:induction false} InsideRound(p: Poller, answers: seq<bool>)
    requires WellFormed(p) && !p.scanning && p.cursor == 0 && |answers| < SLOTS
    ensures Turns(p, answers) == InRound(p, |answers|)
    decreases |answers|
  {
    if answers != [] {
      var n := |answers| - 1;
      hide Turn, InRound;
      InsideRound(p, answers[..n]);
      RoundGoesOn(p, n, answers[n]);
    }
  }

  /** A round leaves the table alone, whatever answers, and asks every slot once; the holding registers only in the first. */
  lemma {:induction false} RoundPollsTable(p: Poller, answers: seq<bool>)
    requires WellFormed(p) && !p.scanning && p.cursor == 0 && |answers| == SLOTS
    ensures Turns(p, answers)
            == p.(holdsRead := true, requests := p.requests + RoundRequests(p.table, SLOTS, p.holdsRead))
  {
    InsideRound(p, answers[..31]);
    RequestsGrow(p.requests, p.table, 32, p.holdsRead);
  }

  predicate Ascends(addrs: seq<byte>) {
    forall i, j | 0 <= i < j < |addrs| :: addrs[i] < addrs[j]
  }

  /** The addresses present in the first n slots, in slot order. */
  function Present(table: seq<byte>, n: nat): seq<byte>
    requires n <= |table|
  {
    if n == 0 then []
    else Present(table, n - 1) + (if table[n - 1] != ABSENT then [table[n - 1]] else [])
  }

  function InputsAsked(requests: seq<Request>): seq<byte> {
    if requests == [] then []
    else
      var last := requests[|requests| - 1];
      InputsAsked(requests[..|requests| - 1]) + (if last.ReadInput? then [last.addr] else [])
  }

  lemma {:induction false} InputsJoin(a: seq<Request>, b: seq<Request>)
    ensures InputsAsked(a + b) == InputsAsked(a) + InputsAsked(b)
  {
    if b == [] {
      assert a + b == a;
    } else {
      InputsJoin(a, b[..|b| - 1]);
      assert (a + b)[..|a + b| - 1] == a + b[..|b| - 1];
    }
  }

  lemma {:induction false} SlotAsksPresent(table: seq<byte>, n: nat, holdsRead: bool)
    requires n < |table|
    ensures InputsAsked(RoundRequests(table, n + 1, holdsRead))
            == InputsAsked(RoundRequests(table, n, holdsRead)) + if table[n] != ABSENT then [table[n]] else []
  {
    hide Polled, InputsAsked;
    InputsJoin(RoundRequests(table, n, holdsRead), Polled(table[n], holdsRead));
    PolledInputs(table[n], holdsRead);
  }

  lemma {:induction false} PresentMore(table: seq<byte>, n: nat)
    requires n < |table|
    ensures Present(table, n + 1) == Present(table, n) + if table[n] != ABSENT then [table[n]] else []
  {}

  lemma {:induction false} NothingAsked(table: seq<byte>, holdsRead: bool)
    ensures InputsAsked(RoundRequests(table, 0, holdsRead)) == Present(table, 0) == []
  {}

  lemma {:induction false} RoundAsksPresent(table: seq<byte>, n: nat, holdsRead: bool)
    requires n <= |table|
    ensures InputsAsked(RoundRequests(table, n, holdsRead)) == Present(table, n)
  {
    hide *;
    if n == 0 {
      NothingAsked(table, holdsRead);
    } else {
      RoundAsksPresent(table, n - 1, holdsRead);
      SlotAsksPresent(table, n - 1, holdsRead);
      PresentMore(table, n - 1);
    }
  }

  lemma {:induction false} PolledInputs(slot: byte, holdsRead: bool)
    ensures InputsAsked(Polled(slot, holdsRead)) == if slot != ABSENT then [slot] else []
  {
    if slot != ABSENT {
      var tail := [ReadInput(slot), ReadDiscrete(slot)];
      assert tail[..1] == [ReadInput(slot)] && InputsAsked(tail[..1]) == [slot];
      assert InputsAsked(tail) == [slot];
      InputsJoin(if holdsRead then [] else [ReadHold(slot)], tail);
      assert InputsAsked([ReadHold(slot)]) == [];
    }
  }

  /** Each of these addresses is asked for its holding registers, its input registers and its discrete inputs, in turn. */
  predicate AskAll(requests: seq<Request>, addrs: seq<byte>) {
    |requests| == 3 * |addrs| && forall i | 0 <= i < |addrs| ::
      && requests[3 * i] == ReadHold(addrs[i])
      && requests[3 * i + 1] == ReadInput(addrs[i])
      && requests[3 * i + 2] == ReadDiscrete(addrs[i])
  }

  /** The same without the holding registers. */
  predicate AskInputs(requests: seq<Request>, addrs: seq<byte>) {
    |requests| == 2 * |addrs| && forall i | 0 <= i < |addrs| ::
      && requests[2 * i] == ReadInput(addrs[i])
      && requests[2 * i + 1] == ReadDiscrete(addrs[i])
  }

  /** The first round asks for everything, the later ones not for the holding registers. */
  predicate AskedInRound(requests: seq<Request>, addrs: seq<byte>, first: bool) {
    if first then AskAll(requests, addrs) else AskInputs(requests, addrs)
  }

  lemma {:induction false} AskedMore(requests: seq<Request>, addrs: seq<byte>, slot: byte, first: bool)
    requires AskedInRound(requests, addrs, first)
    ensures AskedInRound(requests + Polled(slot, !first), addrs + (if slot != 0xFF then [slot] else []), first)
  {}

  lemma {:induction false} RoundAsksInTurn(table: seq<byte>, n: nat, first: bool)
    requires n <= |table|
    ensures AskedInRound(RoundRequests(table, n, !first), Present(table, n), first)
  {
    if n > 0 {
      hide AskedInRound, Polled;
      RoundAsksInTurn(table, n - 1, first);
      AskedMore(RoundRequests(table, n - 1, !first), Present(table, n - 1), table[n - 1], first);
    }
  }

  /** After a sweep the present addresses are those that answered, each once, in ascending order. */
  lemma {:induction false} PresentAscends(table: seq<byte>, answers: seq<bool>, n: nat)
    requires n <= SLOTS == |table| == |answers|
    requires forall i | 0 <= i < SLOTS :: table[i] == if answers[i] then i + 1 else 0xFF
    ensures Ascends(Present(table, n))
    ensures forall a: byte :: a in Present(table, n) <==> 1 <= a <= n && answers[a - 1]
  {
    if n > 0 {
      PresentAscends(table, answers, n - 1);
      var before, now := Present(table, n - 1), Present(table, n);
      forall i, j | 0 <= i < j < |now| ensures now[i] < now[j] {
        assert before[i] in before;
        assert j < |before| ==> before[i] < before[j];
      }
    }
  }

  lemma {:induction false} NoTurns(p: Poller)
    requires WellFormed(p)
    ensures Turns(p, []) == p
  {}

  lemma {:induction false} RoundMore(p: Poller, before: seq<bool>, round: seq<bool>)
    requires WellFormed(p) && |round| == 32 && !Turns(p, before).scanning && Turns(p, before).cursor == 0
    ensures var b, q := Turns(p, before), Turns(p, before + round);
            !q.scanning && q.cursor == 0 && q.table == b.table && q.holdsRead
  {
    hide Turns, RoundRequests;
    TurnsJoin(p, before, round);
    RoundPollsTable(Turns(p, before), round);
  }

  lemma {:induction false} RoundsKeepTable(p: Poller, answers: seq<bool>, m: nat)
    requires WellFormed(p) && !p.scanning && p.cursor == 0 && |answers| == 32 * m
    ensures var q := Turns(p, answers);
            !q.scanning && q.cursor == 0 && q.table == p.table && q.holdsRead == (p.holdsRead || m > 0)
    decreases m
  {
    hide Turns, Turn;
    if m == 0 {
      NoTurns(p);
      assert answers == [];
    } else {
      var before, round := answers[..32 * (m - 1)], answers[32 * (m - 1)..];
      RoundsKeepTable(p, before, m - 1);
      RoundMore(p, before, round);
      assert answers == before + round;
    }
  }

  /**
    The whole history: silent sweeps, the answered sweep, any number of rounds; then the
    next round polls exactly the addresses that answered, each once, in ascending order.
    */
  lemma {:induction false} EveryRoundPollsTheAnswering(p: Poller, silent: seq<bool>, sweep: seq<bool>, earlier: seq<bool>,
                                    round: seq<bool>, k: nat, m: nat)
    requires WellFormed(p) && p.scanning && !p.heard && p.cursor == 0
    requires |silent| == 32 * k && true !in silent && |sweep| == 32 && true in sweep
    requires |earlier| == 32 * m && |round| == 32
    ensures var before := Turns(p, silent + sweep + earlier);
            var after := Turns(p, silent + sweep + earlier + round);
            && after.table == before.table == Turns(p, silent + sweep).table
            && !before.scanning && !after.scanning
            && before.requests <= after.requests
            && var sent := after.requests[|before.requests|..];
               var asked := InputsAsked(sent);
               && AskedInRound(sent, asked, m == 0 && !p.holdsRead)
               && Ascends(asked)
               && AreAnswered(asked, sweep)
  {
    hide Turns, RoundRequests, InputsAsked, Present, AskedInRound, AskAll, AskInputs, Ascends, AreAnswered;
    ScanEndsWithFirstAnswer(p, silent, sweep, k);
    var found := Turns(p, silent + sweep);
    TurnsJoin(p, silent + sweep, earlier);
    RoundsKeepTable(found, earlier, m);
    TurnsJoin(p, silent + sweep + earlier, round);
    var before := Turns(p, silent + sweep + earlier);
    RoundPollsTable(before, round);
    RoundAsksTheAnswering(before.table, sweep, before.holdsRead);
  }

  /** These are the addresses whose turn in the sweep was answered. */
  predicate AreAnswered(addrs: seq<byte>, sweep: seq<bool>)
    requires |sweep| == 32
  {
    forall a: byte :: a in addrs <==> 1 <= a <= 32 && sweep[a - 1]
  }

  lemma {:induction false} RoundAsksTheAnswering(table: seq<byte>, sweep: seq<bool>, holdsRead: bool)
    requires |table| == |sweep| == SLOTS && forall i | 0 <= i < SLOTS :: table[i] == if sweep[i] then i + 1 else 0xFF
    ensures var sent := RoundRequests(table, SLOTS, holdsRead);
            var asked := InputsAsked(sent);
            && AskedInRound(sent, asked, !holdsRead)
            && Ascends(asked)
            && AreAnswered(asked, sweep)
  {
    hide InputsAsked, RoundRequests, Present, AskedInRound, Ascends;
    RoundAsksInTurn(table, SLOTS, !holdsRead);
    RoundAsksPresent(table, SLOTS, holdsRead);
    PresentAscends(table, sweep, SLOTS);
  }

  // ----- A bus with the same devices throughout

  /** What is sent in turn `k`. */
  function Sent(p: Poller, answers: seq<bool>, k: nat): (sent: seq<Request>)
    requires WellFormed(p) && k < |answers|
  {
    NewRequests(Turns(p, answers[..k]).requests, Turns(p, answers[..k + 1]).requests)
  }

  function NewRequests(before: seq<Request>, after: seq<Request>): seq<Request> {
    if |before| <= |after| then after[|before|..] else []
  }

  /** A turn is answered exactly if a device with the address just asked is on the bus. */
  predicate AnsweredBy(p: Poller, answers: seq<bool>, bus: set<byte>)
    requires WellFormed(p)
  {
    forall k | 0 <= k < |answers| :: answers[k] <==> HearsOne(Sent(p, answers, k), bus)
  }

  predicate HearsOne(sent: seq<Request>, bus: set<byte>) {
    exists i | 0 <= i < |sent| :: sent[i].ReadInput? && sent[i].addr in bus
  }

  lemma {:induction false} ScanTurnSends(p: Poller, answered: bool, bus: set<byte>)
    requires WellFormed(p) && p.scanning
    ensures HearsOne(NewRequests(p.requests, Turn(p, answered).requests), bus) <==> p.cursor + 1 in bus
  {
    var sent := NewRequests(p.requests, Turn(p, answered).requests);
    assert sent == [ReadInput(p.cursor + 1)];
    assert sent[0] == ReadInput(p.cursor + 1);
  }

  lemma {:induction false} SweepAnswer(p: Poller, answers: seq<bool>, bus: set<byte>, k: nat)
    requires Fresh(p) && k < 32 <= |answers| && AnsweredBy(p, answers, bus)
    ensures answers[k] <==> k + 1 in bus
  {
    hide Turn, NewRequests, HearsOne, AsksInOrder;
    InsideSweep(p, answers[..k]);
    assert answers[..k + 1][..k] == answers[..k];
    assert Turns(p, answers[..k + 1]) == Turn(Turns(p, answers[..k]), answers[k]);
    assert answers[k] <==> HearsOne(Sent(p, answers, k), bus);
    ScanTurnSends(Turns(p, answers[..k]), answers[k], bus);
  }

  /** Slot i holds i + 1 if that address is on the bus, and no address if not. */
  predicate HoldsBus(table: seq<byte>, bus: set<byte>) {
    |table| == 32 && forall i | 0 <= i < 32 :: table[i] == if i + 1 in bus then i + 1 else 0xFF
  }

  /** The addresses from 1 to 32 that are on the bus, each once, in ascending order. */
  predicate ListsBus(addrs: seq<byte>, bus: set<byte>) {
    && Ascends(addrs)
    && (forall a <- addrs :: 1 <= a <= 32 && a in bus) && forall a <- bus | 1 <= a <= 32 :: a in addrs
  }

  lemma {:induction false} TableHoldsBus(table: seq<byte>, sweep: seq<bool>, bus: set<byte>)
    requires |table| == |sweep| == 32 && forall k | 0 <= k < 32 :: sweep[k] <==> k + 1 in bus
    requires forall i | 0 <= i < 32 :: table[i] == if sweep[i] then i + 1 else 0xFF
    ensures HoldsBus(table, bus)
  {}

  /** One sweep finds the bus: slot i holds i + 1 exactly if that address is on it, and polling starts exactly if one is. */
  lemma {:induction false} SweepFindsBus(p: Poller, answers: seq<bool>, bus: set<byte>)
    requires Fresh(p) && |answers| == 32 && AnsweredBy(p, answers, bus)
    ensures var q := Turns(p, answers);
            && AsksInOrder(p.requests, q.requests, 32) && q.cursor == 0 && q.holdsRead == p.holdsRead
            && HoldsBus(q.table, bus)
            && (q.scanning <==> forall a: byte | 1 <= a <= 32 :: a !in bus)
  {
    forall k | 0 <= k < 32 ensures answers[k] <==> k + 1 in bus {
      SweepAnswer(p, answers, bus, k);
    }
    hide *;
    SweepFillsTable(p, answers);
    TableHoldsBus(Turns(p, answers).table, answers, bus);
    assert (forall a: byte | 1 <= a <= 32 :: a !in bus) ==> true !in answers;
    forall a: byte | 1 <= a <= 32 && a in bus ensures true in answers {
      assert answers[a - 1];
    }
  }

  /** On a bus with a device, every round after the first sweep asks the addresses on it, each once, in ascending order. */
  lemma {:induction false} EveryRoundPollsTheBus(p: Poller, past: seq<bool>, round: seq<bool>, bus: set<byte>, m: nat)
    requires Fresh(p) && AnsweredBy(p, past + round, bus) && |past| == 32 * (m + 1) && |round| == 32
    requires exists a: byte | 1 <= a <= 32 :: a in bus
    ensures var before, after := Turns(p, past), Turns(p, past + round);
            && !before.scanning && !after.scanning && before.requests <= after.requests
            && HoldsBus(after.table, bus)
            && var sent := after.requests[|before.requests|..];
               var asked := InputsAsked(sent);
               AskedInRound(sent, asked, m == 0 && !p.holdsRead) && ListsBus(asked, bus)
  {
    hide *;
    SweepHearsBus(p, past + round, bus);
    var sweep, earlier := past[..32], past[32..];
    assert (past + round)[..32] == sweep && sweep + earlier == past;
    PollsTheBus(p, sweep, earlier, round, bus, m);
  }

  lemma {:induction false} SweepHearsBus(p: Poller, answers: seq<bool>, bus: set<byte>)
    requires Fresh(p) && AnsweredBy(p, answers, bus) && |answers| >= 32
    ensures WellFormed(p) && forall k | 0 <= k < 32 :: answers[..32][k] <==> k + 1 in bus
  {
    forall k | 0 <= k < 32 ensures answers[..32][k] <==> k + 1 in bus {
      SweepAnswer(p, answers, bus, k);
    }
  }

  lemma {:induction false} PollsTheBus(p: Poller, sweep: seq<bool>, earlier: seq<bool>, round: seq<bool>, bus: set<byte>, m: nat)
    requires Fresh(p) && WellFormed(p) && |sweep| == |round| == 32 && |earlier| == 32 * m
    requires forall k | 0 <= k < 32 :: sweep[k] <==> k + 1 in bus
    requires exists a: byte | 1 <= a <= 32 :: a in bus
    ensures var before, after := Turns(p, sweep + earlier), Turns(p, sweep + earlier + round);
            && !before.scanning && !after.scanning && before.requests <= after.requests
            && HoldsBus(after.table, bus)
            && var sent := after.requests[|before.requests|..];
               var asked := InputsAsked(sent);
               && AskedInRound(sent, asked, m == 0 && !p.holdsRead) && ListsBus(asked, bus)
  {
    hide *;
    IsFresh(p);
    var a: byte :| 1 <= a <= 32 && a in bus;
    assert sweep[a - 1];
    var none: seq<bool> := [];
    assert none + sweep == sweep && none + sweep + earlier == sweep + earlier;
    EveryRoundPollsTheAnswering(p, none, sweep, earlier, round, 0, m);
    SweepFillsTable(p, sweep);
    var before, after := Turns(p, sweep + earlier), Turns(p, sweep + earlier + round);
    TableHoldsBus(after.table, sweep, bus);
    AskedListsBus(InputsAsked(after.requests[|before.requests|..]), sweep, bus);
  }

  lemma {:induction false} AskedListsBus(asked: seq<byte>, sweep: seq<bool>, bus: set<byte>)
    requires |sweep| == 32 && forall k | 0 <= k < 32 :: sweep[k] <==> k + 1 in bus
    requires Ascends(asked)
    requires AreAnswered(asked, sweep)
    ensures ListsBus(asked, bus)
  {}

  lemma {:induction false} IsFresh(p: Poller)
    requires Fresh(p)
    ensures WellFormed(p) && p.scanning && !p.heard && p.cursor == 0 && SLOTS == 32
  {}

  // ----- The register tables, which have an entry for every address below 32

  const TABLE_SIZE: nat := 32

  /** The address a turn asks. */
  function Asks(p: Poller): (asked: seq<byte>)
    requires WellFormed(p)
  {
    if p.scanning then [p.cursor + 1] else if p.table[p.cursor] != ABSENT then [p.table[p.cursor]] else []
  }

  /** It is that of the input request the turn sends, which is sent whether or not it is answered. */
  lemma {:induction false} AsksWhatItSends(p: Poller, answered: bool)
    requires WellFormed(p)
    ensures var after := Turn(p, answered).requests;
            p.requests <= after && Asks(p) == InputsAsked(after[|p.requests|..])
  {
    if p.scanning {
      assert Turn(p, answered).requests[|p.requests|..] == [ReadInput(p.cursor + 1)];
      InputsOfOne(ReadInput(p.cursor + 1));
    } else {
      assert Turn(p, answered).requests[|p.requests|..] == Polled(p.table[p.cursor], p.holdsRead);
      PolledInputs(p.table[p.cursor], p.holdsRead);
    }
  }

  lemma {:induction false} InputsOfOne(r: Request)
    ensures InputsAsked([r]) == if r.ReadInput? then [r.addr] else []
  {}

  /** The indices at which accepted replies are stored over a run: each reply at the address asked. */
  function Stores(p: Poller, answers: seq<bool>): seq<byte>
    requires WellFormed(p)
  {
    if answers == [] then []
    else
      var n := |answers| - 1;
      Stores(p, answers[..n]) + if answers[n] then Asks(Turns(p, answers[..n])) else []
  }

  /** The address asked in the turn k of the run is heard in the scan. */
  predicate HeardAt(p: Poller, answers: seq<bool>, k: nat)
    requires WellFormed(p) && k < |answers|
  {
    answers[k] && Turns(p, answers[..k]).scanning
  }

  predicate IsLastTurn(k: nat) {
    k % 32 == 31
  }

  /** Address 32 is heard in the scan: the turn that asks it comes last in every sweep. */
  predicate LastIsHeard(p: Poller, answers: seq<bool>)
    requires WellFormed(p)
  {
    exists k | 0 <= k < |answers| && IsLastTurn(k) :: HeardAt(p, answers, k)
  }

  lemma {:induction false} HeardBefore(p: Poller, answers: seq<bool>, n: nat, k: nat)
    requires WellFormed(p) && k < n <= |answers|
    ensures HeardAt(p, answers[..n], k) == HeardAt(p, answers, k)
  {
    assert answers[..n][..k] == answers[..k];
  }

  lemma {:induction false} LastIsHeardMore(p: Poller, answers: seq<bool>, n: nat)
    requires WellFormed(p) && n + 1 == |answers|
    ensures LastIsHeard(p, answers)
            <==> LastIsHeard(p, answers[..n]) || (n % 32 == 31 && answers[n] && Turns(p, answers[..n]).scanning)
  {
    assert HeardAt(p, answers, n) <==> answers[n] && Turns(p, answers[..n]).scanning;
    assert IsLastTurn(n) <==> n % 32 == 31;
    hide HeardAt, Turns, IsLastTurn;
    forall k | 0 <= k < n ensures HeardAt(p, answers[..n], k) == HeardAt(p, answers, k) {
      HeardBefore(p, answers, n, k);
    }
  }

  /** What every run from start-up keeps: the turn's slot, and what the slots already filled can hold. */
  predicate Kept(p: Poller, turns: nat, lastHeard: bool)
    requires WellFormed(p)
  {
    && p.cursor == turns % 32
    && (forall i | 0 <= i < SLOTS && (i < p.cursor || !p.scanning) :: p.table[i] == i + 1 || p.table[i] == ABSENT)
    && (!p.scanning && p.table[31] != ABSENT ==> lastHeard)
  }

  predicate Fresh(p: Poller) {
    WellFormed(p) && p.scanning && !p.heard && p.cursor == 0
  }

  lemma {:induction false} RunsKeep(p: Poller, answers: seq<bool>)
    requires Fresh(p)
    ensures Kept(Turns(p, answers), |answers|, LastIsHeard(p, answers))
    decreases |answers|
  {
    if answers != [] {
      var n := |answers| - 1;
      RunsKeep(p, answers[..n]);
      LastIsHeardMore(p, answers, n);
      TurnKeeps(Turns(p, answers[..n]), n, answers[n], LastIsHeard(p, answers[..n]), LastIsHeard(p, answers));
    }
  }

  lemma {:induction false} TurnKeeps(p: Poller, n: nat, answered: bool, before: bool, after: bool)
    requires WellFormed(p) && Kept(p, n, before) && (before ==> after)
    requires n % 32 == 31 && answered && p.scanning ==> after
    ensures Kept(Turn(p, answered), n + 1, after)
  {}

  /** The indices the tables have. */
  predicate InTables(stores: seq<byte>) {
    forall i <- stores :: i < TABLE_SIZE
  }

  predicate OneBeyondAtMost(stores: seq<byte>) {
    forall i <- stores :: 1 <= i <= TABLE_SIZE
  }

  /** Over every run from start-up all stores are inside the tables if and only if address 32 is never heard in the scan. */
  lemma {:induction false} StoresAreInRangeUnlessLastIsHeard(p: Poller, answers: seq<bool>)
    requires Fresh(p)
    ensures OneBeyondAtMost(Stores(p, answers))
    ensures InTables(Stores(p, answers)) <==> !LastIsHeard(p, answers)
    decreases |answers|
  {
    if answers != [] {
      var n := |answers| - 1;
      StoresAreInRangeUnlessLastIsHeard(p, answers[..n]);
      RunsKeep(p, answers[..n]);
      LastIsHeardMore(p, answers, n);
      hide InTables, OneBeyondAtMost, LastIsHeard, Kept, Turns, Asks;
      var q := Turns(p, answers[..n]);
      var b := if answers[n] then Asks(q) else [];
      TurnStores(q, n, answers[n], LastIsHeard(p, answers[..n]));
      StoresMore(Stores(p, answers[..n]), b);
      assert Stores(p, answers) == Stores(p, answers[..n]) + b;
    }
  }

  /** What one turn stores; `lastHeard` says whether address 32 has been heard before. */
  lemma {:induction false} TurnStores(p: Poller, n: nat, answered: bool, lastHeard: bool)
    requires WellFormed(p) && Kept(p, n, lastHeard)
    ensures var b := if answered then Asks(p) else [];
            && OneBeyondAtMost(b)
            && (InTables(b) && !lastHeard <==> !(lastHeard || (n % 32 == 31 && answered && p.scanning)))
  {
    assert Asks(p) != [] ==> Asks(p)[0] == n % 32 + 1 && Asks(p)[0] in Asks(p);
  }

  lemma {:induction false} StoresMore(a: seq<byte>, b: seq<byte>)
    ensures OneBeyondAtMost(a + b) <==> OneBeyondAtMost(a) && OneBeyondAtMost(b)
    ensures InTables(a + b) <==> InTables(a) && InTables(b)
  {
    assert forall i <- a :: i in a + b;
    assert forall i <- b :: i in a + b;
  }

  // ----- The thread's state

  class BreakerThread {
    const cb_slave_addr: array<byte>
    var scan_flag: bool
    var scan_ok: bool
    var cb_query_slave_cnt: nat
    var cb_slave_addr_cnt: nat
    var read_hold_flag: bool
    var requests: seq<Request>

    ghost predicate Valid()
      reads this, cb_slave_addr
    {
      && cb_slave_addr.Length == SLOTS && cb_slave_addr_cnt < SLOTS
      && (!scan_flag ==> cb_query_slave_cnt == cb_slave_addr_cnt + 1)
    }

    ghost function State(): Poller
      reads this, cb_slave_addr
    {
      Poller(!scan_flag, scan_ok, cb_slave_addr_cnt, cb_slave_addr[..], read_hold_flag, requests)
    }

    constructor ()
      ensures Valid() && !scan_flag && !scan_ok && cb_slave_addr_cnt == 0 && !read_hold_flag && requests == []
    {
      cb_slave_addr := new byte[SLOTS](_ => 0);
      scan_flag, scan_ok, read_hold_flag := false, false, false;
      cb_query_slave_cnt, cb_slave_addr_cnt, requests := 1, 0, [];
    }

    /** One turn of the thread; `answered` says whether an input-register reply to the query is accepted in it. */
    method ThreadTurn(answered: bool)
      requires Valid()
      modifies this, cb_slave_addr
      ensures Valid() && State() == Turn(old(State()), answered)
      ensures !old(scan_flag) ==> requests == old(requests) + [ReadInput(old(cb_slave_addr_cnt) + 1)]
    {
      if !scan_flag {
        ScanSlot(answered);
      } else {
        PollSlot();
      }
    }

    /** The thread's branch while scanning. */
    method ScanSlot(answered: bool)
      requires Valid() && !scan_flag
      modifies this, cb_slave_addr
      ensures Valid() && State() == ScanTurn(old(State()), answered)
    {
      ghost var p := State();
      requests := requests + [ReadInput(cb_query_slave_cnt)];
      if answered {
        scan_ok := true;
        cb_slave_addr[cb_slave_addr_cnt] := cb_query_slave_cnt;
      } else {
        cb_slave_addr[cb_slave_addr_cnt] := ABSENT;
      }
      assert cb_slave_addr[..] == p.table[p.cursor := if answered then p.cursor + 1 else ABSENT];
      cb_query_slave_cnt := cb_query_slave_cnt + 1;
      cb_slave_addr_cnt := cb_slave_addr_cnt + 1;
      if cb_slave_addr_cnt >= SLOTS {
        cb_query_slave_cnt := 1;
        cb_slave_addr_cnt := 0;
        if scan_ok {
          scan_flag := true;
          cb_slave_addr_cnt := 0;
        }
      }
    }

    /** The thread's branch once scanning is over. */
    method PollSlot()
      requires Valid() && scan_flag
      modifies this
      ensures Valid() && State() == PollTurn(old(State()))
    {
      ghost var asked := Polled(cb_slave_addr[cb_slave_addr_cnt], read_hold_flag);
      if cb_slave_addr[cb_slave_addr_cnt] != ABSENT {
        var addr := cb_slave_addr[cb_slave_addr_cnt];
        if !read_hold_flag {
          requests := requests + [ReadHold(addr)];
        }
        requests := requests + [ReadInput(addr)];
        requests := requests + [ReadDiscrete(addr)];
      }
      assert requests == old(requests) + asked;
      cb_slave_addr_cnt := cb_slave_addr_cnt + 1;
      if cb_slave_addr_cnt >= SLOTS {
        cb_slave_addr_cnt := 0;
        read_hold_flag := true;
      }
    }

    method ThreadTurns(answers: seq<bool>)
      requires Valid()
      modifies this, cb_slave_addr
      ensures Valid() && State() == Turns(old(State()), answers)
    {
      ghost var p := State();
      var k := 0;
      while k < |answers|
        invariant 0 <= k <= |answers| && Valid() && State() == Turns(p, answers[..k])
      {
        assert answers[..k + 1][..k] == answers[..k];
        ThreadTurn(answers[k]);
        k := k + 1;
      }
      assert answers[..k] == answers;
    }
  }
}
