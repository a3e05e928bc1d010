/**
  The discovery branch of `modbus_control_thread` in app/monitor_board_handle.c: sweeps of
  sixteen queries that fill a device table, stored through a flash that reads back what
  was last written.
  */
module SlaveScan {
  import opened Bytes
  import opened Options

  const SLAVE_MAX_NUM: nat := 16
  const MAX_SILENT_SWEEPS: nat := 3
  const DAT_SLAVE_TYPE: byte := 255

  datatype Device = Device(addr: byte, kind: byte, name: string)

  const DEFAULT_DEVICE := Device(255, DAT_SLAVE_TYPE, "nc")

  // ----- What a discovery does

  datatype Outcome = Searching | Finished(devices: seq<Device>) | GaveUp

  /**
    `sweep` silent sweeps lie behind, `next` is the address to query, `found` is stored, `saved` says that something was
    stored in this sweep.
    */
  datatype Scan = Scan(outcome: Outcome, sweep: nat, next: nat, found: seq<Device>, queries: seq<nat>, saved: bool)

  const START := Scan(Searching, 0, 0, [], [], false)

  function Known(devices: seq<Device>): seq<Device> {
    if devices == [] then []
    else
      var last := devices[|devices| - 1];
      Known(devices[..|devices| - 1]) + (if last.kind != DAT_SLAVE_TYPE then [last] else [])
  }

  function Answers(replies: seq<Option<Device>>): seq<Device> {
    if replies == [] then []
    else
      var last := replies[|replies| - 1];
      Answers(replies[..|replies| - 1]) + (if last.Some? then [last.value] else [])
  }

  /** One query; `reply` is the device whose answer has been taken in when the thread looks. */
  function Query(s: Scan, reply: Option<Device>): Scan {
    if s.outcome != Searching then s
    else
      var found := s.found + (if reply.Some? then [reply.value] else []);
      var queries, saved := s.queries + [s.next], s.saved || reply.Some?;
      if s.next + 1 < SLAVE_MAX_NUM then Scan(Searching, s.sweep, s.next + 1, found, queries, saved)
      else if saved then Scan(Finished(Known(found)), s.sweep, 0, [], queries, false)
      else Scan(if s.sweep + 1 > MAX_SILENT_SWEEPS then GaveUp else Searching, s.sweep + 1, 0, found, queries, false)
  }

  function Queries(s: Scan, replies: seq<Option<Device>>): Scan
    decreases |replies|
  {
    if replies == [] then s else Query(Queries(s, replies[..|replies| - 1]), replies[|replies| - 1])
  }

  /** Storage never runs ahead of the address counter. */
  predicate InRange(s: Scan) {
    && (s.outcome == Searching ==> s.sweep <= MAX_SILENT_SWEEPS && s.next < SLAVE_MAX_NUM)
    && |s.found| <= s.next <= SLAVE_MAX_NUM && (s.saved <==> s.found != [])
    && (s.outcome.Finished? ==> |s.outcome.devices| <= SLAVE_MAX_NUM)
  }

  lemma {:induction false} KnownIsShorter(devices: seq<Device>)
    ensures |Known(devices)| <= |devices|
  {
    if devices != [] {
      KnownIsShorter(devices[..|devices| - 1]);
    }
  }

  lemma {:induction false} StorageStaysInRange(replies: seq<Option<Device>>)
    ensures InRange(Queries(START, replies))
  {
    if replies != [] {
      var n := |replies| - 1;
      StorageStaysInRange(replies[..n]);
      var s, r := Queries(START, replies[..n]), replies[n];
      KnownIsShorter(s.found + (if r.Some? then [r.value] else []));
    }
  }

  /** A lexicographic measure over sweep and address that every query of a live discovery lowers. */
  function SweepsLeft(s: Scan): int {
    if s.outcome == Searching then MAX_SILENT_SWEEPS + 1 - s.sweep else 0
  }

  function AddressesLeft(s: Scan): int {
    if s.outcome == Searching then SLAVE_MAX_NUM - s.next else 0
  }

  lemma {:induction false} QueryMakesProgress(s: Scan, reply: Option<Device>)
    requires InRange(s) && s.outcome == Searching
    ensures var t := Query(s, reply);
            && 0 <= SweepsLeft(t) && 0 <= AddressesLeft(t)
            && (SweepsLeft(t) < SweepsLeft(s) || (SweepsLeft(t) == SweepsLeft(s) && AddressesLeft(t) < AddressesLeft(s)))
  {}

  // ----- Whole runs

  lemma {:induction false} RunsJoin(s: Scan, a: seq<Option<Device>>, b: seq<Option<Device>>)
    ensures Queries(s, a + b) == Queries(Queries(s, a), b)
  {
    if b == [] {
      assert a + b == a;
    } else {
      RunsJoin(s, a, b[..|b| - 1]);
      assert (a + b)[..|a + b| - 1] == a + b[..|b| - 1];
    }
  }

  function Addresses(n: nat): (r: seq<nat>)
    ensures |r| == n && forall i | 0 <= i < n :: r[i] == i
  {
    seq(n, i requires 0 <= i < n => i)
  }

  /** Inside a sweep the answers are collected in query order, behind what was stored. */
  lemma {:induction false} InsideSweep(s: Scan, replies: seq<Option<Device>>)
    requires s.outcome == Searching && s.next == 0 && !s.saved && |replies| < SLAVE_MAX_NUM
    ensures Queries(s, replies)
            == Scan(Searching, s.sweep, |replies|, s.found + Answers(replies), s.queries + Addresses(|replies|),
                    Answers(replies) != [])
    decreases |replies|
  {
    if replies == [] {
      assert s.queries + Addresses(0) == s.queries && s.found + [] == s.found;
    } else {
      var n := |replies| - 1;
      hide Query;
      InsideSweep(s, replies[..n]);
      SweepGoesOn(s, replies[..n], replies[n]);
      assert replies == replies[..n] + [replies[n]];
    }
  }

  /** Within a sweep. */
  function Swept(s: Scan, replies: seq<Option<Device>>): Scan {
    Scan(Searching, s.sweep, |replies|, s.found + Answers(replies), s.queries + Addresses(|replies|), Answers(replies) != [])
  }

  lemma {:induction false} SweepGoesOn(s: Scan, replies: seq<Option<Device>>, r: Option<Device>)
    requires |replies| + 1 < SLAVE_MAX_NUM
    ensures Query(Swept(s, replies), r) == Swept(s, replies + [r])
  {
    OneMoreAnswer(replies, r);
    hide Answers, Known;
    var n := |replies|;
    assert s.queries + Addresses(n + 1) == s.queries + Addresses(n) + [n];
  }

  /** A sweep with an answer ends the discovery with all that is stored; a silent one stores nothing. */
  lemma {:induction false} SweepOutcome(s: Scan, replies: seq<Option<Device>>)
    requires s.outcome == Searching && s.next == 0 && !s.saved && |replies| == SLAVE_MAX_NUM
    ensures var t := Queries(s, replies);
            && t.queries == s.queries + Addresses(SLAVE_MAX_NUM) && t.next == 0 && !t.saved
            && (if Answers(replies) != []
                then t.outcome == Finished(Known(s.found + Answers(replies))) && t.sweep == s.sweep && t.found == []
                else t.outcome == (if s.sweep + 1 > MAX_SILENT_SWEEPS then GaveUp else Searching)
                     && t.sweep == s.sweep + 1 && t.found == s.found)
  {
    var most, r := replies[..15], replies[15];
    assert replies == most + [r];
    InsideSweep(s, most);
    LastQuery(s, most, r);
    OneReplyMore(s, most, r);
  }

  lemma {:induction false} OneReplyMore(s: Scan, replies: seq<Option<Device>>, r: Option<Device>)
    ensures Queries(s, replies + [r]) == Query(Queries(s, replies), r)
  {
    hide Query;
    assert (replies + [r])[..|replies|] == replies;
  }

  lemma {:induction false} LastQuery(s: Scan, replies: seq<Option<Device>>, r: Option<Device>)
    requires |replies| + 1 == SLAVE_MAX_NUM
    ensures var t, answers := Query(Swept(s, replies), r), Answers(replies + [r]);
            && t.queries == s.queries + Addresses(SLAVE_MAX_NUM) && t.next == 0 && !t.saved
            && (if answers != [] then t.outcome == Finished(Known(s.found + answers)) && t.sweep == s.sweep && t.found == []
                else t.outcome == (if s.sweep + 1 > MAX_SILENT_SWEEPS then GaveUp else Searching)
                     && t.sweep == s.sweep + 1 && t.found == s.found)
  {
    OneMoreAnswer(replies, r);
    hide Answers, Known;
    assert s.queries + Addresses(16) == s.queries + Addresses(15) + [15];
    assert s.found + Answers(replies + [r]) == s.found + Answers(replies) + if r.Some? then [r.value] else [];
    assert s.found + [] == s.found;
  }

  lemma {:induction false} EndedIsStable(s: Scan, replies: seq<Option<Device>>)
    requires s.outcome != Searching
    ensures Queries(s, replies) == s
  {
    if replies != [] {
      EndedIsStable(s, replies[..|replies| - 1]);
    }
  }

  function Repeated(k: nat): seq<nat> {
    if k == 0 then [] else Repeated(k - 1) + Addresses(SLAVE_MAX_NUM)
  }

  lemma {:induction false} RepeatedIs(k: nat)
    ensures |Repeated(k)| == 16 * k && forall i | 0 <= i < 16 * k :: Repeated(k)[i] == i % 16
  {
    if k > 0 {
      RepeatedIs(k - 1);
      forall i | 16 * (k - 1) <= i < 16 * k ensures Repeated(k)[i] == i % 16 {
        assert Repeated(k)[i] == Addresses(16)[i - 16 * (k - 1)];
      }
    }
  }

  lemma {:induction false} SilentSweeps(replies: seq<Option<Device>>, k: nat)
    requires k <= MAX_SILENT_SWEEPS + 1 && |replies| == k * SLAVE_MAX_NUM && Answers(replies) == []
    ensures Queries(START, replies)
            == Scan(if k > MAX_SILENT_SWEEPS then GaveUp else Searching, k, 0, [], Repeated(k), false)
  {
    if k > 0 {
      var n := (k - 1) * SLAVE_MAX_NUM;
      var a, b := replies[..n], replies[n..];
      assert replies == a + b;
      AnswersJoin(a, b);
      SilentSweeps(a, k - 1);
      RunsJoin(START, a, b);
      SweepOutcome(Queries(START, a), b);
    }
  }

  lemma {:induction false} AnswersJoin(a: seq<Option<Device>>, b: seq<Option<Device>>)
    ensures Answers(a + b) == Answers(a) + Answers(b)
  {
    if b == [] {
      assert a + b == a;
    } else {
      AnswersJoin(a, b[..|b| - 1]);
      assert (a + b)[..|a + b| - 1] == a + b[..|b| - 1];
    }
  }

  lemma {:induction false} OneMoreAnswer(replies: seq<Option<Device>>, r: Option<Device>)
    ensures Answers(replies + [r]) == Answers(replies) + (if r.Some? then [r.value] else [])
  {
    assert (replies + [r])[..|replies|] == replies;
  }

  lemma {:induction false} OneMoreKnown(replies: seq<Option<Device>>, r: Option<Device>)
    ensures Known(Answers(replies + [r]))
            == Known(Answers(replies)) + (if r.Some? && r.value.kind != DAT_SLAVE_TYPE then [r.value] else [])
  {
    OneMoreAnswer(replies, r);
    var answers := Answers(replies);
    if r.Some? {
      assert (answers + [r.value])[..|answers|] == answers;
    } else {
      assert answers + [] == answers;
    }
  }

  /** If nobody answers, discovery issues four sweeps of sixteen queries and never queries again. */
  lemma {:induction false} SilenceEndsDiscovery(replies: seq<Option<Device>>)
    requires |replies| >= 64 && Answers(replies) == []
    ensures var t := Queries(START, replies);
            t.outcome == GaveUp && |t.queries| == 64 && forall i | 0 <= i < 64 :: t.queries[i] == i % 16
  {
    var a, b := replies[..64], replies[64..];
    assert replies == a + b;
    AnswersJoin(a, b);
    SilentSweeps(a, 4);
    RunsJoin(START, a, b);
    EndedIsStable(Queries(START, a), b);
    RepeatedIs(4);
  }

  /** What is kept of a list: the devices of a known type, in their order. */
  lemma {:induction false} KnownAreKept(devices: seq<Device>, d: Device)
    ensures d in Known(devices) <==> d in devices && d.kind != 255
    ensures (forall e <- devices :: e.kind != 255) ==> Known(devices) == devices
  {
    hide *;
    if devices == [] {
      KnownOne([], d);
    } else {
      var start, last := devices[..|devices| - 1], devices[|devices| - 1];
      KnownAreKept(start, d);
      KeptMore(start, last, d);
      assert devices == start + [last];
    }
  }

  lemma {:induction false} KeptMore(devices: seq<Device>, last: Device, d: Device)
    requires d in Known(devices) <==> d in devices && d.kind != 255
    requires (forall e <- devices :: e.kind != 255) ==> Known(devices) == devices
    ensures d in Known(devices + [last]) <==> d in devices + [last] && d.kind != 255
    ensures (forall e <- devices + [last] :: e.kind != 255) ==> Known(devices + [last]) == devices + [last]
  {
    KnownOne(devices, last);
    hide Known;
    if forall e <- devices + [last] :: e.kind != 255 {
      assert forall e <- devices :: e in devices + [last];
      assert last in devices + [last];
    }
  }

  /** The first sweep with an answer decides, whatever comes later. */
  lemma {:induction false} FirstAnsweredSweepDecides(silent: seq<Option<Device>>, sweep: seq<Option<Device>>, later: seq<Option<Device>>, k: nat)
    requires k <= MAX_SILENT_SWEEPS && |silent| == k * SLAVE_MAX_NUM && Answers(silent) == []
    requires |sweep| == SLAVE_MAX_NUM && Answers(sweep) != []
    ensures var t := Queries(START, silent + sweep + later);
            && t.outcome == Finished(Known(Answers(sweep)))
            && |t.queries| == 16 * (k + 1) && forall i | 0 <= i < |t.queries| :: t.queries[i] == i % 16
  {
    hide Queries, Query, Known, Answers;
    SilentSweeps(silent, k);
    SweepAfterSilence(silent, sweep, k);
    RunsJoin(START, silent + sweep, later);
    EndedIsStable(Queries(START, silent + sweep), later);
    RepeatedIs(k + 1);
  }

  lemma {:induction false} SweepAfterSilence(silent: seq<Option<Device>>, sweep: seq<Option<Device>>, k: nat)
    requires Queries(START, silent) == Scan(Searching, k, 0, [], Repeated(k), false)
    requires |sweep| == SLAVE_MAX_NUM && Answers(sweep) != []
    ensures var t := Queries(START, silent + sweep);
            t.outcome == Finished(Known(Answers(sweep))) && t.queries == Repeated(k + 1)
  {
    hide Queries, Known, Answers;
    RunsJoin(START, silent, sweep);
    SweepOutcome(Queries(START, silent), sweep);
    assert [] + Answers(sweep) == Answers(sweep);
  }

  // ----- The reset key in the middle of a sweep

  /** The key handler starts the counters and the sweep's flag again and leaves what is already stored. */
  function Restarted(s: Scan): Scan {
    Scan(Searching, 0, 0, s.found, s.queries, false)
  }

  /** Every answer of the sweep is stored inside the table. */
  predicate StoresInRange(s: Scan, replies: seq<Option<Device>>) {
    forall k | 0 <= k < |replies| && replies[k].Some? && Queries(s, replies[..k]).outcome == Searching ::
      |Queries(s, replies[..k]).found| < SLAVE_MAX_NUM
  }

  lemma {:induction false} AnswersAtMost(replies: seq<Option<Device>>)
    ensures |Answers(replies)| <= |replies|
    ensures (forall r <- replies :: r.Some?) ==> |Answers(replies)| == |replies|
  {
    if replies != [] {
      var n := |replies| - 1;
      AnswersAtMost(replies[..n]);
      assert replies[n] in replies && forall r <- replies[..n] :: r in replies;
    }
  }

  /** Whatever the slaves answer, the sweep after a reset stays in the table exactly if nothing was stored before it. */
  lemma {:induction false} ResetIsSafeOnlyWhenNothingIsStored(s: Scan)
    requires !s.outcome.Finished?
    ensures (forall replies | |replies| == SLAVE_MAX_NUM :: StoresInRange(Restarted(s), replies)) <==> s.found == []
  {
    forall replies: seq<Option<Device>> | |replies| == SLAVE_MAX_NUM && s.found == []
      ensures StoresInRange(Restarted(s), replies)
    {
      forall k | 0 <= k < |replies| && replies[k].Some?
        ensures |Queries(Restarted(s), replies[..k]).found| < SLAVE_MAX_NUM
      {
        InsideSweep(Restarted(s), replies[..k]);
        AnswersAtMost(replies[..k]);
      }
    }
    var all := seq(SLAVE_MAX_NUM, i => Some(DEFAULT_DEVICE));
    InsideSweep(Restarted(s), all[..15]);
    AnswersAtMost(all[..15]);
    assert s.found != [] ==> |Queries(Restarted(s), all[..15]).found| >= SLAVE_MAX_NUM && all[15].Some?;
  }

  /** What was stored before a reset stays in front of the list, through silent sweeps too. */
  lemma {:induction false} ResetKeepsStored(s: Scan, replies: seq<Option<Device>>)
    requires |replies| == SLAVE_MAX_NUM
    ensures var t := Queries(Restarted(s), replies);
            if Answers(replies) == [] then t == Scan(Searching, 1, 0, s.found, s.queries + Addresses(SLAVE_MAX_NUM), false)
            else t.outcome == Finished(Known(s.found) + Known(Answers(replies)))
  {
    SweepOutcome(Restarted(s), replies);
    KnownJoin(s.found, Answers(replies));
  }

  lemma {:induction false} KnownOne(devices: seq<Device>, d: Device)
    ensures Known([]) == []
    ensures Known(devices + [d]) == Known(devices) + if d.kind != DAT_SLAVE_TYPE then [d] else []
  {
    assert (devices + [d])[..|devices|] == devices;
  }

  lemma {:induction false} KnownJoin(a: seq<Device>, b: seq<Device>)
    ensures Known(a + b) == Known(a) + Known(b)
  {
    hide *;
    if b == [] {
      KnownOne(a, DEFAULT_DEVICE);
      assert a + b == a && b == [];
    } else {
      var start, d := b[..|b| - 1], b[|b| - 1];
      KnownJoin(a, start);
      KnownOne(start, d);
      KnownOne(a + start, d);
      assert b == start + [d] && a + b == a + start + [d];
    }
  }

  /** So the list is that of the answering devices if and only if no device of a known type was stored before the reset. */
  lemma {:induction false} ResetListIsRightExactlyWhenNoneKnown(s: Scan, replies: seq<Option<Device>>)
    requires |replies| == SLAVE_MAX_NUM && Answers(replies) != []
    ensures Queries(Restarted(s), replies).outcome == Finished(Known(Answers(replies))) <==> Known(s.found) == []
  {
    ResetKeepsStored(s, replies);
    var a, b := Known(s.found), Known(Answers(replies));
    assert a == [] ==> a + b == b;
    assert a != [] ==> |a + b| != |b|;
  }

  /** The key's flag, once the list is there: the thread empties its table and begins again. */
  function Rescanned(s: Scan): Scan {
    START.(queries := s.queries)
  }

  lemma {:induction false} EarlierQueriesStay(s: Scan, q: seq<nat>, replies: seq<Option<Device>>)
    ensures var t := Queries(s, replies);
            Queries(s.(queries := q + s.queries), replies) == t.(queries := q + t.queries)
    decreases |replies|
  {
    if replies != [] {
      var n := |replies| - 1;
      EarlierQueriesStay(s, q, replies[..n]);
      var t := Queries(s, replies[..n]);
      hide Known;
      assert q + (t.queries + [t.next]) == q + t.queries + [t.next];
    }
  }

  /**
    Whatever stood in the table at the reset and however many keys were pressed before: once the next answered sweep is
    over, the discovery that the key's flag starts gives exactly the devices that answer in its first answered sweep, and
    every answer has a place.
    */
  lemma {:induction false} ListAfterResetIsExact(s: Scan, first: seq<Option<Device>>, silent: seq<Option<Device>>,
                                                 sweep: seq<Option<Device>>, k: nat)
    requires |first| == SLAVE_MAX_NUM && Answers(first) != []
    requires k <= MAX_SILENT_SWEEPS && |silent| == k * SLAVE_MAX_NUM && Answers(silent) == []
    requires |sweep| == SLAVE_MAX_NUM && Answers(sweep) != []
    ensures var t := Queries(Restarted(s), first);
            && t.outcome.Finished?
            && StoresInRange(Rescanned(t), silent + sweep)
            && Queries(Rescanned(t), silent + sweep).outcome == Finished(Known(Answers(sweep)))
  {
    SweepOutcome(Restarted(s), first);
    var q, replies := Queries(Restarted(s), first).queries, silent + sweep;
    FirstAnsweredSweepDecides(silent, sweep, [], k);
    assert replies + [] == replies && q + [] == q;
    EarlierQueriesStay(START, q, replies);
    FirstDiscoveryHasPlaces(replies);
    forall j | 0 <= j < |replies| && replies[j].Some? && Queries(START.(queries := q), replies[..j]).outcome == Searching
      ensures |Queries(START.(queries := q), replies[..j]).found| < SLAVE_MAX_NUM
    {
      EarlierQueriesStay(START, q, replies[..j]);
    }
  }

  // ----- The thread's state

  /** `timer_5s_cnt++` in 16 bits. */
  function Counted(cnt: u16): u16 {
    (cnt + 1) % 0x1_0000
  }

  class Discovery {
    const psm: array<Device>          // sys_psm.slave_device
    const flash: array<Device>        // what the flash holds
    const own: array<Device>          // device_data.own_slave_device
    var slave_ok: bool
    var query_slave_finish_flag: bool
    var query_slave_cnt: nat
    var query_slave_times_cnt: nat
    var save_slave_device_flag: bool
    var slave_device_max: nat
    var set_scan_flag: bool
    var timer_5s_cnt: u16
    var queries: seq<nat>             // addresses queried on the bus

    ghost predicate Valid()
      reads this, psm, flash, own
    {
      && psm.Length == flash.Length == own.Length == SLAVE_MAX_NUM
      && psm != flash && flash != own && psm != own
      && slave_device_max <= SLAVE_MAX_NUM
      && (!slave_ok ==> flash[..slave_device_max] == psm[..slave_device_max])
      && query_slave_cnt < SLAVE_MAX_NUM
      && (slave_ok ==> !query_slave_finish_flag && !save_slave_device_flag)
      && (!slave_ok && !query_slave_finish_flag ==> query_slave_times_cnt <= MAX_SILENT_SWEEPS)
    }

    ghost function State(): Scan
      requires psm.Length == flash.Length == own.Length == SLAVE_MAX_NUM && slave_device_max <= SLAVE_MAX_NUM
      reads this, psm, flash, own
    {
      Scan(if slave_ok then Finished(own[..slave_device_max])
           else if query_slave_finish_flag then GaveUp else Searching,
           query_slave_times_cnt, query_slave_cnt,
           if slave_ok then [] else psm[..slave_device_max], queries, !slave_ok && save_slave_device_flag)
    }

    /** The next answer has a place in the table. */
    ghost predicate HasPlace(reply: Option<Device>)
      reads this
    {
      reply.Some? ==> slave_device_max < SLAVE_MAX_NUM
    }

    /** A board that has never found a slave; the turn counter starts uninitialised. */
    constructor (timer: u16)
      ensures Valid() && State() == START && !slave_ok && fresh(psm) && fresh(flash) && fresh(own)
    {
      psm := new Device[SLAVE_MAX_NUM](_ => DEFAULT_DEVICE);
      flash := new Device[SLAVE_MAX_NUM](_ => DEFAULT_DEVICE);
      own := new Device[SLAVE_MAX_NUM](_ => DEFAULT_DEVICE);
      slave_ok, query_slave_finish_flag, save_slave_device_flag := false, false, false;
      query_slave_cnt, query_slave_times_cnt, slave_device_max := 0, 0, 0;
      set_scan_flag, timer_5s_cnt, queries := false, timer, [];
    }

    /** One turn of the discovery branch: a query goes out every second turn, when the turn counter has come to 2. */
    method Turn(reply: Option<Device>)
      requires Valid() && !slave_ok && HasPlace(reply)
      modifies this, psm, flash, own
      ensures Valid() && set_scan_flag == old(set_scan_flag)
      ensures State() == if old(query_slave_finish_flag) || (old(timer_5s_cnt) + 1) % 0x1_0000 < 2 then old(State())
                         else Query(old(State()), reply)
      ensures timer_5s_cnt == if old(query_slave_finish_flag) then old(timer_5s_cnt)
                              else if (old(timer_5s_cnt) + 1) % 0x1_0000 < 2 then (old(timer_5s_cnt) + 1) % 0x1_0000 else 0
    {
      if !query_slave_finish_flag {
        timer_5s_cnt := Counted(timer_5s_cnt);
        if timer_5s_cnt >= 2 {
          timer_5s_cnt := 0;
          QueryNext(reply);
        }
      }
    }

    /** Two turns are one query. */
    method TwoTurns(reply: Option<Device>)
      requires Valid() && !slave_ok && !query_slave_finish_flag && HasPlace(reply) && timer_5s_cnt == 0
      modifies this, psm, flash, own
      ensures Valid() && State() == Query(old(State()), reply) && timer_5s_cnt == 0
    {
      Turn(None);
      Turn(reply);
    }

    method QueryNext(reply: Option<Device>)
      requires Valid() && !slave_ok && !query_slave_finish_flag && HasPlace(reply)
      modifies this, psm, flash, own
      ensures Valid() && set_scan_flag == old(set_scan_flag) && timer_5s_cnt == old(timer_5s_cnt)
      ensures State() == Query(old(State()), reply)
    {
      hide Known;
      queries := queries + [query_slave_cnt];
      TakeInAnswer(reply);
      ghost var found := psm[..slave_device_max];
      query_slave_cnt := query_slave_cnt + 1;
      if query_slave_cnt >= SLAVE_MAX_NUM {
        query_slave_cnt := 0;
        if save_slave_device_flag {
          save_slave_device_flag := false;
          UpdateDeviceList(found);
        } else {
          query_slave_times_cnt := query_slave_times_cnt + 1;
          if query_slave_times_cnt > MAX_SILENT_SWEEPS {
            query_slave_finish_flag := true;
          }
          assert psm[..slave_device_max] == found == flash[..slave_device_max];
        }
      } else {
        assert psm[..slave_device_max] == found == flash[..slave_device_max];
      }
    }

    method TakeInAnswer(reply: Option<Device>)
      requires psm.Length == flash.Length == SLAVE_MAX_NUM && psm != flash && slave_device_max <= SLAVE_MAX_NUM
      requires HasPlace(reply)
      requires flash[..slave_device_max] == psm[..slave_device_max]
      modifies this`slave_device_max, this`save_slave_device_flag, psm, flash
      ensures slave_device_max == old(slave_device_max) + (if reply.Some? then 1 else 0)
      ensures psm[..slave_device_max] == flash[..slave_device_max]
              == old(psm[..slave_device_max]) + (if reply.Some? then [reply.value] else [])
      ensures save_slave_device_flag == (old(save_slave_device_flag) || reply.Some?)
    {
      if reply.Some? {
        psm[slave_device_max] := reply.value;
        flash[slave_device_max] := psm[slave_device_max];
        slave_device_max := slave_device_max + 1;
        save_slave_device_flag := true;
      }
    }

    /** Clear the rest of the flash table, then read it back and keep the devices of a known kind. */
    method UpdateDeviceList(ghost found: seq<Device>)
      requires psm.Length == flash.Length == own.Length == SLAVE_MAX_NUM
      requires psm != flash && flash != own && psm != own
      requires slave_device_max == |found| <= SLAVE_MAX_NUM && flash[..slave_device_max] == found
      modifies this`slave_ok, this`slave_device_max, psm, flash, own
      ensures slave_ok && slave_device_max <= SLAVE_MAX_NUM
      ensures own[..slave_device_max] == Known(found)
    {
      ClearRest(found);
      ghost var rest := flash[|found|..];
      assert flash[..] == found + rest;
      slave_ok := true;
      ReadBack();
      DefaultsAreUnknown(found, rest);
    }

    method ClearRest(ghost found: seq<Device>)
      requires flash.Length == SLAVE_MAX_NUM && slave_device_max == |found| <= SLAVE_MAX_NUM
      requires flash[..slave_device_max] == found
      modifies flash
      ensures flash[..|found|] == found
      ensures forall j | 0 <= j < SLAVE_MAX_NUM - |found| :: flash[|found|..][j] == DEFAULT_DEVICE
    {
      var i := slave_device_max;
      while i < SLAVE_MAX_NUM
        invariant |found| <= i <= SLAVE_MAX_NUM && flash[..|found|] == found
        invariant forall j | |found| <= j < i :: flash[j] == DEFAULT_DEVICE
      {
        flash[i] := DEFAULT_DEVICE;
        i := i + 1;
      }
    }

    method ReadBack()
      requires psm.Length == flash.Length == own.Length == SLAVE_MAX_NUM
      requires psm != flash && flash != own && psm != own
      modifies this`slave_device_max, psm, own
      ensures slave_device_max <= SLAVE_MAX_NUM && own[..slave_device_max] == Known(flash[..])
    {
      ghost var stored := flash[..];
      slave_device_max := 0;
      var i := 0;
      while i < SLAVE_MAX_NUM
        invariant 0 <= i <= SLAVE_MAX_NUM && slave_device_max <= i && flash[..] == stored
        invariant own[..slave_device_max] == Known(stored[..i])
      {
        hide *;
        KnownGrows(stored, i);
        ghost var kept := own[..slave_device_max];
        psm[i] := flash[i];
        assert psm[i] == stored[i];
        if psm[i].kind != DAT_SLAVE_TYPE {
          own[slave_device_max] := psm[i];
          slave_device_max := slave_device_max + 1;
          assert own[..slave_device_max] == kept + [stored[i]];
        }
        i := i + 1;
      }
      assert stored[..i] == stored;
    }

    /** The reset key: counters and flags start again, the table and the flash stay. */
    method ResetKey()
      requires Valid()
      modifies this`set_scan_flag, this`query_slave_cnt, this`query_slave_times_cnt, this`save_slave_device_flag,
               this`query_slave_finish_flag
      ensures Valid() && set_scan_flag && slave_ok == old(slave_ok)
      ensures !query_slave_finish_flag && !save_slave_device_flag
      ensures State() == if slave_ok then old(State()).(sweep := 0, next := 0) else Restarted(old(State()))
    {
      set_scan_flag := true;
      query_slave_cnt, query_slave_times_cnt := 0, 0;
      save_slave_device_flag, query_slave_finish_flag := false, false;
    }

    /** The thread's answer to the key once the board has its list. */
    method Rescan()
      requires Valid() && slave_ok && set_scan_flag
      modifies this`set_scan_flag, this`query_slave_cnt, this`query_slave_times_cnt, this`slave_ok, this`slave_device_max
      ensures Valid() && !slave_ok && !set_scan_flag && State() == Rescanned(old(State()))
    {
      set_scan_flag := false;
      query_slave_times_cnt, query_slave_cnt := 0, 0;
      slave_ok := false;
      slave_device_max := 0;
    }

    /** Pressed when the list is there, the key starts a discovery from nothing. */
    method ScanAgain()
      requires Valid() && slave_ok
      modifies this
      ensures Valid() && !slave_ok && State() == Rescanned(old(State()))
    {
      ResetKey();
      Rescan();
    }

    /** Pressed during a search, the key starts the sweep again, and once that has a list a discovery from nothing. */
    method ResetInSearch(first: seq<Option<Device>>, later: seq<Option<Device>>)
      requires Valid() && !slave_ok && StoresInRange(Restarted(State()), first)
      requires var t := Queries(Restarted(State()), first); t.outcome.Finished? && StoresInRange(Rescanned(t), later)
      modifies this, psm, flash, own
      ensures Valid() && State() == Queries(Rescanned(Queries(Restarted(old(State())), first)), later)
    {
      ResetKey();
      Discover(first);
      Rescan();
      Discover(later);
    }

    /** A discovery to its end or until the replies run out, if every answer has a place. */
    method Discover(replies: seq<Option<Device>>)
      requires Valid() && !slave_ok && StoresInRange(State(), replies)
      modifies this, psm, flash, own
      ensures Valid() && State() == Queries(old(State()), replies) && set_scan_flag == old(set_scan_flag)
    {
      ghost var s := State();
      var k := 0;
      while k < |replies| && !slave_ok && !query_slave_finish_flag
        invariant 0 <= k <= |replies| && Valid() && State() == Queries(s, replies[..k])
        invariant set_scan_flag == old(set_scan_flag)
      {
        hide Query, Known, StoresInRange;
        PlaceAhead(s, replies, k);
        OneMoreQuery(s, replies, k);
        QueryNext(replies[k]);
        k := k + 1;
      }
      assert replies == replies[..k] + replies[k..];
      RunsJoin(s, replies[..k], replies[k..]);
      if k < |replies| {
        EndedIsStable(State(), replies[k..]);
      }
    }
  }

  lemma {:induction false} PlaceAhead(s: Scan, replies: seq<Option<Device>>, k: nat)
    requires StoresInRange(s, replies) && k < |replies|
    ensures replies[k].Some? && Queries(s, replies[..k]).outcome == Searching
            ==> |Queries(s, replies[..k]).found| < SLAVE_MAX_NUM
  {}

  lemma {:induction false} OneMoreQuery(s: Scan, replies: seq<Option<Device>>, k: nat)
    requires k < |replies|
    ensures Queries(s, replies[..k + 1]) == Query(Queries(s, replies[..k]), replies[k])
  {
    assert replies[..k + 1][..k] == replies[..k];
  }

  /** From start-up every answer has a place. */
  lemma {:induction false} FirstDiscoveryHasPlaces(replies: seq<Option<Device>>)
    ensures StoresInRange(START, replies)
  {
    forall k | 0 <= k < |replies| && Queries(START, replies[..k]).outcome == Searching
      ensures |Queries(START, replies[..k]).found| < SLAVE_MAX_NUM
    {
      StorageStaysInRange(replies[..k]);
    }
  }

  lemma {:induction false} KnownGrows(stored: seq<Device>, i: nat)
    requires i < |stored|
    ensures Known(stored[..i + 1])
            == Known(stored[..i]) + if stored[i].kind != DAT_SLAVE_TYPE then [stored[i]] else []
  {
    assert stored[..i + 1][..i] == stored[..i];
  }

  lemma {:induction false} DefaultsAreUnknown(found: seq<Device>, rest: seq<Device>)
    requires forall i | 0 <= i < |rest| :: rest[i] == DEFAULT_DEVICE
    ensures Known(found + rest) == Known(found)
  {
    if rest == [] {
      assert found + rest == found;
    } else {
      DefaultsAreUnknown(found, rest[..|rest| - 1]);
      assert (found + rest)[..|found + rest| - 1] == found + rest[..|rest| - 1];
      assert (found + rest)[|found + rest| - 1] == rest[|rest| - 1] == DEFAULT_DEVICE;
    }
  }
}
