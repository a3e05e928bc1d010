/**
  One discovery sweep of app/monitor_board_handle.c from end to end: the query frames on the bus, the answers heard
  through the byte parser among noise, and the device list they leave behind.
  */
module SlaveBus {
  import opened Bytes
  import opened Options
  import opened Crc16
  import opened SlaveFrames
  import SlaveScan

  type Device = SlaveScan.Device

  /** What a slave says of itself: its type, and whatever follows in the answer, the name among it. */
  datatype Reply = Reply(kind: byte, reserved: byte, rest: seq<byte>, name: string)

  /** The bytes heard after one query: noise around the answer, if the slave of that address is there. */
  datatype Window = Window(before: seq<byte>, reply: Option<Reply>, after: seq<byte>)

  predicate Clear(w: Window) {
    HEAD1 !in w.before && HEAD1 !in w.after && (w.reply.Some? ==> |w.reply.value.rest| <= 241)
  }

  function SearchAnswer(addr: byte, r: Reply): (m: Message)
    ensures |r.rest| <= 241 ==> Sendable(m)
  {
    Message(addr, 0x81, [0xFF, 0x00, r.reserved, r.kind] + r.rest)
  }

  function Heard(addr: byte, w: Window): seq<byte>
    requires Clear(w)
  {
    match w.reply
    case Some(r) => w.before + (Frame(SearchAnswer(addr, r)) + w.after)
    case None => w.before + w.after
  }

  /** The device the thread should conclude is there. */
  function Concluded(addr: byte, w: Window): Option<Device> {
    match w.reply
    case Some(r) => Some(SlaveScan.Device(addr, r.kind, r.name))
    case None => None
  }

  lemma {:induction false} AnswerTells(a: Answer, addr: byte, r: Reply)
    requires |r.rest| <= 241
    ensures Told(a, Frame(SearchAnswer(addr, r))) == Answer(true, addr, r.kind)
  {
    hide Frame, Told;
    FrameTells(a, SearchAnswer(addr, r));
  }

  /** Among noise the answer is heard, and nothing else is. */
  lemma {:induction false} WindowIsHeard(a: Answer, addr: byte, w: Window)
    requires Clear(w) && !a.ack
    ensures HeldAfter([], Heard(addr, w)) == []
    ensures var frames := Accepted([], Heard(addr, w));
            && Telling(frames) && ToldAll(a, frames).ack == w.reply.Some?
            && (w.reply.Some? ==> ToldAll(a, frames).addr == addr && ToldAll(a, frames).kind == w.reply.value.kind)
  {
    hide Frame, SearchAnswer, Told, HeldAfter, Accepted, Acceptable;
    NoiseIsSkipped(w.before);
    NoiseIsSkipped(w.after);
    match w.reply {
      case Some(r) =>
        var f := Frame(SearchAnswer(addr, r));
        DecodeBuilt(SearchAnswer(addr, r));
        NoisyFrame(w.before, f, w.after);
        AnswerTells(a, addr, r);
        assert Accepted([], Heard(addr, w)) == [] + [f];
        ToldOneMore(a, [], f);
      case None =>
        StreamsJoin([], w.before, w.after);
    }
  }

  /** What the sweep should conclude, address by address. */
  function Conclusions(ws: seq<Window>): (rs: seq<Option<Device>>)
    requires |ws| <= SlaveScan.SLAVE_MAX_NUM
    ensures |rs| == |ws|
  {
    if ws == [] then [] else Conclusions(ws[..|ws| - 1]) + [Concluded(|ws| - 1, ws[|ws| - 1])]
  }

  /** The bus after the queries of the first `n` addresses, each sent once, in ascending order. */
  function WithQueries(wire: seq<byte>, n: nat): seq<byte>
    requires n <= SlaveScan.SLAVE_MAX_NUM
  {
    if n == 0 then wire else WithQueries(wire, n - 1) + Frame(SearchQuery(n - 1))
  }

  /** So the k-th of these queries is the one for address k. */
  lemma {:induction false} QueriesInOrder(wire: seq<byte>, n: nat, k: nat, j: nat)
    requires k < n <= 16 && j < 13
    ensures var sent := WithQueries(wire, n);
            && |sent| == |wire| + 13 * n && wire <= sent
            && |Frame(SearchQuery(k))| == 13 && sent[|wire| + 13 * k + j] == Frame(SearchQuery(k))[j]
  {
    hide *;
    QueriesBefore(wire, n);
    QueriesBefore(wire, n - 1);
    QueryLength(k);
    QueryLength(n - 1);
    var before, last := WithQueries(wire, n - 1), Frame(SearchQuery(n - 1));
    OneMoreQueryOut(wire, n - 1);
    if k == n - 1 {
      LaterIn(before, last, j);
    } else {
      QueriesInOrder(wire, n - 1, k, j);
      EarlierIn(before, last, |wire| + 13 * k + j);
    }
  }

  lemma {:induction false} LaterIn(a: seq<byte>, b: seq<byte>, j: nat)
    requires j < |b|
    ensures (a + b)[|a| + j] == b[j]
  {}

  lemma {:induction false} EarlierIn(a: seq<byte>, b: seq<byte>, i: nat)
    requires i < |a|
    ensures (a + b)[i] == a[i]
  {}

  lemma {:induction false} QueryLength(addr: byte)
    ensures Sendable(SearchQuery(addr)) && |Frame(SearchQuery(addr))| == 13
  {
    hide Crc;
  }

  lemma {:induction false} QueriesBefore(wire: seq<byte>, n: nat)
    requires n <= 16
    ensures SlaveScan.SLAVE_MAX_NUM == 16 && |WithQueries(wire, n)| == |wire| + 13 * n && wire <= WithQueries(wire, n)
  {
    hide Frame;
    if n > 0 {
      QueriesBefore(wire, n - 1);
      QueryLength(n - 1);
    }
  }

  /** The device the thread stores after an answer it has not looked at yet. */
  function Taken(a: Answer, name: string): Option<Device> {
    if a.ack then Some(SlaveScan.Device(a.addr, a.kind, name)) else None
  }

  /** The last answer told once `heard` has been heard. */
  ghost function LastTold(port: SlavePort, heard: seq<byte>): Answer
    requires port.Valid()
    reads port, port.buf_rev
  {
    HearAll(port.Ear(), heard).heard
  }

  lemma {:induction false} WindowIsConcluded(l: Listener, addr: byte, w: Window, name: string)
    requires Listening(l) && l.held == [] && Clear(w) && !l.heard.ack && (w.reply.Some? ==> name == w.reply.value.name)
    ensures HeldAfter([], Heard(addr, w)) == []
    ensures Taken(HearAll(l, Heard(addr, w)).heard, name) == Concluded(addr, w)
  {
    hide Heard, ToldAll, Accepted, HeldAfter, Telling, HearAll, Listening;
    WindowIsHeard(l.heard, addr, w);
    HearingIsParsing(l, Heard(addr, w));
  }

  /** The control thread with its port. */
  class Bus {
    const port: SlavePort
    const scan: SlaveScan.Discovery

    ghost predicate Valid()
      reads this, port, port.buf_rev, scan, scan.psm, scan.flash, scan.own
    {
      port.Valid() && scan.Valid()
    }

    constructor (timer: u16)
      ensures Valid() && fresh(port) && fresh(port.buf_rev)
      ensures fresh(scan) && fresh(scan.psm) && fresh(scan.flash) && fresh(scan.own)
      ensures port.Held() == [] && port.wire == [] && !port.Heard().ack
      ensures scan.State() == SlaveScan.START && !scan.slave_ok && !scan.query_slave_finish_flag
    {
      port := new SlavePort();
      scan := new SlaveScan.Discovery(timer);
    }

    /**
      A query, any bytes heard before the thread looks again, late or several answers among them, and what the thread makes
      of the last answer told; `name` is the name that goes with it.
      */
    method QueryOne(heard: seq<byte>, name: string)
      requires Valid() && !scan.slave_ok && !scan.query_slave_finish_flag
      requires scan.HasPlace(Taken(LastTold(port, heard), name))
      modifies port, port.buf_rev, scan, scan.psm, scan.flash, scan.own
      ensures Valid() && port.Held() == HeldAfter(old(port.Held()), heard) && !port.Heard().ack
      ensures port.wire == old(port.wire) + Frame(SearchQuery(old(scan.query_slave_cnt)))
      ensures scan.State() == SlaveScan.Query(old(scan.State()), Taken(old(LastTold(port, heard)), name))
    {
      hide Frame, HeldAfter, Accepted, HearAll, SlaveScan.Query;
      port.SearchSlaveDriverId(scan.query_slave_cnt);
      port.Receive(heard);
      var reply: Option<Device> := None;
      if port.slave_device_have_ack_flag {
        port.slave_device_have_ack_flag := false;
        reply := Some(SlaveScan.Device(port.slave_addr, port.device_type, name));
      }
      scan.QueryNext(reply);
    }

    /** The query of `addr` with noise around the answer, if it comes. */
    method QueryWindow(addr: byte, w: Window)
      requires Valid() && !scan.slave_ok && !scan.query_slave_finish_flag && scan.query_slave_cnt == addr
      requires Clear(w) && port.Held() == [] && !port.Heard().ack && scan.slave_device_max < SlaveScan.SLAVE_MAX_NUM
      modifies port, port.buf_rev, scan, scan.psm, scan.flash, scan.own
      ensures Valid() && port.Held() == [] && !port.Heard().ack
      ensures port.wire == old(port.wire) + Frame(SearchQuery(addr))
      ensures scan.State() == SlaveScan.Query(old(scan.State()), Concluded(addr, w))
    {
      var name := match w.reply case Some(r) => r.name case None => "";
      WindowIsConcluded(port.Ear(), addr, w, name);
      hide Frame, HeldAfter, HearAll, Heard, Concluded, Taken, SlaveScan.Query;
      QueryOne(Heard(addr, w), name);
    }

    /** A sweep over all sixteen addresses. */
    method Sweep(ws: seq<Window>)
      requires Valid() && |ws| == SlaveScan.SLAVE_MAX_NUM && forall w <- ws :: Clear(w)
      requires SweepStart(scan.State()) && port.Held() == [] && !port.Heard().ack
      modifies port, port.buf_rev, scan, scan.psm, scan.flash, scan.own
      ensures Valid() && port.Held() == [] && !port.Heard().ack
      ensures port.wire == WithQueries(old(port.wire), SlaveScan.SLAVE_MAX_NUM)
      ensures scan.State() == SlaveScan.Queries(old(scan.State()), Conclusions(ws))
      ensures scan.slave_ok <==> exists w <- ws :: w.reply.Some?
      ensures scan.slave_ok ==> scan.own[..scan.slave_device_max] == DeviceList(ws)
    {
      ghost var s, wire := scan.State(), port.wire;
      SweepBegins(s, ws, wire);
      hide SlaveScan.Query, SlaveScan.Queries, Conclusions, WithQueries, DeviceList, Clear;
      var k := 0;
      while k < SlaveScan.SLAVE_MAX_NUM
        invariant 0 <= k <= SlaveScan.SLAVE_MAX_NUM && Halfway(s, ws, wire, k)
      {
        SweepAddress(s, ws, wire, k);
        k := k + 1;
      }
      assert ws[..k] == ws;
      SweepEnds(s, ws);
    }

    /** The sweep `ws` from `s` on has come to address `k`. */
    ghost predicate Halfway(s: SlaveScan.Scan, ws: seq<Window>, wire: seq<byte>, k: nat)
      requires k <= |ws| == SlaveScan.SLAVE_MAX_NUM
      reads this, port, port.buf_rev, scan, scan.psm, scan.flash, scan.own
    {
      && Valid() && port.Held() == [] && !port.Heard().ack && port.wire == WithQueries(wire, k)
      && scan.State() == SlaveScan.Queries(s, Conclusions(ws[..k]))
    }

    method SweepAddress(ghost s: SlaveScan.Scan, ws: seq<Window>, ghost wire: seq<byte>, k: nat)
      requires k < |ws| == SlaveScan.SLAVE_MAX_NUM && SweepStart(s) && Halfway(s, ws, wire, k) && Clear(ws[k])
      modifies port, port.buf_rev, scan, scan.psm, scan.flash, scan.own
      ensures Halfway(s, ws, wire, k + 1)
    {
      hide SlaveScan.Query, SlaveScan.Queries, Conclusions, WithQueries, Frame, Clear;
      SweepGoesOn(s, ws, wire, k);
      QueryWindow(k, ws[k]);
    }
  }

  predicate SweepStart(s: SlaveScan.Scan) {
    s.outcome == SlaveScan.Searching && s.next == 0 && s.found == [] && !s.saved
  }

  lemma {:induction false} SweepBegins(s: SlaveScan.Scan, ws: seq<Window>, wire: seq<byte>)
    ensures SlaveScan.Queries(s, Conclusions(ws[..0])) == s && WithQueries(wire, 0) == wire
  {}

  lemma {:induction false} OneMoreConclusion(ws: seq<Window>, k: nat)
    requires k < |ws| == SlaveScan.SLAVE_MAX_NUM
    ensures Conclusions(ws[..k + 1]) == Conclusions(ws[..k]) + [Concluded(k, ws[k])]
  {
    hide Concluded;
    assert ws[..k + 1][..k] == ws[..k];
  }

  lemma {:induction false} OneMoreQueryOut(wire: seq<byte>, k: nat)
    requires k < SlaveScan.SLAVE_MAX_NUM
    ensures WithQueries(wire, k + 1) == WithQueries(wire, k) + Frame(SearchQuery(k))
  {
    hide Frame;
  }

  lemma {:induction false} SearchingOn(s: SlaveScan.Scan, before: seq<Option<Device>>)
    requires SweepStart(s) && |before| < SlaveScan.SLAVE_MAX_NUM
    ensures var t := SlaveScan.Queries(s, before);
            t.outcome == SlaveScan.Searching && t.next == |before| && |t.found| <= |before|
  {
    hide SlaveScan.Queries;
    SlaveScan.InsideSweep(s, before);
    SlaveScan.AnswersAtMost(before);
  }

  lemma {:induction false} SweepGoesOn(s: SlaveScan.Scan, ws: seq<Window>, wire: seq<byte>, k: nat)
    requires SweepStart(s) && k < |ws| == SlaveScan.SLAVE_MAX_NUM
    ensures var t := SlaveScan.Queries(s, Conclusions(ws[..k]));
            && t.outcome == SlaveScan.Searching && t.next == k && |t.found| <= k
            && SlaveScan.Queries(s, Conclusions(ws[..k + 1])) == SlaveScan.Query(t, Concluded(k, ws[k]))
    ensures WithQueries(wire, k + 1) == WithQueries(wire, k) + Frame(SearchQuery(k))
  {
    var addr: byte := k;
    hide *;
    OneMoreQueryOut(wire, k);
    OneMoreConclusion(ws, k);
    SearchingOn(s, Conclusions(ws[..k]));
    SlaveScan.OneReplyMore(s, Conclusions(ws[..k]), Concluded(addr, ws[k]));
  }

  lemma {:induction false} SweepEnds(s: SlaveScan.Scan, ws: seq<Window>)
    requires SweepStart(s) && |ws| == SlaveScan.SLAVE_MAX_NUM
    ensures var t := SlaveScan.Queries(s, Conclusions(ws));
            && (t.outcome.Finished? <==> exists w <- ws :: w.reply.Some?)
            && (t.outcome.Finished? ==> t.outcome.devices == DeviceList(ws))
  {
    SlaveScan.SweepOutcome(s, Conclusions(ws));
    assert [] + SlaveScan.Answers(Conclusions(ws)) == SlaveScan.Answers(Conclusions(ws));
    AnsweredIsHeard(ws);
  }

  // ----- The list

  /** The answering slaves of a known type, in order of address. */
  function DeviceList(ws: seq<Window>): seq<Device>
    requires |ws| <= SlaveScan.SLAVE_MAX_NUM
  {
    SlaveScan.Known(SlaveScan.Answers(Conclusions(ws)))
  }

  lemma {:induction false} LastWindow(ws: seq<Window>, last: Option<Device>)
    requires 0 < |ws| <= SlaveScan.SLAVE_MAX_NUM && last == Concluded(|ws| - 1, ws[|ws| - 1])
    ensures SlaveScan.Answers(Conclusions(ws))
            == SlaveScan.Answers(Conclusions(ws[..|ws| - 1])) + (if last.Some? then [last.value] else [])
    ensures DeviceList(ws)
            == DeviceList(ws[..|ws| - 1]) + (if last.Some? && last.value.kind != SlaveScan.DAT_SLAVE_TYPE
                                             then [last.value] else [])
  {
    var before := Conclusions(ws[..|ws| - 1]);
    assert Conclusions(ws) == before + [last];
    SlaveScan.OneMoreAnswer(before, last);
    SlaveScan.OneMoreKnown(before, last);
  }

  lemma {:induction false} AnsweredIsHeard(ws: seq<Window>)
    requires |ws| <= SlaveScan.SLAVE_MAX_NUM
    ensures SlaveScan.Answers(Conclusions(ws)) != [] <==> exists w <- ws :: w.reply.Some?
  {
    if ws != [] {
      var n := |ws| - 1;
      AnsweredIsHeard(ws[..n]);
      var addr: byte := n;
      LastWindow(ws, Concluded(addr, ws[n]));
      assert Concluded(addr, ws[n]).Some? == ws[n].reply.Some?;
      hide *;
      HeardMoreWindows(ws, n);
    }
  }

  lemma {:induction false} HeardMoreWindows(ws: seq<Window>, n: nat)
    requires n + 1 == |ws|
    ensures (exists w <- ws :: w.reply.Some?) <==> (exists w <- ws[..n] :: w.reply.Some?) || ws[n].reply.Some?
  {
    assert ws == ws[..n] + [ws[n]];
  }

  predicate InList(ws: seq<Window>, d: Device) {
    d.addr < |ws| && Concluded(d.addr, ws[d.addr]) == Some(d) && d.kind != 255
  }

  lemma {:induction false} InListMore(ws: seq<Window>, n: nat, last: Option<Device>, d: Device)
    requires n + 1 == |ws| <= SlaveScan.SLAVE_MAX_NUM && last == Concluded(n, ws[n])
    ensures InList(ws, d)
            <==> InList(ws[..n], d) || (last == Some(d) && d.kind != SlaveScan.DAT_SLAVE_TYPE)
  {
    assert d.addr < n ==> ws[..n][d.addr] == ws[d.addr];
  }

  /** The list holds exactly the answering slaves whose type is not the default. */
  lemma {:induction false} DeviceListIsExact(ws: seq<Window>, d: Device)
    requires |ws| <= SlaveScan.SLAVE_MAX_NUM
    ensures d in DeviceList(ws) <==> InList(ws, d)
  {
    if ws != [] {
      var n := |ws| - 1;
      var last := Concluded(n, ws[n]);
      DeviceListIsExact(ws[..n], d);
      LastWindow(ws, last);
      InListMore(ws, n, last, d);
      hide *;
    }
  }

  /** They stand by ascending address, so each once. */
  lemma {:induction false} DeviceListAscends(ws: seq<Window>, i: nat, j: nat)
    requires |ws| <= SlaveScan.SLAVE_MAX_NUM && i < j < |DeviceList(ws)|
    ensures DeviceList(ws)[i].addr < DeviceList(ws)[j].addr
  {
    var n := |ws| - 1;
    LastWindow(ws, Concluded(n, ws[n]));
    hide DeviceList;
    var before := DeviceList(ws[..n]);
    if j < |before| {
      DeviceListAscends(ws[..n], i, j);
    } else {
      DeviceListIsExact(ws[..n], before[i]);
    }
  }
}
