/**
  Sentence collection and date extraction of app/gps_control.c: a byte-at-a-time collector
  that restarts at every '$', and the reading of an RMC sentence's UTC time and date.
  */
module GpsSentences {
  import opened Bytes
  import opened Options
  import GpsClock

  const GPS_RX_LEN: nat := 512
  const DOLLAR: byte := 0x24
  const COMMA: byte := 0x2C
  const NEWLINE: byte := 0x0A
  const M: byte := 0x4D
  const C: byte := 0x43

  function Zeros(n: nat): (z: seq<byte>)
    ensures |z| == n && forall i | 0 <= i < n :: z[i] == 0
  {
    seq(n, _ => 0)
  }

  // ----- The collector

  datatype Collector = Collector(rx: seq<byte>, cnt: nat, tar: seq<byte>, ok: bool)

  predicate InRange(c: Collector) {
    |c.rx| == |c.tar| == GPS_RX_LEN && c.cnt < GPS_RX_LEN
  }

  predicate HoldsRmc(rx: seq<byte>)
    requires |rx| == GPS_RX_LEN
  {
    rx[0] == DOLLAR && rx[4] == M && rx[5] == C
  }

  function Take(c: Collector, b: byte): (c': Collector)
    requires InRange(c)
    ensures InRange(c')
  {
    var at := if b == DOLLAR then 0 else c.cnt;
    var rx := c.rx[at := b];
    if HoldsRmc(rx) && b == NEWLINE then
      Collector(Zeros(GPS_RX_LEN), 0, rx[..at + 1] + Zeros(GPS_RX_LEN - at - 1), true)
    else
      Collector(rx, if at + 1 >= GPS_RX_LEN then 0 else at + 1, c.tar, c.ok)
  }

  function TakeAll(c: Collector, bytes: seq<byte>): (c': Collector)
    requires InRange(c)
    ensures InRange(c')
    decreases |bytes|
  {
    if bytes == [] then c else Take(TakeAll(c, bytes[..|bytes| - 1]), bytes[|bytes| - 1])
  }

  /** One leading '$', 'MC' at positions 4 and 5, one final newline. */
  predicate RmcSentence(s: seq<byte>) {
    && |s| >= 7 && s[0] == 0x24 && s[4] == 0x4D && s[5] == 0x43 && s[|s| - 1] == 0x0A
    && 0x24 !in s[1..] && 0x0A !in s[..|s| - 1]
  }

  lemma {:induction false} TakeOne(c: Collector, s: seq<byte>, k: nat)
    requires InRange(c) && k < |s|
    ensures TakeAll(c, s[..k + 1]) == Take(TakeAll(c, s[..k]), s[k])
  {
    assert s[..k + 1][..k] == s[..k];
  }

  lemma {:induction false} SentenceBytes(s: seq<byte>, k: nat)
    requires RmcSentence(s) && k < |s|
    ensures s[k] == DOLLAR <==> k == 0
    ensures s[k] == NEWLINE <==> k == |s| - 1
  {
    assert k > 0 ==> s[k] == s[1..][k - 1];
    assert k < |s| - 1 ==> s[k] == s[..|s| - 1][k];
  }

  lemma {:induction false} ByteFillsFront(d: Collector, b: byte, front: seq<byte>)
    requires InRange(d) && |front| < GPS_RX_LEN && d.rx[..|front|] == front && b != NEWLINE
    requires if b == DOLLAR then front == [] else d.cnt == |front|
    ensures var e := Take(d, b);
            && e.rx[..|front| + 1] == front + [b] && e.cnt == (if |front| + 1 == GPS_RX_LEN then 0 else |front| + 1)
            && e.tar == d.tar && e.ok == d.ok
  {
    hide HoldsRmc, Zeros;
    var k := |front|;
    assert d.rx[k := b][..k + 1] == d.rx[..k] + [b];
  }

  lemma {:induction false} SentenceFillsFront(c: Collector, s: seq<byte>, k: nat)
    requires InRange(c) && RmcSentence(s) && 0 < k < |s| && k <= GPS_RX_LEN
    ensures var d := TakeAll(c, s[..k]);
            d.rx[..k] == s[..k] && d.cnt == (if k == GPS_RX_LEN then 0 else k) && d.tar == c.tar && d.ok == c.ok
  {
    hide Take, Zeros;
    TakeOne(c, s, k - 1);
    SentenceBytes(s, k - 1);
    if k > 1 {
      SentenceFillsFront(c, s, k - 1);
    } else {
      assert s[..0] == [];
    }
    hide TakeAll, RmcSentence;
    ByteFillsFront(TakeAll(c, s[..k - 1]), s[k - 1], s[..k - 1]);
    assert s[..k] == s[..k - 1] + [s[k - 1]];
  }

  lemma {:induction false} LostStaysLost(d: Collector, b: byte)
    requires InRange(d) && b != DOLLAR && (d.rx[0] != DOLLAR || d.cnt == 0)
    ensures Take(d, b).rx[0] != DOLLAR && Take(d, b).tar == d.tar && Take(d, b).ok == d.ok
  {
    hide Zeros;
  }

  /** Once the buffer has overflowed, the rest of the sentence is never taken for one. */
  lemma {:induction false} OverlongIsLost(c: Collector, s: seq<byte>, k: nat)
    requires InRange(c) && RmcSentence(s) && GPS_RX_LEN < k <= |s|
    ensures var d := TakeAll(c, s[..k]);
            d.rx[0] != DOLLAR && d.tar == c.tar && d.ok == c.ok
  {
    hide Take, TakeAll, RmcSentence;
    TakeOne(c, s, k - 1);
    SentenceBytes(s, k - 1);
    if k == GPS_RX_LEN + 1 {
      SentenceFillsFront(c, s, GPS_RX_LEN);
    } else {
      OverlongIsLost(c, s, k - 1);
    }
    LostStaysLost(TakeAll(c, s[..k - 1]), s[k - 1]);
  }

  /**
    After any byte history an RMC sentence is delivered byte for byte if it fits the
    buffer, and leaves the last delivery untouched if it does not.
    */
  lemma {:induction false} SentenceDelivered(c: Collector, s: seq<byte>)
    requires InRange(c) && RmcSentence(s)
    ensures var d := TakeAll(c, s);
            if |s| <= 512 then
              d == Collector(Zeros(512), 0, s + Zeros(512 - |s|), true)
            else d.tar == c.tar && d.ok == c.ok
  {
    var n := |s| - 1;
    assert s[..n + 1] == s;
    if |s| <= GPS_RX_LEN {
      SentenceFillsFront(c, s, n);
      TakeOne(c, s, n);
      SentenceBytes(s, n);
      var d := TakeAll(c, s[..n]);
      LastByteDelivers(d, s);
    } else {
      OverlongIsLost(c, s, |s|);
    }
  }

  lemma {:induction false} LastByteDelivers(d: Collector, s: seq<byte>)
    requires InRange(d) && RmcSentence(s) && |s| <= GPS_RX_LEN
    requires d.cnt == |s| - 1 && d.rx[..|s| - 1] == s[..|s| - 1]
    ensures Take(d, NEWLINE) == Collector(Zeros(GPS_RX_LEN), 0, s + Zeros(GPS_RX_LEN - |s|), true)
  {
    var n := |s| - 1;
    var rx := d.rx[n := NEWLINE];
    assert forall i | 0 <= i < n :: rx[i] == d.rx[..n][i] == s[..n][i];
    assert rx[..n + 1] == s;
  }

  lemma {:induction false} HistoriesJoin(c: Collector, a: seq<byte>, b: seq<byte>)
    requires InRange(c)
    ensures TakeAll(c, a + b) == TakeAll(TakeAll(c, a), b)
  {
    if b == [] {
      assert a + b == a;
    } else {
      HistoriesJoin(c, a, b[..|b| - 1]);
      assert (a + b)[..|a + b| - 1] == a + b[..|b| - 1];
    }
  }

  lemma {:induction false} DeliveredAfterAnyHistory(c: Collector, history: seq<byte>, s: seq<byte>)
    requires InRange(c) && RmcSentence(s) && |s| <= 512
    ensures TakeAll(c, history + s).tar == s + Zeros(512 - |s|) && TakeAll(c, history + s).ok
  {
    HistoriesJoin(c, history, s);
    SentenceDelivered(TakeAll(c, history), s);
  }

  // ----- What is delivered

  const START := Collector(Zeros(GPS_RX_LEN), 0, Zeros(GPS_RX_LEN), false)

  /** Where a byte is stored. */
  function StoredAt(c: Collector, b: byte): nat {
    if b == DOLLAR then 0 else c.cnt
  }

  /** The text a newline delivers, if it delivers one. */
  function Delivery(c: Collector, b: byte): (text: Option<seq<byte>>)
    requires InRange(c)
  {
    var rx := c.rx[StoredAt(c, b) := b];
    if HoldsRmc(rx) && b == NEWLINE then Some(rx[..StoredAt(c, b) + 1]) else None
  }

  lemma {:induction false} DeliveryIsTaken(c: Collector, b: byte)
    requires InRange(c) && Delivery(c, b).Some?
    ensures var text := Delivery(c, b).value;
            |text| <= 512 && Take(c, b).ok && Take(c, b).tar == text + Zeros(512 - |text|)
  {}

  /** Behind a leading '$' stand only bytes read since, and no newline that would have delivered them. */
  predicate Tracked(c: Collector) {
    InRange(c) && (c.rx[0] == DOLLAR ==>
      && (forall j | 1 <= j < c.cnt :: c.rx[j] != DOLLAR)
      && (HoldsRmc(c.rx) ==> forall j | 6 <= j < c.cnt :: c.rx[j] != NEWLINE))
  }

  lemma {:induction false} TakeTracks(c: Collector, b: byte)
    requires Tracked(c)
    ensures Tracked(Take(c, b))
  {
    hide Zeros;
  }

  lemma {:induction false} RunsTrack(bytes: seq<byte>)
    ensures Tracked(TakeAll(START, bytes))
    decreases |bytes|
  {
    if bytes != [] {
      RunsTrack(bytes[..|bytes| - 1]);
      TakeTracks(TakeAll(START, bytes[..|bytes| - 1]), bytes[|bytes| - 1]);
    }
  }

  /**
    After any history a delivery is an RMC sentence if and only if it has at least seven bytes, so that 'MC' was read since
    the '$', and no newline among the three before 'MC'.
    */
  lemma {:induction false} DeliveryIsSentenceExactly(history: seq<byte>, b: byte)
    requires Delivery(TakeAll(START, history), b).Some?
    ensures var text := Delivery(TakeAll(START, history), b).value;
            RmcSentence(text) <==> |text| >= 7 && 0x0A !in text[1..4]
  {
    var c := TakeAll(START, history);
    RunsTrack(history);
    hide TakeAll;
    var text, n := Delivery(c, b).value, c.cnt;
    assert text[0] == DOLLAR && n > 0 && |text| == n + 1;
    if |text| >= 7 {
      SevenBytes(c, text);
    }
  }

  lemma {:induction false} SevenBytes(c: Collector, text: seq<byte>)
    requires Tracked(c) && 6 <= c.cnt && HoldsRmc(c.rx[c.cnt := NEWLINE]) && text == c.rx[c.cnt := NEWLINE][..c.cnt + 1]
    ensures RmcSentence(text) <==> NEWLINE !in text[1..4]
  {
    var n := c.cnt;
    assert forall k | 0 <= k < n :: text[k] == c.rx[k];
    assert forall k | 1 <= k <= n :: text[1..][k - 1] == text[k];
    assert forall k | 1 <= k < 4 :: text[1..4][k - 1] == text[k];
    assert forall k | 0 <= k < n :: text[..n][k] == text[k];
    assert DOLLAR !in text[1..];
    if NEWLINE in text[..n] {
      var k :| 0 <= k < n && text[k] == NEWLINE;
      assert 1 <= k < 4;
      assert text[1..4][k - 1] == NEWLINE;
    }
    if NEWLINE in text[1..4] {
      var k :| 1 <= k < 4 && text[k] == NEWLINE;
      assert text[..n][k] == NEWLINE;
    }
  }

  /** A sentence cut short by another '$' leaves 'MC' behind, and a newline then delivers two bytes. */
  lemma {:induction false} StaleDelivery()
    ensures Delivery(TakeAll(START, [0x24, 0x47, 0x50, 0x52, 0x4D, 0x43, 0x24]), 0x0A) == Some([0x24, 0x0A])
  {
    var s := [DOLLAR, 0x47, 0x50, 0x52, M, C, DOLLAR];
    hide TakeAll;
    TakeOne(START, s, 0);
    TakeOne(START, s, 1);
    TakeOne(START, s, 2);
    TakeOne(START, s, 3);
    TakeOne(START, s, 4);
    TakeOne(START, s, 5);
    TakeOne(START, s, 6);
    NothingTaken(START, s);
    assert s[..7] == s;
    var c := TakeAll(START, s);
    assert c.cnt == 1 && c.rx[0] == DOLLAR && c.rx[4] == M && c.rx[5] == C;
    assert c.rx[1 := NEWLINE][..2] == [DOLLAR, NEWLINE];
  }

  lemma {:induction false} NothingTaken(c: Collector, s: seq<byte>)
    requires InRange(c)
    ensures TakeAll(c, s[..0]) == c
  {}

  class GpsPort {
    const gps_rx_buf: array<byte>
    const tar_value: array<byte>
    var gps_rx_buf_cnt: nat
    var gps_ok: bool

    ghost predicate Valid()
      reads this, gps_rx_buf, tar_value
    {
      gps_rx_buf != tar_value && InRange(State())
    }

    ghost function State(): Collector
      reads this, gps_rx_buf, tar_value
    {
      Collector(gps_rx_buf[..], gps_rx_buf_cnt, tar_value[..], gps_ok)
    }

    constructor ()
      ensures Valid() && State() == START
    {
      gps_rx_buf, tar_value := new byte[GPS_RX_LEN](_ => 0), new byte[GPS_RX_LEN](_ => 0);
      gps_rx_buf_cnt, gps_ok := 0, false;
      new;
      assert gps_rx_buf[..] == Zeros(GPS_RX_LEN) && tar_value[..] == Zeros(GPS_RX_LEN);
    }

    /** `USART3_RxFull_IrqCallback` */
    method RxFull(tmp: byte)
      requires Valid()
      modifies this, gps_rx_buf, tar_value
      ensures Valid() && State() == Take(old(State()), tmp)
    {
      ghost var c := State();
      if tmp == DOLLAR {
        gps_rx_buf_cnt := 0;
      }
      gps_rx_buf[gps_rx_buf_cnt] := tmp;
      gps_rx_buf_cnt := gps_rx_buf_cnt + 1;
      ghost var at := gps_rx_buf_cnt - 1;
      assert gps_rx_buf[..] == c.rx[at := tmp];
      if gps_rx_buf[0] == DOLLAR && gps_rx_buf[4] == M && gps_rx_buf[5] == C {
        if tmp == NEWLINE {
          forall i | 0 <= i < tar_value.Length {
            tar_value[i] := 0;
          }
          forall i | 0 <= i < gps_rx_buf_cnt {
            tar_value[i] := gps_rx_buf[i];
          }
          assert tar_value[..] == c.rx[at := tmp][..at + 1] + Zeros(GPS_RX_LEN - at - 1);
          gps_ok := true;
          gps_rx_buf_cnt := 0;
          forall i | 0 <= i < gps_rx_buf.Length {
            gps_rx_buf[i] := 0;
          }
          assert gps_rx_buf[..] == Zeros(GPS_RX_LEN);
        }
      }
      if gps_rx_buf_cnt >= GPS_RX_LEN {
        gps_rx_buf_cnt := 0;
      }
    }

    method Receive(bytes: seq<byte>)
      requires Valid()
      modifies this, gps_rx_buf, tar_value
      ensures Valid() && State() == TakeAll(old(State()), bytes)
    {
      ghost var c := State();
      var k := 0;
      while k < |bytes|
        invariant 0 <= k <= |bytes| && Valid() && State() == TakeAll(c, bytes[..k])
      {
        TakeOne(c, bytes, k);
        RxFull(bytes[k]);
        k := k + 1;
      }
      assert bytes[..k] == bytes;
    }
  }

  // ----- Fields of a sentence

  function Commas(s: seq<byte>): nat {
    if s == [] then 0 else Commas(s[..|s| - 1]) + (if s[|s| - 1] == 0x2C then 1 else 0)
  }

  /** `r` is the index after the first place where `num` commas have been passed, zero if there is none. */
  predicate AfterComma(num: nat, s: seq<byte>, r: nat) {
    if r == 0 then forall i | 0 < i <= |s| :: Commas(s[..i]) != num
    else r <= |s| && Commas(s[..r]) == num && forall i | 0 < i < r :: Commas(s[..i]) != num
  }

  method GetComma(num: nat, str: seq<byte>) returns (r: nat)
    ensures r <= |str| && AfterComma(num, str, r)
  {
    var i, j := 0, 0;
    while i < |str|
      invariant 0 <= i <= |str| && j == Commas(str[..i])
      invariant forall k | 0 < k <= i :: Commas(str[..k]) != num
    {
      assert str[..i + 1][..i] == str[..i];
      if str[i] == COMMA {
        j := j + 1;
      }
      if j == num {
        return i + 1;
      }
      i := i + 1;
    }
    r := 0;
  }

  lemma {:induction false} CommasJoin(a: seq<byte>, b: seq<byte>)
    ensures Commas(a + b) == Commas(a) + Commas(b)
  {
    if b == [] {
      assert a + b == a;
    } else {
      CommasJoin(a, b[..|b| - 1]);
      assert (a + b)[..|a + b| - 1] == a + b[..|b| - 1];
    }
  }

  lemma {:induction false} CommaPassed(num: nat, s: seq<byte>, r: nat)
    requires 0 < r <= |s| && s[r - 1] == COMMA && Commas(s[..r]) == num
    ensures AfterComma(num, s, r)
  {
    forall i | 0 < i < r ensures Commas(s[..i]) != num {
      assert s[..r] == s[..i] + s[i..r];
      CommasJoin(s[..i], s[i..r]);
      assert s[i..r][|s[i..r]| - 1] == COMMA;
    }
  }

  lemma {:induction false} AfterCommaIsUnique(num: nat, s: seq<byte>, r: nat, q: nat)
    requires r <= |s| && q <= |s| && AfterComma(num, s, r) && AfterComma(num, s, q)
    ensures r == q
  {}

  // ----- Time and date

  const ZERO: byte := 0x30

  /** A character of the delivery buffer, which is zero after its text. */
  function At(text: seq<byte>, i: nat): byte {
    if i < |text| then text[i] else 0
  }

  function TwoDigits(text: seq<byte>, i: nat): int {
    (At(text, i) as int - ZERO as int) * 10 + (At(text, i + 1) as int - ZERO as int)
  }

  function TimeAt(text: seq<byte>, date: nat): GpsClock.Time {
    GpsClock.Time(TwoDigits(text, date + 4) + 2000, TwoDigits(text, date + 2), TwoDigits(text, date),
                  TwoDigits(text, 7), TwoDigits(text, 9), TwoDigits(text, 11))
  }

  /** The time and date part of `gps_parse`, up to the correction. */
  method ParseTime(text: seq<byte>) returns (t: GpsClock.Time)
    ensures forall date: nat | date <= |text| && AfterComma(9, text, date) :: t == TimeAt(text, date)
  {
    var hour, minute, second := TwoDigits(text, 7), TwoDigits(text, 9), TwoDigits(text, 11);
    var tmp := GetComma(9, text);
    t := GpsClock.Time(TwoDigits(text, tmp + 4) + 2000, TwoDigits(text, tmp + 2), TwoDigits(text, tmp), hour, minute, second);
    forall date: nat | date <= |text| && AfterComma(9, text, date) ensures date == tmp {
      AfterCommaIsUnique(9, text, date, tmp);
    }
  }

  function Digits(n: nat): (d: seq<byte>)
    requires n < 100
    ensures |d| == 2
  {
    [0x30 + n / 10, 0x30 + n % 10]
  }

  predicate ThisCentury(t: GpsClock.Time) {
    GpsClock.Valid(GpsClock.Gregorian, t) && 2000 <= t.year <= 2099
  }

  function Head(talker: seq<byte>): seq<byte> {
    [0x24] + talker + [0x52, 0x4D, 0x43, 0x2C]
  }

  /** `$ttRMC,hhmmss` middle `ddmmyy` tail; the middle holds the seven fields between time and date. */
  function Rmc(talker: seq<byte>, t: GpsClock.Time, middle: seq<byte>, tail: seq<byte>): seq<byte>
    requires ThisCentury(t)
  {
    Head(talker) + Clock(t) + middle + Date(t) + tail
  }

  function Clock(t: GpsClock.Time): (s: seq<byte>)
    requires ThisCentury(t)
    ensures |s| == 6
  {
    Digits(t.hour) + Digits(t.minute) + Digits(t.second)
  }

  function Date(t: GpsClock.Time): (s: seq<byte>)
    requires ThisCentury(t)
    ensures |s| == 6
  {
    Digits(t.day) + Digits(t.month) + Digits(t.year - 2000)
  }

  lemma {:induction false} DateIsFound(talker: seq<byte>, t: GpsClock.Time, middle: seq<byte>, tail: seq<byte>)
    requires ThisCentury(t) && |talker| == 2 && 0x2C !in talker
    requires middle != [] && middle[|middle| - 1] == 0x2C && Commas(middle) == 8
    ensures AfterComma(9, Rmc(talker, t, middle, tail), 13 + |middle|)
  {
    var text := Rmc(talker, t, middle, tail);
    var r := 13 + |middle|;
    var front := Head(talker) + Clock(t) + middle;
    assert text[..r] == front;
    CommasJoin(Head(talker) + Clock(t), middle);
    CommasJoin(Head(talker), Clock(t));
    HeadHasOneComma(talker);
    NoCommas(Clock(t));
    CommaPassed(9, text, r);
  }

  lemma {:induction false} HeadHasOneComma(talker: seq<byte>)
    requires |talker| == 2 && 0x2C !in talker
    ensures Commas(Head(talker)) == 1
  {
    var s := [0x24] + talker + [0x52, 0x4D, 0x43];
    NoCommas(s);
    CommasJoin(s, [COMMA]);
    assert Head(talker) == s + [COMMA];
    assert Commas([COMMA]) == 1;
  }

  lemma {:induction false} NoCommas(s: seq<byte>)
    requires 0x2C !in s
    ensures Commas(s) == 0
  {
    if s != [] {
      NoCommas(s[..|s| - 1]);
    }
  }

  /** The fields of a sentence written for a time of this century are read back exactly. */
  lemma {:induction false} TimeRoundTrip(talker: seq<byte>, t: GpsClock.Time, middle: seq<byte>, tail: seq<byte>)
    requires ThisCentury(t) && |talker| == 2
    ensures TimeAt(Rmc(talker, t, middle, tail), 13 + |middle|) == t
  {
    var text, r := Rmc(talker, t, middle, tail), 13 + |middle|;
    assert text[7..13] == Clock(t);
    assert text[r..r + 6] == Date(t);
    assert forall i | 0 <= i < 6 :: text[7 + i] == text[7..13][i] && text[r + i] == text[r..r + 6][i];
  }

  /** From a delivered sentence to Beijing time: `gps_parse` with `UTC2BTC`. */
  method BeijingTime(text: seq<byte>) returns (t: GpsClock.Time)
    ensures forall talker: seq<byte>, u, middle, tail
              | ThisCentury(u) && |talker| == 2 && 0x2C !in talker
                && middle != [] && middle[|middle| - 1] == 0x2C && Commas(middle) == 8
                && text == Rmc(talker, u, middle, tail) ::
              t == GpsClock.Beijing(GpsClock.Gregorian, u)
  {
    var utc := ParseTime(text);
    var d := new GpsClock.DateTime(utc);
    d.Utc2Btc();
    t := d.Value();
    forall talker: seq<byte>, u, middle, tail
      | ThisCentury(u) && |talker| == 2 && 0x2C !in talker
        && middle != [] && middle[|middle| - 1] == 0x2C && Commas(middle) == 8
        && text == Rmc(talker, u, middle, tail)
      ensures t == GpsClock.Beijing(GpsClock.Gregorian, u)
    {
      DateIsFound(talker, u, middle, tail);
      TimeRoundTrip(talker, u, middle, tail);
      GpsClock.NoTrapThisCentury(u);
      GpsClock.GregorianExactlyOutsideTrap(u);
    }
  }
}
