/**
  Packet input and output of the MQTT client in app/eth_to_mqtt.c: the Remaining Length
  field of section 2.2.3 of MQTT 3.1.1, packet re-assembly and the send loop.
  */
module MqttPackets {
  import opened Bytes
  import opened MqttTransport
  import opened Options

  newtype int32 = x: int | -0x8000_0000 <= x < 0x8000_0000

  const MAX_REMAINING_LENGTH: nat := 268_435_455
  const BUFFER_OVERFLOW: int := -2
  const FAILURE: int := -1
  const SUCCESS: int := 0

  // ----- The Remaining Length field

  function Encode(n: nat): (e: seq<byte>)
    ensures |e| > 0
  {
    if n < 128 then [n] else [n % 128 + 128] + Encode(n / 128)
  }

  /** The value of a digit, without its continuation bit. */
  function Digit(b: byte): (n: nat)
    ensures n < 128
  {
    b % 128
  }

  function FieldValue(d: seq<byte>): nat {
    if d == [] then 0 else Digit(d[0]) + 128 * FieldValue(d[1..])
  }

  /** At most four bytes, all but the last with the continuation bit. */
  predicate IsField(d: seq<byte>) {
    1 <= |d| <= 4 && d[|d| - 1] < 128 && forall i | 0 <= i < |d| - 1 :: d[i] >= 128
  }

  /** The field a stream starts with: up to the first byte without a continuation bit. */
  function FieldOf(s: seq<byte>): (d: seq<byte>)
    ensures |d| <= |s| && d == s[..|d|]
  {
    if s == [] then [] else if s[0] < 128 then [s[0]] else [s[0]] + FieldOf(s[1..])
  }

  /** `x` times 128 to the power `k`. */
  function Scaled(x: nat, k: nat): nat {
    if k == 0 then x else 128 * Scaled(x, k - 1)
  }

  lemma {:induction false} FieldValueAppend(d: seq<byte>, b: byte)
    ensures FieldValue(d + [b]) == FieldValue(d) + Scaled(Digit(b), |d|)
  {
    if d != [] {
      assert (d + [b])[1..] == d[1..] + [b];
      FieldValueAppend(d[1..], b);
    } else {
      assert (d + [b])[1..] == [];
    }
  }

  lemma {:induction false} FieldValueBound(d: seq<byte>)
    ensures FieldValue(d) < Scaled(1, |d|)
  {
    if d != [] {
      FieldValueBound(d[1..]);
    }
  }

  lemma {:induction false} FieldOfField(d: seq<byte>, rest: seq<byte>)
    requires d != [] && d[|d| - 1] < 128 && forall i | 0 <= i < |d| - 1 :: d[i] >= 128
    ensures FieldOf(d + rest) == d
  {
    if |d| > 1 {
      assert (d + rest)[1..] == d[1..] + rest;
      FieldOfField(d[1..], rest);
    }
  }

  lemma {:induction false} EncodeShape(n: nat, k: nat)
    requires 1 <= k && n < Scaled(1, k)
    ensures |Encode(n)| <= k && FieldValue(Encode(n)) == n
    ensures Encode(n)[|Encode(n)| - 1] < 128 && forall i | 0 <= i < |Encode(n)| - 1 :: Encode(n)[i] >= 128
  {
    if n >= 128 {
      assert k > 1;
      EncodeShape(n / 128, k - 1);
      assert Encode(n)[1..] == Encode(n / 128);
    }
  }

  /** Decoding gives every remaining length of the standard back, whatever follows the field. */
  lemma {:induction false} RemainingLengthRoundTrip(n: nat, rest: seq<byte>)
    requires n <= 268_435_455
    ensures IsField(Encode(n)) && FieldOf(Encode(n) + rest) == Encode(n) && FieldValue(Encode(n)) == n
  {
    assert Scaled(1, 2) == 16384 && Scaled(1, 4) == 268_435_456;
    EncodeShape(n, 4);
    FieldOfField(Encode(n), rest);
  }

  /** The limits of table 2.4 of the standard. */
  lemma {:induction false} LengthTable()
    ensures Encode(0) == [0x00] && Encode(127) == [0x7F]
    ensures Encode(128) == [0x80, 0x01] && Encode(16_383) == [0xFF, 0x7F]
    ensures Encode(16_384) == [0x80, 0x80, 0x01] && Encode(2_097_151) == [0xFF, 0xFF, 0x7F]
    ensures Encode(2_097_152) == [0x80, 0x80, 0x80, 0x01] && Encode(268_435_455) == [0xFF, 0xFF, 0xFF, 0x7F]
  {
    OneDigit(0);
    OneDigit(1);
    OneDigit(127);
    hide Encode;
    MoreDigits(128, 0, 1);
    MoreDigits(16_383, 127, 127);
    MoreDigits(16_384, 0, 128);
    MoreDigits(2_097_151, 127, 16_383);
    MoreDigits(2_097_152, 0, 16_384);
    MoreDigits(268_435_455, 127, 2_097_151);
  }

  lemma {:induction false} OneDigit(n: nat)
    requires n < 128
    ensures Encode(n) == [n]
  {}

  lemma {:induction false} MoreDigits(n: nat, low: nat, high: nat)
    requires n == 128 * high + low && low < 128 && high > 0
    ensures Encode(n) == [low + 128] + Encode(high)
  {}

  /** The encoding is the shortest field of its value. */
  lemma {:induction false} EncodeIsMinimal(d: seq<byte>)
    requires d != []
    ensures |Encode(FieldValue(d))| <= |d|
  {
    FieldValueBound(d);
    EncodeShape(FieldValue(d), |d|);
  }

  /** The first `k` bytes of `w` have been stored. */
  predicate StoredUpTo(buf: seq<byte>, buf0: seq<byte>, at: nat, w: seq<byte>, k: nat) {
    k <= |w| && at + |w| <= |buf0| && buf == Filled(buf0, at, w[..k])
  }

  lemma {:induction false} StoreOne(buf: seq<byte>, buf0: seq<byte>, at: nat, w: seq<byte>, k: nat, d: byte)
    requires StoredUpTo(buf, buf0, at, w, k) && k < |w| && d == w[k]
    ensures at + k < |buf| && StoredUpTo(buf[at + k := d], buf0, at, w, k + 1)
  {}

  /** The digits of `left` are still to come, if any. */
  predicate DigitsLeft(w: seq<byte>, k: nat, left: nat, more: bool) {
    k <= |w| && w[k..] == if more then Encode(left) else []
  }

  lemma {:induction false} NoneLeft(w: seq<byte>, k: nat, left: nat)
    requires DigitsLeft(w, k, left, false)
    ensures k <= |w| && w[k..] == []
  {}

  lemma {:induction false} StoringBegins(buf0: seq<byte>, at: nat, length: nat)
    requires at + |Encode(length)| <= |buf0|
    ensures StoredUpTo(buf0, buf0, at, Encode(length), 0) && DigitsLeft(Encode(length), 0, length, true)
  {
    hide Encode, Filled;
    FillNothing(buf0, at);
    assert Encode(length)[..0] == [] && Encode(length)[0..] == Encode(length);
  }

  lemma {:induction false} StoredSoFar(buf: seq<byte>, buf0: seq<byte>, at: nat, w: seq<byte>, k: nat)
    requires StoredUpTo(buf, buf0, at, w, k)
    ensures k <= |w| && at + |w| <= |buf0| == |buf|
  {
    hide Encode;
  }

  lemma {:induction false} NextDigit(w: seq<byte>, k: nat, left: nat)
    requires DigitsLeft(w, k, left, true)
    ensures k < |w| && w[k] == left % 128 + (if left / 128 > 0 then 128 else 0)
    ensures DigitsLeft(w, k + 1, left / 128, left / 128 > 0)
  {
    assert w[k] == w[k..][0] && w[k..][1..] == w[k + 1..];
  }

  lemma {:induction false} AllStored(buf: seq<byte>, buf0: seq<byte>, at: nat, w: seq<byte>, k: nat)
    requires StoredUpTo(buf, buf0, at, w, k) && w[k..] == []
    ensures k == |w| && buf == Filled(buf0, at, w)
  {
    assert w[..k] == w;
  }

  /** `MQTTPacket_encode` (components/mqtt/MQTTPacket.c), storing from index `at` on; `buf0` is what was in the buffer. */
  method EncodeInto(buf: array<byte>, at: nat, length: nat, ghost buf0: seq<byte>) returns (rc: nat)
    requires at + |Encode(length)| <= buf.Length && buf0 == buf[..]
    modifies buf
    ensures rc == |Encode(length)| && buf[..] == Filled(buf0, at, Encode(length))
  {
    hide *;
    ghost var whole := Encode(length);
    StoringBegins(buf0, at, length);
    rc := 0;
    var left, more := length, true;
    while more
      invariant StoredUpTo(buf[..], buf0, at, whole, rc) && DigitsLeft(whole, rc, left, more)
      decreases left, more
    {
      StoredSoFar(buf[..], buf0, at, whole, rc);
      NextDigit(whole, rc, left);
      var d := left % 128;
      left := left / 128;
      if left > 0 {
        d := d + 128;
      }
      ghost var before := buf[..];
      StoreOne(before, buf0, at, whole, rc, d);
      buf[at + rc] := d;
      assert buf[..] == before[at + rc := d];
      rc := rc + 1;
      more := left > 0;
    }
    NoneLeft(whole, rc, left);
    AllStored(buf[..], buf0, at, whole, rc);
  }

  function Multiplier(k: nat): nat
    requires k <= 4
  {
    if k == 0 then 1 else if k == 1 then 128 else if k == 2 then 16384
    else if k == 3 then 2097152 else 268435456
  }

  /** A digit of weight `k` added to what less weighty ones can sum to. */
  lemma {:induction false} DigitFits(b: byte, k: nat, v: nat)
    requires k < 4 && v < Multiplier(k)
    ensures Scaled(Digit(b), k) == Digit(b) * Multiplier(k)
    ensures v + Scaled(Digit(b), k) < 128 * Multiplier(k) == Multiplier(k + 1) <= 268_435_456
  {
    var x := Digit(b);
    assert Scaled(x, 1) == 128 * x;
    assert Scaled(x, 2) == 16384 * x;
    assert Scaled(x, 3) == 2097152 * x;
  }

  /**
    What `decodePacket` makes of the stream from `at` on: the value summed up, the digits it counted, where the stream and
    the script stand then, and whether it saw the end of the field.
    */
  datatype Decoding = Decoding(value: nat, len: nat, at: nat, next: nat, whole: bool)

  /** The loop with `k` digits read and summed to `v`. */
  function DecodeFrom(stream: seq<byte>, at: nat, script: seq<Poll>, wait: nat, i: nat, k: nat, v: nat): (d: Decoding)
    requires at <= |stream| && k <= 4
    ensures at <= d.at <= |stream| && k < d.len <= 5 && v <= d.value && (d.whole ==> d.at == at + d.len - k)
    decreases 4 - k
  {
    if k == 4 then Decoding(v, 5, at, i, false)
    else
      var t := ReadIn(script, wait, i, 1, |stream| - at);
      if t.rc != 1 then Decoding(v, k + 1, at + t.run, t.next, false)
      else
        var now := v + Scaled(Digit(stream[at]), k);
        if stream[at] < 128 then Decoding(now, k + 1, at + 1, t.next, true)
        else DecodeFrom(stream, at + 1, script, wait, t.next, k + 1, now)
  }

  /** Values stay below 128 to the number of digits, so below 2 to the 28. */
  lemma {:induction false} DecodeStaysSmall(stream: seq<byte>, at: nat, script: seq<Poll>, wait: nat, i: nat, k: nat, v: nat)
    requires at <= |stream| && k <= 4 && v < Multiplier(k)
    ensures DecodeFrom(stream, at, script, wait, i, k, v).value <= MAX_REMAINING_LENGTH
    decreases 4 - k
  {
    hide *;
    MultiplierBound(k);
    DecodeTurn(stream, at, script, wait, i, k, v);
    var t := ReadIn(script, wait, i, 1, |stream| - at);
    if k < 4 && t.rc == 1 {
      DigitFits(stream[at], k, v);
      if stream[at] >= 128 {
        DecodeStaysSmall(stream, at + 1, script, wait, t.next, k + 1, v + Scaled(Digit(stream[at]), k));
      } else {
        MultiplierBound(k + 1);
      }
    }
  }

  lemma {:induction false} MultiplierBound(k: nat)
    requires k <= 4
    ensures Multiplier(k) <= MAX_REMAINING_LENGTH + 1 == 0x1000_0000
  {}

  /** The first `k` bytes from `from` on all announce another one. */
  predicate Continues(stream: seq<byte>, from: nat, k: nat) {
    from + k <= |stream| && forall j | from <= j < from + k :: stream[j] >= 128
  }

  lemma {:induction false} FieldOfContinued(s: seq<byte>, k: nat)
    requires Continues(s, 0, k)
    ensures |FieldOf(s)| >= k
    ensures k < |s| && s[k] < 128 ==> |FieldOf(s)| == k + 1
    ensures k < |s| && s[k] >= 128 ==> |FieldOf(s)| > k
    ensures k == |s| ==> |FieldOf(s)| == k
    ensures |FieldOf(s)| == k || k >= 4 ==> !IsField(FieldOf(s))
  {
    if k > 0 {
      assert forall j | 0 <= j < k - 1 :: s[1..][j] == s[j + 1];
      FieldOfContinued(s[1..], k - 1);
    }
    assert k > 0 ==> FieldOf(s)[k - 1] == s[k - 1];
  }

  /** What a run of the loop has found of the field that starts at `from`. */
  predicate Finds(stream: seq<byte>, from: nat, d: Decoding)
    requires from <= |stream|
  {
    var f := FieldOf(stream[from..]);
    && from <= d.at <= from + |f| && d.value == FieldValue(stream[from..d.at])
    && (d.whole ==> IsField(f) && d.at == from + |f|)
    && (!d.whole ==> d.at < from + |f| || !IsField(f))
  }

  /** Where the loop ends, it has found what it should. */
  lemma {:induction false} EndFinds(stream: seq<byte>, from: nat, at: nat, script: seq<Poll>, wait: nat, i: nat, k: nat, d: Decoding)
    requires k <= 4 && at == from + k && Continues(stream, from, k)
    requires d == DecodeFrom(stream, at, script, wait, i, k, FieldValue(stream[from..at]))
    requires k == 4 || ReadIn(script, wait, i, 1, |stream| - at).rc != 1 || stream[at] < 128
    ensures Finds(stream, from, d)
  {
    DecodeTurn(stream, at, script, wait, i, k, FieldValue(stream[from..at]));
    hide DecodeFrom, ReadIn, Finds, Continues, FieldValue;
    if d.whole {
      DigitFound(stream, from, k);
      EndIsFound(stream, from, k, d);
    } else {
      CutShortIsFound(stream, from, k, d);
    }
  }

  /** A field seen to its end is the field the stream holds; one that is cut short is summed as far as it was read. */
  lemma {:induction false} DecodeFinds(stream: seq<byte>, from: nat, at: nat, script: seq<Poll>, wait: nat, i: nat, k: nat, d: Decoding)
    requires k <= 4 && at == from + k && Continues(stream, from, k)
    requires d == DecodeFrom(stream, at, script, wait, i, k, FieldValue(stream[from..at]))
    ensures Finds(stream, from, d)
    decreases 4 - k
  {
    hide *;
    var t := ReadIn(script, wait, i, 1, |stream| - at);
    if k == 4 || t.rc != 1 || stream[at] < 128 {
      EndFinds(stream, from, at, script, wait, i, k, d);
    } else {
      GoesOn(stream, from, at, script, wait, i, k, d);
      DecodeFinds(stream, from, at + 1, script, wait, t.next, k + 1, d);
    }
  }

  lemma {:induction false} GoesOn(stream: seq<byte>, from: nat, at: nat, script: seq<Poll>, wait: nat, i: nat, k: nat, d: Decoding)
    requires k < 4 && at == from + k && Continues(stream, from, k)
    requires d == DecodeFrom(stream, at, script, wait, i, k, FieldValue(stream[from..at]))
    requires ReadIn(script, wait, i, 1, |stream| - at).rc == 1 && stream[at] >= 128
    ensures Continues(stream, from, k + 1)
    ensures d == DecodeFrom(stream, at + 1, script, wait, ReadIn(script, wait, i, 1, |stream| - at).next, k + 1, FieldValue(stream[from..at + 1]))
  {
    hide *;
    DigitFound(stream, from, k);
    DecodeTurn(stream, at, script, wait, i, k, FieldValue(stream[from..at]));
    ContinuesInside(stream, from, k);
  }

  lemma {:induction false} ContinuesInside(stream: seq<byte>, from: nat, k: nat)
    requires Continues(stream, from, k)
    ensures from + k <= |stream|
    ensures from + k < |stream| && stream[from + k] >= 128 ==> Continues(stream, from, k + 1)
  {}

  /** One turn of the loop. */
  lemma {:induction false} DecodeTurn(stream: seq<byte>, at: nat, script: seq<Poll>, wait: nat, i: nat, k: nat, v: nat)
    requires at <= |stream| && k <= 4
    ensures var t, d := ReadIn(script, wait, i, 1, |stream| - at), DecodeFrom(stream, at, script, wait, i, k, v);
            && (k == 4 ==> d == Decoding(v, 5, at, i, false))
            && (k < 4 && t.rc != 1 ==> t.run == 0 && d == Decoding(v, k + 1, at, t.next, false))
            && (k < 4 && t.rc == 1 ==>
                  at < |stream| &&
                  var now := v + Scaled(Digit(stream[at]), k);
                  && (stream[at] < 128 ==> d == Decoding(now, k + 1, at + 1, t.next, true))
                  && (stream[at] >= 128 ==> d == DecodeFrom(stream, at + 1, script, wait, t.next, k + 1, now)))
  {
    hide *;
    var t := ReadIn(script, wait, i, 1, |stream| - at);
    if k == 4 || t.rc != 1 || stream[at] < 128 {
      LastTurn(stream, at, script, wait, i, k, v);
    } else {
      TurnGoesOn(stream, at, script, wait, i, k, v);
    }
  }

  lemma {:induction false} LastTurn(stream: seq<byte>, at: nat, script: seq<Poll>, wait: nat, i: nat, k: nat, v: nat)
    requires at <= |stream| && k <= 4
    requires k == 4 || ReadIn(script, wait, i, 1, |stream| - at).rc != 1 || stream[at] < 128
    ensures var t, d := ReadIn(script, wait, i, 1, |stream| - at), DecodeFrom(stream, at, script, wait, i, k, v);
            if k == 4 then d == Decoding(v, 5, at, i, false)
            else if t.rc != 1 then d == Decoding(v, k + 1, at + t.run, t.next, false)
            else d == Decoding(v + Scaled(Digit(stream[at]), k), k + 1, at + 1, t.next, true)
  {
    hide ReadIn, Scaled, Digit;
  }

  lemma {:induction false} TurnGoesOn(stream: seq<byte>, at: nat, script: seq<Poll>, wait: nat, i: nat, k: nat, v: nat)
    requires at <= |stream| && k < 4 && ReadIn(script, wait, i, 1, |stream| - at).rc == 1 && stream[at] >= 128
    ensures DecodeFrom(stream, at, script, wait, i, k, v)
            == DecodeFrom(stream, at + 1, script, wait, ReadIn(script, wait, i, 1, |stream| - at).next, k + 1,
                          v + Scaled(Digit(stream[at]), k))
  {
    hide ReadIn, Scaled, Digit;
  }

  lemma {:induction false} CutShortIsFound(stream: seq<byte>, from: nat, k: nat, d: Decoding)
    requires k <= 4 && Continues(stream, from, k)
    requires !d.whole && d.at == from + k && d.value == FieldValue(stream[from..d.at])
    ensures Finds(stream, from, d)
  {
    var s := stream[from..];
    assert forall j | 0 <= j < k :: s[j] == stream[from + j];
    FieldOfContinued(s, k);
    assert k < |s| ==> |FieldOf(s)| > k;
  }

  lemma {:induction false} EndIsFound(stream: seq<byte>, from: nat, k: nat, d: Decoding)
    requires k < 4 && Continues(stream, from, k) && from + k < |stream| && stream[from + k] < 128
    requires d.whole && d.at == from + k + 1 && d.value == FieldValue(stream[from..d.at])
    ensures Finds(stream, from, d)
  {
    DigitFound(stream, from, k);
  }

  lemma {:induction false} DecodeFindsFromStart(stream: seq<byte>, from: nat, script: seq<Poll>, wait: nat, i: nat)
    requires from <= |stream|
    ensures Finds(stream, from, DecodeFrom(stream, from, script, wait, i, 0, 0))
  {
    assert stream[from..from] == [];
    DecodeFinds(stream, from, from, script, wait, i, 0, DecodeFrom(stream, from, script, wait, i, 0, 0));
  }

  lemma {:induction false} DigitFound(stream: seq<byte>, from: nat, k: nat)
    requires k < 4 && Continues(stream, from, k) && from + k < |stream|
    ensures var at := from + k;
            && FieldValue(stream[from..at + 1]) == FieldValue(stream[from..at]) + Scaled(Digit(stream[at]), k)
            && (stream[at] < 128 ==> IsField(FieldOf(stream[from..])) && |FieldOf(stream[from..])| == k + 1)
  {
    var s, at := stream[from..], from + k;
    assert stream[from..at + 1] == stream[from..at] + [stream[at]] && s[k] == stream[at];
    FieldValueAppend(stream[from..at], stream[at]);
    assert forall j | 0 <= j < k :: s[j] == stream[from + j];
    FieldOfContinued(s, k);
  }

  /** With a field ahead and enough progress the end of the field is seen. */
  lemma {:induction false} DecodeReachesEnd(stream: seq<byte>, from: nat, at: nat, script: seq<Poll>, wait: nat, due: nat,
                                            i: nat, k: nat, v: nat)
    requires k < 4 && at == from + k && Continues(stream, from, k) && IsField(FieldOf(stream[from..]))
    requires Outlasts(script, wait, due, i) && |FieldOf(stream[from..])| <= k + Credit(script, due, i)
    ensures var d := DecodeFrom(stream, at, script, wait, i, k, v);
            d.whole && Credit(script, due, d.next) >= Credit(script, due, i) - (|FieldOf(stream[from..])| - k)
    decreases 4 - k
  {
    hide *;
    InsideField(stream, from, k);
    var next := ReadIn(script, wait, i, 1, |stream| - at).next;
    ByteArrives(script, wait, due, i, |stream| - at);
    DecodeTurn(stream, at, script, wait, i, k, v);
    ContinuesInside(stream, from, k);
    if stream[at] >= 128 {
      DecodeReachesEnd(stream, from, at + 1, script, wait, due, next, k + 1, v + Scaled(Digit(stream[at]), k));
    }
  }

  lemma {:induction false} InsideField(stream: seq<byte>, from: nat, k: nat)
    requires k < 4 && Continues(stream, from, k) && IsField(FieldOf(stream[from..]))
    ensures from + k < |stream| && k < |FieldOf(stream[from..])|
    ensures stream[from + k] >= 128 ==> k + 1 < 4 && k + 1 < |FieldOf(stream[from..])|
    ensures stream[from + k] < 128 ==> k + 1 == |FieldOf(stream[from..])|
  {
    var s := stream[from..];
    assert forall j | 0 <= j < k :: s[j] == stream[from + j];
    FieldOfContinued(s, k);
    assert FieldOf(s) == s[..|FieldOf(s)|];
    if stream[from + k] >= 128 {
      assert forall j | 0 <= j < k + 1 :: s[j] == stream[from + j];
      FieldOfContinued(s, k + 1);
    }
  }

  lemma {:induction false} ByteArrives(script: seq<Poll>, wait: nat, due: nat, i: nat, waiting: nat)
    requires 0 < waiting && 0 < Credit(script, due, i) && Outlasts(script, wait, due, i)
    ensures var t := ReadIn(script, wait, i, 1, waiting);
            && t.rc == t.run == 1 && Credit(script, due, t.next) >= Credit(script, due, i) - 1
            && Outlasts(script, wait, due, t.next)
  {
    CreditReads(script, wait, due, i, 1, waiting);
  }

  /** `(i & 127) * multiplier` */
  function Weighted(b: byte, multiplier: nat): nat {
    Digit(b) * multiplier
  }

  /** The loop, with `k` digits summed to `v`, is on its way to `d`. */
  predicate Summing(d: Decoding, stream: seq<byte>, at: nat, script: seq<Poll>, wait: nat, i: nat, k: nat, v: nat) {
    at <= |stream| && k <= 4 && v < Multiplier(k) && d == DecodeFrom(stream, at, script, wait, i, k, v)
  }

  /** A fifth byte is not read. */
  lemma {:induction false} SummingFull(d: Decoding, stream: seq<byte>, at: nat, script: seq<Poll>, wait: nat, i: nat, v: nat)
    requires Summing(d, stream, at, script, wait, i, 4, v)
    ensures d == Decoding(v, 5, at, i, false)
  {}

  /** A read that does not give a byte ends the loop. */
  lemma {:induction false} SummingCut(d: Decoding, stream: seq<byte>, at: nat, script: seq<Poll>, wait: nat, i: nat, k: nat, v: nat,
                                      t: Transfer)
    requires k < 4 && Summing(d, stream, at, script, wait, i, k, v)
    requires t == ReadIn(script, wait, i, 1, |stream| - at) && t.rc != 1
    ensures t.run == 0 && d == Decoding(v, k + 1, at, t.next, false)
  {
    hide DecodeFrom, ReadIn;
    DecodeTurn(stream, at, script, wait, i, k, v);
  }

  /** A byte is added with its weight, and ends the loop if it is the last of its field. */
  lemma {:induction false} SummingDigit(d: Decoding, stream: seq<byte>, at: nat, script: seq<Poll>, wait: nat, i: nat, k: nat, v: nat,
                                        t: Transfer, now: nat)
    requires k < 4 && Summing(d, stream, at, script, wait, i, k, v)
    requires t == ReadIn(script, wait, i, 1, |stream| - at) && t.rc == 1
    requires at < |stream| && now == v + Weighted(stream[at], Multiplier(k))
    ensures t.run == 1 && Multiplier(k + 1) == 128 * Multiplier(k)
    ensures stream[at] < 128 ==> d == Decoding(now, k + 1, at + 1, t.next, true)
    ensures stream[at] >= 128 ==> Summing(d, stream, at + 1, script, wait, t.next, k + 1, now)
  {
    hide DecodeFrom, ReadIn, Scaled, Digit, Multiplier;
    DecodeTurn(stream, at, script, wait, i, k, v);
    DigitFits(stream[at], k, v);
  }

  lemma {:induction false} SummingBegins(stream: seq<byte>, at: nat, script: seq<Poll>, wait: nat, i: nat)
    requires at <= |stream|
    ensures Summing(DecodeFrom(stream, at, script, wait, i, 0, 0), stream, at, script, wait, i, 0, 0) && Multiplier(0) == 1
  {}

  lemma {:induction false} SummingIsBelow(d: Decoding, stream: seq<byte>, at: nat, script: seq<Poll>, wait: nat, i: nat, k: nat, v: nat)
    requires Summing(d, stream, at, script, wait, i, k, v)
    ensures at <= |stream| && v < Multiplier(k)
  {}

  lemma {:induction false} SummingIsSmall(d: Decoding, stream: seq<byte>, at: nat, script: seq<Poll>, wait: nat, i: nat, k: nat, v: nat)
    requires Summing(d, stream, at, script, wait, i, k, v)
    ensures at <= |stream| && d.value <= MAX_REMAINING_LENGTH
  {
    DecodeStaysSmall(stream, at, script, wait, i, k, v);
  }

  /** `decodePacket`: whatever arrives, at most four digits are summed and nothing overflows 32 bits. */
  method DecodePacket(ipstack: Network, wait: nat) returns (value: nat, len: nat, ghost whole: bool)
    requires ipstack.Valid()
    modifies ipstack`taken, ipstack`polls
    ensures ipstack.Valid() && 1 <= len <= 5 && value <= 268_435_455
    ensures Decoding(value, len, ipstack.taken, ipstack.polls, whole)
            == DecodeFrom(ipstack.stream, old(ipstack.taken), ipstack.script, wait, old(ipstack.polls), 0, 0)
  {
    ghost var d := DecodeFrom(ipstack.stream, ipstack.taken, ipstack.script, wait, ipstack.polls, 0, 0);
    SummingBegins(ipstack.stream, ipstack.taken, ipstack.script, wait, ipstack.polls);
    SummingIsSmall(d, ipstack.stream, ipstack.taken, ipstack.script, wait, ipstack.polls, 0, 0);
    value, len, whole := DecodeLoop(ipstack, wait, d);
  }

  /** The loop of `decodePacket`, on its way to `d`. */
  method DecodeLoop(ipstack: Network, wait: nat, ghost d: Decoding) returns (value: nat, len: nat, ghost whole: bool)
    requires ipstack.Valid() && Summing(d, ipstack.stream, ipstack.taken, ipstack.script, wait, ipstack.polls, 0, 0)
    modifies ipstack`taken, ipstack`polls
    ensures ipstack.Valid() && 1 <= len <= 5
    ensures d == Decoding(value, len, ipstack.taken, ipstack.polls, whole)
  {
    hide *;
    var i := new byte[1];
    var multiplier, more := 1, true;
    len, value, whole := 0, 0, false;
    WeightIs(len);
    while more
      invariant ipstack.Valid() && len <= 4 && (more || len > 0)
      invariant more ==> !whole && multiplier == Multiplier(len)
      invariant more ==> Summing(d, ipstack.stream, ipstack.taken, ipstack.script, wait, ipstack.polls, len, value)
      invariant !more ==> d == Decoding(value, len, ipstack.taken, ipstack.polls, whole)
      decreases 4 - len, more
    {
      len := len + 1;
      if len > 4 {
        SummingFull(d, ipstack.stream, ipstack.taken, ipstack.script, wait, ipstack.polls, value);
        break;
      }
      value, multiplier, more, whole := DecodeByte(ipstack, wait, i, value, multiplier, d, len - 1);
    }
  }

  /** One byte read and summed up; `more` if another one follows. */
  method DecodeByte(ipstack: Network, wait: nat, i: array<byte>, value: nat, multiplier: nat, ghost d: Decoding, ghost k: nat)
    returns (v: nat, m: nat, more: bool, ghost whole: bool)
    requires ipstack.Valid() && i.Length == 1 && k < 4 && multiplier == Multiplier(k)
    requires Summing(d, ipstack.stream, ipstack.taken, ipstack.script, wait, ipstack.polls, k, value)
    modifies ipstack`taken, ipstack`polls, i
    ensures ipstack.Valid()
    ensures more ==> !whole && m == Multiplier(k + 1)
                     && Summing(d, ipstack.stream, ipstack.taken, ipstack.script, wait, ipstack.polls, k + 1, v)
    ensures !more ==> d == Decoding(v, k + 1, ipstack.taken, ipstack.polls, whole)
  {
    hide *;
    ghost var at, i0 := ipstack.taken, ipstack.polls;
    SummingIsBelow(d, ipstack.stream, at, ipstack.script, wait, i0, k, value);
    var b, rc, t := ReadByte(ipstack, wait, i);
    if rc != 1 {
      SummingCut(d, ipstack.stream, at, ipstack.script, wait, i0, k, value, t);
      return value, multiplier, false, false;
    }
    WeightIs(k);
    v, m := AddDigit(value, multiplier, b);
    SummingDigit(d, ipstack.stream, at, ipstack.script, wait, i0, k, value, t, v);
    more, whole := b >= 128, b < 128;
  }

  lemma {:induction false} WeightIs(k: nat)
    requires k < 4
    ensures Multiplier(k) in {1, 128, 16384, 2097152} && (k == 0 ==> Multiplier(k) == 1)
  {}

  /** `*value += (i & 127) * multiplier; multiplier *= 128;` in 32 bits. */
  method AddDigit(value: nat, multiplier: nat, b: byte) returns (v: nat, m: nat)
    requires multiplier in {1, 128, 16384, 2097152} && value < multiplier
    ensures v == value + Weighted(b, multiplier) && m == 128 * multiplier
  {
    ProductFits(Digit(b), multiplier);
    var value32, multiplier32 := value as int32, multiplier as int32;
    value32 := value32 + (b % 128) as int32 * multiplier32;
    multiplier32 := multiplier32 * 128;
    v, m := value32 as nat, multiplier32 as nat;
  }

  lemma {:induction false} ProductFits(digit: nat, multiplier: nat)
    requires digit < 128 && multiplier in {1, 128, 16384, 2097152}
    ensures 0 <= digit * multiplier <= 127 * multiplier
  {}

  /** One byte of the stream, by way of a buffer of one. */
  method ReadByte(ipstack: Network, wait: nat, i: array<byte>) returns (b: byte, rc: int, ghost t: Transfer)
    requires ipstack.Valid() && i.Length == 1
    modifies ipstack`taken, ipstack`polls, i
    ensures ipstack.Valid() && ipstack.taken <= |ipstack.stream|
    ensures t == ReadIn(ipstack.script, wait, old(ipstack.polls), 1, |ipstack.stream| - old(ipstack.taken))
    ensures rc == t.rc && ipstack.polls == t.next && ipstack.taken == old(ipstack.taken) + t.run
    ensures rc == 1 ==> old(ipstack.taken) < |ipstack.stream| && b == ipstack.stream[old(ipstack.taken)]
  {
    hide *;
    ipstack.TakenIsThere();
    ghost var buf: seq<byte>, at := i[..], ipstack.taken;
    t := ReadIn(ipstack.script, wait, ipstack.polls, 1, |ipstack.stream| - at);
    ghost var took;
    rc, took := ipstack.Read(i, 0, 1, wait);
    b := i[0];
    ipstack.TakenIsThere();
    ipstack.HoldsIs(i, buf, 0, at);
    if rc == 1 {
      FirstStored(i[..], buf, ipstack.stream, at);
    }
  }

  lemma {:induction false} FirstStored(now: seq<byte>, buf: seq<byte>, stream: seq<byte>, at: nat)
    requires at < |stream| && |buf| > 0 && now == Filled(buf, 0, stream[at..at + 1])
    ensures |now| == |buf| && now[0] == stream[at]
  {}

  /** Header byte, length field and payload of the packet a stream starts with. */
  predicate PacketAhead(s: seq<byte>) {
    s != [] && IsField(FieldOf(s[1..])) && 1 + |FieldOf(s[1..])| + FieldValue(FieldOf(s[1..])) <= |s|
  }

  function PacketField(s: seq<byte>): seq<byte>
    requires PacketAhead(s)
  {
    FieldOf(s[1..])
  }

  function Payload(s: seq<byte>): (p: seq<byte>)
    requires PacketAhead(s)
    ensures |p| == FieldValue(PacketField(s))
  {
    var at := 1 + |PacketField(s)|;
    s[at..at + FieldValue(PacketField(s))]
  }

  /** The packet as it is rebuilt: the length field in its shortest form. */
  function Rebuilt(s: seq<byte>): seq<byte>
    requires PacketAhead(s)
  {
    [s[0]] + Encode(|Payload(s)|) + Payload(s)
  }

  /** A packet in the standard's encoding is rebuilt as it was sent. */
  lemma {:induction false} StandardPacketIsKept(header: byte, payload: seq<byte>, rest: seq<byte>)
    requires |payload| <= 268_435_455
    ensures var packet := [header] + Encode(|payload|) + payload;
            PacketAhead(packet + rest) && Rebuilt(packet + rest) == packet && Payload(packet + rest) == payload
  {
    var e := Encode(|payload|);
    ConcatParts(header, e, payload, rest);
    RemainingLengthRoundTrip(|payload|, payload + rest);
    var s := [header] + e + payload + rest;
    assert PacketField(s) == e;
  }

  lemma {:induction false} ConcatParts(header: byte, e: seq<byte>, p: seq<byte>, rest: seq<byte>)
    ensures var s := [header] + e + p + rest;
            s[0] == header && s[1..] == e + (p + rest) && s[1 + |e|..1 + |e| + |p|] == p
  {}

  lemma {:induction false} ThreeFills(buf: seq<byte>, a: seq<byte>, b: seq<byte>, c: seq<byte>)
    requires |a| + |b| + |c| <= |buf|
    ensures Filled(Filled(Filled(buf, 0, a), |a|, b), |a| + |b|, c)[..|a| + |b| + |c|] == a + b + c
  {}

  // ----- Reading a packet

  /**
    What `readPacket` returns and where the stream and the script stand then; `typed` when it returns the packet type, with
    `value` bytes taken from `body` on for the payload.
    */
  datatype Outcome = Outcome(rc: int, at: nat, next: nat, typed: bool, value: nat, body: nat)

  /** A read within what is left of a timer that runs out at `due`. */
  function ReadBy(script: seq<Poll>, due: nat, i: nat, len: nat, waiting: nat): (t: Transfer)
    ensures t.run <= len && t.run <= waiting && (t.rc >= 0 ==> t.rc == t.run) && i < t.next
    ensures 0 < len && t.rc < 0 ==> t.run < len
  {
    ReadIn(script, TicksLeft(script, due, i), i, len, waiting)
  }

  lemma {:induction false} ReadByIs(script: seq<Poll>, due: nat, i: nat, len: nat, waiting: nat)
    ensures ReadBy(script, due, i, len, waiting) == ReadIn(script, TicksLeft(script, due, i), i, len, waiting)
  {}

  /** The decoding of a length field, where every byte is given what was left of the timer before the first. */
  function Decoded(stream: seq<byte>, at: nat, script: seq<Poll>, due: nat, i: nat): (d: Decoding)
    requires at <= |stream|
    ensures at <= d.at <= |stream|
  {
    DecodeFrom(stream, at, script, TicksLeft(script, due, i), i, 0, 0)
  }

  lemma {:induction false} DecodedIs(stream: seq<byte>, at: nat, script: seq<Poll>, due: nat, i: nat)
    requires at <= |stream|
    ensures Decoded(stream, at, script, due, i) == DecodeFrom(stream, at, script, TicksLeft(script, due, i), i, 0, 0)
  {}

  lemma {:induction false} CreditReadsBy(script: seq<Poll>, due: nat, i: nat, len: nat, waiting: nat)
    requires Ordered(script) && 0 < len <= waiting && len <= Credit(script, due, i)
    ensures var t := ReadBy(script, due, i, len, waiting);
            t.rc == t.run == len && Credit(script, due, t.next) >= Credit(script, due, i) - len
  {
    TimeLeftOutlasts(script, due, i);
    CreditReads(script, TicksLeft(script, due, i), due, i, len, waiting);
  }

  /** `readPacket` at turn `i` of the script, with a timer that runs out at `due`. */
  function PacketFrom(stream: seq<byte>, at: nat, script: seq<Poll>, due: nat, i: nat, size: nat): (o: Outcome)
    requires at <= |stream|
    ensures o.at <= |stream|
    ensures o.typed ==> at < |stream| && o.body + o.value == o.at && 1 + |Encode(o.value)| + o.value <= size
  {
    var h := ReadBy(script, due, i, 1, |stream| - at);
    if h.rc != 1 then Outcome(h.rc, at + h.run, h.next, false, 0, 0)
    else WithLength(stream, at, script, due, Decoded(stream, at + 1, script, due, h.next), size)
  }

  lemma {:induction false} PacketFromCases(stream: seq<byte>, at: nat, script: seq<Poll>, due: nat, i: nat, size: nat)
    requires at <= |stream|
    ensures var o, h := PacketFrom(stream, at, script, due, i, size), ReadBy(script, due, i, 1, |stream| - at);
            && (h.rc != 1 ==> o == Outcome(h.rc, at + h.run, h.next, false, 0, 0))
            && (h.rc == 1 ==>
                  at < |stream| && o == WithLength(stream, at, script, due, Decoded(stream, at + 1, script, due, h.next), size))
  {
    hide ReadBy, Decoded, WithLength;
  }

  /** The same from where the length has been decoded as `d`. */
  function WithLength(stream: seq<byte>, at: nat, script: seq<Poll>, due: nat, d: Decoding, size: nat): (o: Outcome)
    requires at < |stream| && d.at <= |stream|
    ensures o.at <= |stream|
    ensures o.typed ==> o.body + o.value == o.at && 1 + |Encode(o.value)| + o.value <= size
  {
    if 1 + |Encode(d.value)| + d.value > size then Outcome(BUFFER_OVERFLOW, d.at, d.next, false, 0, 0)
    else if d.value == 0 then Outcome(stream[at] / 16, d.at, d.next, true, 0, d.at)
    else
      var t := ReadBy(script, due, d.next, d.value, |stream| - d.at);
      if t.rc != d.value then Outcome(0, d.at + t.run, t.next, false, 0, 0)
      else Outcome(stream[at] / 16, d.at + d.value, t.next, true, d.value, d.at)
  }

  lemma {:induction false} WithLengthCases(stream: seq<byte>, at: nat, script: seq<Poll>, due: nat, d: Decoding, size: nat)
    requires at < |stream| && d.at <= |stream|
    ensures var o, n := WithLength(stream, at, script, due, d, size), 1 + |Encode(d.value)|;
            && (n + d.value > size ==> o == Outcome(BUFFER_OVERFLOW, d.at, d.next, false, 0, 0))
            && (n + d.value <= size && d.value == 0 ==> o == Outcome(stream[at] / 16, d.at, d.next, true, 0, d.at))
            && (n + d.value <= size && d.value > 0 ==>
                  var t := ReadBy(script, due, d.next, d.value, |stream| - d.at);
                  o == if t.rc != d.value then Outcome(0, d.at + t.run, t.next, false, 0, 0)
                       else Outcome(stream[at] / 16, d.at + d.value, t.next, true, d.value, d.at))
  {
    hide ReadBy, Encode;
  }

  lemma {:induction false} EncodeFits(n: nat)
    requires n <= 268_435_455
    ensures |Encode(n)| <= 4
  {
    assert Scaled(1, 2) == 16384 && Scaled(1, 4) == 268_435_456;
    EncodeShape(n, 4);
  }

  /** The field of the packet at `at`, as `readPacket` decodes it once it has the header. */
  function FieldDecoded(stream: seq<byte>, at: nat, script: seq<Poll>, due: nat, i: nat): Decoding
    requires at < |stream|
  {
    Decoded(stream, at + 1, script, due, ReadBy(script, due, i, 1, |stream| - at).next)
  }

  /** The tick at which a read or write that is given what a timer has left times out. */
  function WriteDue(script: seq<Poll>, due: nat, i: nat): nat {
    Due(script, TicksLeft(script, due, i), i)
  }

  /** With header and length field ahead and enough progress both are read; `more` is the progress to spare. */
  lemma {:induction false} LengthArrives(stream: seq<byte>, at: nat, script: seq<Poll>, due: nat, i: nat, more: nat)
    requires Ordered(script) && at < |stream| && IsField(FieldOf(stream[at + 1..]))
    requires Credit(script, due, i) >= 1 + |FieldOf(stream[at + 1..])| + more
    ensures ReadBy(script, due, i, 1, |stream| - at).rc == 1
    ensures var f, d := FieldOf(stream[at + 1..]), FieldDecoded(stream, at, script, due, i);
            && d.at == at + 1 + |f| && d.value == FieldValue(f) && Credit(script, due, d.next) >= more
  {
    hide ReadBy, DecodeFrom, FieldOf, Credit, IsField, TicksLeft, Ordered, Outlasts;
    CreditReadsBy(script, due, i, 1, |stream| - at);
    var next := ReadBy(script, due, i, 1, |stream| - at).next;
    var wait := TicksLeft(script, due, next);
    TimeLeftOutlasts(script, due, next);
    DecodeReachesEnd(stream, at + 1, at + 1, script, wait, due, next, 0, 0);
    DecodeFindsFromStart(stream, at + 1, script, wait, next);
    var f := FieldOf(stream[at + 1..]);
    assert stream[at + 1..FieldDecoded(stream, at, script, due, i).at] == f;
  }

  /** If the peer has sent less of the payload than announced, nothing is reported, however long it is waited for. */
  lemma {:induction false} CutPayloadIsNothing(stream: seq<byte>, at: nat, script: seq<Poll>, due: nat, i: nat, size: nat)
    requires Ordered(script) && at < |stream| && IsField(FieldOf(stream[at + 1..]))
    requires var f := FieldOf(stream[at + 1..]);
             && Credit(script, due, i) >= 1 + |f| && at + 1 + |f| + FieldValue(f) > |stream|
             && 1 + |Encode(FieldValue(f))| + FieldValue(f) <= size
    ensures var o := PacketFrom(stream, at, script, due, i, size); !o.typed && o.rc == 0
  {
    hide ReadBy, Decoded, FieldOf, FieldValue, Credit, IsField, Encode, WithLength, Ordered;
    LengthArrives(stream, at, script, due, i, 0);
    WithLengthCases(stream, at, script, due, FieldDecoded(stream, at, script, due, i), size);
  }

  /** If nothing comes in, nothing is taken and the read's error is returned, if there is one. */
  lemma {:induction false} SilenceIsNothing(stream: seq<byte>, at: nat, script: seq<Poll>, due: nat, i: nat, size: nat)
    requires at <= |stream| && (at == |stream| || Offer(script, WriteDue(script, due, i), i) == 0)
    ensures var o := PacketFrom(stream, at, script, due, i, size);
            !o.typed && o.at == at && o.rc == Failure(script, WriteDue(script, due, i), i)
  {
    hide ReadFrom, Offer, Failure, WithLength, Decoded;
    ReadTakesOffer(script, WriteDue(script, due, i), i, 1, 0, |stream| - at);
  }

  /** Then it is taken, or reported as too long exactly when it does not fit. */
  lemma {:induction false} PacketArrives(stream: seq<byte>, at: nat, script: seq<Poll>, due: nat, i: nat, size: nat)
    requires Ordered(script) && at <= |stream| && PacketAhead(stream[at..])
    requires Credit(script, due, i) >= 1 + |PacketField(stream[at..])| + |Payload(stream[at..])|
    ensures var s, o := stream[at..], PacketFrom(stream, at, script, due, i, size);
            var n := 1 + |PacketField(s)|;
            if |Rebuilt(s)| <= size
            then && o.typed && o.rc == s[0] / 16 && o.value == |Payload(s)| && o.at == at + n + |Payload(s)|
                 && stream[o.body..o.at] == Payload(s) && Rebuilt(s) == [stream[at]] + Encode(o.value) + stream[o.body..o.at]
            else !o.typed && o.rc == -2 && o.at == at + n
  {
    hide ReadBy, Decoded, FieldOf, FieldValue, Credit, IsField, Encode, WithLength, Ordered;
    assert stream[at..][1..] == stream[at + 1..];
    LengthArrives(stream, at, script, due, i, |Payload(stream[at..])|);
    var d := FieldDecoded(stream, at, script, due, i);
    WithLengthCases(stream, at, script, due, d, size);
    if d.value > 0 {
      CreditReadsBy(script, due, d.next, d.value, |stream| - d.at);
    }
  }

  /**
    The failure of `decodePacket` is not looked at: a packet type is returned for just the packet ahead if and only if the
    end of its length field was seen.
    */
  lemma {:induction false} TypeIsOfPacketExactlyWhenFieldSeen(stream: seq<byte>, at: nat, script: seq<Poll>, due: nat, i: nat, size: nat)
    requires at <= |stream| && PacketFrom(stream, at, script, due, i, size).typed
    ensures var s, o := stream[at..], PacketFrom(stream, at, script, due, i, size);
            (PacketAhead(s) && o.at == at + 1 + |PacketField(s)| + |Payload(s)|)
            <==> FieldDecoded(stream, at, script, due, i).whole
  {
    hide ReadBy, FieldOf, DecodeFrom, TicksLeft;
    var s, o := stream[at..], PacketFrom(stream, at, script, due, i, size);
    var next := ReadBy(script, due, i, 1, |stream| - at).next;
    assert s[1..] == stream[at + 1..];
    DecodeFindsFromStart(stream, at + 1, script, TicksLeft(script, due, next), next);
    var d := FieldDecoded(stream, at, script, due, i);
    var f := FieldOf(s[1..]);
    assert stream[at + 1..d.at] == f[..d.at - at - 1];
    ValueGrows(f, d.at - at - 1);
    assert d.whole ==> f[..d.at - at - 1] == f;
  }

  lemma {:induction false} ValueGrows(f: seq<byte>, k: nat)
    requires k <= |f|
    ensures FieldValue(f[..k]) <= FieldValue(f)
    decreases |f| - k
  {
    if k < |f| {
      assert f[..k + 1] == f[..k] + [f[k]];
      FieldValueAppend(f[..k], f[k]);
      ValueGrows(f, k + 1);
    } else {
      assert f[..k] == f;
    }
  }

  /** A header and then silence: an empty packet of its type is reported that nobody sent. */
  lemma {:induction false} HeaderAloneIsReported(stream: seq<byte>, at: nat, script: seq<Poll>, due: nat, i: nat, size: nat)
    requires at < |stream| && size >= 2
    requires var h := ReadBy(script, due, i, 1, |stream| - at);
             h.rc == 1 && ReadBy(script, due, h.next, 1, |stream| - at - 1).rc != 1
    ensures var o := PacketFrom(stream, at, script, due, i, size);
            o.typed && o.rc == stream[at] / 16 && o.value == 0 && !FieldDecoded(stream, at, script, due, i).whole
  {}

  /** What the three stores leave at the front of the buffer. */
  lemma {:induction false} StoresRebuild(buf: seq<byte>, header: byte, e: seq<byte>, payload: seq<byte>)
    requires 1 + |e| + |payload| <= |buf|
    ensures Filled(Filled(Filled(buf, 0, [header]), 1, e), 1 + |e|, payload)[..1 + |e| + |payload|]
            == [header] + e + payload
    ensures Filled(Filled(Filled(buf, 0, [header]), 1, e), 1 + |e|, payload)[0] == header
  {
    ThreeFills(buf, [header], e, payload);
  }

  // ----- Sending a packet

  /** What `sendPacket` returns, how many bytes have gone out, and where the script stands. */
  datatype Sending = Sending(rc: int, run: nat, next: nat)

  /** The loop with `sent` bytes out, and a timer that runs out at `due`: every retry asks for all `len` bytes again. */
  function SendFrom(script: seq<Poll>, due: nat, i: nat, len: nat, sent: nat): Sending
    decreases |script| - i
  {
    if sent >= len || Expired(script, due, i) then Sending(if sent == len then SUCCESS else FAILURE, sent, i)
    else
      var w := WriteIn(script, TicksLeft(script, due, i), i, len);
      if w.rc < 0 then Sending(FAILURE, sent + w.run, w.next)
      else SendFrom(script, due, w.next, len, sent + w.rc)
  }

  /** The loop is on its way to `r`. */
  predicate Underway(r: Sending, script: seq<Poll>, due: nat, i: nat, len: nat, sent: nat) {
    r == SendFrom(script, due, i, len, sent)
  }

  /** A write takes it further, or to its end. */
  lemma {:induction false} SendTurn(r: Sending, script: seq<Poll>, due: nat, i: nat, len: nat, sent: nat, w: Transfer)
    requires Underway(r, script, due, i, len, sent) && sent < len && !Expired(script, due, i)
    requires w == WriteIn(script, TicksLeft(script, due, i), i, len)
    ensures i < |script| && i < w.next && w.run <= len && (w.rc >= 0 ==> w.rc == w.run)
    ensures w.rc < 0 ==> r == Sending(FAILURE, sent + w.run, w.next) && (sent == 0 ==> w.run < len)
    ensures w.rc >= 0 ==> Underway(r, script, due, w.next, len, sent + w.rc)
  {
    hide WriteIn, TicksLeft;
  }

  lemma {:induction false} SendEnds(r: Sending, script: seq<Poll>, due: nat, i: nat, len: nat, sent: nat)
    requires Underway(r, script, due, i, len, sent) && (sent >= len || Expired(script, due, i))
    ensures r == Sending(if sent == len then SUCCESS else FAILURE, sent, i)
  {}

  /** On one clock the first write is the last: one that comes back short has used up the timer. */
  lemma {:induction false} NeverRetries(script: seq<Poll>, due: nat, i: nat, len: nat)
    requires Ordered(script) && len > 0 && !Expired(script, due, i)
    ensures var w := WriteIn(script, TicksLeft(script, due, i), i, len);
            SendFrom(script, due, i, len, 0) == Sending(if w.rc == len then 0 else -1, w.run, w.next)
  {
    hide WriteIn, Ordered;
    ShortWriteExpiresTimer(script, due, i, len);
  }

  /**
    So never more than the packet goes out, and SUCCESS is returned if and only if all of it is out; for a packet whose timer
    has not expired before the first write, if and only if that write is offered all of it.
    */
  lemma {:induction false} SendOutcome(script: seq<Poll>, due: nat, i: nat, len: nat)
    requires Ordered(script)
    ensures var r := SendFrom(script, due, i, len, 0);
            && r.run <= len && (r.rc == 0 <==> r.run == len) && (r.rc == 0 || r.rc == -1)
            && (len > 0 && Expired(script, due, i) ==> r.run == 0)
            && (len > 0 && !Expired(script, due, i) ==> r.run == Min(len, Offer(script, WriteDue(script, due, i), i)))
  {
    if len > 0 && !Expired(script, due, i) {
      NeverRetries(script, due, i, len);
      WriteTakesOffer(script, WriteDue(script, due, i), i, len, 0);
    }
  }

  /** As many polls that make progress before the timer runs out as there are bytes send the packet. */
  lemma {:induction false} EnoughProgressSucceeds(script: seq<Poll>, due: nat, i: nat, len: nat)
    requires Ordered(script) && len > 0 && Credit(script, due, i) >= len
    ensures SendFrom(script, due, i, len, 0).rc == 0
  {
    assert !Expired(script, due, i);
    NeverRetries(script, due, i, len);
    TimeLeftOutlasts(script, due, i);
    CreditWrites(script, WriteDue(script, due, i), due, i, len, 0);
  }

  // ----- The client

  class PacketClient {
    const ipstack: Network
    const readbuf: array<byte>
    var keepAliveInterval: nat
    var lastSent: nat   // what the last_sent timer was last set to count down

    /** The buffer must at least hold a header and a four-byte length field. */
    constructor (ipstack: Network, readbuf: array<byte>, keepAliveInterval: nat)
      requires readbuf.Length >= 5
      ensures this.ipstack == ipstack && this.readbuf == readbuf
    {
      this.ipstack, this.readbuf := ipstack, readbuf;
      this.keepAliveInterval := keepAliveInterval;
      lastSent := 0;
    }

    /**
      `readPacket`, with a timer that runs out at the tick `due`: result, stream and script on every path; with a packet type, header, shortest length field and payload
      stand contiguous at the front of the buffer.
      */
    method ReadPacket(due: nat) returns (rc: int)
      requires ipstack.Valid() && readbuf.Length >= 5
      modifies ipstack`taken, ipstack`polls, readbuf
      ensures ipstack.Valid()
      ensures var o := PacketFrom(ipstack.stream, old(ipstack.taken), ipstack.script, due, old(ipstack.polls), readbuf.Length);
              && rc == o.rc && ipstack.taken == o.at && ipstack.polls == o.next
              && (o.typed ==> HoldsPacket(ipstack.stream[old(ipstack.taken)], o))
    {
      rc := ReadParts(due, ipstack.taken, readbuf[..],
                      PacketFrom(ipstack.stream, ipstack.taken, ipstack.script, due, ipstack.polls, readbuf.Length));
    }

    /** The buffer begins with the header, the length field and the payload of a packet returned as `o`. */
    ghost predicate HoldsPacket(header: byte, o: Outcome)
      reads readbuf
    {
      && o.body <= o.at <= |ipstack.stream| && 1 + |Encode(o.value)| + o.value <= readbuf.Length
      && readbuf[..1 + |Encode(o.value)| + o.value] == [header] + Encode(o.value) + ipstack.stream[o.body..o.at]
    }

    /** The parts of `readPacket`, on their way to `o`. */
    method ReadParts(due: nat, ghost from: nat, ghost buf0: seq<byte>, ghost o: Outcome) returns (rc: int)
      requires ipstack.Valid() && readbuf.Length >= 5 && from == ipstack.taken && buf0 == readbuf[..]
      requires o == PacketFrom(ipstack.stream, from, ipstack.script, due, ipstack.polls, readbuf.Length)
      modifies ipstack`taken, ipstack`polls, readbuf
      ensures ipstack.Valid() && rc == o.rc && ipstack.taken == o.at && ipstack.polls == o.next
      ensures o.typed ==> from < |ipstack.stream| && HoldsPacket(ipstack.stream[from], o)
    {
      hide *;
      ghost var stream, script, first := ipstack.stream, ipstack.script, ipstack.polls;
      ipstack.TakenIsThere();
      PacketFromCases(stream, from, script, due, first, readbuf.Length);
      ReadByIs(script, due, first, 1, |stream| - from);
      ghost var took;
      rc, took := ipstack.Read(readbuf, 0, 1, TicksLeft(ipstack.script, due, ipstack.polls));
      if rc != 1 {
        return;
      }
      HeaderStored(from, buf0);
      DecodedIs(stream, from + 1, script, due, ipstack.polls);
      ghost var buf1: seq<byte> := readbuf[..];
      var rem_len, len;
      ghost var whole;
      rem_len, len, whole := DecodePacket(ipstack, TicksLeft(ipstack.script, due, ipstack.polls));
      assert readbuf[..] == buf1;
      rc := ReadPayload(due, from, buf0, Decoding(rem_len, len, ipstack.taken, ipstack.polls, whole), o, rem_len);
    }

    lemma {:induction false} HeaderStored(from: nat, buf0: seq<byte>)
      requires ipstack.Holds(readbuf, buf0, 0, from) && ipstack.taken == from + 1
      ensures from < |ipstack.stream| && |buf0| == readbuf.Length > 0
      ensures readbuf[..] == Filled(buf0, 0, [ipstack.stream[from]])
    {
      assert ipstack.stream[from..from + 1] == [ipstack.stream[from]];
    }

    /** Putting the length field back and reading the payload. */
    method ReadPayload(due: nat, ghost from: nat, ghost buf0: seq<byte>, ghost d: Decoding, ghost o: Outcome, rem_len: nat)
      returns (rc: int)
      requires ipstack.Valid() && readbuf.Length >= 5 && from < |ipstack.stream| && |buf0| == readbuf.Length
      requires readbuf[..] == Filled(buf0, 0, [ipstack.stream[from]])
      requires rem_len == d.value <= 268_435_455 && d.at == ipstack.taken && d.next == ipstack.polls
      requires o == WithLength(ipstack.stream, from, ipstack.script, due, d, readbuf.Length)
      modifies ipstack`taken, ipstack`polls, readbuf
      ensures ipstack.Valid() && rc == o.rc && ipstack.taken == o.at && ipstack.polls == o.next
      ensures o.typed ==> HoldsPacket(ipstack.stream[from], o)
    {
      hide *;
      ghost var stream := ipstack.stream;
      EncodeFits(rem_len);
      ipstack.TakenIsThere();
      WithLengthCases(stream, from, ipstack.script, due, d, readbuf.Length);
      ghost var buf1: seq<byte> := readbuf[..];
      var len := 1;
      var e := EncodeInto(readbuf, 1, rem_len, buf1);
      len := len + e;
      ghost var buf2: seq<byte> := readbuf[..];
      if rem_len > readbuf.Length - len {
        rc := BUFFER_OVERFLOW;
        return;
      }
      var whole := ReadBody(due, len, rem_len, buf2);
      if !whole {
        rc := 0;
        return;
      }
      PacketStored(stream[from], o, buf0, buf1, buf2, Encode(rem_len));
      rc := readbuf[0] / 16;
    }

    /** The payload, `whole` if all of it came, behind the `len` bytes of `buf` in front of it. */
    method ReadBody(due: nat, len: nat, rem_len: nat, ghost buf: seq<byte>) returns (whole: bool)
      requires ipstack.Valid() && len + rem_len <= readbuf.Length && readbuf[..] == buf
      modifies ipstack`taken, ipstack`polls, readbuf
      ensures ipstack.Valid()
      ensures var t := if rem_len == 0 then Transfer(0, 0, old(ipstack.polls))
                       else ReadBy(ipstack.script, due, old(ipstack.polls), rem_len, |ipstack.stream| - old(ipstack.taken));
              && whole == (t.rc == rem_len)
              && ipstack.polls == t.next && ipstack.taken == old(ipstack.taken) + t.run && (whole ==> t.run == rem_len)
      ensures whole ==> readbuf[..] == Filled(buf, len, ipstack.stream[old(ipstack.taken)..ipstack.taken])
    {
      ghost var body := ipstack.taken;
      whole := true;
      if rem_len > 0 {
        var got;
        ghost var took;
        hide *;
        got, took := ipstack.Read(readbuf, len, rem_len, TicksLeft(ipstack.script, due, ipstack.polls));
        whole := got == rem_len;
        ipstack.HoldsIs(readbuf, buf, len, body);
      } else {
        FillNothing(buf, len);
        assert ipstack.stream[body..ipstack.taken] == [];
      }
    }

    lemma {:induction false} PacketStored(header: byte, o: Outcome, buf0: seq<byte>, buf1: seq<byte>, buf2: seq<byte>,
                                          e: seq<byte>)
      requires o.body <= o.at <= |ipstack.stream| && o.at == o.body + o.value && e == Encode(o.value)
      requires 1 + |e| + o.value <= |buf0| == |buf1| == |buf2|
      requires buf1 == Filled(buf0, 0, [header]) && buf2 == Filled(buf1, 1, e)
      requires readbuf[..] == Filled(buf2, 1 + |e|, ipstack.stream[o.body..o.at])
      ensures readbuf.Length > 0 && readbuf[0] == header && HoldsPacket(header, o)
    {
      hide Filled, Encode;
      StoresRebuild(buf0, header, e, ipstack.stream[o.body..o.at]);
      assert readbuf[..][0] == header;
    }

    /**
      `sendPacket` on the memory from the start of the send buffer, with a timer that runs out at the tick `due`. What goes
      out is the start of the packet, and SUCCESS says exactly that it is all of it.
      */
    method SendPacket(mem: nat -> byte, length: nat, due: nat) returns (rc: int, ghost run: nat)
      requires ipstack.Valid()
      modifies this`lastSent, ipstack`wire, ipstack`polls
      ensures ipstack.Valid()
      ensures Sending(rc, run, ipstack.polls) == SendFrom(ipstack.script, due, old(ipstack.polls), length, 0)
      ensures ipstack.wire == old(ipstack.wire) + Window(mem, 0, run)
      ensures run <= length && rc == if run == length then 0 else -1
      ensures lastSent == if rc == 0 then keepAliveInterval else old(lastSent)
    {
      SendOutcome(ipstack.script, due, ipstack.polls, length);
      ghost var r := SendFrom(ipstack.script, due, ipstack.polls, length, 0);
      rc, run := SendLoop(mem, length, due, r);
    }

    /** The loop of `sendPacket`, on its way to `r`. */
    method SendLoop(mem: nat -> byte, length: nat, due: nat, ghost r: Sending) returns (rc: int, ghost run: nat)
      requires Underway(r, ipstack.script, due, ipstack.polls, length, 0)
      modifies this`lastSent, ipstack`wire, ipstack`polls
      ensures r == Sending(rc, run, ipstack.polls)
      ensures ipstack.wire == old(ipstack.wire) + Window(mem, 0, run)
      ensures lastSent == if rc == SUCCESS then keepAliveInterval else old(lastSent)
    {
      assert ipstack.wire + Window(mem, 0, 0) == ipstack.wire;
      assert SUCCESS != FAILURE;
      rc, run := FAILURE, 0;
      var sent := 0;
      ghost var failed := false;
      while sent < length && !Expired(ipstack.script, due, ipstack.polls)
        invariant !failed && sent == run && lastSent == old(lastSent)
        invariant ipstack.wire == old(ipstack.wire) + Window(mem, 0, run)
        invariant Underway(r, ipstack.script, due, ipstack.polls, length, sent)
        decreases |ipstack.script| - ipstack.polls
      {
        hide *;
        ghost var i := ipstack.polls;
        ghost var more;
        rc, more := ipstack.Write(mem, sent, length, TicksLeft(ipstack.script, due, ipstack.polls));
        SendTurn(r, ipstack.script, due, i, length, sent, Transfer(rc, more, ipstack.polls));
        WindowsJoin(mem, 0, run, more);
        run := run + more;
        if rc < 0 {
          failed := true;
          break;
        }
        sent := sent + rc;
      }
      hide *;
      if !failed {
        SendEnds(r, ipstack.script, due, ipstack.polls, length, sent);
      }
      if sent == length {
        lastSent := keepAliveInterval;
        rc := SUCCESS;
      } else {
        rc := FAILURE;
      }
    }
  }
}
