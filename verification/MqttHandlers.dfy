/**
  The subscription table of the MQTT client in app/eth_to_mqtt.c: five slots updated in
  place, their meaning as a finite map of capacity five, and message delivery.
  */
module MqttHandlers {
  import opened Options
  import TopicMatcher

  const MAX_MESSAGE_HANDLERS: nat := 5

  datatype ReturnCode = SUCCESS | FAILURE

  /** The address of a handler function. */
  type Handler = nat

  /** A slot is free when its filter pointer is null; its function pointer may then be stale. */
  datatype Slot = Slot(topicFilter: Option<string>, fp: Option<Handler>)

  type Subscriptions = map<string, Handler>

  // ----- What a slot array means

  predicate Distinct(s: seq<Slot>) {
    forall i, j | 0 <= i < j < |s| && s[i].topicFilter.Some? :: s[i].topicFilter != s[j].topicFilter
  }

  predicate Armed(s: seq<Slot>) {
    forall i | 0 <= i < |s| && s[i].topicFilter.Some? :: s[i].fp.Some?
  }

  predicate WellFormed(s: seq<Slot>) {
    Distinct(s) && Armed(s)
  }

  function Table(s: seq<Slot>): Subscriptions
    requires WellFormed(s)
  {
    if s == [] then map[]
    else
      var last := s[|s| - 1];
      var rest := Table(s[..|s| - 1]);
      if last.topicFilter.Some? then rest[last.topicFilter.value := last.fp.value] else rest
  }

  lemma {:induction false} TableEntries(s: seq<Slot>)
    requires WellFormed(s)
    ensures forall i | 0 <= i < |s| && s[i].topicFilter.Some? ::
              s[i].topicFilter.value in Table(s) && Table(s)[s[i].topicFilter.value] == s[i].fp.value
    ensures forall f | f in Table(s) :: exists i | 0 <= i < |s| :: s[i].topicFilter == Some(f)
  {
    if s != [] {
      var init := s[..|s| - 1];
      TableEntries(init);
      forall f | f in Table(s) ensures exists i | 0 <= i < |s| :: s[i].topicFilter == Some(f) {
        if s[|s| - 1].topicFilter != Some(f) {
          var i :| 0 <= i < |init| && init[i].topicFilter == Some(f);
          assert s[i].topicFilter == Some(f);
        }
      }
      forall i | 0 <= i < |s| && s[i].topicFilter.Some?
        ensures s[i].topicFilter.value in Table(s) && Table(s)[s[i].topicFilter.value] == s[i].fp.value
      {
        if i < |init| {
          assert init[i] == s[i];
        }
      }
    }
  }

  lemma {:induction false} TableSize(s: seq<Slot>)
    requires WellFormed(s)
    ensures |Table(s)| <= |s|
    ensures |Table(s)| == |s| <==> forall i | 0 <= i < |s| :: s[i].topicFilter.Some?
  {
    if s != [] {
      var init, last := s[..|s| - 1], s[|s| - 1];
      TableSize(init);
      if last.topicFilter.Some? {
        TableEntries(init);
        assert last.topicFilter.value !in Table(init);
        assert forall i | 0 <= i < |init| :: init[i] == s[i];
      }
    }
  }

  lemma {:induction false} StoreInSlot(s: seq<Slot>, i: nat, f: string, h: Handler)
    requires WellFormed(s) && i < |s|
    requires s[i].topicFilter == Some(f) || (s[i].topicFilter == None && f !in Table(s))
    ensures WellFormed(s[i := Slot(Some(f), Some(h))])
    ensures Table(s[i := Slot(Some(f), Some(h))]) == Table(s)[f := h]
  {
    var t := s[i := Slot(Some(f), Some(h))];
    TableEntries(s);
    assert forall j | 0 <= j < |s| && j != i :: s[j].topicFilter != Some(f);
    assert WellFormed(t);
    TableEntries(t);
    forall g | g in Table(t) ensures g in Table(s)[f := h] {
      var j :| 0 <= j < |t| && t[j].topicFilter == Some(g);
      assert j != i ==> s[j] == t[j];
    }
    forall g | g in Table(s)[f := h] ensures g in Table(t) && Table(t)[g] == Table(s)[f := h][g] {
      if g == f {
        assert t[i].topicFilter == Some(f);
      } else {
        var j :| 0 <= j < |s| && s[j].topicFilter == Some(g);
        assert t[j] == s[j];
      }
    }
  }

  lemma {:induction false} FreeSlot(s: seq<Slot>, i: nat, f: string)
    requires WellFormed(s) && i < |s| && s[i].topicFilter == Some(f)
    ensures WellFormed(s[i := Slot(None, None)])
    ensures Table(s[i := Slot(None, None)]) == Table(s) - {f}
  {
    var t := s[i := Slot(None, None)];
    TableEntries(s);
    TableEntries(t);
    forall g | g in Table(t) ensures g in Table(s) - {f} {
      var j :| 0 <= j < |t| && t[j].topicFilter == Some(g);
      assert s[j] == t[j];
    }
    forall g | g in Table(s) - {f} ensures g in Table(t) && Table(t)[g] == Table(s)[g] {
      var j :| 0 <= j < |s| && s[j].topicFilter == Some(g);
      assert t[j] == s[j];
    }
  }

  lemma {:induction false} AllFree(s: seq<Slot>)
    requires forall i | 0 <= i < |s| :: s[i].topicFilter == None
    ensures WellFormed(s) && Table(s) == map[]
  {
    if s != [] {
      AllFree(s[..|s| - 1]);
    }
  }

  // ----- Runs on the map

  datatype Op = Set(topicFilter: string, handler: Option<Handler>) | Clean

  /** Setting overwrites or adds while fewer than five filters are held; a null handler removes. */
  function SetStep(m: Subscriptions, f: string, h: Option<Handler>): (r: (Subscriptions, ReturnCode)) {
    if h == None then
      (m - {f}, if f in m then SUCCESS else FAILURE)
    else if f in m || |m| < MAX_MESSAGE_HANDLERS then
      (m[f := h.value], SUCCESS)
    else
      (m, FAILURE)
  }

  function Step(m: Subscriptions, op: Op): Subscriptions {
    match op
    case Set(f, h) => SetStep(m, f, h).0
    case Clean => map[]
  }

  function Run(m: Subscriptions, ops: seq<Op>): Subscriptions
    decreases |ops|
  {
    if ops == [] then m else Step(Run(m, ops[..|ops| - 1]), ops[|ops| - 1])
  }

  /** No run of operations holds more than five filters. */
  lemma {:induction false} RunStaysInCapacity(ops: seq<Op>)
    ensures |Run(map[], ops)| <= 5
  {
    if ops != [] {
      RunStaysInCapacity(ops[..|ops| - 1]);
      var m := Run(map[], ops[..|ops| - 1]);
      match ops[|ops| - 1]
      case Set(f, h) =>
        assert (m - {f}).Keys == m.Keys - {f};
        if h.Some? {
          assert m[f := h.value].Keys == m.Keys + {f};
        }
      case Clean =>
    }
  }

  // ----- Delivery

  /** The test that delivery makes of a filter. */
  predicate Hit(filter: string, name: string) {
    filter == name || TopicMatcher.PointerMatch(filter, name)
  }

  /** The standard matches the filter with the name, and every wildcard of it stands over text. */
  predicate Meant(filter: string, name: string) {
    var f, n := TopicMatcher.Levels(filter), TopicMatcher.Levels(name);
    TopicMatcher.StandardMatch(f, n) && TopicMatcher.WildcardsSeeText(f, n)
  }

  /** A wildcard-free name hits a well-formed filter if and only if it is meant. */
  lemma {:induction false} HitIsMeant(filter: string, name: string)
    requires TopicMatcher.WellFormedFilter(TopicMatcher.Levels(filter)) && TopicMatcher.WildcardFree(name)
    ensures Hit(filter, name)
            <==> && TopicMatcher.StandardMatch(TopicMatcher.Levels(filter), TopicMatcher.Levels(name))
                 && TopicMatcher.WildcardsSeeText(TopicMatcher.Levels(filter), TopicMatcher.Levels(name))
  {
    if filter == name {
      TopicMatcher.EveryNameMatchesItself(name);
    }
    TopicMatcher.HitIsStandardMatch(filter, name);
  }

  predicate FiltersWellFormed(s: seq<Slot>) {
    forall i | 0 <= i < |s| && s[i].topicFilter.Some? ::
      TopicMatcher.WellFormedFilter(TopicMatcher.Levels(s[i].topicFilter.value))
  }

  /** `at` lists the slots, by increasing index, whose filter the name is meant for. */
  predicate Addressed(s: seq<Slot>, name: string, at: seq<nat>) {
    && (forall j, k | 0 <= j < k < |at| :: at[j] < at[k])
    && (forall k | 0 <= k < |at| :: at[k] < |s|)
    && forall i | 0 <= i < |s| :: i in at <==> s[i].topicFilter.Some? && Meant(s[i].topicFilter.value, name)
  }

  /** The slots that the loop hits. */
  function HitSlots(s: seq<Slot>, name: string): (at: seq<nat>)
    ensures forall k | 0 <= k < |at| :: at[k] < |s|
    ensures forall j, k | 0 <= j < k < |at| :: at[j] < at[k]
  {
    if s == [] then []
    else
      var n := |s| - 1;
      HitSlots(s[..n], name)
      + if s[n].topicFilter.Some? && Hit(s[n].topicFilter.value, name) then [n] else []
  }

  lemma {:induction false} HitSlotsAreHit(s: seq<Slot>, name: string)
    ensures forall i | 0 <= i < |s| ::
              i in HitSlots(s, name) <==> s[i].topicFilter.Some? && Hit(s[i].topicFilter.value, name)
  {
    if s != [] {
      var n := |s| - 1;
      HitSlotsAreHit(s[..n], name);
      hide Hit;
      assert forall i | 0 <= i < n :: s[..n][i] == s[i];
    }
  }

  /** The slots hit, in order, are those the name is meant for, and hold exactly the subscribed filters it is meant for. */
  lemma {:induction false} HitsAreTheMatchingSubscriptions(s: seq<Slot>, name: string)
    requires WellFormed(s) && FiltersWellFormed(s) && TopicMatcher.WildcardFree(name)
    ensures Addressed(s, name, HitSlots(s, name))
    ensures forall f :: f in Table(s) && Meant(f, name) <==> exists i <- HitSlots(s, name) :: s[i].topicFilter == Some(f)
  {
    HitSlotsAreHit(s, name);
    forall i | 0 <= i < |s| && s[i].topicFilter.Some?
      ensures Hit(s[i].topicFilter.value, name) <==> Meant(s[i].topicFilter.value, name)
    {
      HitIsMeant(s[i].topicFilter.value, name);
    }
    TableEntries(s);
    hide Hit, Meant, HitSlots, Table, FiltersWellFormed, Distinct, Armed;
    forall f ensures f in Table(s) && Meant(f, name) <==> exists i <- HitSlots(s, name) :: s[i].topicFilter == Some(f) {
      if f in Table(s) && Meant(f, name) {
        var i :| 0 <= i < |s| && s[i].topicFilter == Some(f);
        assert i in HitSlots(s, name);
      }
      if i :| i in HitSlots(s, name) && s[i].topicFilter == Some(f) {
        assert s[i].topicFilter.value in Table(s);
      }
    }
  }

  // ----- What setting a handler does to the slots

  predicate NotAmong(s: seq<Slot>, n: nat, f: string) {
    n <= |s| && forall j | 0 <= j < n :: s[j].topicFilter != Some(f)
  }

  /** The slots `t` after setting a handler on `s` hold what the map operation says. */
  predicate Does(s: seq<Slot>, t: seq<Slot>, f: string, h: Option<Handler>, rc: ReturnCode) {
    WellFormed(s) && WellFormed(t) && (Table(t), rc) == SetStep(Table(s), f, h)
  }

  lemma {:induction false} Removes(s: seq<Slot>, i: nat, f: string)
    requires WellFormed(s) && i < |s| && s[i].topicFilter == Some(f)
    ensures Does(s, s[i := Slot(None, None)], f, None, SUCCESS)
  {
    TableEntries(s);
    FreeSlot(s, i, f);
  }

  lemma {:induction false} Stores(s: seq<Slot>, i: nat, f: string, h: Option<Handler>)
    requires WellFormed(s) && |s| == MAX_MESSAGE_HANDLERS && i < |s| && h.Some?
    requires s[i].topicFilter == Some(f) || (s[i].topicFilter == None && NotAmong(s, |s|, f))
    ensures Does(s, s[i := Slot(Some(f), h)], f, h, SUCCESS)
  {
    TableEntries(s);
    TableSize(s);
    StoreInSlot(s, i, f, h.value);
  }

  lemma {:induction false} IsFull(s: seq<Slot>, f: string, h: Option<Handler>)
    requires WellFormed(s) && |s| == MAX_MESSAGE_HANDLERS && h.Some? && NotAmong(s, |s|, f)
    requires forall j | 0 <= j < |s| :: s[j].topicFilter != None
    ensures Does(s, s, f, h, FAILURE)
  {
    TableEntries(s);
    TableSize(s);
  }

  lemma {:induction false} IsAbsent(s: seq<Slot>, f: string)
    requires WellFormed(s) && NotAmong(s, |s|, f)
    ensures Does(s, s, f, None, FAILURE)
  {
    TableEntries(s);
    assert Table(s) - {f} == Table(s);
  }

  class MqttClient {
    const messageHandlers: array<Slot>
    var defaultMessageHandler: Option<Handler>

    ghost predicate Valid()
      reads this, messageHandlers
    {
      messageHandlers.Length == MAX_MESSAGE_HANDLERS && WellFormed(messageHandlers[..])
    }

    ghost function Subscribed(): Subscriptions
      requires Valid()
      reads this, messageHandlers
    {
      Table(messageHandlers[..])
    }

    /** `MQTTClientInit`, as far as the table goes. */
    constructor ()
      ensures Valid() && fresh(messageHandlers)
      ensures Subscribed() == map[] && defaultMessageHandler == None && messageHandlers.Length == 5
    {
      messageHandlers := new Slot[MAX_MESSAGE_HANDLERS](_ => Slot(None, None));
      defaultMessageHandler := None;
      new;
      AllFree(messageHandlers[..]);
    }

    /** `MQTTSetMessageHandler`; a null `handler` removes the filter. */
    method SetMessageHandler(topicFilter: string, handler: Option<Handler>) returns (rc: ReturnCode)
      requires Valid()
      modifies messageHandlers
      ensures Valid()
      ensures (Subscribed(), rc) == SetStep(old(Subscribed()), topicFilter, handler)
      ensures handler == None ==>
                && Subscribed() == old(Subscribed()) - {topicFilter}
                && (rc == SUCCESS <==> topicFilter in old(Subscribed()))
      ensures handler != None ==>
                && (rc == SUCCESS <==> topicFilter in old(Subscribed()) || |old(Subscribed())| < 5)
                && Subscribed() == if rc == SUCCESS then old(Subscribed())[topicFilter := handler.value] else old(Subscribed())
    {
      rc := SetSlot(topicFilter, handler, messageHandlers[..]);
    }

    /** The same from the slots `s`. */
    method SetSlot(topicFilter: string, handler: Option<Handler>, ghost s: seq<Slot>) returns (rc: ReturnCode)
      requires Valid() && s == messageHandlers[..]
      modifies messageHandlers
      ensures Does(s, messageHandlers[..], topicFilter, handler, rc)
    {
      hide Does, Table, SetStep;
      rc := FAILURE;
      var i := 0;
      while i < MAX_MESSAGE_HANDLERS
        invariant 0 <= i <= MAX_MESSAGE_HANDLERS && messageHandlers[..] == s && rc == FAILURE
        invariant NotAmong(s, i, topicFilter)
      {
        if messageHandlers[i].topicFilter == Some(topicFilter) {
          if handler == None {
            messageHandlers[i] := Slot(None, None);
            Removes(s, i, topicFilter);
            assert messageHandlers[..] == s[i := Slot(None, None)];
          }
          rc := SUCCESS;
          break;
        }
        i := i + 1;
      }
      if handler != None {
        if rc == FAILURE {
          i := 0;
          while i < MAX_MESSAGE_HANDLERS
            invariant 0 <= i <= MAX_MESSAGE_HANDLERS && messageHandlers[..] == s && rc == FAILURE
            invariant forall j | 0 <= j < i :: s[j].topicFilter != None
          {
            if messageHandlers[i].topicFilter == None {
              rc := SUCCESS;
              break;
            }
            i := i + 1;
          }
        }
        if i < MAX_MESSAGE_HANDLERS {
          messageHandlers[i] := Slot(Some(topicFilter), handler);
          Stores(s, i, topicFilter, handler);
          assert messageHandlers[..] == s[i := Slot(Some(topicFilter), handler)];
        } else {
          IsFull(s, topicFilter, handler);
        }
      } else if rc == FAILURE {
        IsAbsent(s, topicFilter);
      }
    }

    /** `MQTTCleanSession`: only the filters are cleared. */
    method CleanSession()
      requires Valid()
      modifies messageHandlers
      ensures Valid() && Subscribed() == map[]
    {
      var i := 0;
      while i < MAX_MESSAGE_HANDLERS
        invariant 0 <= i <= MAX_MESSAGE_HANDLERS
        invariant forall j | 0 <= j < i :: messageHandlers[j].topicFilter == None
      {
        messageHandlers[i] := messageHandlers[i].(topicFilter := None);
        i := i + 1;
      }
      AllFree(messageHandlers[..]);
    }

    /** Any run of operations leaves the table at the map the run computes. */
    method Execute(ops: seq<Op>)
      requires Valid()
      modifies messageHandlers
      ensures Valid() && Subscribed() == Run(old(Subscribed()), ops)
    {
      var k := 0;
      while k < |ops|
        invariant 0 <= k <= |ops| && Valid()
        invariant Subscribed() == Run(old(Subscribed()), ops[..k])
      {
        match ops[k] {
          case Set(f, h) => var _ := SetMessageHandler(f, h);
          case Clean => CleanSession();
        }
        assert ops[..k + 1][..k] == ops[..k];
        k := k + 1;
      }
      assert ops[..k] == ops;
    }

    /**
      `deliverMessage`; `calls` lists the handlers called, in order: those of the slots `at`, which are the ones the message
      is meant for, or the default handler if there is none.
      */
    method DeliverMessage(topicName: string) returns (rc: ReturnCode, calls: seq<Handler>, ghost at: seq<nat>)
      requires Valid()
      ensures FiltersWellFormed(messageHandlers[..]) && TopicMatcher.WildcardFree(topicName)
              ==> Addressed(messageHandlers[..], topicName, at)
      ensures at == HitSlots(messageHandlers[..], topicName)
      ensures at != [] ==>
                |calls| == |at| && forall k | 0 <= k < |at| :: messageHandlers[at[k]].fp == Some(calls[k])
      ensures at == [] ==> calls == if defaultMessageHandler.Some? then [defaultMessageHandler.value] else []
      ensures rc == SUCCESS <==> calls != []
    {
      ghost var s := messageHandlers[..];
      rc, calls, at := CallHit(topicName, s);
      CalledAll(s, topicName, at, calls);
      hide *;
      if FiltersWellFormed(s) && TopicMatcher.WildcardFree(topicName) {
        HitsAreTheMatchingSubscriptions(s, topicName);
      }
      if rc == FAILURE && defaultMessageHandler != None {
        calls := calls + [defaultMessageHandler.value];
        rc := SUCCESS;
      }
    }

    /** The loop over the slots. */
    method CallHit(topicName: string, ghost s: seq<Slot>) returns (rc: ReturnCode, calls: seq<Handler>, ghost at: seq<nat>)
      requires Valid() && s == messageHandlers[..]
      ensures Called(s, topicName, |s|, at, calls) && (rc == SUCCESS <==> calls != [])
    {
      rc, calls, at := FAILURE, [], [];
      var i := 0;
      while i < MAX_MESSAGE_HANDLERS
        invariant 0 <= i <= MAX_MESSAGE_HANDLERS && Called(s, topicName, i, at, calls)
        invariant rc == SUCCESS <==> calls != []
      {
        hide *;
        var slot := messageHandlers[i];
        var matched := false;
        if slot.topicFilter != None {
          matched := topicName == slot.topicFilter.value;
          if !matched {
            matched := TopicMatcher.IsTopicMatched(slot.topicFilter.value, topicName);
          }
        }
        CalledMore(s, topicName, i, at, calls, matched);
        if matched && slot.fp != None {
          calls, at := calls + [slot.fp.value], at + [i];
          rc := SUCCESS;
        }
        i := i + 1;
      }
    }
  }

  /** The handlers `calls` of the slots hit among the first `n` have been called. */
  predicate Called(s: seq<Slot>, name: string, n: nat, at: seq<nat>, calls: seq<Handler>) {
    && n <= |s| && WellFormed(s) && at == HitSlots(s[..n], name)
    && |calls| == |at| && forall k | 0 <= k < |at| :: s[at[k]].fp == Some(calls[k])
  }

  lemma {:induction false} CalledAll(s: seq<Slot>, name: string, at: seq<nat>, calls: seq<Handler>)
    requires Called(s, name, |s|, at, calls)
    ensures WellFormed(s) && at == HitSlots(s, name)
    ensures |calls| == |at| && forall k | 0 <= k < |at| :: s[at[k]].fp == Some(calls[k])
  {
    assert s[..|s|] == s;
  }

  lemma {:induction false} CalledMore(s: seq<Slot>, name: string, n: nat, at: seq<nat>, calls: seq<Handler>, matched: bool)
    requires Called(s, name, n, at, calls) && n < |s|
    requires matched <==> && s[n].topicFilter.Some?
                          && (name == s[n].topicFilter.value || TopicMatcher.PointerMatch(s[n].topicFilter.value, name))
    ensures if matched then s[n].fp.Some? && Called(s, name, n + 1, at + [n], calls + [s[n].fp.value])
            else Called(s, name, n + 1, at, calls)
  {
    hide TopicMatcher.PointerMatch, Distinct;
    assert s[..n + 1][..n] == s[..n];
  }
}
