/**
  The sockets of app/eht_http_server/http_server.c: `httpServer_run` serves them in any order, all through one
  buffer, and each keeps its own transfer state.
  */
module HttpServer {
  import opened Bytes
  import opened Options
  import opened HttpPages

  const SOCKETS := 8

  /** One call of `httpServer_run`: the bytes of the request, if one is taken, and of the head of the response. */
  datatype Call = Call(seqnum: nat, event: Event, text: seq<byte>, head: seq<byte>)

  // ----- Sockets do not disturb each other

  /** What the status register of socket `i` said over a schedule. */
  function Own(schedule: seq<Call>, i: nat): seq<Event> {
    if schedule == [] then []
    else
      var last := schedule[|schedule| - 1];
      Own(schedule[..|schedule| - 1], i) + if last.seqnum == i then [last.event] else []
  }

  function Served(pages: seq<Page>, hs: seq<History>, schedule: seq<Call>): (gs: seq<History>)
    ensures |gs| == |hs|
  {
    if schedule == [] then hs
    else
      var before, last := Served(pages, hs, schedule[..|schedule| - 1]), schedule[|schedule| - 1];
      if last.seqnum < |hs| then before[last.seqnum := Turn(pages, before[last.seqnum], last.event)] else before
  }

  /** Whatever the interleaving, each socket fares as if it were served alone. */
  lemma {:induction false} ServedAlone(pages: seq<Page>, hs: seq<History>, schedule: seq<Call>, i: nat)
    requires i < |hs|
    ensures Served(pages, hs, schedule)[i] == Turns(pages, hs[i], Own(schedule, i))
    decreases |schedule|
  {
    if schedule != [] {
      hide Turn, Turns;
      var before, last := schedule[..|schedule| - 1], schedule[|schedule| - 1];
      ServedAlone(pages, hs, before, i);
      if last.seqnum == i {
        TurnsLast(pages, hs[i], Own(before, i), last.event);
        assert Own(schedule, i) == Own(before, i) + [last.event];
      } else {
        assert Own(schedule, i) == Own(before, i);
      }
    }
  }

  lemma {:induction false} TurnsLast(pages: seq<Page>, h: History, events: seq<Event>, e: Event)
    ensures Turns(pages, h, events + [e]) == Turn(pages, Turns(pages, h, events), e)
  {
    assert (events + [e])[..|events|] == events;
  }

  // ----- Stores behind the buffer

  /** A request is taken that fills the buffer, so that the end marker stored behind it does not fit. */
  predicate Overfills(c: Conn, call: Call) {
    c.status == Idle && call.event.Established? && call.event.request.Some? && |call.text| == 2048
  }

  /** How many end markers a schedule stores behind the buffer. */
  function Strays(pages: seq<Page>, hs: seq<History>, schedule: seq<Call>): nat {
    if schedule == [] then 0
    else
      var n := |schedule| - 1;
      Strays(pages, hs, schedule[..n]) + if OverfillsAt(pages, hs, schedule, n) then 1 else 0
  }

  predicate OverfillsAt(pages: seq<Page>, hs: seq<History>, schedule: seq<Call>, k: nat)
    requires k < |schedule|
  {
    schedule[k].seqnum < |hs| && Overfills(Served(pages, hs, schedule[..k])[schedule[k].seqnum].conn, schedule[k])
  }

  lemma {:induction false} StraysMore(pages: seq<Page>, hs: seq<History>, schedule: seq<Call>, k: nat)
    requires k < |schedule|
    ensures Strays(pages, hs, schedule[..k + 1])
            == Strays(pages, hs, schedule[..k]) + if OverfillsAt(pages, hs, schedule, k) then 1 else 0
    ensures OverfillsAt(pages, hs, schedule, k)
            <==> schedule[k].seqnum < |hs| && Overfills(Served(pages, hs, schedule[..k])[schedule[k].seqnum].conn, schedule[k])
  {
    hide Served, Overfills;
    assert schedule[..k + 1][..k] == schedule[..k];
  }

  lemma {:induction false} OverfilledBefore(pages: seq<Page>, hs: seq<History>, schedule: seq<Call>, n: nat, k: nat)
    requires k < n <= |schedule|
    ensures OverfillsAt(pages, hs, schedule[..n], k) == OverfillsAt(pages, hs, schedule, k)
  {
    hide Overfills, Served;
    assert schedule[..n][..k] == schedule[..k];
  }

  lemma {:induction false} NoStrays(pages: seq<Page>, hs: seq<History>)
    ensures Strays(pages, hs, []) == 0
  {}

  /** In every schedule all stores are inside the buffer if and only if no request taken is as long as the buffer. */
  lemma {:induction false} NoStrayExactlyWithoutFullRequest(pages: seq<Page>, hs: seq<History>, schedule: seq<Call>)
    ensures Strays(pages, hs, schedule) == 0 <==> forall k | 0 <= k < |schedule| :: !OverfillsAt(pages, hs, schedule, k)
    decreases |schedule|
  {
    hide *;
    NoStrays(pages, hs);
    if schedule != [] {
      var n := |schedule| - 1;
      NoStrayExactlyWithoutFullRequest(pages, hs, schedule[..n]);
      StraysMore(pages, hs, schedule, n);
      assert schedule[..n + 1] == schedule;
      forall k | 0 <= k < n ensures OverfillsAt(pages, hs, schedule[..n], k) == OverfillsAt(pages, hs, schedule, k) {
        OverfilledBefore(pages, hs, schedule, n, k);
      }
    }
  }

  // ----- What goes out on a socket

  function Wire(replies: seq<Reply>): seq<seq<byte>> {
    if replies == [] then [] else Wire(replies[..|replies| - 1]) + Last(replies).body
  }

  lemma {:induction false} WireGrown(replies: seq<Reply>, r: Reply, piece: seq<byte>)
    requires replies != [] && r.body == Grown(Last(replies).body, piece)
    ensures Wire(WithLast(replies, r)) == Grown(Wire(replies), piece)
  {
    assert WithLast(replies, r)[..|replies| - 1] == replies[..|replies| - 1];
  }

  /** The pieces of a turn are those the replies gain. */
  lemma {:induction false} TurnSends(pages: seq<Page>, h: History, e: Event)
    requires Good(pages, h)
    ensures Wire(Turn(pages, h, e).replies) == Grown(Wire(h.replies), Piece(pages, h.conn, e))
  {
    var rs, piece := Replies(pages, h, e), Piece(pages, h.conn, e);
    if Asked(pages, h.conn, e).Some? {
      assert rs[..|h.replies|] == h.replies;
    } else if h.conn.status == InProc && e.Established? {
      WireGrown(h.replies, Last(rs), piece);
    } else if h.conn.status == InProc && e == CloseWait {
      WireGrown(h.replies, Last(rs), piece);
    }
  }

  // ----- The server

  class HttpServer {
    const pages: seq<Page>
    const cnt: nat
    const HTTPSock_Num: array<byte>
    const HTTPSock_Status: array<Conn>
    const pHTTP_RX: array<byte>
    ghost var wires: seq<seq<seq<byte>>>
    ghost var strays: nat                     // stores just behind pHTTP_RX

    ghost predicate Shape()
      reads this, HTTPSock_Num
    {
      && Registered(pages) && cnt <= SOCKETS && |wires| == cnt
      && HTTPSock_Num.Length == HTTPSock_Status.Length == SOCKETS && pHTTP_RX.Length == DATA_BUF_SIZE
      && HTTPSock_Num != pHTTP_RX
      && forall i, j | 0 <= i < j < cnt :: HTTPSock_Num[i] != HTTPSock_Num[j]
    }

    ghost predicate Valid()
      reads this, HTTPSock_Num, HTTPSock_Status
    {
      Shape() && forall i | 0 <= i < cnt :: Settled(pages, HTTPSock_Status[i])
    }

    /** `httpServer_init` with `httpServer_Sockinit`, for distinct hardware sockets. */
    constructor (pages: seq<Page>, socklist: seq<byte>)
      requires Registered(pages) && |socklist| <= SOCKETS
      requires forall i, j | 0 <= i < j < |socklist| :: socklist[i] != socklist[j]
      ensures Valid() && this.pages == pages && cnt == |socklist| && HTTPSock_Num[..cnt] == socklist
      ensures forall i | 0 <= i < cnt :: HTTPSock_Status[i] == OPENED && wires[i] == []
      ensures forall i | 0 <= i < cnt :: var c := HTTPSock_Status[i]; c.status == Idle && c.start == c.len == c.offset == 0
      ensures strays == 0 && pHTTP_RX.Length == 2048
      ensures fresh(HTTPSock_Num) && fresh(HTTPSock_Status) && fresh(pHTTP_RX)
    {
      this.pages := pages;
      cnt := |socklist|;
      HTTPSock_Num := new byte[SOCKETS](_ => 0);
      HTTPSock_Status := new Conn[SOCKETS](_ => OPENED);
      pHTTP_RX := new byte[DATA_BUF_SIZE](_ => 0);
      wires, strays := seq(|socklist|, _ => []), 0;
      new;
      for i := 0 to |socklist|
        modifies HTTPSock_Num
        invariant forall k | 0 <= k < i :: HTTPSock_Num[k] == socklist[k]
      {
        HTTPSock_Num[i] := socklist[i];
      }
      assert HTTPSock_Num[..cnt] == socklist;
    }

    /** `getHTTPSocketNum` */
    method GetHttpSocketNum(seqnum: nat) returns (s: byte)
      requires Shape() && seqnum < cnt
      ensures s == HTTPSock_Num[seqnum]
    {
      s := HTTPSock_Num[seqnum];
    }

    /** `getHTTPSequenceNum`: for a socket in the list, the inverse of `GetHttpSocketNum`. */
    method GetHttpSequenceNum(socket: byte) returns (i: int)
      requires Shape()
      ensures -1 <= i < SOCKETS
      ensures i == -1 <==> socket !in HTTPSock_Num[..]
      ensures forall k | 0 <= k < cnt && HTTPSock_Num[k] == socket :: i == k
    {
      i := 0;
      while i < SOCKETS
        invariant 0 <= i <= SOCKETS && forall k | 0 <= k < i :: HTTPSock_Num[k] != socket
      {
        if HTTPSock_Num[i] == socket {
          return;
        }
        i := i + 1;
      }
      i := -1;
    }

    /** `find_userReg_webContent` */
    method FindUserRegWebContent(name: string) returns (found: Option<nat>)
      ensures found == Find(pages, name)
    {
      var i := 0;
      while i < |pages|
        invariant 0 <= i <= |pages| && forall j | 0 <= j < i :: pages[j].name != name
      {
        if name == pages[i].name {
          FindIsFirst(pages, name, i);
          return Some(i);
        }
        i := i + 1;
      }
      return None;
    }

    /**
      `read_userReg_webContent`: `strncpy` from the page, padding past its end, and the end of a string. The guard lets the
      number just past the last page through, whose entry is `unset`: there is nothing to copy from.
      */
    method ReadUserRegWebContent(num: nat, offset: nat, size: nat) returns (ret: nat, unset: bool)
      requires Shape() && size <= PIECE
      requires num < |pages| ==> offset <= |pages[num].content|
      modifies pHTTP_RX
      ensures unset <==> num == |pages|
      ensures num >= |pages| ==> ret == 0 && pHTTP_RX[..] == old(pHTTP_RX[..])
      ensures num < |pages| ==>
                var content := pages[num].content;
                && ret == (if offset + size < |content| then size else |content| - offset)
                && (forall k | 0 <= k < size :: pHTTP_RX[k] == if offset + k < |content| then content[offset + k] else 0)
                && pHTTP_RX[size] == 0
    {
      unset := false;
      if num > |pages| {
        return 0, false;
      }
      if num == |pages| {
        return 0, true;
      }
      var content := pages[num].content + [0];
      assert forall k | 0 <= k < |content| - 1 :: content[k] in pages[num].content;
      var i := 0;
      while i < size && content[offset + i] != 0
        invariant 0 <= i <= size && offset + i < |content|
        invariant forall k | 0 <= k < i :: pHTTP_RX[k] == content[offset + k] != 0
      {
        pHTTP_RX[i] := content[offset + i];
        i := i + 1;
      }
      ghost var copied := i;
      while i < size
        invariant copied <= i <= size
        invariant forall k | 0 <= k < copied :: pHTTP_RX[k] == content[offset + k] != 0
        invariant forall k | copied <= k < i :: pHTTP_RX[k] == 0
      {
        pHTTP_RX[i] := 0;
        i := i + 1;
      }
      pHTTP_RX[size] := 0;
      ret := 0;
      while pHTTP_RX[ret] != 0
        invariant 0 <= ret <= copied
        decreases copied - ret
      {
        ret := ret + 1;
      }
    }

    /** `send`, which takes the whole piece. */
    method Send(ghost seqnum: nat, len: nat)
      requires Shape() && seqnum < cnt && 0 < len <= PIECE
      modifies this`wires
      ensures Shape() && wires == old(wires)[seqnum := old(wires[seqnum]) + [pHTTP_RX[..len]]]
    {
      wires := wires[seqnum := wires[seqnum] + [pHTTP_RX[..len]]];
    }

    /** `send_http_response_body`, for the hardware socket of entry `i`. */
    method SendHttpResponseBody(s: byte, start_addr: nat, file_len: nat, ghost i: nat)
      requires Shape() && i < cnt && HTTPSock_Num[i] == s && Settled(pages, HTTPSock_Status[i])
      requires var c := HTTPSock_Status[i];
               || c.status == InProc
               || (c.status == Idle && start_addr < |pages| && file_len == |pages[start_addr].content|)
      modifies this`wires, HTTPSock_Status, pHTTP_RX
      ensures Shape()
      ensures HTTPSock_Status[..] ==
              old(HTTPSock_Status[..])[i := AfterPiece(old(HTTPSock_Status[i]), start_addr, file_len)]
      ensures wires ==
              old(wires)[i := Grown(old(wires[i]), PieceOf(pages, old(HTTPSock_Status[i]), start_addr, file_len))]
    {
      var seqnum := GetHttpSequenceNum(s);
      if seqnum == -1 {
        return;
      }
      var send_len: nat;
      var flag_datasend_end := false;
      if HTTPSock_Status[seqnum].len == 0 {
        if file_len > PIECE {
          HTTPSock_Status[seqnum] := HTTPSock_Status[seqnum].(start := start_addr, len := file_len);
          send_len := PIECE;
        } else {
          send_len := file_len;
        }
      } else {
        send_len := HTTPSock_Status[seqnum].len - HTTPSock_Status[seqnum].offset;
        if send_len > PIECE {
          send_len := PIECE;
        } else {
          flag_datasend_end := true;
        }
      }
      if HTTPSock_Status[seqnum].storage == CodeFlash {
        var addr := if HTTPSock_Status[seqnum].len != 0 then HTTPSock_Status[seqnum].start else start_addr;
        var _, unset := ReadUserRegWebContent(addr, HTTPSock_Status[seqnum].offset, send_len);
        assert !unset;
        assert pHTTP_RX[..send_len] == PieceOf(pages, old(HTTPSock_Status[i]), start_addr, file_len);
      } else {
        send_len := 0;
      }
      if send_len != 0 {
        Send(seqnum, send_len);
      } else {
        flag_datasend_end := true;
      }
      if flag_datasend_end {
        HTTPSock_Status[seqnum] := HTTPSock_Status[seqnum].(start := 0, len := 0, offset := 0);
      } else {
        HTTPSock_Status[seqnum] := HTTPSock_Status[seqnum].(offset := HTTPSock_Status[seqnum].offset + send_len);
      }
    }

    /** Text received or built at the front of the shared buffer. */
    method Put(text: seq<byte>)
      requires Shape() && |text| <= DATA_BUF_SIZE
      modifies pHTTP_RX
      ensures pHTTP_RX[..] == text + old(pHTTP_RX[..])[|text|..]
    {
      forall k | 0 <= k < |text| {
        pHTTP_RX[k] := text[k];
      }
    }

    /** The end marker behind a request of `len` bytes, which a full buffer has no place for. */
    method PutEnd(len: nat)
      requires Shape() && len <= DATA_BUF_SIZE
      modifies this`strays, pHTTP_RX
      ensures strays == old(strays) + if len == DATA_BUF_SIZE then 1 else 0
      ensures len < DATA_BUF_SIZE ==> pHTTP_RX[..] == old(pHTTP_RX[..])[len := 0]
    {
      if len < pHTTP_RX.Length {
        pHTTP_RX[len] := 0;
      } else {
        strays := strays + 1;
      }
    }

    /** `http_process_handler`, for the hardware socket of entry `i`; `head` is the head of the response. */
    method HttpProcessHandler(s: byte, request: Request, head: seq<byte>, ghost i: nat)
      requires Shape() && i < cnt && HTTPSock_Num[i] == s && |head| <= DATA_BUF_SIZE
      requires HTTPSock_Status[i].status == Idle && Settled(pages, HTTPSock_Status[i])
      modifies this`wires, HTTPSock_Status, pHTTP_RX
      ensures Shape()
      ensures HTTPSock_Status[..] ==
              old(HTTPSock_Status[..])[i := Answered(pages, old(HTTPSock_Status[i]), Established(Some(request)))]
      ensures wires ==
              old(wires)[i := Grown(old(wires[i]), Piece(pages, old(HTTPSock_Status[i]), Established(Some(request))))]
    {
      hide AfterPiece, PieceOf;
      var seqnum := GetHttpSequenceNum(s);
      if seqnum == -1 {
        return;
      }
      Put(head);
      if request.Get? {
        var page := FindUserRegWebContent(Named(request.name));
        if page.Some? {
          HTTPSock_Status[seqnum] := HTTPSock_Status[seqnum].(storage := CodeFlash);
          SendHttpResponseBody(s, page.value, |pages[page.value].content|, i);
        }
      }
    }

    /** The idle state's branch of `httpServer_run`. */
    method TakeRequest(s: byte, request: Request, text: seq<byte>, head: seq<byte>, seqnum: nat)
      requires Shape() && seqnum < cnt && HTTPSock_Num[seqnum] == s && |text| <= DATA_BUF_SIZE && |head| <= DATA_BUF_SIZE
      requires HTTPSock_Status[seqnum].status == Idle && Settled(pages, HTTPSock_Status[seqnum])
      modifies this`wires, this`strays, HTTPSock_Status, pHTTP_RX
      ensures Shape() && strays == old(strays) + if |text| == DATA_BUF_SIZE then 1 else 0
      ensures HTTPSock_Status[..] ==
              old(HTTPSock_Status[..])[seqnum := Step(pages, old(HTTPSock_Status[seqnum]), Established(Some(request)))]
      ensures wires == old(wires)[seqnum :=
                Grown(old(wires[seqnum]), Piece(pages, old(HTTPSock_Status[seqnum]), Established(Some(request))))]
    {
      hide Answered, Piece, Grown, Registered, Settled;
      Put(text);
      PutEnd(|text|);
      HttpProcessHandler(s, request, head, seqnum);
      if HTTPSock_Status[seqnum].len > 0 {
        HTTPSock_Status[seqnum] := HTTPSock_Status[seqnum].(status := InProc);
      } else {
        HTTPSock_Status[seqnum] := HTTPSock_Status[seqnum].(status := Done);
      }
    }

    /** `httpServer_run` */
    method HttpServerRun(call: Call)
      requires Valid() && call.seqnum < cnt && |call.text| <= DATA_BUF_SIZE && |call.head| <= DATA_BUF_SIZE
      modifies this`wires, this`strays, HTTPSock_Status, pHTTP_RX
      ensures Valid()
      ensures HTTPSock_Status[..] ==
              old(HTTPSock_Status[..])[call.seqnum := Step(pages, old(HTTPSock_Status[call.seqnum]), call.event)]
      ensures wires ==
              old(wires)[call.seqnum :=
                Grown(old(wires[call.seqnum]), Piece(pages, old(HTTPSock_Status[call.seqnum]), call.event))]
      ensures call.event == CloseWait || (call.event.Established? && old(HTTPSock_Status[call.seqnum].status) == Done) ==>
                var c := HTTPSock_Status[call.seqnum]; c.status == Idle && c.start == 0 && c.len == 0 && c.offset == 0
      ensures strays == old(strays) + if Overfills(old(HTTPSock_Status[call.seqnum]), call) then 1 else 0
    {
      hide AfterPiece, PieceOf, Find, Registered;
      var seqnum := call.seqnum;
      var s := GetHttpSocketNum(seqnum);
      ghost var c := HTTPSock_Status[seqnum];
      StepStaysSettled(pages, c, call.event);
      match call.event {
        case Established(request) =>
          match HTTPSock_Status[seqnum].status {
            case Idle =>
              if request.Some? {
                TakeRequest(s, request.value, call.text, call.head, seqnum);
              }
            case InProc =>
              SendHttpResponseBody(s, 0, 0, seqnum);
              if HTTPSock_Status[seqnum].len == 0 {
                HTTPSock_Status[seqnum] := HTTPSock_Status[seqnum].(status := Done);
              }
            case Done =>
              HTTPSock_Status[seqnum] := HTTPSock_Status[seqnum].(len := 0, offset := 0, start := 0, status := Idle);
          }
        case CloseWait =>
          HTTPSock_Status[seqnum] := HTTPSock_Status[seqnum].(len := 0, offset := 0, start := 0, status := Idle);
        case Closed =>
        case Other =>
      }
    }

    /** The server's histories are `hs`. */
    ghost predicate Records(hs: seq<History>)
      requires Valid()
      reads this, HTTPSock_Num, HTTPSock_Status
    {
      |hs| == cnt && forall i | 0 <= i < cnt ::
        Good(pages, hs[i]) && hs[i].conn == HTTPSock_Status[i] && Wire(hs[i].replies) == wires[i]
    }

    /** The turns of the sockets in any order. */
    method Serve(schedule: seq<Call>, ghost hs: seq<History>)
      requires Valid() && Records(hs)
      requires forall call <- schedule :: call.seqnum < cnt && |call.text| <= DATA_BUF_SIZE && |call.head| <= DATA_BUF_SIZE
      modifies this`wires, this`strays, HTTPSock_Status, pHTTP_RX
      ensures Valid() && Records(Served(pages, hs, schedule))
      ensures strays == old(strays) + Strays(pages, hs, schedule)
    {
      for k := 0 to |schedule|
        invariant Valid() && Records(Served(pages, hs, schedule[..k]))
        invariant strays == old(strays) + Strays(pages, hs, schedule[..k])
      {
        hide *;
        ghost var gs := Served(pages, hs, schedule[..k]);
        ServedMore(pages, hs, schedule, k);
        StraysMore(pages, hs, schedule, k);
        ServeOne(schedule[k], gs);
      }
      assert schedule[..|schedule|] == schedule;
    }

    /** One turn of one socket. */
    method ServeOne(call: Call, ghost gs: seq<History>)
      requires Valid() && Records(gs)
      requires call.seqnum < cnt && |call.text| <= DATA_BUF_SIZE && |call.head| <= DATA_BUF_SIZE
      modifies this`wires, this`strays, HTTPSock_Status, pHTTP_RX
      ensures Valid() && |gs| == cnt
      ensures Records(gs[call.seqnum := Turn(pages, gs[call.seqnum], call.event)])
      ensures strays == old(strays) + if Overfills(gs[call.seqnum].conn, call) then 1 else 0
    {
      hide Wire, Good, Step, Piece, Grown, Settled, Registered, Overfills;
      TurnKeepsGood(pages, gs[call.seqnum], call.event);
      TurnSends(pages, gs[call.seqnum], call.event);
      HttpServerRun(call);
    }
  }

  lemma {:induction false} ServedMore(pages: seq<Page>, hs: seq<History>, schedule: seq<Call>, k: nat)
    requires k < |schedule|
    ensures var gs, call := Served(pages, hs, schedule[..k]), schedule[k];
            && call in schedule
            && Served(pages, hs, schedule[..k + 1])
               == if call.seqnum < |hs| then gs[call.seqnum := Turn(pages, gs[call.seqnum], call.event)] else gs
  {
    hide Turn;
    assert schedule[..k + 1][..k] == schedule[..k];
  }

  /** However the sockets' turns interleave, each socket's wire carries its own replies, each the page asked for. */
  lemma {:induction false} EverySocketSendsItsPages(pages: seq<Page>, hs: seq<History>, schedule: seq<Call>, i: nat)
    requires i < |hs| && forall h <- hs :: h == START
    ensures Delivered(pages, Own(schedule, i), Served(pages, hs, schedule)[i])
  {
    hide *;
    assert hs[i] in hs;
    ServedAlone(pages, hs, schedule, i);
    EveryReplyIsWhole(pages, Own(schedule, i));
  }
}
