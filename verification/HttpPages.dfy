/**
  The body transfer of app/eht_http_server/http_server.c, one connection at a time: pages kept in code flash go out
  in pieces of at most 2047 bytes, one piece a turn, and the transfer state says where the next piece starts.
  */
module HttpPages {
  import opened Bytes
  import opened Options

  const DATA_BUF_SIZE := 2048

  /** The longest piece: `DATA_BUF_SIZE - 1`, the last byte of the buffer being the end of a string. */
  const PIECE := DATA_BUF_SIZE - 1

  /** A registered page; its length is that of a C string. */
  datatype Page = Page(name: string, content: seq<byte>)

  predicate Registered(pages: seq<Page>) {
    forall p <- pages :: 0 !in p.content
  }

  datatype Status = Idle | InProc | Done

  datatype Storage = NoStorage | CodeFlash

  /** One entry of `HTTPSock_Status`. */
  datatype Conn = Conn(status: Status, start: nat, len: nat, offset: nat, storage: Storage)

  const OPENED := Conn(Idle, 0, 0, 0, NoStorage)

  /** A request as parsed: a page asked for by GET or HEAD, or anything answered without a transfer. */
  datatype Request = Get(name: string) | Rest

  /** What the socket's status register says when its turn comes. */
  datatype Event = Established(request: Option<Request>) | CloseWait | Closed | Other

  // ----- Looking up a page

  function Named(name: string): string {
    if name == "/" then "index.html"
    else if name == "m" then "m/index.html"
    else if name == "mobile" then "mobile/index.html"
    else name
  }

  /** What page a request's name stands for. */
  predicate StandsFor(name: string, page: string) {
    || (name == "/" && page == "index.html")
    || (name in {"m", "mobile"} && page == name + "/index.html")
    || (name !in {"/", "m", "mobile"} && page == name)
  }

  lemma {:induction false} NamedStandsFor(name: string, page: string)
    ensures Named(name) == page <==> StandsFor(name, page)
  {
    assert "m" + "/index.html" == "m/index.html" && "mobile" + "/index.html" == "mobile/index.html";
  }

  /** `i` is the first page of that name. */
  predicate IsFirst(pages: seq<Page>, name: string, i: nat) {
    i < |pages| && pages[i].name == name && forall j | 0 <= j < i :: pages[j].name != name
  }

  function Find(pages: seq<Page>, name: string): (found: Option<nat>)
    ensures found.Some? ==> IsFirst(pages, name, found.value)
    ensures found.None? ==> forall i | 0 <= i < |pages| :: pages[i].name != name
  {
    if pages == [] then None
    else
      var n := |pages| - 1;
      match Find(pages[..n], name)
      case Some(i) => Some(i)
      case None => if pages[n].name == name then Some(n) else None
  }

  lemma {:induction false} FindIsFirst(pages: seq<Page>, name: string, i: nat)
    ensures Find(pages, name) == Some(i) <==> IsFirst(pages, name, i)
  {
    var f := Find(pages, name);
    if IsFirst(pages, name, i) {
      assert f.Some? && !(f.value < i) && !(i < f.value);
    }
  }

  // ----- One piece

  /** How much the body sender sends: nothing without storage, else what is left, a piece at most. */
  function SendLen(c: Conn, n: nat): (k: nat)
    ensures k <= PIECE
  {
    if c.storage == NoStorage then 0
    else
      var left := if c.len == 0 then n else if c.offset <= c.len then c.len - c.offset else 0;
      if left > PIECE then PIECE else left
  }

  /** A transfer longer than a piece is entered in the state when its first part goes out. */
  function Begun(c: Conn, start: nat, n: nat): Conn {
    if c.len == 0 && n > PIECE then c.(start := start, len := n) else c
  }

  /** The bytes of the piece `send_http_response_body` sends for a page of `n` bytes, or for the rest of one. */
  function PieceOf(pages: seq<Page>, c: Conn, start: nat, n: nat): seq<byte> {
    var from := if Begun(c, start, n).len != 0 then Begun(c, start, n).start else start;
    if from < |pages| && c.offset + SendLen(c, n) <= |pages[from].content|
    then pages[from].content[c.offset..c.offset + SendLen(c, n)]
    else []
  }

  predicate Ends(c: Conn, n: nat) {
    SendLen(c, n) == 0 || (c.len != 0 && c.len - c.offset <= PIECE)
  }

  function AfterPiece(c: Conn, start: nat, n: nat): Conn {
    if Ends(c, n) then Begun(c, start, n).(start := 0, len := 0, offset := 0)
    else Begun(c, start, n).(offset := c.offset + SendLen(c, n))
  }

  // ----- One turn

  function Cleared(c: Conn): Conn {
    c.(status := Idle, start := 0, len := 0, offset := 0)
  }

  function Asked(pages: seq<Page>, c: Conn, e: Event): (p: Option<nat>)
    ensures p.Some? ==> p.value < |pages|
  {
    if c.status == Idle && e.Established? && e.request.Some? && e.request.value.Get?
    then Find(pages, Named(e.request.value.name))
    else None
  }

  /** The transfer state when `http_process_handler` has answered a request. */
  function Answered(pages: seq<Page>, c: Conn, e: Event): Conn {
    match Asked(pages, c, e)
    case Some(p) => AfterPiece(c.(storage := CodeFlash), p, |pages[p].content|)
    case None => c
  }

  /** The transfer state after one `httpServer_run`. */
  function Step(pages: seq<Page>, c: Conn, e: Event): Conn {
    match e
    case CloseWait => Cleared(c)
    case Closed => c
    case Other => c
    case Established(request) =>
      match c.status
      case Idle =>
        if request.None? then c
        else
          var d := Answered(pages, c, e);
          d.(status := if d.len > 0 then InProc else Done)
      case InProc =>
        var d := AfterPiece(c, 0, 0);
        if d.len == 0 then d.(status := Done) else d
      case Done => Cleared(c)
  }

  /** The piece of a body sent in that turn; empty when there is none. */
  function Piece(pages: seq<Page>, c: Conn, e: Event): seq<byte> {
    match Asked(pages, c, e)
    case Some(p) => PieceOf(pages, c.(storage := CodeFlash), p, |pages[p].content|)
    case None => if e.Established? && c.status == InProc then PieceOf(pages, c, 0, 0) else []
  }

  // ----- What a client sees

  /** The answer to one page request: asked on TCP connection `link` of the socket, and the pieces sent for it. */
  datatype Reply = Reply(page: nat, link: nat, body: seq<seq<byte>>, cut: bool, astray: bool)

  datatype History = History(conn: Conn, link: nat, replies: seq<Reply>)

  function Flat(body: seq<seq<byte>>): seq<byte> {
    if body == [] then [] else Flat(body[..|body| - 1]) + body[|body| - 1]
  }

  function Grown(body: seq<seq<byte>>, piece: seq<byte>): seq<seq<byte>> {
    if piece == [] then body else body + [piece]
  }

  function Last(replies: seq<Reply>): Reply
    requires replies != []
  {
    replies[|replies| - 1]
  }

  function WithLast(replies: seq<Reply>, r: Reply): seq<Reply>
    requires replies != []
  {
    replies[..|replies| - 1] + [r]
  }

  /** The replies after a turn: a page request opens one, the later turns of its transfer add to it. */
  function Replies(pages: seq<Page>, h: History, e: Event): seq<Reply> {
    var piece := Piece(pages, h.conn, e);
    match Asked(pages, h.conn, e)
    case Some(p) => h.replies + [Reply(p, h.link, Grown([], piece), false, false)]
    case None =>
      if h.conn.status != InProc || h.replies == [] then h.replies
      else
        var r := Last(h.replies);
        match e
        case Established(_) => WithLast(h.replies, r.(body := Grown(r.body, piece), astray := r.astray || r.link != h.link))
        case CloseWait => WithLast(h.replies, r.(cut := true))
        case Closed => h.replies
        case Other => h.replies
  }

  /** A turn; SOCK_CLOSED opens the socket again for the next TCP connection. */
  function Turn(pages: seq<Page>, h: History, e: Event): History {
    History(Step(pages, h.conn, e), if e == Closed then h.link + 1 else h.link, Replies(pages, h, e))
  }

  function Turns(pages: seq<Page>, h: History, events: seq<Event>): History {
    if events == [] then h
    else Turn(pages, Turns(pages, h, events[..|events| - 1]), events[|events| - 1])
  }

  const START := History(OPENED, 0, [])

  // ----- What every run keeps

  /** Between requests the transfer state is zero; during a transfer it points inside the page. */
  predicate Settled(pages: seq<Page>, c: Conn) {
    match c.status
    case Idle => c.start == c.len == c.offset == 0
    case Done => c.start == c.len == 0
    case InProc =>
      c.storage == CodeFlash && c.start < |pages| && c.len == |pages[c.start].content| && 0 < c.offset < c.len
  }

  lemma {:induction false} StepStaysSettled(pages: seq<Page>, c: Conn, e: Event)
    requires Settled(pages, c)
    ensures Settled(pages, Step(pages, c, e))
  {}

  /** The state is zero whenever a request is taken, whatever the socket reported before. */
  lemma {:induction false} RunsStaySettled(pages: seq<Page>, h: History, events: seq<Event>)
    requires Settled(pages, h.conn)
    ensures Settled(pages, Turns(pages, h, events).conn)
    decreases |events|
  {
    if events != [] {
      RunsStaySettled(pages, h, events[..|events| - 1]);
      StepStaysSettled(pages, Turns(pages, h, events[..|events| - 1]).conn, events[|events| - 1]);
    }
  }

  /** ceil(n / 2047) */
  function Pieces(n: nat): nat {
    (n + 2046) / 2047
  }

  /** The whole page, in the fewest pieces there can be, none of them empty. */
  predicate Whole(pages: seq<Page>, r: Reply)
    requires r.page < |pages|
  {
    Flat(r.body) == pages[r.page].content && |r.body| == Pieces(|pages[r.page].content|)
  }

  /** A beginning of the page, in full pieces. */
  predicate Begins(pages: seq<Page>, r: Reply)
    requires r.page < |pages|
  {
    Flat(r.body) <= pages[r.page].content && |Flat(r.body)| == 2047 * |r.body|
  }

  predicate Sound(pages: seq<Page>, r: Reply) {
    r.page < |pages| && [] !in r.body && (if r.cut then Begins(pages, r) else Whole(pages, r))
  }

  /** The reply that the transfer state `c` is still serving. */
  predicate Serving(pages: seq<Page>, c: Conn, r: Reply) {
    r.page < |pages| && c.start == r.page && [] !in r.body && !r.cut && Begins(pages, r) && c.offset == |Flat(r.body)|
  }

  ghost predicate Good(pages: seq<Page>, h: History) {
    && Settled(pages, h.conn)
    && (h.conn.status == InProc ==> h.replies != [] && Serving(pages, h.conn, Last(h.replies)))
    && forall i | 0 <= i < |h.replies| :: (h.conn.status == InProc && i == |h.replies| - 1) || Sound(pages, h.replies[i])
  }

  lemma {:induction false} FlatGrown(body: seq<seq<byte>>, piece: seq<byte>)
    ensures Flat(Grown(body, piece)) == Flat(body) + piece
  {
    if piece != [] {
      assert (body + [piece])[..|body|] == body;
    }
  }

  /** The first piece of a page. */
  lemma {:induction false} FirstPiece(pages: seq<Page>, c: Conn, p: nat)
    requires p < |pages| && Settled(pages, c) && c.status == Idle
    ensures var n, d := |pages[p].content|, c.(storage := CodeFlash);
            var piece, after := PieceOf(pages, d, p, n), AfterPiece(d, p, n);
            && piece == (if n > PIECE then pages[p].content[..PIECE] else pages[p].content)
            && after.storage == CodeFlash
            && (if n > PIECE then after.start == p && after.len == n && after.offset == PIECE
                else after.start == after.len == 0)
  {}

  /** A later piece. */
  lemma {:induction false} LaterPiece(pages: seq<Page>, c: Conn)
    requires Settled(pages, c) && c.status == InProc
    ensures var page, after := pages[c.start].content, AfterPiece(c, 0, 0);
            var k := if c.len - c.offset > PIECE then PIECE else c.len - c.offset;
            && PieceOf(pages, c, 0, 0) == page[c.offset..c.offset + k]
            && after.storage == CodeFlash
            && (if c.len - c.offset > PIECE
                then after.start == c.start && after.len == c.len && after.offset == c.offset + PIECE
                else after.start == after.len == after.offset == 0)
  {}

  /** A reply just opened is whole, or has begun. */
  lemma {:induction false} Opens(pages: seq<Page>, c: Conn, p: nat, r: Reply)
    requires p < |pages| && Settled(pages, c) && c.status == Idle && r.page == p && !r.cut
    requires r.body == Grown([], PieceOf(pages, c.(storage := CodeFlash), p, |pages[p].content|))
    ensures var d := AfterPiece(c.(storage := CodeFlash), p, |pages[p].content|);
            if d.len > 0 then Serving(pages, d, r) else Sound(pages, r)
  {
    FirstPiece(pages, c, p);
    FlatGrown([], PieceOf(pages, c.(storage := CodeFlash), p, |pages[p].content|));
  }

  /** A reply being sent gets longer, and whole with its last piece. */
  lemma {:induction false} GoesOn(pages: seq<Page>, c: Conn, was: Reply, r: Reply)
    requires Settled(pages, c) && c.status == InProc && Serving(pages, c, was)
    requires r.page == was.page && !r.cut && r.body == Grown(was.body, PieceOf(pages, c, 0, 0))
    ensures var d := AfterPiece(c, 0, 0);
            if d.len > 0 then Serving(pages, d, r) else Sound(pages, r)
  {
    var piece, page := PieceOf(pages, c, 0, 0), pages[c.start].content;
    var k := if c.len - c.offset > PIECE then PIECE else c.len - c.offset;
    LaterPiece(pages, c);
    FlatGrown(was.body, piece);
    hide PieceOf, AfterPiece, Flat, Pieces;
    assert r.body == was.body + [piece];
    Lengthened(page, c.offset, k, Flat(was.body));
    FewestPieces(|page|, |was.body|);
  }

  lemma {:induction false} Lengthened(page: seq<byte>, offset: nat, k: nat, sent: seq<byte>)
    requires sent <= page && |sent| == offset && offset + k <= |page|
    ensures sent + page[offset..offset + k] == page[..offset + k]
    ensures page[..offset + k] <= page && (offset + k == |page| ==> page[..offset + k] == page)
  {}

  lemma {:induction false} FewestPieces(n: nat, k: nat)
    ensures PIECE * k < n <= PIECE * k + PIECE ==> Pieces(n) == k + 1
    ensures PIECE * (k + 1) == PIECE * k + PIECE
  {}

  lemma {:induction false} TurnKeepsGood(pages: seq<Page>, h: History, e: Event)
    requires Good(pages, h)
    ensures Good(pages, Turn(pages, h, e))
  {
    hide AfterPiece, PieceOf, Flat, Whole, Find, Named;
    var c := h.conn;
    StepStaysSettled(pages, c, e);
    match Asked(pages, c, e) {
      case Some(p) =>
        Opens(pages, c, p, Last(Replies(pages, h, e)));
      case None =>
        if e.Established? && c.status == InProc {
          GoesOn(pages, c, Last(h.replies), Last(Replies(pages, h, e)));
        }
    }
  }

  lemma {:induction false} RunsStayGood(pages: seq<Page>, h: History, events: seq<Event>)
    requires Good(pages, h)
    ensures Good(pages, Turns(pages, h, events))
    decreases |events|
  {
    if events != [] {
      RunsStayGood(pages, h, events[..|events| - 1]);
      TurnKeepsGood(pages, Turns(pages, h, events[..|events| - 1]), events[|events| - 1]);
    }
  }

  lemma {:induction false} StartIsGood(pages: seq<Page>)
    ensures Good(pages, START)
  {}

  // ----- Which connection a piece goes out on

  /** No piece has gone out on another connection than its request came on, and none will with the next turn. */
  predicate AtHome(h: History) {
    && (forall r <- h.replies :: !r.astray)
    && (h.conn.status == InProc ==> h.replies != [] && Last(h.replies).link == h.link)
  }

  /** SOCK_CLOSED is not reported in the middle of a transfer. */
  predicate Orderly(pages: seq<Page>, h: History, events: seq<Event>) {
    events == [] ||
    var (before, e) := (events[..|events| - 1], events[|events| - 1]);
    Orderly(pages, h, before) && (e == Closed ==> Turns(pages, h, before).conn.status != InProc)
  }

  lemma {:induction false} TurnStaysHome(pages: seq<Page>, h: History, e: Event)
    requires Good(pages, h) && AtHome(h) && (e == Closed ==> h.conn.status != InProc)
    ensures AtHome(Turn(pages, h, e))
  {
    var rs := Replies(pages, h, e);
    assert Asked(pages, h.conn, e).None? && h.conn.status == InProc ==> !Last(h.replies).astray;
    forall r <- rs ensures !r.astray {
      assert r in h.replies || r == Last(rs);
    }
    assert Asked(pages, h.conn, e).Some? ==> Last(rs).link == h.link;
  }

  lemma {:induction false} OrderlyStaysHome(pages: seq<Page>, h: History, events: seq<Event>)
    requires Good(pages, h) && AtHome(h) && Orderly(pages, h, events)
    ensures AtHome(Turns(pages, h, events))
    decreases |events|
  {
    if events != [] {
      var before := events[..|events| - 1];
      OrderlyStaysHome(pages, h, before);
      RunsStayGood(pages, h, before);
      TurnStaysHome(pages, Turns(pages, h, before), events[|events| - 1]);
    }
  }

  lemma {:induction false} OnlyCloseWaitCuts(pages: seq<Page>, h: History, events: seq<Event>)
    requires CloseWait !in events && forall r <- h.replies :: !r.cut
    ensures forall r <- Turns(pages, h, events).replies :: !r.cut
    decreases |events|
  {
    if events != [] {
      var before := events[..|events| - 1];
      OnlyCloseWaitCuts(pages, h, before);
      var g := Turns(pages, h, before);
      assert events[|events| - 1] in events;
      forall r <- Turns(pages, h, events).replies ensures !r.cut {
        assert r in g.replies || r == Last(Turns(pages, h, events).replies);
        assert g.replies != [] ==> Last(g.replies) in g.replies;
      }
    }
  }

  /**
    What `events` have made of a socket: each reply but the one being sent is the whole page in ceil(n / 2047)
    non-empty pieces, or a beginning of it when the peer closed; if no transfer meets SOCK_CLOSED, every piece went
    out on the connection of its request; and while no request is being answered the transfer state is zero.
    */
  ghost predicate Delivered(pages: seq<Page>, events: seq<Event>, h: History) {
    && (h.conn.status == Idle ==> h.conn.start == h.conn.len == h.conn.offset == 0)
    && (forall i | 0 <= i < |h.replies| && !(h.conn.status == InProc && i == |h.replies| - 1) ::
          Sound(pages, h.replies[i]))
    && (h.conn.status == InProc ==> h.replies != [] && Serving(pages, h.conn, Last(h.replies)))
    && (CloseWait !in events ==> forall r <- h.replies :: !r.cut)
    && (Orderly(pages, START, events) ==> forall r <- h.replies :: !r.astray)
  }

  /** Every run from start-up delivers its pages. */
  lemma {:induction false} EveryReplyIsWhole(pages: seq<Page>, events: seq<Event>)
    ensures Delivered(pages, events, Turns(pages, START, events))
  {
    StartIsGood(pages);
    RunsStayGood(pages, START, events);
    if CloseWait !in events {
      OnlyCloseWaitCuts(pages, START, events);
    }
    if Orderly(pages, START, events) {
      OrderlyStaysHome(pages, START, events);
    }
  }

  /**
    What SOCK_CLOSED leaves behind: the first page request on the next connection is answered exactly if the socket
    was idle. After a transfer it is taken for nothing, and the connection dropped; in a transfer it is taken as a
    turn to send, on the new connection, more of the page the old one had asked for.
    */
  lemma {:induction false} NextConnection(pages: seq<Page>, h: History, name: string)
    requires Good(pages, h) && AtHome(h) && Find(pages, Named(name)).Some?
    ensures var g := Turn(pages, Turn(pages, h, Closed), Established(Some(Get(name))));
            && (g.replies != [] && Last(g.replies).link == h.link + 1 && |g.replies| == |h.replies| + 1
                <==> h.conn.status == Idle)
            && (h.conn.status == Done ==>
                  g.replies == h.replies && g.conn.status == Idle && g.conn.start == g.conn.len == g.conn.offset == 0)
            && (h.conn.status == InProc ==>
                  |g.replies| == |h.replies| && Last(g.replies).astray && Flat(Last(h.replies).body) < Flat(Last(g.replies).body))
  {
    TurnKeepsGood(pages, h, Closed);
    if h.conn.status == InProc {
      LaterPiece(pages, h.conn);
      FlatGrown(Last(h.replies).body, PieceOf(pages, h.conn, 0, 0));
    }
  }

  // ----- How long a transfer takes

  function Polls(events: seq<Event>): nat {
    if events == [] then 0
    else Polls(events[..|events| - 1]) + if events[|events| - 1].Established? then 1 else 0
  }

  /** How many bytes these turns can send. */
  function Room(events: seq<Event>): nat {
    if events == [] then 0
    else Room(events[..|events| - 1]) + if events[|events| - 1].Established? then PIECE else 0
  }

  lemma {:induction false} RoomOfPolls(events: seq<Event>)
    ensures Room(events) == PIECE * Polls(events)
    decreases |events|
  {
    if events != [] {
      RoomOfPolls(events[..|events| - 1]);
    }
  }

  lemma {:induction false} EnoughRoom(events: seq<Event>, n: nat)
    requires n > 0 && Polls(events) + 1 == Pieces(n)
    ensures Room(events) < n <= Room(events) + PIECE && (n <= PIECE ==> Room(events) == 0)
  {
    RoomOfPolls(events);
  }

  predicate Undisturbed(events: seq<Event>) {
    CloseWait !in events && Closed !in events
  }

  /** `g` has one more reply in its last place than `h` before its last, which is `r` grown, on the same connection. */
  predicate Continues(h: History, g: History) {
    && g.link == h.link && h.replies != [] && |g.replies| == |h.replies|
    && g.replies[..|g.replies| - 1] == h.replies[..|h.replies| - 1]
    && var (was, r) := (Last(h.replies), Last(g.replies));
       && r.page == was.page && r.link == was.link && r.cut == was.cut
       && (was.link == h.link ==> r.astray == was.astray)
  }

  /** A turn in a transfer sends a piece or, the socket being busy otherwise, does nothing. */
  lemma {:induction false} TurnInTransfer(pages: seq<Page>, h: History, e: Event)
    requires Good(pages, h) && h.conn.status == InProc && e.Established?
    ensures var g := Turn(pages, h, e);
            && Continues(h, g)
            && (if PIECE < h.conn.len - h.conn.offset
                then g.conn.status == InProc && g.conn.len == h.conn.len && g.conn.offset == h.conn.offset + PIECE
                else g.conn.status == Done)
  {
    LaterPiece(pages, h.conn);
  }

  lemma {:induction false} QuietTurn(pages: seq<Page>, h: History)
    ensures Turn(pages, h, Other) == h
  {}

  lemma {:induction false} ContinuesOn(h: History, g: History, f: History)
    requires Continues(h, g) && Continues(g, f)
    ensures Continues(h, f)
  {}

  lemma {:induction false} ContinuesItself(h: History)
    requires h.replies != []
    ensures Continues(h, h)
  {}

  /** Each turn in a transfer sends a piece, and the last one ends it. */
  lemma {:induction false} TransferEnds(pages: seq<Page>, h: History, events: seq<Event>)
    requires Good(pages, h) && h.conn.status == InProc && Undisturbed(events)
    requires Room(events) < h.conn.len - h.conn.offset + PIECE
    ensures var g := Turns(pages, h, events);
            && Continues(h, g)
            && (if Room(events) < h.conn.len - h.conn.offset
                then g.conn.status == InProc && g.conn.len == h.conn.len && g.conn.offset == h.conn.offset + Room(events)
                else g.conn.status == Done)
    decreases |events|
  {
    if events == [] {
      ContinuesItself(h);
    } else {
      var (before, e) := (events[..|events| - 1], events[|events| - 1]);
      assert e in events;
      TransferEnds(pages, h, before);
      RunsStayGood(pages, h, before);
      var g := Turns(pages, h, before);
      assert Turns(pages, h, events) == Turn(pages, g, e);
      assert Room(events) == Room(before) + if e.Established? then PIECE else 0;
      hide *;
      if e.Established? {
        TurnInTransfer(pages, g, e);
        ContinuesOn(h, g, Turn(pages, g, e));
      } else {
        QuietTurn(pages, g);
      }
    }
  }

  lemma {:induction false} QuietTurns(pages: seq<Page>, h: History, events: seq<Event>)
    requires Undisturbed(events) && Room(events) == 0
    ensures Turns(pages, h, events) == h
    decreases |events|
  {
    if events != [] {
      assert events[|events| - 1] in events;
      QuietTurns(pages, h, events[..|events| - 1]);
    }
  }

  /** `g` has one more reply than `h`, opened for page `p` on the connection of both. */
  predicate Opened(h: History, g: History, p: nat) {
    && g.link == h.link && |g.replies| == |h.replies| + 1 && g.replies[..|h.replies|] == h.replies
    && var r := Last(g.replies); r.page == p && r.link == h.link && !r.cut && !r.astray
  }

  lemma {:induction false} OpenedContinues(h: History, g: History, f: History, p: nat)
    requires Opened(h, g, p) && Continues(g, f)
    ensures Opened(h, f, p)
  {}

  lemma {:induction false} RequestTurn(pages: seq<Page>, h: History, name: string, p: nat)
    requires Good(pages, h) && h.conn.status == Idle && Find(pages, Named(name)) == Some(p)
    ensures var n, g := |pages[p].content|, Turn(pages, h, Established(Some(Get(name))));
            && Good(pages, g) && Opened(h, g, p)
            && (if PIECE < n then g.conn.status == InProc && g.conn.len == n && g.conn.offset == PIECE
                else g.conn.status == Done)
  {
    FirstPiece(pages, h.conn, p);
    TurnKeepsGood(pages, h, Established(Some(Get(name))));
  }

  lemma {:induction false} LastIsWhole(pages: seq<Page>, h: History)
    requires Good(pages, h) && h.conn.status == Done && h.replies != [] && !Last(h.replies).cut
    ensures Last(h.replies).page < |pages| && Whole(pages, Last(h.replies))
  {
    assert Sound(pages, h.replies[|h.replies| - 1]);
  }

  /** The name asks for page `p`, which is not empty, and these turns after that of the request are those its pieces take. */
  predicate Enough(pages: seq<Page>, name: string, p: nat, events: seq<Event>) {
    && p < |pages| && StandsFor(name, pages[p].name) && (forall j | 0 <= j < p :: pages[j].name != pages[p].name)
    && pages[p].content != []
    && Undisturbed(events) && Polls(events) + 1 == (|pages[p].content| + 2046) / 2047
  }

  lemma {:induction false} EnoughFinds(pages: seq<Page>, name: string, p: nat, events: seq<Event>)
    requires Enough(pages, name, p, events)
    ensures Find(pages, Named(name)) == Some(p)
  {
    hide Find, Named, StandsFor;
    NamedStandsFor(name, pages[p].name);
    FindIsFirst(pages, pages[p].name, p);
  }

  /** The history when page `name` was asked for in `h`, and `events` came after. */
  function Fetched(pages: seq<Page>, h: History, name: string, events: seq<Event>): History {
    Turns(pages, Turn(pages, h, Established(Some(Get(name)))), events)
  }

  /**
    A page is served in full in as many turns as it has pieces, the one that takes the request being the first: there is
    one more reply, that page, all on the connection of its request.
    */
  lemma {:induction false} PageIsServed(pages: seq<Page>, h: History, name: string, p: nat, events: seq<Event>)
    requires Good(pages, h) && h.conn.status == Idle && Enough(pages, name, p, events)
    ensures var g := Fetched(pages, h, name, events);
            && Good(pages, g) && g.conn.status == Done && Opened(h, g, p)
            && Flat(Last(g.replies).body) == pages[p].content
            && |Last(g.replies).body| == (|pages[p].content| + 2046) / 2047
  {
    EnoughFinds(pages, name, p, events);
    EnoughRoom(events, |pages[p].content|);
    RequestTurn(pages, h, name, p);
    var asked := Turn(pages, h, Established(Some(Get(name))));
    var g := Turns(pages, asked, events);
    assert g == Fetched(pages, h, name, events);
    hide Turn, Turns, Find, Named, StandsFor, Room, Polls, Flat, Good, Fetched, Continues;
    RunsStayGood(pages, asked, events);
    if asked.conn.status == InProc {
      TransferEnds(pages, asked, events);
      OpenedContinues(h, asked, g, p);
    } else {
      QuietTurns(pages, asked, events);
    }
    LastIsWhole(pages, g);
  }

  // ----- One page after another

  /** The turn that ends a response, and the peer's close at any time, leave the socket as at first. */
  lemma {:induction false} ReadyAgain(pages: seq<Page>, h: History, e: Event)
    requires e == CloseWait || (e.Established? && h.conn.status == Done)
    ensures var g := Turn(pages, h, e);
            && g.conn.status == Idle && g.conn.start == 0 && g.conn.len == 0 && g.conn.offset == 0 && g.link == h.link
            && (h.conn.status != InProc ==> g.replies == h.replies)
  {}

  /** No request is taken in these turns. */
  predicate NoRequest(events: seq<Event>) {
    forall e <- events :: e.Established? ==> e.request.None?
  }

  /** How many connections are opened in these turns. */
  function Reopened(events: seq<Event>): nat {
    if events == [] then 0 else Reopened(events[..|events| - 1]) + if events[|events| - 1] == Closed then 1 else 0
  }

  /** An idle socket stays so until it takes a request, whatever is reported. */
  lemma {:induction false} StaysReady(pages: seq<Page>, h: History, events: seq<Event>)
    requires h.conn.status == Idle && NoRequest(events)
    ensures var g := Turns(pages, h, events);
            g.conn.status == Idle && g.replies == h.replies && g.link == h.link + Reopened(events)
    decreases |events|
  {
    if events != [] {
      assert events[|events| - 1] in events;
      StaysReady(pages, h, events[..|events| - 1]);
    }
  }

  /** Any other request than one for a known page opens no reply and takes the turn. */
  lemma {:induction false} OtherRequestIsDropped(pages: seq<Page>, h: History, request: Request)
    requires h.conn.status == Idle && h.conn.len == 0
    requires request.Get? ==> forall i | 0 <= i < |pages| :: !StandsFor(request.name, pages[i].name)
    ensures var g := Turn(pages, h, Established(Some(request)));
            g.replies == h.replies && g.conn.status == Done && g.link == h.link
  {
    if request.Get? {
      var f := Find(pages, Named(request.name));
      if f.Some? {
        NamedStandsFor(request.name, pages[f.value].name);
      }
    }
  }

  /** `g` has two more replies than `h`, pages `p` and `q` in full, the second `links` connections later. */
  predicate TwoMore(pages: seq<Page>, h: History, g: History, p: nat, q: nat, links: nat)
    requires p < |pages| && q < |pages|
  {
    && |g.replies| == |h.replies| + 2 && g.replies[..|h.replies|] == h.replies
    && var (r, t) := (g.replies[|h.replies|], g.replies[|h.replies| + 1]);
       && r.page == p && r.link == h.link && Flat(r.body) == pages[p].content
       && t.page == q && t.link == h.link + links && Flat(t.body) == pages[q].content
       && !r.cut && !r.astray && !t.cut && !t.astray
  }

  lemma {:induction false} TwoOpened(pages: seq<Page>, h: History, g: History, k: History, f: History,
                                     p: nat, q: nat, links: nat)
    requires p < |pages| && q < |pages| && Opened(h, g, p) && k.replies == g.replies && k.link == g.link + links
    requires Opened(k, f, q)
    requires Flat(Last(g.replies).body) == pages[p].content && Flat(Last(f.replies).body) == pages[q].content
    ensures TwoMore(pages, h, f, p, q, links)
  {
    hide Flat;
    assert f.replies[..|k.replies|][..|h.replies|] == f.replies[..|h.replies|];
    assert f.replies[|h.replies|] == f.replies[..|k.replies|][|h.replies|];
  }

  /**
    A socket serves one page after another: when one has been sent, the turn that ends its response and then any without
    a request, SOCK_CLOSED and SOCK_CLOSE_WAIT among them, the next page asked for is sent in full as well.
    */
  lemma {:induction false} PageAfterPage(pages: seq<Page>, h: History, name: string, p: nat, events: seq<Event>, end: Event,
                                         gap: seq<Event>, next: string, q: nat, more: seq<Event>)
    requires Good(pages, h) && h.conn.status == Idle
    requires Enough(pages, name, p, events) && Enough(pages, next, q, more)
    requires (end.Established? || end == CloseWait) && NoRequest(gap)
    ensures var served := Fetched(pages, h, name, events);
            var ready := Turns(pages, Turn(pages, served, end), gap);
            var g := Fetched(pages, ready, next, more);
            TwoMore(pages, h, g, p, q, Reopened(gap)) && g.conn.status == Done
  {
    hide *;
    var served := Fetched(pages, h, name, events);
    var ended := Turn(pages, served, end);
    var ready := Turns(pages, ended, gap);
    PageIsServed(pages, h, name, p, events);
    ReadyAgain(pages, served, end);
    TurnKeepsGood(pages, served, end);
    StaysReady(pages, ended, gap);
    RunsStayGood(pages, ended, gap);
    PageIsServed(pages, ready, next, q, more);
    EnoughKnows(pages, name, p, events);
    EnoughKnows(pages, next, q, more);
    TwoOpened(pages, h, served, ready, Fetched(pages, ready, next, more), p, q, Reopened(gap));
  }

  lemma {:induction false} EnoughKnows(pages: seq<Page>, name: string, p: nat, events: seq<Event>)
    requires Enough(pages, name, p, events)
    ensures p < |pages|
  {}
}
