/** A whole HTTP connection: bytes in, requests, replies, bytes out. */
module Exchange {
  import opened Wrappers
  import opened Buffer
  import opened Http
  import opened Connection
  import HttpServer
  import HttpResponse

  /** A printed response, and whether the connection is to be closed after it. */
  datatype Reply = Reply(text: string, close: bool)

  /**
   * What the user's callback makes of the latest of the requests so far, given the default for closing. It
   * may depend on the earlier ones.
   */
  type Handler = (seq<Request>, bool) -> Reply

  const BAD_REQUEST: Reply := Reply("HTTP/1.1 400 Bad Request" + CRLF + CRLF, true)

  /** The default for closing the connection after a request. */
  predicate ClosesAfter(req: Request) {
    var connection := if "Connection" in req.headers then req.headers["Connection"] else "";
    connection == "close" || (req.version == Http10 && connection != "Keep-Alive")
  }

  /** By the Connection header if it says close or Keep-Alive, else by the version. */
  lemma ClosesAfterIs(req: Request)
    ensures "Connection" in req.headers && req.headers["Connection"] == "close" ==> ClosesAfter(req)
    ensures "Connection" in req.headers && req.headers["Connection"] == "Keep-Alive" ==> !ClosesAfter(req)
    ensures ("Connection" !in req.headers || req.headers["Connection"] !in ["close", "Keep-Alive"])
            ==> (ClosesAfter(req) <==> req.version == Http10)
  {
    assert "Keep-Alive"[0] != "close"[0];
  }

  function Answer(h: Handler, reqs: seq<Request>): Reply
    requires reqs != []
  {
    h(reqs, ClosesAfter(reqs[|reqs| - 1]))
  }

  /** Whether one of the answers closes the connection. */
  predicate Closed(h: Handler, reqs: seq<Request>) {
    reqs != [] && (Closed(h, reqs[..|reqs| - 1]) || Answer(h, reqs).close)
  }

  /** The answers to a sequence of requests, up to the first one that closes. */
  function Answers(h: Handler, reqs: seq<Request>): string {
    if reqs == [] then ""
    else
      var before := reqs[..|reqs| - 1];
      Answers(h, before) + if Closed(h, before) then "" else Answer(h, reqs).text
  }

  /** Everything the client should get, given the requests handed out and whether a line was rejected then. */
  function Expected(h: Handler, reqs: seq<Request>, failed: bool): string {
    Answers(h, reqs) + if failed && !Closed(h, reqs) then BAD_REQUEST.text else ""
  }

  datatype Serving = Serving(session: Session, conn: Conn)

  function Opening(): Serving {
    Serving(NEW_SESSION, Connection.Next(NEW_CONN, Establish))
  }

  /** n is the result of the direct write, if the read leads to one. */
  datatype Event = Data(chunk: string, n: int) | Room(n: int)

  /** What the server answers to a read that has taken the session from s to s'. */
  function ReplyTo(h: Handler, s: Session, s': Session): Option<Reply> {
    if s'.failed then Some(BAD_REQUEST)
    else if |s'.delivered| > |s.delivered| then Some(Answer(h, s'.delivered))
    else None
  }

  /** Sends, and shuts down if the reply says so. */
  function Replied(c: Conn, r: Reply, n: int): Conn
    requires WriteResult(n, |r.text|)
  {
    var c' := Connection.Next(c, Send(r.text, n));
    if r.close then Connection.Next(c', Shutdown) else c'
  }

  /** A session that has rejected a line reads no more. */
  ghost predicate CanHappen(h: Handler, x: Serving, e: Event) {
    match e
    case Data(chunk, n) =>
      && Parsing(x.session) && !x.session.failed
      && var r := ReplyTo(h, x.session, OnMessage(x.session, chunk));
         r.Some? ==> WriteResult(n, |r.value.text|)
    case Room(n) => WriteResult(n, |x.conn.output|)
  }

  ghost function After(h: Handler, x: Serving, e: Event): Serving
    requires CanHappen(h, x, e)
  {
    match e
    case Data(chunk, n) =>
      var s := OnMessage(x.session, chunk);
      var r := ReplyTo(h, x.session, s);
      Serving(s, if r.Some? then Replied(x.conn, r.value, n) else x.conn)
    case Room(n) => x.(conn := Connection.Next(x.conn, Writable(n)))
  }

  ghost predicate CanAll(h: Handler, x: Serving, events: seq<Event>)
    decreases |events|
  {
    events == [] || (CanHappen(h, x, events[0]) && CanAll(h, After(h, x, events[0]), events[1..]))
  }

  ghost function AfterAll(h: Handler, x: Serving, events: seq<Event>): Serving
    requires CanAll(h, x, events)
    decreases |events|
  {
    if events == [] then x else AfterAll(h, After(h, x, events[0]), events[1..])
  }

  /** The chunks that were read. */
  function Chunks(events: seq<Event>): seq<string> {
    if events == [] then []
    else (if events[0].Data? then [events[0].chunk] else []) + Chunks(events[1..])
  }

  /** The connection is open, has lost nothing, and has been half-closed only if it should. */
  ghost predicate Open(c: Conn) {
    Conserved(c) && OrderlyShutdown(c) && !c.closed && (c.state == Connected || c.state == Disconnecting)
  }

  /** The connection has accepted exactly what the client should get, and shuts down exactly when it should. */
  ghost predicate Served(h: Handler, x: Serving) {
    && Parsing(x.session) && Open(x.conn)
    && x.conn.accepted == Expected(h, x.session.delivered, x.session.failed)
    && (x.conn.state == Disconnecting <==> Closed(h, x.session.delivered) || x.session.failed)
  }

  lemma RepliedKeeps(c: Conn, r: Reply, n: int)
    requires Open(c) && WriteResult(n, |r.text|)
    ensures var c' := Replied(c, r, n);
            && Open(c')
            && c'.accepted == c.accepted + (if c.state == Connected then r.text else "")
            && (c'.state == Disconnecting <==> c.state == Disconnecting || r.close)
  {
    StepConserved(c, Send(r.text, n));
    StepOrderly(c, Send(r.text, n));
    var c' := Connection.Next(c, Send(r.text, n));
    StepConserved(c', Shutdown);
    StepOrderly(c', Shutdown);
  }

  /** A read hands out at most one request. */
  ghost predicate OneMoreRequest(s: Session, s': Session) {
    && Parsing(s')
    && (s'.delivered == s.delivered
        || (!s'.failed && |s'.delivered| == |s.delivered| + 1 && s'.delivered[..|s.delivered|] == s.delivered))
  }

  lemma OneRequest(s: Session, chunk: string)
    requires Parsing(s)
    ensures OneMoreRequest(s, OnMessage(s, chunk))
  {}

  lemma AnswersSnoc(h: Handler, reqs: seq<Request>, reqs': seq<Request>)
    requires |reqs'| == |reqs| + 1 && reqs'[..|reqs|] == reqs
    ensures Answers(h, reqs') == Answers(h, reqs) + if Closed(h, reqs) then "" else Answer(h, reqs').text
    ensures Closed(h, reqs') <==> Closed(h, reqs) || Answer(h, reqs').close
  {}

  lemma ReplyKeeps(h: Handler, s: Session, s': Session, c: Conn, n: int)
    requires Served(h, Serving(s, c)) && !s.failed && OneMoreRequest(s, s')
    requires var r := ReplyTo(h, s, s'); r.Some? ==> WriteResult(n, |r.value.text|)
    ensures var r := ReplyTo(h, s, s'); Served(h, Serving(s', if r.Some? then Replied(c, r.value, n) else c))
  {
    var r := ReplyTo(h, s, s');
    if r.Some? {
      RepliedKeeps(c, r.value, n);
      ExpectedNext(h, s, s');
    }
  }

  /** A reply is what the client should get next, unless the connection was to be closed before. */
  lemma ExpectedNext(h: Handler, s: Session, s': Session)
    requires !s.failed && OneMoreRequest(s, s') && ReplyTo(h, s, s').Some?
    ensures var r := ReplyTo(h, s, s').value;
            && Expected(h, s'.delivered, s'.failed)
               == Expected(h, s.delivered, false) + (if Closed(h, s.delivered) then "" else r.text)
            && (Closed(h, s'.delivered) || s'.failed <==> Closed(h, s.delivered) || r.close)
  {
    NothingRefused(h, s.delivered);
    if s'.failed {
      assert s'.delivered == s.delivered;
    } else {
      AnswersSnoc(h, s.delivered, s'.delivered);
      NothingRefused(h, s'.delivered);
    }
  }

  lemma DataKeeps(h: Handler, x: Serving, chunk: string, n: int)
    requires Served(h, x) && CanHappen(h, x, Data(chunk, n))
    ensures Served(h, After(h, x, Data(chunk, n)))
  {
    var s := OnMessage(x.session, chunk);
    OneRequest(x.session, chunk);
    ReplyKeeps(h, x.session, s, x.conn, n);
  }

  lemma RoomKeeps(h: Handler, x: Serving, n: int)
    requires Served(h, x) && CanHappen(h, x, Room(n))
    ensures Served(h, After(h, x, Room(n)))
  {
    StepConserved(x.conn, Writable(n));
    StepOrderly(x.conn, Writable(n));
  }

  lemma {:induction false} AllKeep(h: Handler, x: Serving, events: seq<Event>)
    requires Served(h, x) && CanAll(h, x, events)
    ensures Served(h, AfterAll(h, x, events))
    decreases |events|
  {
    if events != [] {
      match events[0] {
        case Data(chunk, n) => DataKeeps(h, x, chunk, n);
        case Room(n) => RoomKeeps(h, x, n);
      }
      AllKeep(h, After(h, x, events[0]), events[1..]);
    }
  }

  /** The input side does not depend on the output side. */
  lemma {:induction false} SessionIs(h: Handler, x: Serving, events: seq<Event>)
    requires Parsing(x.session) && CanAll(h, x, events)
    ensures AfterAll(h, x, events).session == Receive(x.session, Chunks(events))
    decreases |events|
  {
    if events != [] {
      var rest := Chunks(events[1..]);
      if events[0].Data? {
        OneRequest(x.session, events[0].chunk);
        assert Chunks(events)[0] == events[0].chunk && Chunks(events)[1..] == rest;
      } else {
        assert Chunks(events) == rest;
      }
      SessionIs(h, After(h, x, events[0]), events[1..]);
    }
  }

  lemma {:induction false} AnswersPrefix(h: Handler, reqs: seq<Request>, all: seq<Request>)
    requires reqs <= all
    ensures Answers(h, reqs) <= Answers(h, all)
    decreases |all|
  {
    if |reqs| < |all| {
      AnswersPrefix(h, reqs, all[..|all| - 1]);
    } else {
      assert reqs == all;
    }
  }

  lemma Totals(h: Handler, x: Serving)
    requires Served(h, x)
    ensures var s, c := x.session, x.conn;
            && c.wire + c.output == Expected(h, s.delivered, s.failed)
            && c.late == 0 && c.shutdowns <= 1
            && (c.shutdowns == 1 <==> (Closed(h, s.delivered) || s.failed) && c.wire == c.accepted)
  {
    var c := x.conn;
    if c.wire == c.accepted { assert |c.wire + c.output| == |c.wire|; }
    if c.output == "" { assert c.wire + "" == c.wire; }
  }

  /**
   * However the client's bytes are cut into reads and whatever the kernel takes of each write: what is on the
   * wire and in the output buffer is the answers to the requests handed out, up to the first that closes,
   * with the refusal after them if a line was rejected first; and the half-close comes once, when a reply has
   * asked for it and everything is on the wire, with no byte written after it.
   */
  lemma {:induction false} ExchangeIsOrderly(h: Handler, events: seq<Event>)
    requires CanAll(h, Opening(), events)
    ensures var x := AfterAll(h, Opening(), events);
            var s, c := x.session, x.conn;
            && c.wire + c.output == Expected(h, s.delivered, s.failed)
            && c.late == 0 && c.shutdowns <= 1
            && (c.shutdowns == 1 <==> (Closed(h, s.delivered) || s.failed) && c.wire == c.accepted)
  {
    OpeningServed(h);
    AllKeep(h, Opening(), events);
    Totals(h, AfterAll(h, Opening(), events));
  }

  lemma OpeningServed(h: Handler)
    ensures Served(h, Opening())
  {}

  /**
   * So the client gets the beginning of the answers to the requests of its whole stream, and nothing else
   * but the refusal that ends them; once a line was rejected it gets all of them.
   */
  lemma {:induction false} StreamIsAnswered(h: Handler, events: seq<Event>)
    requires CanAll(h, Opening(), events)
    ensures var x := AfterAll(h, Opening(), events);
            var s, got := x.session, x.conn.wire + x.conn.output;
            var all := AllRequests(ExpectRequestLine, FRESH, Concat(Chunks(events)));
            if s.failed then got == Expected(h, all, true) else got <= Answers(h, all)
  {
    ExchangeIsOrderly(h, events);
    SessionIs(h, Opening(), events);
    DeliveredIsPrefix(Chunks(events));
    var s := AfterAll(h, Opening(), events).session;
    AnswersPrefix(h, s.delivered, AllRequests(ExpectRequestLine, FRESH, Concat(Chunks(events))));
    NothingRefused(h, s.delivered);
  }

  lemma NothingRefused(h: Handler, reqs: seq<Request>)
    ensures Expected(h, reqs, false) == Answers(h, reqs)
  {}

  // The methods of the server, as the events they handle.

  /** Prints a response into a buffer of its own. */
  method Print(response: HttpResponse.HttpResponse) returns (text: string, ghost order: seq<string>)
    ensures HttpResponse.Enumerates(order, response.headers)
    ensures text == HttpResponse.StatusLine(response.statusCode, response.statusMessage)
                    + HttpResponse.HeaderSection(response.closeConnection, response.headers, order, response.body)
  {
    var buf := new Buffer();
    order := response.AppendToBuffer(buf);
    Joined(HttpResponse.StatusLine(response.statusCode, response.statusMessage),
           HttpResponse.HeaderSection(response.closeConnection, response.headers, order, response.body));
    text := buf.RetrieveAsString();
  }

  lemma Joined(a: string, b: string)
    ensures ([] + a) + b == a + b
  {}

  /** Sends a reply, with n the result of the direct write, and shuts down after a closing one. */
  method Respond(conn: TcpConnection, reply: Reply, n: int, ghost others: Others)
    requires conn.output.Valid() && WriteResult(n, |reply.text|)
    modifies conn, conn.output
    ensures conn.output.Valid() && conn.View(others) == Replied(old(conn.View(others)), reply, n)
  {
    conn.Send(reply.text, n, others);
    if reply.close {
      conn.Shutdown(others);
    }
  }

  /** A read of r bytes, and the reply it leads to. */
  method OnData(h: Handler, session: HttpServer.HttpSession, conn: TcpConnection, r: nat, stream: string, n: int)
    requires session.Valid() && !session.failed && conn.output.Valid() && conn.output != session.input
    requires 0 < r <= session.input.WritableBytes() + EXTRA_SIZE && r <= |stream|
    requires CanHappen(h, Serving(session.View(), conn.View(NOTHING)), Data(stream[..r], n))
    modifies session, session.parser, session.parser.request, session.input, conn, conn.output
    ensures session.Valid() && conn.output.Valid()
    ensures Serving(session.View(), conn.View(NOTHING))
            == After(h, old(Serving(session.View(), conn.View(NOTHING))), Data(stream[..r], n))
  {
    var before := |session.delivered|;
    var _ := session.HandleRead(r, stream);
    if session.failed {
      Respond(conn, BAD_REQUEST, n, NOTHING);
    } else if |session.delivered| > before {
      Respond(conn, Answer(h, session.delivered), n, NOTHING);
    }
  }

  /** No other thread uses the connection. */
  const NOTHING: Others := Others([], [])
}
