/** A client that reads the responses off the wire, by status line, headers and Content-Length. */
module Client {
  import opened Wrappers
  import opened Powers
  import opened Decimals
  import opened Buffer
  import opened Http
  import opened HttpResponse
  import opened Exchange

  /** A response as the server prints it; order is the order of its headers. */
  datatype Response = Response(
    code: nat, message: string, close: bool, headers: map<string, string>, order: seq<string>, body: string)

  /** A response as the client sees it. */
  datatype Got = Got(line: string, headers: map<string, string>, body: string)

  /** A response that survives printing: nothing in it is taken for something else, and nothing is cut off. */
  ghost predicate Clean(r: Response) {
    && r.code < Pow(10, 21) && IndexOfCRLF(r.message) == -1
    && CleanHeaders(r.headers) && Enumerates(r.order, r.headers)
    && (r.close || |r.body| < Pow(10, 13))
  }

  ghost function Text(r: Response): string
    requires Clean(r)
  {
    StatusLine(r.code, r.message) + HeaderSection(r.close, r.headers, r.order, r.body)
  }

  function FirstLine(r: Response): string {
    "HTTP/1.1 " + ToDigits(r.code) + " " + r.message
  }

  /** What the client should see of it. */
  ghost function Seen(r: Response): Got {
    Got(FirstLine(r), ExpectedHeaders(r.close, r.headers, |r.body|), r.body)
  }

  /** The body after the headers; without a length it goes on to the end of the stream. */
  function BodyOf(line: string, headers: map<string, string>, after: string): (g: Option<(Got, string)>)
    ensures g.Some? ==> |g.value.1| <= |after|
  {
    if "Content-Length" in headers then
      var n := Decimal(headers["Content-Length"]);
      if 0 <= n <= |after| then Some((Got(line, headers, after[..n]), after[n..])) else None
    else Some((Got(line, headers, after), ""))
  }

  /** Reads one response. */
  function ReadOne(bytes: string): (g: Option<(Got, string)>)
    ensures g.Some? ==> |g.value.1| < |bytes|
  {
    var i := IndexOfCRLF(bytes);
    if i == -1 then None
    else
      var o := Parse(ExpectHeaders, FRESH, bytes[i + 2..]);
      if !o.phase.GotAll? then None
      else BodyOf(bytes[..i], o.request.headers, o.rest)
  }

  /** Reads one thing after the other, as long as there is one. */
  function ReadAllWith(read: string -> Option<(Got, string)>, bytes: string): seq<Got>
    decreases |bytes|
  {
    var g := read(bytes);
    if g.None? || |g.value.1| >= |bytes| then [] else [g.value.0] + ReadAllWith(read, g.value.1)
  }

  function ReadAll(bytes: string): seq<Got> {
    ReadAllWith(ReadOne, bytes)
  }

  /** A line without line end ends at the first one after it, even if it ends in half of one. */
  lemma LineEndsAt(line: string, rest: string)
    requires IndexOfCRLF(line) == -1
    ensures IndexOfCRLF(line + CRLF + rest) == |line|
  {
    var bytes := line + CRLF + rest;
    forall j | 0 <= j < |line|
      ensures !CRLFAt(bytes, j)
    {
      assert !CRLFAt(line, j);
      assert bytes[j] == line[j];
      if j + 1 < |line| { assert bytes[j + 1] == line[j + 1]; } else { assert bytes[j + 1] == '\r'; }
    }
    IndexUnique(bytes, |line|);
  }

  lemma FirstLineIsClean(r: Response)
    requires Clean(r)
    ensures IndexOfCRLF(FirstLine(r)) == -1 && StatusLine(r.code, r.message) == FirstLine(r) + CRLF
  {
    DigitsLength(r.code, 21);
    var head, line := "HTTP/1.1 " + ToDigits(r.code) + " ", FirstLine(r);
    assert |head| <= 31;
    assert line == head + r.message;
    forall j | 0 <= j < |line|
      ensures !CRLFAt(line, j)
    {
      HeadIsClean(r.code, j);
      if j < |head| {
        assert line[j] == head[j];
      } else {
        assert !CRLFAt(r.message, j - |head|);
        assert line[j] == r.message[j - |head|];
        if j + 1 < |line| { assert line[j + 1] == r.message[j + 1 - |head|]; }
      }
    }
  }

  lemma HeadIsClean(code: nat, j: nat)
    ensures var head := "HTTP/1.1 " + ToDigits(code) + " "; j < |head| ==> head[j] != '\r'
  {
    var digits := ToDigits(code);
    var head := "HTTP/1.1 " + digits + " ";
    if 9 <= j < 9 + |digits| { assert head[j] == digits[j - 9] && IsDigit(digits[j - 9]); }
  }

  /** The headers the client finds, and where the body ends. */
  lemma HeadersFound(r: Response, more: string)
    requires Clean(r)
    ensures Parse(ExpectHeaders, FRESH, HeaderSection(r.close, r.headers, r.order, r.body) + more)
            == Outcome(true, GotAll, FRESH.(headers := ExpectedHeaders(r.close, r.headers, |r.body|)), r.body + more)
  {
    var section := HeaderSection(r.close, r.headers, r.order, r.body);
    RoundTripIff(r.close, r.headers, r.order, r.body);
    ParseAppend(ExpectHeaders, FRESH, section, more);
  }

  lemma LengthFound(r: Response)
    requires Clean(r)
    ensures var e := ExpectedHeaders(r.close, r.headers, |r.body|);
            if r.close then "Content-Length" !in e
            else "Content-Length" in e && Decimal(e["Content-Length"]) == |r.body|
  {
    assert "Content-Length" != "Connection" by { assert |"Content-Length"| != |"Connection"|; }
    assert "Content-Length" !in r.headers;
    DigitsRoundTrip(|r.body|);
  }

  /** Reading on after the first line, once the headers are known. */
  lemma ReadAfter(line: string, rest: string, headers: map<string, string>, after: string)
    requires IndexOfCRLF(line + CRLF + rest) == |line|
    requires Parse(ExpectHeaders, FRESH, rest) == Outcome(true, GotAll, FRESH.(headers := headers), after)
    ensures ReadOne(line + CRLF + rest) == BodyOf(line, headers, after)
  {
    var bytes := line + CRLF + rest;
    assert bytes[..|line|] == line && bytes[|line| + 2..] == rest;
  }

  lemma BodyFound(r: Response, more: string)
    requires Clean(r) && (r.close ==> more == "")
    ensures BodyOf(FirstLine(r), ExpectedHeaders(r.close, r.headers, |r.body|), r.body + more) == Some((Seen(r), more))
  {
    LengthFound(r);
    assert (r.body + more)[..|r.body|] == r.body && (r.body + more)[|r.body|..] == more;
    assert r.close ==> r.body + more == r.body;
  }

  /** One printed response, with more after it unless it closes, is read back whole. */
  lemma ReadOneIs(r: Response, more: string)
    requires Clean(r) && (r.close ==> more == "")
    ensures ReadOne(Text(r) + more) == Some((Seen(r), more))
  {
    var section := HeaderSection(r.close, r.headers, r.order, r.body);
    FirstLineIsClean(r);
    LineEndsAt(FirstLine(r), section + more);
    HeadersFound(r, more);
    ReadAfter(FirstLine(r), section + more, ExpectedHeaders(r.close, r.headers, |r.body|), r.body + more);
    BodyFound(r, more);
    Rejoined(FirstLine(r) + CRLF, section, more);
  }

  lemma Rejoined(a: string, b: string, c: string)
    ensures (a + b) + c == a + (b + c)
  {}

  // A stream of responses.

  /** A piece of the stream, and what the client should see of it; only a closing one reaches to the end. */
  datatype Piece = Piece(text: string, got: Got, close: bool)

  ghost predicate ReadsBack(read: string -> Option<(Got, string)>, u: Piece) {
    u.text != "" && forall more: string :: (u.close ==> more == "") ==> read(u.text + more) == Some((u.got, more))
  }

  function Join(us: seq<Piece>): string {
    if us == [] then "" else us[0].text + Join(us[1..])
  }

  /** Only the last piece may close, and none before a tail. */
  ghost predicate ClosesLast(us: seq<Piece>, tail: string) {
    forall i :: 0 <= i < |us| && us[i].close ==> i == |us| - 1 && tail == ""
  }

  function Gots(us: seq<Piece>): (gs: seq<Got>)
    ensures |gs| == |us| && forall i :: 0 <= i < |us| ==> gs[i] == us[i].got
  {
    seq(|us|, i requires 0 <= i < |us| => us[i].got)
  }

  lemma {:induction false} ReadAllIs(read: string -> Option<(Got, string)>, us: seq<Piece>, tail: string)
    requires (forall i :: 0 <= i < |us| ==> ReadsBack(read, us[i])) && ClosesLast(us, tail)
    ensures ReadAllWith(read, Join(us) + tail) == Gots(us) + ReadAllWith(read, tail)
    decreases |us|
  {
    if us == [] {
      assert Join(us) + tail == tail;
    } else {
      var more := Join(us[1..]) + tail;
      Rejoined(us[0].text, Join(us[1..]), tail);
      assert us[0].close ==> us[1..] == [] && more == "";
      ReadAllIs(read, us[1..], tail);
      assert read(us[0].text + more) == Some((us[0].got, more));
      assert Gots(us) == [us[0].got] + Gots(us[1..]);
    }
  }

  lemma {:induction false} JoinSnoc(us: seq<Piece>, u: Piece)
    ensures Join(us + [u]) == Join(us) + u.text
    decreases |us|
  {
    if us == [] {
      assert us + [u] == [u];
    } else {
      JoinSnoc(us[1..], u);
      assert (us + [u])[1..] == us[1..] + [u];
    }
  }

  // What a handler that prints responses sends.

  /** The user's callback as it fills in responses. */
  type Responder = (seq<Request>, bool) -> Response

  ghost predicate Prints(h: Handler, p: Responder) {
    forall reqs: seq<Request>, close: bool ::
      Clean(p(reqs, close)) && h(reqs, close) == Reply(Text(p(reqs, close)), p(reqs, close).close)
  }

  function ResponseTo(p: Responder, reqs: seq<Request>): Response
    requires reqs != []
  {
    p(reqs, ClosesAfter(reqs[|reqs| - 1]))
  }

  ghost predicate EndsClosed(rs: seq<Response>) {
    rs != [] && rs[|rs| - 1].close
  }

  /** The responses to a sequence of requests, up to the first one that closes. */
  ghost function Responses(p: Responder, reqs: seq<Request>): seq<Response> {
    if reqs == [] then []
    else
      var before := Responses(p, reqs[..|reqs| - 1]);
      if EndsClosed(before) then before else before + [ResponseTo(p, reqs)]
  }

  /** The pieces are those of the responses, and all of them read back. */
  ghost predicate Matches(us: seq<Piece>, rs: seq<Response>) {
    && |us| == |rs|
    && (forall i :: 0 <= i < |us| ==> us[i].got == Seen(rs[i]) && us[i].close == rs[i].close && ReadsBack(ReadOne, us[i]))
    && (forall i :: 0 <= i < |us| - 1 ==> !us[i].close)
  }

  lemma PieceOf(r: Response) returns (u: Piece)
    requires Clean(r)
    ensures u == Piece(Text(r), Seen(r), r.close) && ReadsBack(ReadOne, u)
  {
    u := Piece(Text(r), Seen(r), r.close);
    ReadOneIs(r, "");
    assert Text(r) + "" == Text(r);
    forall more: string | u.close ==> more == ""
      ensures ReadOne(u.text + more) == Some((u.got, more))
    {
      ReadOneIs(r, more);
    }
  }

  /** The answers are the printed responses. */
  lemma {:induction false} AnswersArePieces(h: Handler, p: Responder, reqs: seq<Request>) returns (us: seq<Piece>)
    requires Prints(h, p)
    ensures Answers(h, reqs) == Join(us) && Matches(us, Responses(p, reqs))
    ensures Closed(h, reqs) <==> EndsClosed(Responses(p, reqs))
    decreases |reqs|
  {
    if reqs == [] {
      us := [];
    } else {
      var before := reqs[..|reqs| - 1];
      us := AnswersArePieces(h, p, before);
      if !EndsClosed(Responses(p, before)) {
        var u := NextPiece(h, p, reqs);
        JoinSnoc(us, u);
        MatchesSnoc(us, Responses(p, before), u, ResponseTo(p, reqs));
        us := us + [u];
      }
    }
  }

  lemma MatchesSnoc(us: seq<Piece>, rs: seq<Response>, u: Piece, r: Response)
    requires Matches(us, rs) && !EndsClosed(rs)
    requires u.got == Seen(r) && u.close == r.close && ReadsBack(ReadOne, u)
    ensures Matches(us + [u], rs + [r])
  {}

  lemma NextPiece(h: Handler, p: Responder, reqs: seq<Request>) returns (u: Piece)
    requires Prints(h, p) && reqs != []
    ensures var r := ResponseTo(p, reqs);
            Answer(h, reqs) == Reply(u.text, u.close) && u.got == Seen(r) && u.close == r.close && ReadsBack(ReadOne, u)
  {
    u := PieceOf(ResponseTo(p, reqs));
  }

  /** What the client sees of the refusal of a request line. */
  const REFUSED: Got := Got("HTTP/1.1 400 Bad Request", map[], "")

  lemma RefusalIsRead()
    ensures ReadAll(BAD_REQUEST.text) == [REFUSED]
  {
    var line := REFUSED.line;
    RefusalLine();
    TurnAtBlank(FRESH, "");
    ReadAfter(line, CRLF + "", map[], "");
    assert FRESH.(headers := map[]) == FRESH;
    NothingToRead();
  }

  lemma RefusalLine()
    ensures BAD_REQUEST.text == REFUSED.line + CRLF + (CRLF + "")
    ensures IndexOfCRLF(REFUSED.line + CRLF + (CRLF + "")) == |REFUSED.line|
  {
    var line := REFUSED.line;
    assert CRLF + "" == CRLF;
    assert '\r' !in line;
    forall j | 0 <= j < |line|
      ensures !CRLFAt(line, j)
    {
      assert line[j] in line;
    }
    LineEndsAt(line, CRLF + "");
  }

  lemma NothingToRead()
    ensures ReadAll("") == []
  {}

  /** The responses seen are these, with the refusal after them if there was one. */
  ghost predicate Sees(gs: seq<Got>, rs: seq<Response>, refused: bool) {
    && |gs| == |rs| + (if refused then 1 else 0)
    && (forall i :: 0 <= i < |rs| ==> gs[i] == Seen(rs[i]))
    && (refused ==> gs[|rs|] == REFUSED)
  }

  /**
   * With printed responses, however the exchange goes, a client that reads what is on the wire and in the
   * output buffer sees exactly the responses to the requests handed out, up to the first that closes, and
   * after them the refusal if a line was rejected first.
   */
  lemma {:induction false} ClientSeesResponses(h: Handler, p: Responder, events: seq<Event>)
    requires Prints(h, p) && CanAll(h, Opening(), events)
    ensures var x := AfterAll(h, Opening(), events);
            var rs := Responses(p, x.session.delivered);
            Sees(ReadAll(x.conn.wire + x.conn.output), rs, x.session.failed && !EndsClosed(rs))
  {
    var x := AfterAll(h, Opening(), events);
    ExchangeIsOrderly(h, events);
    ExpectedIsRead(h, p, x.session.delivered, x.session.failed);
  }

  lemma {:induction false} ExpectedIsRead(h: Handler, p: Responder, reqs: seq<Request>, failed: bool)
    requires Prints(h, p)
    ensures var rs := Responses(p, reqs); Sees(ReadAll(Expected(h, reqs, failed)), rs, failed && !EndsClosed(rs))
  {
    var us := AnswersArePieces(h, p, reqs);
    RefusalIsRead();
    NothingToRead();
    ReadAllIs(ReadOne, us, if failed && !Closed(h, reqs) then BAD_REQUEST.text else "");
  }

  /** What the client sees tells the response. */
  lemma SeenTells(r: Response, r': Response)
    requires Clean(r) && Clean(r') && Seen(r) == Seen(r')
    ensures r.code == r'.code && r.message == r'.message && r.close == r'.close
    ensures r.headers == r'.headers && r.body == r'.body
  {
    LineTells(r, r');
    HeadersTell(r, r');
  }

  lemma LineTells(r: Response, r': Response)
    requires FirstLine(r) == FirstLine(r')
    ensures r.code == r'.code && r.message == r'.message
  {
    Rejoined("HTTP/1.1 ", ToDigits(r.code), " " + r.message);
    Rejoined("HTTP/1.1 ", ToDigits(r'.code), " " + r'.message);
    Rejoined("HTTP/1.1 " + ToDigits(r.code), " ", r.message);
    Rejoined("HTTP/1.1 " + ToDigits(r'.code), " ", r'.message);
    SamePrefix("HTTP/1.1 ", ToDigits(r.code) + (" " + r.message), ToDigits(r'.code) + (" " + r'.message));
    WordTells(ToDigits(r.code), r.message, ToDigits(r'.code), r'.message);
    DigitsInjective(r.code, r'.code);
  }

  lemma SamePrefix(a: string, x: string, y: string)
    requires a + x == a + y
    ensures x == y
  {
    assert (a + x)[|a|..] == x && (a + y)[|a|..] == y;
  }

  /** The first word of a line without spaces in it, and the rest. */
  lemma WordTells(a: string, x: string, b: string, y: string)
    requires a + (" " + x) == b + (" " + y)
    requires (forall i :: 0 <= i < |a| ==> a[i] != ' ') && forall i :: 0 <= i < |b| ==> b[i] != ' '
    ensures a == b && x == y
  {
    var s, t := a + (" " + x), b + (" " + y);
    FindAt(s, |a|, ' ');
    FindAt(t, |b|, ' ');
    assert s[..|a|] == a && t[..|b|] == b && s[|a| + 1..] == x && t[|b| + 1..] == y;
  }

  lemma HeadersTell(r: Response, r': Response)
    requires Clean(r) && Clean(r') && Seen(r) == Seen(r')
    ensures r.close == r'.close && r.headers == r'.headers
  {
    LengthFound(r);
    LengthFound(r');
    var e := ExpectedHeaders(r.close, r.headers, |r.body|);
    forall k: string
      ensures k in r.headers <==> k in r'.headers
      ensures k in r.headers ==> r.headers[k] == r'.headers[k]
    {
      assert k in r.headers <==> k in e && k != "Connection" && k != "Content-Length";
      assert k in r.headers ==> r.headers[k] == e[k];
      assert k in r'.headers <==> k in e && k != "Connection" && k != "Content-Length";
      assert k in r'.headers ==> r'.headers[k] == e[k];
    }
  }
}
