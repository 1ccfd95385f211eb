/** What the incremental parser makes of a byte sequence: the specification the classes are proved against. */
module Http {
  import opened Buffer

  datatype Method = Invalid | Get | Post | Head | Put | Delete | Trace | Options
  datatype Version = Unknown | Http10 | Http11
  datatype Request = Request(verb: Method, version: Version, path: string, query: string, headers: map<string, string>)

  const FRESH: Request := Request(Invalid, Unknown, "", "", map[])

  /** The first position of c, or the length. */
  function Find(s: string, c: char): (r: nat)
    ensures r <= |s| && (r < |s| ==> s[r] == c) && forall i :: 0 <= i < r ==> s[i] != c
  {
    if s == [] then 0 else if s[0] == c then 0 else 1 + Find(s[1..], c)
  }

  lemma FindAt(s: string, i: nat, c: char)
    requires i <= |s| && (i < |s| ==> s[i] == c) && forall j :: 0 <= j < i ==> s[j] != c
    ensures Find(s, c) == i
  {}

  lemma FindNone(s: string, c: char)
    requires c !in s
    ensures Find(s, c) == |s|
  {
    forall j | 0 <= j < |s|
      ensures s[j] != c
    {
      assert s[j] in s;
    }
    FindAt(s, |s|, c);
  }

  function MethodOf(s: string): Method {
    if s == "GET" then Get
    else if s == "POST" then Post
    else if s == "HEAD" then Head
    else if s == "PUT" then Put
    else if s == "DELETE" then Delete
    else if s == "TRACE" then Trace
    else if s == "OPTIONS" then Options
    else Invalid
  }

  predicate IsSpace(c: char) {
    c == ' ' || '\t' <= c <= '\r'
  }

  function TrimLeft(s: string): string {
    if s != [] && IsSpace(s[0]) then TrimLeft(s[1..]) else s
  }

  function TrimRight(s: string): string {
    if s != [] && IsSpace(s[|s| - 1]) then TrimRight(s[..|s| - 1]) else s
  }

  function SetTarget(req: Request, target: string): Request {
    var q := Find(target, '?');
    if q < |target| then req.(path := target[..q], query := target[q..]) else req.(path := target)
  }

  function VersionOf(s: string): Version {
    if |s| == 8 && s[..7] == "HTTP/1." then
      if s[7] == '1' then Http11 else if s[7] == '0' then Http10 else Unknown
    else Unknown
  }

  /** A rejected line may already have changed the request. */
  function ParseRequestLine(req: Request, line: string): (bool, Request) {
    var sp := Find(line, ' ');
    if sp == |line| then (false, req)
    else
      var named := req.(verb := MethodOf(line[..sp]));
      var rest := line[sp + 1..];
      var sp' := Find(rest, ' ');
      if named.verb.Invalid? || sp' == |rest| then (false, named)
      else
        var aimed := SetTarget(named, rest[..sp']);
        var v := VersionOf(rest[sp' + 1..]);
        if v.Unknown? then (false, aimed) else (true, aimed.(version := v))
  }

  function AddHeader(req: Request, line: string, colon: nat): Request
    requires colon < |line|
  {
    req.(headers := req.headers[line[..colon] := TrimRight(TrimLeft(line[colon + 1..]))])
  }

  datatype Phase = ExpectRequestLine | ExpectHeaders | ExpectBody | GotAll

  datatype Outcome = Outcome(ok: bool, phase: Phase, request: Request, rest: string)

  /** One turn of the parser's loop: it stops, or takes a line and goes on with the headers. */
  datatype Turn = Stop(outcome: Outcome) | Go(request: Request, rest: string)

  /** t is the end of s. */
  ghost predicate EndOf(t: string, s: string) {
    |t| <= |s| && t == s[|s| - |t|..]
  }

  lemma EndOfEnd(s: string, t: string, u: string)
    requires EndOf(t, s) && EndOf(u, t)
    ensures EndOf(u, s)
  {}

  function TurnOf(phase: Phase, req: Request, bytes: string): (t: Turn)
    requires phase.ExpectRequestLine? || phase.ExpectHeaders?
    ensures t.Go? ==> |t.rest| + 2 <= |bytes| && EndOf(t.rest, bytes)
    ensures t.Stop? ==> var o := t.outcome;
              && EndOf(o.rest, bytes)
              && (o.phase.GotAll? ==> o.ok && |o.rest| < |bytes|) && !o.phase.ExpectBody?
              && (!o.ok ==> o.phase.ExpectRequestLine?)
              && (o.ok && o.phase.ExpectRequestLine? ==> phase.ExpectRequestLine? && o.request == req)
  {
    var i := IndexOfCRLF(bytes);
    if i == -1 then Stop(Outcome(true, phase, req, bytes))
    else
      var line, rest := bytes[..i], bytes[i + 2..];
      if phase.ExpectRequestLine? then
        var (ok, req') := ParseRequestLine(req, line);
        if ok then Go(req', rest) else Stop(Outcome(false, phase, req', bytes))
      else
        var colon := Find(line, ':');
        if colon < |line| then Go(AddHeader(req, line, colon), rest) else Stop(Outcome(true, GotAll, req, rest))
  }

  /** Runs the parser over the bytes until it needs more, has a whole request, or rejects a line. */
  function Parse(phase: Phase, req: Request, bytes: string): (r: Outcome)
    requires phase.ExpectRequestLine? || phase.ExpectHeaders?
    ensures EndOf(r.rest, bytes)
    ensures r.phase.GotAll? ==> r.ok && |r.rest| < |bytes|
    ensures !r.phase.ExpectBody? && (!r.ok ==> r.phase.ExpectRequestLine?)
    ensures r.ok && r.phase.ExpectRequestLine? ==> phase.ExpectRequestLine? && r.request == req
    decreases |bytes|
  {
    match TurnOf(phase, req, bytes)
    case Stop(outcome) => outcome
    case Go(req', rest) =>
      var r := Parse(ExpectHeaders, req', rest);
      EndOfEnd(bytes, rest, r.rest);
      r
  }

  /** A header line is taken as a whole. */
  lemma TurnAtHeader(req: Request, line: string, rest: string, colon: nat)
    requires IndexOfCRLF(line + CRLF + rest) == |line| && colon < |line| && Find(line, ':') == colon
    ensures TurnOf(ExpectHeaders, req, line + CRLF + rest) == Go(AddHeader(req, line, colon), rest)
  {
    var bytes := line + CRLF + rest;
    assert bytes[..|line|] == line && bytes[|line| + 2..] == rest;
  }

  lemma TurnAtLine(line: string, rest: string)
    requires IndexOfCRLF(line + CRLF + rest) == |line| && ParseRequestLine(FRESH, line).0
    ensures TurnOf(ExpectRequestLine, FRESH, line + CRLF + rest) == Go(ParseRequestLine(FRESH, line).1, rest)
  {
    var bytes := line + CRLF + rest;
    assert bytes[..|line|] == line && bytes[|line| + 2..] == rest;
  }

  /** A line without colon ends the headers, whatever else it says. */
  lemma TurnAtEnd(req: Request, line: string, rest: string)
    requires IndexOfCRLF(line + CRLF + rest) == |line| && ':' !in line
    ensures TurnOf(ExpectHeaders, req, line + CRLF + rest) == Stop(Outcome(true, GotAll, req, rest))
  {
    var bytes := line + CRLF + rest;
    assert bytes[..|line|] == line && bytes[|line| + 2..] == rest;
    FindNone(line, ':');
  }

  lemma TurnAtBlank(req: Request, rest: string)
    ensures TurnOf(ExpectHeaders, req, CRLF + rest) == Stop(Outcome(true, GotAll, req, rest))
  {
    var bytes := CRLF + rest;
    assert bytes == "" + CRLF + rest;
    assert CRLFAt(bytes, 0);
    IndexUnique(bytes, 0);
    TurnAtEnd(req, "", rest);
  }

  /** The first line of a is also the first line of a + b. */
  lemma FirstCRLFStays(a: string, b: string)
    requires IndexOfCRLF(a) != -1
    ensures var i := IndexOfCRLF(a);
            IndexOfCRLF(a + b) == i && (a + b)[..i] == a[..i] && (a + b)[i + 2..] == a[i + 2..] + b
  {
    var i := IndexOfCRLF(a);
    assert forall j :: 0 <= j <= i ==> CRLFAt(a + b, j) == CRLFAt(a, j);
    IndexUnique(a + b, i);
  }

  /** Bytes after a complete line do not change what a turn does with the line. */
  lemma TurnAppend(phase: Phase, req: Request, a: string, b: string)
    requires (phase.ExpectRequestLine? || phase.ExpectHeaders?) && IndexOfCRLF(a) != -1
    ensures TurnOf(phase, req, a + b)
            == match TurnOf(phase, req, a)
               case Stop(o) => Stop(o.(rest := o.rest + b))
               case Go(req', rest) => Go(req', rest + b)
  {
    FirstCRLFStays(a, b);
  }

  /** An outcome once more bytes have arrived: a parser that wanted them goes on, another leaves them. */
  ghost function Resumed(r: Outcome, more: string): Outcome
    requires !r.phase.ExpectBody?
  {
    if r.ok && !r.phase.GotAll? then Parse(r.phase, r.request, r.rest + more) else r.(rest := r.rest + more)
  }

  lemma WaitAppend(phase: Phase, req: Request, a: string, b: string)
    requires (phase.ExpectRequestLine? || phase.ExpectHeaders?) && IndexOfCRLF(a) == -1
    ensures Parse(phase, req, a + b) == Resumed(Parse(phase, req, a), b)
  {}

  lemma StopAppend(phase: Phase, req: Request, a: string, b: string)
    requires (phase.ExpectRequestLine? || phase.ExpectHeaders?) && IndexOfCRLF(a) != -1
    requires TurnOf(phase, req, a).Stop?
    ensures Parse(phase, req, a + b) == Resumed(Parse(phase, req, a), b)
  {
    TurnAppend(phase, req, a, b);
    var o := TurnOf(phase, req, a).outcome;
    assert !(o.ok && !o.phase.GotAll?);
  }

  lemma GoAppend(phase: Phase, req: Request, a: string, b: string)
    requires (phase.ExpectRequestLine? || phase.ExpectHeaders?) && IndexOfCRLF(a) != -1
    requires TurnOf(phase, req, a).Go?
    ensures var t := TurnOf(phase, req, a);
            && |t.rest| < |a| && Parse(phase, req, a) == Parse(ExpectHeaders, t.request, t.rest)
            && Parse(phase, req, a + b) == Parse(ExpectHeaders, t.request, t.rest + b)
  {
    TurnAppend(phase, req, a, b);
  }

  /** Stopping for lack of input and going on when more arrives is the same as having had it all at once. */
  lemma {:induction false} ParseAppend(phase: Phase, req: Request, a: string, b: string)
    requires phase.ExpectRequestLine? || phase.ExpectHeaders?
    ensures Parse(phase, req, a + b) == Resumed(Parse(phase, req, a), b)
    decreases |a|
  {
    if IndexOfCRLF(a) == -1 {
      WaitAppend(phase, req, a, b);
    } else if TurnOf(phase, req, a).Stop? {
      StopAppend(phase, req, a, b);
    } else {
      GoAppend(phase, req, a, b);
      var t := TurnOf(phase, req, a);
      ParseAppend(ExpectHeaders, t.request, t.rest, b);
    }
  }

  /** The requests in a stream, parsing it as a whole, up to the first rejected line. */
  function AllRequests(phase: Phase, req: Request, bytes: string): seq<Request>
    requires phase.ExpectRequestLine? || phase.ExpectHeaders?
    decreases |bytes|
  {
    var r := Parse(phase, req, bytes);
    if r.phase.GotAll? then [r.request] + AllRequests(ExpectRequestLine, FRESH, r.rest) else []
  }

  /** One connection as the server sees it, with what it has handed out, used up and received so far. */
  datatype Session = Session(
    phase: Phase, request: Request, buffered: string,
    delivered: seq<Request>, failed: bool, consumed: string)

  const NEW_SESSION: Session := Session(ExpectRequestLine, FRESH, "", [], false, "")

  predicate Parsing(s: Session) {
    s.phase.ExpectRequestLine? || s.phase.ExpectHeaders?
  }

  /** One read of more bytes: parse, hand out a finished request, start afresh. */
  function OnMessage(s: Session, chunk: string): Session
    requires Parsing(s)
  {
    var bytes := s.buffered + chunk;
    Absorb(s, bytes, Parse(s.phase, s.request, bytes))
  }

  function Absorb(s: Session, bytes: string, r: Outcome): Session
    requires |r.rest| <= |bytes|
  {
    var t := Session(r.phase, r.request, r.rest, s.delivered, !r.ok, s.consumed + bytes[..|bytes| - |r.rest|]);
    if r.phase.GotAll? then t.(phase := ExpectRequestLine, request := FRESH, delivered := s.delivered + [r.request])
    else t
  }

  /** A run of reads; it stops at the first rejected request line. */
  ghost function Receive(s: Session, chunks: seq<string>): Session
    requires Parsing(s)
    decreases |chunks|
  {
    if chunks == [] || s.failed then s else Receive(OnMessage(s, chunks[0]), chunks[1..])
  }

  /** What is still to come out of a session once the given bytes arrive. */
  ghost function ToCome(s: Session, future: string): seq<Request>
    requires Parsing(s)
  {
    if s.failed then [] else AllRequests(s.phase, s.request, s.buffered + future)
  }

  /** What an outcome and the bytes after it will give. */
  ghost function Continued(r: Outcome, future: string): seq<Request>
    requires !r.phase.ExpectBody?
  {
    if !r.ok then []
    else if r.phase.GotAll? then [r.request] + AllRequests(ExpectRequestLine, FRESH, r.rest + future)
    else AllRequests(r.phase, r.request, r.rest + future)
  }

  lemma {:induction false} RequestsAppend(phase: Phase, req: Request, a: string, b: string)
    requires phase.ExpectRequestLine? || phase.ExpectHeaders?
    ensures AllRequests(phase, req, a + b) == Continued(Parse(phase, req, a), b)
  {
    ParseAppend(phase, req, a, b);
  }

  /** Everything that comes out of a session: handed out already or still to come. */
  ghost function Total(s: Session, future: string): seq<Request>
    requires Parsing(s)
  {
    s.delivered + ToCome(s, future)
  }

  /** Everything that went in. */
  ghost function Received(s: Session): string {
    s.consumed + s.buffered
  }

  lemma AbsorbStep(s: Session, bytes: string, r: Outcome, future: string)
    requires !s.failed && EndOf(r.rest, bytes)
    requires !r.phase.ExpectBody? && (r.phase.GotAll? ==> r.ok)
    ensures Parsing(Absorb(s, bytes, r))
    ensures Total(Absorb(s, bytes, r), future) == s.delivered + Continued(r, future)
    ensures Received(Absorb(s, bytes, r)) == s.consumed + bytes
  {
    var used := bytes[..|bytes| - |r.rest|];
    assert bytes == used + r.rest;
    SameEnd(s.consumed, used, r.rest, s.consumed + used);
    if r.phase.GotAll? {
      Regrouped(s.delivered, r.request, AllRequests(ExpectRequestLine, FRESH, r.rest + future));
    }
  }

  lemma Regrouped(a: seq<Request>, x: Request, b: seq<Request>)
    ensures (a + [x]) + b == a + ([x] + b)
  {}

  lemma SameEnd(a: string, b: string, c: string, ab: string)
    requires ab == a + b
    ensures ab + c == a + (b + c)
  {}

  lemma {:induction false} OnMessageStep(s: Session, chunk: string, future: string)
    requires Parsing(s) && !s.failed
    ensures Parsing(OnMessage(s, chunk))
    ensures Total(OnMessage(s, chunk), future) == Total(s, chunk + future)
    ensures Received(OnMessage(s, chunk)) == Received(s) + chunk
  {
    var bytes := s.buffered + chunk;
    assert s.buffered + (chunk + future) == bytes + future;
    RequestsAppend(s.phase, s.request, bytes, future);
    AbsorbStep(s, bytes, Parse(s.phase, s.request, bytes), future);
    assert s.consumed + bytes == Received(s) + chunk;
  }

  /**
   * For every way of cutting a stream into chunks: what has been handed out, followed by what the rest will
   * still give, is what parsing the whole stream at once gives; and no byte is lost or used twice.
   */
  lemma {:induction false} ChunkingInvisible(s: Session, chunks: seq<string>)
    requires Parsing(s)
    ensures Parsing(Receive(s, chunks))
    ensures Total(Receive(s, chunks), "") == Total(s, Concat(chunks))
    ensures !Receive(s, chunks).failed ==> Received(Receive(s, chunks)) == Received(s) + Concat(chunks)
    decreases |chunks|
  {
    if chunks != [] && !s.failed {
      var chunk, rest := chunks[0], chunks[1..];
      OnMessageStep(s, chunk, Concat(rest));
      ChunkingInvisible(OnMessage(s, chunk), rest);
      SameEnd(Received(s), chunk, Concat(rest), Received(OnMessage(s, chunk)));
    }
  }

  /** Requests come out in stream order: what a server has handed out is a prefix of the stream's requests. */
  lemma {:induction false} DeliveredIsPrefix(chunks: seq<string>)
    ensures var t := Receive(NEW_SESSION, chunks);
            var all := AllRequests(ExpectRequestLine, FRESH, Concat(chunks));
            && t.delivered <= all
            && (t.failed ==> t.delivered == all)
            && (!t.failed ==> Received(t) == Concat(chunks))
  {
    ChunkingInvisible(NEW_SESSION, chunks);
    assert "" + Concat(chunks) == Concat(chunks);
    assert Received(NEW_SESSION) + Concat(chunks) == Concat(chunks);
    assert Total(NEW_SESSION, Concat(chunks)) == AllRequests(ExpectRequestLine, FRESH, Concat(chunks));
  }

  /** Until a line is rejected, a session waiting for a request line has a fresh request. */
  lemma {:induction false} FreshBetweenRequests(s: Session, chunks: seq<string>)
    requires Parsing(s) && (!s.failed && s.phase.ExpectRequestLine? ==> s.request == FRESH)
    ensures var t := Receive(s, chunks);
            Parsing(t) && (!t.failed && t.phase.ExpectRequestLine? ==> t.request == FRESH)
    decreases |chunks|
  {
    if chunks != [] && !s.failed {
      FreshBetweenRequests(OnMessage(s, chunks[0]), chunks[1..]);
    }
  }
}
