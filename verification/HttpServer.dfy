/** The request parser and the per-connection part of the HTTP server, as they update their state in place. */
module HttpServer {
  import opened Buffer
  import opened Http

  lemma SliceOfSlice(s: string, i: nat, j: nat, k: nat)
    requires i <= j <= |s| && k <= j - i
    ensures s[i..j][..k] == s[i..i + k]
  {}

  class HttpRequest {
    var verb: Method
    var version: Version
    var path: string
    var query: string
    var headers: map<string, string>

    function View(): Request
      reads this
    {
      Request(verb, version, path, query, headers)
    }

    constructor ()
      ensures View() == FRESH
    {
      verb, version, path, query, headers := Invalid, Unknown, "", "", map[];
    }

    method SetMethod(name: string) returns (known: bool)
      requires verb == Invalid
      modifies this`verb
      ensures verb == MethodOf(name) && (known <==> verb != Invalid)
    {
      if name == "GET" { verb := Get; }
      else if name == "POST" { verb := Post; }
      else if name == "HEAD" { verb := Head; }
      else if name == "PUT" { verb := Put; }
      else if name == "DELETE" { verb := Delete; }
      else if name == "TRACE" { verb := Trace; }
      else if name == "OPTIONS" { verb := Options; }
      else { verb := Invalid; }
      known := verb != Invalid;
    }

    method AddHeader(line: string, colon: nat)
      requires colon < |line|
      modifies this`headers
      ensures View() == Http.AddHeader(old(View()), line, colon)
    {
      var start := colon + 1;
      while start < |line| && IsSpace(line[start])
        invariant colon < start <= |line| && TrimLeft(line[start..]) == TrimLeft(line[colon + 1..])
      {
        assert line[start..][1..] == line[start + 1..];
        start := start + 1;
      }
      var value := line[start..];
      while value != [] && IsSpace(value[|value| - 1])
        invariant TrimRight(value) == TrimRight(TrimLeft(line[colon + 1..]))
        decreases |value|
      {
        value := value[..|value| - 1];
      }
      headers := headers[line[..colon] := value];
    }

    /** Clears everything but the receive time, by swapping with a new request. */
    method Clear()
      modifies this
      ensures View() == FRESH
    {
      verb, version, path, query, headers := Invalid, Unknown, "", "", map[];
    }
  }

  class HttpParser {
    var phase: Phase
    const request: HttpRequest

    constructor ()
      ensures phase == ExpectRequestLine && fresh(request) && request.View() == FRESH
    {
      phase := ExpectRequestLine;
      request := new HttpRequest();
    }

    method Reset()
      modifies this, request
      ensures phase == ExpectRequestLine && request.View() == FRESH
    {
      phase := ExpectRequestLine;
      request.Clear();
    }

    method ProcessRequestLine(line: string) returns (ok: bool)
      requires request.verb == Invalid
      modifies request
      ensures (ok, request.View()) == ParseRequestLine(old(request.View()), line)
    {
      ok := false;
      var space := Find(line, ' ');
      if space != |line| {
        var known := request.SetMethod(line[..space]);
        if known {
          var rest := line[space + 1..];
          space := Find(rest, ' ');
          if space != |rest| {
            var target := rest[..space];
            var question := Find(target, '?');
            if question != |target| {
              request.path := target[..question];
              request.query := target[question..];
            } else {
              request.path := target;
            }
            var last := rest[space + 1..];
            ok := |last| == 8 && last[..7] == "HTTP/1.";
            if ok {
              if last[7] == '1' {
                request.version := Http11;
              } else if last[7] == '0' {
                request.version := Http10;
              } else {
                ok := false;
              }
            }
          }
        }
      }
    }

    /** The loop would not end in any other phase, so it may not be entered with a finished request. */
    method ParseRequest(buf: Buffer) returns (ok: bool)
      requires buf.Valid() && (phase.ExpectRequestLine? || phase.ExpectHeaders?)
      requires phase.ExpectRequestLine? ==> request.verb == Invalid
      modifies this, request, buf`readerIndex
      ensures buf.Valid()
      ensures Outcome(ok, phase, request.View(), buf.Readable())
              == Parse(old(phase), old(request.View()), old(buf.Readable()))
    {
      ok := true;
      var hasMore := true;
      ghost var goal := Parse(phase, request.View(), buf.Readable());
      while hasMore
        invariant buf.Valid()
        invariant hasMore ==> ok && (phase.ExpectRequestLine? || phase.ExpectHeaders?)
                              && (phase.ExpectRequestLine? ==> request.verb == Invalid)
                              && Parse(phase, request.View(), buf.Readable()) == goal
        invariant !hasMore ==> Outcome(ok, phase, request.View(), buf.Readable()) == goal
        decreases if hasMore then buf.ReadableBytes() + 1 else 0
      {
        ok, hasMore := ParseLine(buf);
      }
    }

    /** One turn of the loop: at most one line is taken from the buffer. */
    method ParseLine(buf: Buffer) returns (ok: bool, hasMore: bool)
      requires buf.Valid() && (phase.ExpectRequestLine? || phase.ExpectHeaders?)
      requires phase.ExpectRequestLine? ==> request.verb == Invalid
      modifies this, request, buf`readerIndex
      ensures buf.Valid() && (hasMore ==> ok && phase.ExpectHeaders?)
      ensures TurnOf(old(phase), old(request.View()), old(buf.Readable()))
              == if hasMore then Go(request.View(), buf.Readable())
                 else Stop(Outcome(ok, phase, request.View(), buf.Readable()))
    {
      ok, hasMore := true, true;
      var crlf := buf.FindCRLF();
      if crlf == -1 { return true, false; }
      var line := buf.data[buf.readerIndex..buf.readerIndex + crlf];
      assert line == buf.Readable()[..crlf] by {
        SliceOfSlice(buf.data, buf.readerIndex, buf.writerIndex, crlf);
      }
      if phase.ExpectRequestLine? {
        ok := ProcessRequestLine(line);
        if ok {
          buf.Retrieve(crlf + 2);
          phase := ExpectHeaders;
        } else {
          hasMore := false;
        }
      } else {
        var colon := Find(line, ':');
        if colon != |line| {
          request.AddHeader(line, colon);
        } else {
          phase := GotAll;
          hasMore := false;
        }
        buf.Retrieve(crlf + 2);
      }
    }
  }

  /** The state the server keeps for one connection; requests are handed out in the order of `delivered`. */
  class HttpSession {
    const parser: HttpParser
    const input: Buffer
    var delivered: seq<Request>
    var failed: bool
    ghost var consumed: string

    ghost predicate Valid()
      reads this, parser, parser.request, input
    {
      && input.Valid() && Parsing(View())
      && (!failed && parser.phase.ExpectRequestLine? ==> parser.request.View() == FRESH)
    }

    ghost function View(): Session
      requires input.Valid()
      reads this, parser, parser.request, input
    {
      Session(parser.phase, parser.request.View(), input.Readable(), delivered, failed, consumed)
    }

    constructor ()
      ensures fresh(parser) && fresh(parser.request) && fresh(input)
      ensures Valid() && View() == NEW_SESSION
    {
      parser := new HttpParser();
      input := new Buffer();
      delivered, failed, consumed := [], false, "";
    }

    /** One read from the socket, with its result n: data is handled, the end of the stream closes, an error is ignored. */
    method HandleRead(n: int, stream: string) returns (closing: bool)
      requires Valid() && !failed && n <= input.WritableBytes() + EXTRA_SIZE && n <= |stream|
      modifies this, parser, parser.request, input
      ensures Valid() && (closing <==> n == 0)
      ensures View() == if n > 0 then Http.OnMessage(old(View()), stream[..n]) else old(View())
    {
      input.ReadFd(n, stream);
      if n > 0 {
        OnMessage(stream[..n]);
      }
      closing := n == 0;
    }

    method OnMessage(ghost chunk: string)
      requires input.Valid() && Parsing(View()) && !failed && |chunk| <= |input.Readable()|
      requires parser.phase.ExpectRequestLine? ==> parser.request.View() == FRESH
      requires chunk == input.Readable()[|input.Readable()| - |chunk|..]
      modifies this, parser, parser.request, input`readerIndex
      ensures Valid()
      ensures var s := old(View());
              View() == Http.OnMessage(s.(buffered := s.buffered[..|s.buffered| - |chunk|]), chunk)
    {
      ghost var bytes := input.Readable();
      ghost var s := View().(buffered := bytes[..|bytes| - |chunk|]);
      assert s.buffered + chunk == bytes;
      var ok := parser.ParseRequest(input);
      ghost var r := Outcome(ok, parser.phase, parser.request.View(), input.Readable());
      failed := !ok;
      consumed := consumed + bytes[..|bytes| - |r.rest|];
      Deliver(s, bytes, r);
    }

    /** Hands out a finished request and starts afresh. */
    method Deliver(ghost s: Session, ghost bytes: string, ghost r: Outcome)
      requires input.Valid() && |r.rest| <= |bytes|
      requires View() == Session(r.phase, r.request, r.rest, s.delivered, !r.ok, s.consumed + bytes[..|bytes| - |r.rest|])
      modifies this`delivered, parser, parser.request
      ensures View() == Absorb(s, bytes, r)
    {
      if parser.phase == GotAll {
        delivered := delivered + [parser.request.View()];
        parser.Reset();
      }
    }
  }
}
