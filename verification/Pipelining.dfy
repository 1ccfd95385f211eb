/** A read hands out at most one request, so a finished one may have to wait for the next read. */
module Pipelining {
  import opened Powers
  import opened Buffer
  import opened Http
  import opened HttpResponse
  import opened RequestLine

  lemma {:induction false} ReceiveSnoc(s: Session, chunks: seq<string>, chunk: string)
    requires Parsing(s)
    ensures Parsing(Receive(s, chunks))
    ensures Receive(s, chunks + [chunk]) == Next(Receive(s, chunks), chunk)
    decreases |chunks|
  {
    if !s.failed {
      if chunks == [] {
        ReceiveOne(s, chunk);
      } else {
        var s' := ReadFirst(s, chunks, chunk);
        ReceiveSnoc(s', chunks[1..], chunk);
      }
    }
  }

  /** A read, unless a line was rejected before. */
  function Next(s: Session, chunk: string): Session
    requires Parsing(s)
  {
    if s.failed then s else OnMessage(s, chunk)
  }

  lemma FirstRead(s: Session, chunk: string) returns (s': Session)
    requires Parsing(s)
    ensures s' == OnMessage(s, chunk) && Parsing(s')
  {
    s' := OnMessage(s, chunk);
  }

  lemma ReadFirst(s: Session, chunks: seq<string>, chunk: string) returns (s': Session)
    requires Parsing(s) && !s.failed && chunks != []
    ensures Parsing(s') && Receive(s, chunks) == Receive(s', chunks[1..])
    ensures Receive(s, chunks + [chunk]) == Receive(s', chunks[1..] + [chunk])
  {
    s' := FirstRead(s, chunks[0]);
    FirstOf(s, s', chunks);
    FirstOf(s, s', chunks + [chunk]);
    assert (chunks + [chunk])[1..] == chunks[1..] + [chunk];
  }

  lemma ReceiveOne(s: Session, chunk: string)
    requires Parsing(s) && !s.failed
    ensures Receive(s, [] + [chunk]) == OnMessage(s, chunk)
  {
    var s' := FirstRead(s, chunk);
    FirstOf(s, s', [] + [chunk]);
    assert ([] + [chunk])[1..] == [];
  }

  lemma FirstOf(s: Session, s': Session, chunks: seq<string>)
    requires Parsing(s) && !s.failed && chunks != [] && s' == OnMessage(s, chunks[0]) && Parsing(s')
    ensures Receive(s, chunks) == Receive(s', chunks[1..])
  {}

  /** The number of requests in what was read. */
  function Available(chunks: seq<string>): nat {
    |AllRequests(ExpectRequestLine, FRESH, Concat(chunks))|
  }

  /** The numbers available after each read. */
  function Supply(chunks: seq<string>): (a: seq<nat>)
    ensures |a| == |chunks|
  {
    if chunks == [] then [] else Supply(chunks[..|chunks| - 1]) + [Available(chunks)]
  }

  /** One more with each read, as long as there are as many. */
  function HandedOut(supply: seq<nat>): nat {
    if supply == [] then 0 else Min(HandedOut(supply[..|supply| - 1]) + 1, supply[|supply| - 1])
  }

  /** A read hands out one more request, if there is one more. */
  lemma OneAtATime(t: Session, chunk: string)
    requires Parsing(t) && !t.failed
    ensures Parsing(OnMessage(t, chunk))
    ensures |OnMessage(t, chunk).delivered| == Min(|t.delivered| + 1, |Total(OnMessage(t, chunk), "")|)
  {
    OnMessageStep(t, chunk, "");
    assert chunk + "" == chunk;
  }

  lemma NextRead(t: Session, chunk: string)
    requires Parsing(t)
    ensures Parsing(Next(t, chunk))
    ensures |Next(t, chunk).delivered| == Min(|t.delivered| + 1, |Total(Next(t, chunk), "")|)
  {
    if !t.failed { OneAtATime(t, chunk); }
  }

  /** After any reads exactly this many requests have been handed out. */
  lemma {:induction false} HandedOutIs(chunks: seq<string>)
    ensures |Receive(NEW_SESSION, chunks).delivered| == HandedOut(Supply(chunks))
    decreases |chunks|
  {
    if chunks != [] {
      var before, chunk := chunks[..|chunks| - 1], chunks[|chunks| - 1];
      assert chunks == before + [chunk];
      HandedOutIs(before);
      OneMoreRead(before, chunk);
      assert Supply(chunks)[..|before|] == Supply(before);
    }
  }

  lemma {:induction false} OneMoreRead(before: seq<string>, chunk: string)
    ensures |Receive(NEW_SESSION, before + [chunk]).delivered|
            == Min(|Receive(NEW_SESSION, before).delivered| + 1, Available(before + [chunk]))
  {
    ReceiveSnoc(NEW_SESSION, before, chunk);
    NextRead(Receive(NEW_SESSION, before), chunk);
    AvailableIs(before + [chunk], Next(Receive(NEW_SESSION, before), chunk));
  }

  lemma {:induction false} AvailableIs(chunks: seq<string>, t: Session)
    requires Parsing(t) && t == Receive(NEW_SESSION, chunks)
    ensures Available(chunks) == |Total(t, "")|
  {
    ChunkingInvisible(NEW_SESSION, chunks);
    assert "" + Concat(chunks) == Concat(chunks);
    assert Total(NEW_SESSION, Concat(chunks)) == AllRequests(ExpectRequestLine, FRESH, Concat(chunks));
  }

  /** That is the least, over the reads, of what had come by then and one for each read since. */
  lemma {:induction false} HandedOutIsLeast(supply: seq<nat>)
    ensures HandedOut(supply) <= |supply|
    ensures forall j :: 0 <= j < |supply| ==> HandedOut(supply) <= supply[j] + (|supply| - 1 - j)
    ensures HandedOut(supply) == |supply|
            || exists j :: 0 <= j < |supply| && HandedOut(supply) == supply[j] + (|supply| - 1 - j)
    decreases |supply|
  {
    if supply != [] {
      var n := |supply| - 1;
      var before := supply[..n];
      HandedOutIsLeast(before);
      assert forall j :: 0 <= j < n ==> before[j] == supply[j];
      if HandedOut(supply) == HandedOut(before) + 1 && HandedOut(before) != n {
        var j :| 0 <= j < n && HandedOut(before) == before[j] + (n - 1 - j);
        assert HandedOut(supply) == supply[j] + (|supply| - 1 - j);
      } else if HandedOut(supply) != HandedOut(before) + 1 {
        assert HandedOut(supply) == supply[n] + (|supply| - 1 - n);
      }
    }
  }

  /** Two requests in one read: the second is handed out by the next read, whatever that brings. */
  lemma {:induction false} PipelinedWaits(q: string, r: Request, more: string)
    requires Parse(ExpectRequestLine, FRESH, q) == Outcome(true, GotAll, r, "")
    ensures Receive(NEW_SESSION, [q + q]).delivered == [r] && Available([q + q]) == 2
    ensures Receive(NEW_SESSION, [q + q] + [more]).delivered == [r, r]
  {
    var t := AfterTwo(q, r);
    SecondOfTwo(t, q, r, more);
    ReceiveSnoc(NEW_SESSION, [q + q], more);
  }

  lemma {:induction false} AfterTwo(q: string, r: Request) returns (t: Session)
    requires Parse(ExpectRequestLine, FRESH, q) == Outcome(true, GotAll, r, "")
    ensures t == Receive(NEW_SESSION, [q + q]) == Session(ExpectRequestLine, FRESH, q, [r], false, q)
    ensures Available([q + q]) == 2
  {
    t := FirstOfTwo(q, r);
    ReceiveOne(NEW_SESSION, q + q);
    assert [] + [q + q] == [q + q];
    TwoRequests(q, r);
    assert Concat([q + q]) == q + q;
  }

  lemma {:induction false} FirstOfTwo(q: string, r: Request) returns (t: Session)
    requires Parse(ExpectRequestLine, FRESH, q) == Outcome(true, GotAll, r, "")
    ensures t == OnMessage(NEW_SESSION, q + q) == Session(ExpectRequestLine, FRESH, q, [r], false, q)
  {
    ParseAppend(ExpectRequestLine, FRESH, q, q);
    assert "" + q == q && "" + (q + q) == q + q;
    var o := Parse(ExpectRequestLine, FRESH, q + q);
    assert o == Outcome(true, GotAll, r, q);
    assert (q + q)[..|q|] == q;
    t := Absorb(NEW_SESSION, q + q, o);
  }

  lemma {:induction false} SecondOfTwo(t: Session, q: string, r: Request, more: string)
    requires Parse(ExpectRequestLine, FRESH, q) == Outcome(true, GotAll, r, "")
    requires t == Session(ExpectRequestLine, FRESH, q, [r], false, q)
    ensures OnMessage(t, more).delivered == [r, r] && Parsing(OnMessage(t, more))
  {
    ParseAppend(ExpectRequestLine, FRESH, q, more);
    assert Parse(ExpectRequestLine, FRESH, q + more) == Outcome(true, GotAll, r, "" + more);
    assert [r] + [r] == [r, r];
  }

  lemma {:induction false} TwoRequests(q: string, r: Request)
    requires Parse(ExpectRequestLine, FRESH, q) == Outcome(true, GotAll, r, "")
    ensures AllRequests(ExpectRequestLine, FRESH, q + q) == [r, r]
  {
    ParseAppend(ExpectRequestLine, FRESH, q, q);
    assert "" + q == q;
    assert AllRequests(ExpectRequestLine, FRESH, "") == [];
    assert AllRequests(ExpectRequestLine, FRESH, q) == [r] + AllRequests(ExpectRequestLine, FRESH, "");
  }

  /** Such a request, with which the waiting happens. */
  lemma {:induction false} SimpleRequestWaits(more: string)
    ensures var q := Line("GET", "/" + "", "HTTP/1.1") + CRLF + (HeaderBlock(map[], []) + (CRLF + ""));
            var r := Request(Get, Http11, "/", "", map[]);
            && Receive(NEW_SESSION, [q + q]).delivered == [r] && Available([q + q]) == 2
            && Receive(NEW_SESSION, [q + q] + [more]).delivered == [r, r]
  {
    RequestIsRead("GET", Get, "/", "", "HTTP/1.1", Http11, map[], [], "");
    var q := Line("GET", "/" + "", "HTTP/1.1") + CRLF + (HeaderBlock(map[], []) + (CRLF + ""));
    PipelinedWaits(q, Request(Get, Http11, "/", "", map[]), more);
  }
}
