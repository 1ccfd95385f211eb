/** Printing a response, and reading its header section back with the request parser. */
module HttpResponse {
  import opened Powers
  import opened Decimals
  import opened Buffer
  import opened Http

  /** Room for formatted text in the 32-byte scratch buffer, less the terminator. */
  const SCRATCH: nat := 31

  function Truncated(s: string): string {
    if |s| <= SCRATCH then s else s[..SCRATCH]
  }

  function HeaderLine(key: string, value: string): string {
    key + ": " + value + CRLF
  }

  function LengthLine(n: nat): string {
    Truncated("Content-Length: " + ToDigits(n) + CRLF)
  }

  function HeaderBlock(headers: map<string, string>, order: seq<string>): string
    requires forall k :: k in order ==> k in headers
  {
    if order == [] then []
    else HeaderLine(order[0], headers[order[0]]) + HeaderBlock(headers, order[1..])
  }

  /** order lists the keys of the map, each once. */
  ghost predicate Enumerates(order: seq<string>, headers: map<string, string>) {
    && (forall k :: k in order <==> k in headers)
    && forall i, j :: 0 <= i < j < |order| ==> order[i] != order[j]
  }

  /** The number and the message; the number goes through the scratch buffer. */
  function StatusLine(code: nat, message: string): string {
    Truncated("HTTP/1.1 " + ToDigits(code) + " ") + message + CRLF
  }

  /** Everything after the status line. */
  ghost function HeaderSection(close: bool, headers: map<string, string>, order: seq<string>, body: string): string
    requires forall k :: k in order ==> k in headers
  {
    FixedHeaders(close, |body|) + (HeaderBlock(headers, order) + (CRLF + body))
  }

  /** The headers printed for every response. */
  function FixedHeaders(close: bool, n: nat): string {
    if close then HeaderLine("Connection", "close") else LengthLine(n) + HeaderLine("Connection", "Keep-Alive")
  }

  lemma ConnectionLines()
    ensures HeaderLine("Connection", "close") == "Connection: close\r\n"
    ensures HeaderLine("Connection", "Keep-Alive") == "Connection: Keep-Alive\r\n"
  {
    assert "Connection" + ": " == "Connection: ";
    assert "Connection: " + "close" + CRLF == "Connection: close\r\n";
    assert "Connection: " + "Keep-Alive" + CRLF == "Connection: Keep-Alive\r\n";
  }

  lemma Regroup(a: string, b: string, c: string, f: string, h: string, body: string)
    ensures ((((((a + b) + c) + CRLF) + f) + h) + CRLF) + body == (a + ((b + c) + CRLF)) + (f + (h + (CRLF + body)))
  {}

  class HttpResponse {
    var headers: map<string, string>
    var statusCode: nat
    var statusMessage: string
    var closeConnection: bool
    var body: string

    constructor (close: bool)
      ensures closeConnection == close && statusCode == 0 && statusMessage == "" && headers == map[] && body == ""
    {
      headers, statusCode, statusMessage, closeConnection, body := map[], 0, "", close, "";
    }

    method AddHeader(key: string, value: string)
      modifies this`headers
      ensures headers == old(headers)[key := value]
    {
      headers := headers[key := value];
    }

    method AppendToBuffer(output: Buffer) returns (ghost order: seq<string>)
      requires output.Valid()
      modifies output
      ensures output.Valid() && Enumerates(order, headers)
      ensures output.Readable() == old(output.Readable())
              + StatusLine(statusCode, statusMessage)
              + HeaderSection(closeConnection, headers, order, body)
    {
      output.Append(Truncated("HTTP/1.1 " + ToDigits(statusCode) + " "));
      output.Append(statusMessage);
      output.Append(CRLF);
      AppendFixedHeaders(output);
      order := AppendHeaders(output);
      output.Append(CRLF);
      output.Append(body);
      Regroup(old(output.Readable()), Truncated("HTTP/1.1 " + ToDigits(statusCode) + " "), statusMessage,
              FixedHeaders(closeConnection, |body|), HeaderBlock(headers, order), body);
    }

    method AppendFixedHeaders(output: Buffer)
      requires output.Valid()
      modifies output
      ensures output.Valid() && output.Readable() == old(output.Readable()) + FixedHeaders(closeConnection, |body|)
    {
      ConnectionLines();
      if closeConnection {
        output.Append("Connection: close\r\n");
      } else {
        JoinSection(output.Readable(), LengthLine(|body|), "Connection: Keep-Alive\r\n");
        output.Append(LengthLine(|body|));
        output.Append("Connection: Keep-Alive\r\n");
      }
    }

    method AppendHeader(output: Buffer, key: string)
      requires output.Valid() && key in headers
      modifies output
      ensures output.Valid() && output.Readable() == old(output.Readable()) + HeaderLine(key, headers[key])
    {
      output.Append(key);
      output.Append(": ");
      output.Append(headers[key]);
      output.Append(CRLF);
      assert output.Readable() == old(output.Readable()) + HeaderLine(key, headers[key]);
    }

    /** The loop over the header map; the map's own iteration order is one of those covered. */
    method AppendHeaders(output: Buffer) returns (ghost order: seq<string>)
      requires output.Valid()
      modifies output
      ensures output.Valid() && Enumerates(order, headers)
      ensures output.Readable() == old(output.Readable()) + HeaderBlock(headers, order)
    {
      order := [];
      var remaining := headers.Keys;
      while remaining != {}
        invariant output.Valid() && remaining <= headers.Keys
        invariant forall k :: k in order <==> k in headers && k !in remaining
        invariant forall i, j :: 0 <= i < j < |order| ==> order[i] != order[j]
        invariant output.Readable() == old(output.Readable()) + HeaderBlock(headers, order)
        decreases remaining
      {
        var key :| key in remaining;
        ghost var before := output.Readable();
        AppendHeader(output, key);
        BlockSnoc(headers, order, key);
        SameEnd(old(output.Readable()), HeaderBlock(headers, order), HeaderLine(key, headers[key]), before);
        order := order + [key];
        remaining := remaining - {key};
      }
    }
  }

  lemma {:induction false} BlockSnoc(headers: map<string, string>, order: seq<string>, key: string)
    requires key in headers && forall k :: k in order ==> k in headers
    ensures HeaderBlock(headers, order + [key]) == HeaderBlock(headers, order) + HeaderLine(key, headers[key])
    decreases |order|
  {
    if order == [] {
      assert order + [key] == [key];
      assert HeaderBlock(headers, []) == [];
    } else {
      BlockSnoc(headers, order[1..], key);
      assert (order + [key])[1..] == order[1..] + [key];
    }
  }

  predicate Trimmed(s: string) {
    s == [] || (!IsSpace(s[0]) && !IsSpace(s[|s| - 1]))
  }

  /** A key that survives: no colon and no line end inside it. */
  predicate CleanKey(k: string) {
    forall i :: 0 <= i < |k| ==> k[i] != ':' && k[i] != '\r' && k[i] != '\n'
  }

  /** A value that survives: no line end inside it and no white space around it. */
  predicate CleanValue(v: string) {
    Trimmed(v) && IndexOfCRLF(v) == -1
  }

  /** The parser reads one printed header line back. */
  lemma ParseHeaderLine(req: Request, key: string, value: string, rest: string)
    requires CleanKey(key) && CleanValue(value)
    ensures Parse(ExpectHeaders, req, HeaderLine(key, value) + rest)
            == Parse(ExpectHeaders, req.(headers := req.headers[key := value]), rest)
  {
    var line := key + ": " + value;
    assert HeaderLine(key, value) + rest == line + CRLF + rest;
    LineEnds(key, value, rest);
    LineHeader(req, key, value);
    TurnAtHeader(req, line, rest, Find(line, ':'));
  }

  lemma LineHeader(req: Request, key: string, value: string)
    requires CleanKey(key) && CleanValue(value)
    ensures var line := key + ": " + value;
            && Find(line, ':') < |line|
            && Http.AddHeader(req, line, Find(line, ':')) == req.(headers := req.headers[key := value])
  {
    var line := key + ": " + value;
    FindAt(line, |key|, ':');
    assert line[..|key|] == key && line[|key| + 1..] == " " + value;
    assert (" " + value)[1..] == value;
    assert TrimLeft(value) == value && TrimRight(value) == value;
  }

  lemma LineEnds(key: string, value: string, rest: string)
    requires CleanKey(key) && CleanValue(value)
    ensures IndexOfCRLF(key + ": " + value + CRLF + rest) == |key| + 2 + |value|
  {
    var bytes := key + ": " + value + CRLF + rest;
    var start := |key| + 2;
    var i := start + |value|;
    assert bytes[start..i] == value;
    forall j | 0 <= j < i
      ensures !CRLFAt(bytes, j)
    {
      if j < |key| {
        assert bytes[j] == key[j];
      } else if j >= start {
        assert bytes[j] == value[j - start];
        if j + 1 < i {
          assert bytes[j + 1] == value[j + 1 - start];
          assert !CRLFAt(value, j - start);
        }
      }
    }
    IndexUnique(bytes, i);
  }

  ghost predicate ReadableHeaders(headers: map<string, string>) {
    forall k :: k in headers ==> CleanKey(k) && CleanValue(headers[k])
  }

  /** Not those that are printed for every response. */
  ghost predicate CleanHeaders(headers: map<string, string>) {
    ReadableHeaders(headers) && "Connection" !in headers && "Content-Length" !in headers
  }

  ghost function Restricted(headers: map<string, string>, order: seq<string>): map<string, string>
    requires forall k :: k in order ==> k in headers
  {
    map k | k in order :: headers[k]
  }

  lemma {:induction false} ParseBlock(req: Request, headers: map<string, string>, order: seq<string>, rest: string)
    requires ReadableHeaders(headers) && forall k :: k in order ==> k in headers
    ensures Parse(ExpectHeaders, req, HeaderBlock(headers, order) + rest)
            == Parse(ExpectHeaders, req.(headers := req.headers + Restricted(headers, order)), rest)
    decreases |order|
  {
    if order == [] {
      assert HeaderBlock(headers, order) + rest == rest;
      assert req.headers + Restricted(headers, order) == req.headers;
    } else {
      var k := order[0];
      var v := headers[k];
      var block := HeaderBlock(headers, order[1..]);
      assert HeaderBlock(headers, order) + rest == HeaderLine(k, v) + (block + rest);
      ParseHeaderLine(req, k, v, block + rest);
      var req' := req.(headers := req.headers[k := v]);
      ParseBlock(req', headers, order[1..], rest);
      RestrictedStep(req.headers, headers, order);
    }
  }

  lemma RestrictedStep(base: map<string, string>, headers: map<string, string>, order: seq<string>)
    requires order != [] && forall k :: k in order ==> k in headers
    ensures base[order[0] := headers[order[0]]] + Restricted(headers, order[1..]) == base + Restricted(headers, order)
  {
    assert forall k :: k in order <==> k == order[0] || k in order[1..];
  }

  lemma ParseBlankLine(req: Request, body: string)
    ensures Parse(ExpectHeaders, req, CRLF + body) == Outcome(true, GotAll, req, body)
  {
    TurnAtBlank(req, body);
  }

  /** The headers a reader should find. */
  ghost function ExpectedHeaders(close: bool, headers: map<string, string>, n: nat): map<string, string> {
    (if close then map["Connection" := "close"]
     else map["Content-Length" := ToDigits(n), "Connection" := "Keep-Alive"]) + headers
  }

  lemma ParseTail(req: Request, headers: map<string, string>, order: seq<string>, body: string)
    requires ReadableHeaders(headers) && Enumerates(order, headers)
    ensures Parse(ExpectHeaders, req, HeaderBlock(headers, order) + (CRLF + body))
            == Outcome(true, GotAll, req.(headers := req.headers + headers), body)
  {
    ParseBlock(req, headers, order, CRLF + body);
    assert Restricted(headers, order) == headers;
    ParseBlankLine(req.(headers := req.headers + headers), body);
  }

  ghost predicate ReadsBack(close: bool, headers: map<string, string>, order: seq<string>, body: string)
    requires Enumerates(order, headers)
  {
    Parse(ExpectHeaders, FRESH, HeaderSection(close, headers, order, body))
    == Outcome(true, GotAll, FRESH.(headers := ExpectedHeaders(close, headers, |body|)), body)
  }

  lemma NumeralIsClean(n: nat)
    ensures CleanValue(ToDigits(n))
  {
    var s := ToDigits(n);
    forall i | 0 <= i < |s|
      ensures !CRLFAt(s, i)
    {
      assert IsDigit(s[i]);
    }
  }

  lemma CleanLiterals()
    ensures CleanKey("Connection") && CleanKey("Content-Length") && CleanValue("close") && CleanValue("Keep-Alive")
  {
    assert forall i :: 0 <= i < 5 ==> !CRLFAt("close", i);
    assert forall i :: 0 <= i < 10 ==> !CRLFAt("Keep-Alive", i);
  }

  lemma ClosingReadsBack(headers: map<string, string>, order: seq<string>, body: string)
    requires CleanHeaders(headers) && Enumerates(order, headers)
    ensures ReadsBack(true, headers, order, body)
  {
    CleanLiterals();
    ParseHeaderLine(FRESH, "Connection", "close", HeaderBlock(headers, order) + (CRLF + body));
    ParseTail(FRESH.(headers := map["Connection" := "close"]), headers, order, body);
    assert FRESH.headers["Connection" := "close"] == map["Connection" := "close"];
  }

  lemma KeepAliveReadsBack(headers: map<string, string>, order: seq<string>, body: string)
    requires CleanHeaders(headers) && Enumerates(order, headers) && |body| < Pow(10, 13)
    ensures ReadsBack(false, headers, order, body)
  {
    CleanLiterals();
    var digits := ToDigits(|body|);
    var tail := HeaderBlock(headers, order) + (CRLF + body);
    LengthLineFits(|body|);
    NumeralIsClean(|body|);
    var second := HeaderLine("Connection", "Keep-Alive") + tail;
    var first := map["Content-Length" := digits];
    ParseHeaderLine(FRESH, "Content-Length", digits, second);
    ParseHeaderLine(FRESH.(headers := first), "Connection", "Keep-Alive", tail);
    ParseTail(FRESH.(headers := first["Connection" := "Keep-Alive"]), headers, order, body);
    JoinSection(HeaderLine("Content-Length", digits), HeaderLine("Connection", "Keep-Alive"), tail);
    FixedMap(digits, headers);
  }

  lemma FixedMap(digits: string, headers: map<string, string>)
    ensures FRESH.headers["Content-Length" := digits] == map["Content-Length" := digits]
    ensures map["Content-Length" := digits]["Connection" := "Keep-Alive"] + headers
            == map["Content-Length" := digits, "Connection" := "Keep-Alive"] + headers
  {}

  lemma JoinSection(a: string, b: string, c: string)
    ensures (a + b) + c == a + (b + c)
  {}

  lemma LengthLineFits(n: nat)
    requires n < Pow(10, 13)
    ensures LengthLine(n) == HeaderLine("Content-Length", ToDigits(n))
  {
    DigitsLength(n, 13);
    assert "Content-Length: " == "Content-Length" + ": ";
  }

  /** A longer length line is cut before its line end, and swallows the Connection header after it. */
  lemma OverlongDoesNot(headers: map<string, string>, order: seq<string>, body: string)
    requires CleanHeaders(headers) && Enumerates(order, headers) && |body| >= Pow(10, 13)
    ensures !ReadsBack(false, headers, order, body)
  {
    CleanLiterals();
    var digits := ToDigits(|body|);
    DigitsLength(|body|, 13);
    var merged := Merged(digits);
    var tail := HeaderBlock(headers, order) + (CRLF + body);
    LengthLineCut(|body|);
    MergedIsClean(digits);
    ParseHeaderLine(FRESH, "Content-Length", merged, tail);
    var found := FRESH.headers["Content-Length" := merged];
    ParseTail(FRESH.(headers := found), headers, order, body);
    ConnectionMissing(merged, headers, |body|);
  }

  lemma ConnectionMissing(merged: string, headers: map<string, string>, n: nat)
    requires CleanHeaders(headers)
    ensures FRESH.headers["Content-Length" := merged] + headers != ExpectedHeaders(false, headers, n)
  {
    assert "Content-Length" != "Connection" by { assert |"Content-Length"| != |"Connection"|; }
    assert "Connection" !in FRESH.headers["Content-Length" := merged] + headers;
    assert "Connection" in ExpectedHeaders(false, headers, n);
  }

  /** The value read when the length line is cut: what fits of it, then the next line. */
  function Merged(digits: string): string
    requires |digits| >= 14
  {
    (digits + CRLF)[..15] + "Connection: Keep-Alive"
  }

  lemma LengthLineCut(n: nat)
    requires |ToDigits(n)| >= 14
    ensures FixedHeaders(false, n) == HeaderLine("Content-Length", Merged(ToDigits(n)))
  {
    var kept := (ToDigits(n) + CRLF)[..15];
    var prefix := "Content-Length: ";
    assert |prefix| == 16;
    assert (prefix + (ToDigits(n) + CRLF))[..31] == prefix + kept;
    assert prefix + ToDigits(n) + CRLF == prefix + (ToDigits(n) + CRLF);
    assert LengthLine(n) == prefix + kept;
    ConnectionLines();
    assert "Connection: Keep-Alive\r\n" == "Connection: Keep-Alive" + CRLF;
    assert "Content-Length" + ": " == prefix;
    assert prefix + kept + ("Connection: Keep-Alive" + CRLF) == prefix + (kept + "Connection: Keep-Alive") + CRLF;
  }

  lemma MergedIsClean(digits: string)
    requires |digits| >= 14 && forall k :: 0 <= k < |digits| ==> IsDigit(digits[k])
    ensures CleanValue(Merged(digits))
  {
    var kept, more := (digits + CRLF)[..15], "Connection: Keep-Alive";
    var v := kept + more;
    assert v[0] == digits[0] && IsDigit(digits[0]);
    assert v[|v| - 1] == more[21] == 'e';
    forall i | 0 <= i < |v|
      ensures !CRLFAt(v, i)
    {
      if i < 14 {
        assert v[i] == digits[i];
      } else if i == 14 {
        assert v[15] == more[0] == 'C';
      } else {
        assert v[i] == more[i - 15];
      }
    }
  }

  /**
   * Printing a response and parsing its header section gives the same headers back, with the body unread,
   * exactly when the connection closes or the body length has at most thirteen digits.
   */
  lemma RoundTripIff(close: bool, headers: map<string, string>, order: seq<string>, body: string)
    requires CleanHeaders(headers) && Enumerates(order, headers)
    ensures ReadsBack(close, headers, order, body) <==> close || |body| < Pow(10, 13)
  {
    if close {
      ClosingReadsBack(headers, order, body);
    } else if |body| < Pow(10, 13) {
      KeepAliveReadsBack(headers, order, body);
    } else {
      OverlongDoesNot(headers, order, body);
    }
  }
}
