/** What the parser reads out of a request, by value. */
module RequestLine {
  import opened Buffer
  import opened Http
  import opened HttpResponse

  /** The seven names and what they mean. */
  predicate Names(name: string, verb: Method) {
    || (name == "GET" && verb == Get)
    || (name == "POST" && verb == Post)
    || (name == "HEAD" && verb == Head)
    || (name == "PUT" && verb == Put)
    || (name == "DELETE" && verb == Delete)
    || (name == "TRACE" && verb == Trace)
    || (name == "OPTIONS" && verb == Options)
  }

  predicate Versions(text: string, version: Version) {
    (text == "HTTP/1.0" && version == Http10) || (text == "HTTP/1.1" && version == Http11)
  }

  /** A name is known exactly if it is one of these, and then means its verb. */
  lemma MethodIff(name: string, verb: Method)
    requires verb != Invalid
    ensures MethodOf(name) == verb <==> Names(name, verb)
  {}

  lemma VersionIff(text: string, version: Version)
    requires version != Unknown
    ensures VersionOf(text) == version <==> Versions(text, version)
  {
    if |text| == 8 {
      assert text == text[..7] + [text[7]];
      assert "HTTP/1.0" == "HTTP/1." + ['0'] && "HTTP/1.1" == "HTTP/1." + ['1'];
      assert "HTTP/1.0"[..7] == "HTTP/1." && "HTTP/1.1"[..7] == "HTTP/1.";
    }
  }

  /** A path without question mark or space, and a query that is empty or starts with a question mark. */
  predicate Target(path: string, query: string) {
    && '?' !in path && ' ' !in path && ' ' !in query
    && (query != "" ==> query[0] == '?')
  }

  function Line(name: string, target: string, version: string): string {
    name + " " + (target + " " + version)
  }

  lemma FindFirst(a: string, c: char, b: string)
    requires c !in a
    ensures var s := a + [c] + b; Find(s, c) == |a| && s[..|a|] == a && s[|a| + 1..] == b
  {
    var s := a + [c] + b;
    forall j | 0 <= j < |a|
      ensures s[j] != c
    {
      assert s[j] == a[j] && a[j] in a;
    }
    FindAt(s, |a|, c);
  }

  /** Path and query are parted before the first question mark. */
  lemma TargetIs(req: Request, path: string, query: string)
    requires Target(path, query) && req.query == ""
    ensures SetTarget(req, path + query) == req.(path := path, query := query)
  {
    if query == "" {
      assert path + query == path;
      FindNone(path, '?');
    } else {
      assert path + query == path + ['?'] + query[1..];
      FindFirst(path, '?', query[1..]);
      assert (path + query)[..|path|] == path && (path + query)[|path|..] == query;
    }
  }

  /** The three words of a line. */
  lemma Words(name: string, target: string, version: string)
    requires ' ' !in name && ' ' !in target
    ensures var line, rest := Line(name, target, version), target + " " + version;
            && Find(line, ' ') == |name| < |line| && line[..|name|] == name && line[|name| + 1..] == rest
            && Find(rest, ' ') == |target| < |rest| && rest[..|target|] == target && rest[|target| + 1..] == version
  {
    var rest := target + " " + version;
    assert Line(name, target, version) == name + [' '] + rest && rest == target + [' '] + version;
    FindFirst(name, ' ', rest);
    FindFirst(target, ' ', version);
  }

  /** A request line is read as its verb, path, query and version. */
  lemma LineIsRead(name: string, verb: Method, path: string, query: string, text: string, version: Version)
    requires Names(name, verb) && Versions(text, version) && Target(path, query)
    ensures ParseRequestLine(FRESH, Line(name, path + query, text))
            == (true, Request(verb, version, path, query, map[]))
  {
    NamesAreWords(name, verb);
    TargetIsWord(path, query);
    Words(name, path + query, text);
    MethodIff(name, verb);
    VersionIff(text, version);
    TargetIs(FRESH.(verb := verb), path, query);
  }

  lemma NamesAreWords(name: string, verb: Method)
    requires Names(name, verb)
    ensures ' ' !in name && '\r' !in name && verb != Invalid
  {}

  lemma TargetIsWord(path: string, query: string)
    requires ' ' !in path && ' ' !in query
    ensures ' ' !in path + query
  {}

  /** A known name, a word and a known version, parted by single spaces. */
  ghost predicate WellFormed(line: string, name: string, verb: Method, target: string, text: string, version: Version) {
    && Names(name, verb) && Versions(text, version) && ' ' !in target
    && line == Line(name, target, text)
  }

  /** Exactly such lines are accepted. */
  lemma LineAcceptedIff(line: string)
    ensures ParseRequestLine(FRESH, line).0
            <==> exists name, verb, target, text, version :: WellFormed(line, name, verb, target, text, version)
  {
    if ParseRequestLine(FRESH, line).0 {
      var name, target, text := Accepted(line);
      MethodIff(name, MethodOf(name));
      VersionIff(text, VersionOf(text));
      assert WellFormed(line, name, MethodOf(name), target, text, VersionOf(text));
    }
    if name, verb, target, text, version :| WellFormed(line, name, verb, target, text, version) {
      NamesAreWords(name, verb);
      Words(name, target, text);
      MethodIff(name, verb);
      VersionIff(text, version);
    }
  }

  lemma Accepted(line: string) returns (name: string, target: string, text: string)
    requires ParseRequestLine(FRESH, line).0
    ensures line == Line(name, target, text) && ' ' !in target
    ensures MethodOf(name) != Invalid && VersionOf(text) != Unknown
  {
    ThreeParts(line);
    var i := Find(line, ' ');
    var rest := line[i + 1..];
    name := line[..i];
    target, text := SplitAtSpace(rest);
    Reparted(line, i);
  }

  lemma ThreeParts(line: string)
    requires ParseRequestLine(FRESH, line).0
    ensures var i := Find(line, ' ');
            && i < |line| && MethodOf(line[..i]) != Invalid
            && var rest := line[i + 1..];
               Find(rest, ' ') < |rest| && VersionOf(rest[Find(rest, ' ') + 1..]) != Unknown
  {}

  lemma SplitAtSpace(s: string) returns (word: string, rest: string)
    requires Find(s, ' ') < |s|
    ensures word == s[..Find(s, ' ')] && rest == s[Find(s, ' ') + 1..]
    ensures s == word + " " + rest && ' ' !in word
  {
    var i := Find(s, ' ');
    word, rest := s[..i], s[i + 1..];
    Reparted(s, i);
    assert forall k :: 0 <= k < i ==> word[k] == s[k];
  }

  lemma Reparted(s: string, i: nat)
    requires i < |s| && s[i] == ' '
    ensures s == s[..i] + " " + s[i + 1..] == s[..i] + (" " + s[i + 1..])
  {}

  lemma CleanLineEnds(line: string, rest: string)
    requires '\r' !in line
    ensures IndexOfCRLF(line + CRLF + rest) == |line|
  {
    var bytes := line + CRLF + rest;
    assert CRLFAt(bytes, |line|);
    forall j | 0 <= j < |line|
      ensures !CRLFAt(bytes, j)
    {
      assert bytes[j] == line[j] && line[j] in line;
    }
    IndexUnique(bytes, |line|);
  }

  /** A whole request: its line, its headers in any order, and what follows left unread. */
  lemma {:induction false} RequestIsRead(
      name: string, verb: Method, path: string, query: string, text: string, version: Version,
      headers: map<string, string>, order: seq<string>, more: string)
    requires Names(name, verb) && Versions(text, version) && Target(path, query)
    requires '\r' !in path && '\r' !in query && ReadableHeaders(headers) && Enumerates(order, headers)
    ensures Parse(ExpectRequestLine, FRESH, Line(name, path + query, text) + CRLF + (HeaderBlock(headers, order) + (CRLF + more)))
            == Outcome(true, GotAll, Request(verb, version, path, query, headers), more)
  {
    var line := Line(name, path + query, text);
    LineIsRead(name, verb, path, query, text, version);
    LineIsClean(name, verb, path, query, text, version);
    CleanLineEnds(line, HeaderBlock(headers, order) + (CRLF + more));
    TurnAtLine(line, HeaderBlock(headers, order) + (CRLF + more));
    var req := Request(verb, version, path, query, map[]);
    ParseTail(req, headers, order, more);
    assert req.headers + headers == headers;
  }

  lemma LineIsClean(name: string, verb: Method, path: string, query: string, text: string, version: Version)
    requires Names(name, verb) && Versions(text, version) && '\r' !in path && '\r' !in query
    ensures '\r' !in Line(name, path + query, text)
  {
    NamesAreWords(name, verb);
    assert '\r' !in text;
  }

  /** A refused line is left in place, with everything after it. */
  lemma {:induction false} RefusedIsLeft(line: string, more: string)
    requires IndexOfCRLF(line + CRLF + more) == |line| && !ParseRequestLine(FRESH, line).0
    ensures var o := Parse(ExpectRequestLine, FRESH, line + CRLF + more);
            !o.ok && o.phase == ExpectRequestLine && o.rest == line + CRLF + more
  {
    assert (line + CRLF + more)[..|line|] == line;
  }

  /** Without a whole line nothing happens. */
  lemma {:induction false} PartIsLeft(phase: Phase, req: Request, bytes: string)
    requires (phase.ExpectRequestLine? || phase.ExpectHeaders?) && IndexOfCRLF(bytes) == -1
    ensures Parse(phase, req, bytes) == Outcome(true, phase, req, bytes)
  {}

  /** White space, by character. */
  lemma SpaceIs(c: char)
    ensures IsSpace(c) <==> c == ' ' || c == '\t' || c == '\n' || c == '\U{0B}' || c == '\U{0C}' || c == '\r'
  {}

  ghost predicate Blank(s: string) {
    forall i :: 0 <= i < |s| ==> IsSpace(s[i])
  }

  lemma {:induction false} LeftTrimmed(s: string) returns (front: string)
    ensures s == front + TrimLeft(s) && Blank(front) && (TrimLeft(s) != "" ==> !IsSpace(TrimLeft(s)[0]))
    decreases |s|
  {
    if s != [] && IsSpace(s[0]) {
      front := LeftTrimmed(s[1..]);
      assert s == [s[0]] + s[1..];
      front := [s[0]] + front;
    } else {
      front := "";
    }
  }

  lemma {:induction false} RightTrimmed(s: string) returns (back: string)
    ensures s == TrimRight(s) + back && Blank(back)
    ensures TrimRight(s) != "" ==> !IsSpace(TrimRight(s)[|TrimRight(s)| - 1])
    decreases |s|
  {
    if s != [] && IsSpace(s[|s| - 1]) {
      back := RightTrimmed(s[..|s| - 1]);
      assert s == s[..|s| - 1] + [s[|s| - 1]];
      back := back + [s[|s| - 1]];
    } else {
      back := "";
    }
  }

  /**
   * A header line stores, under the text before the colon, the text after it without the white space around
   * it, and changes nothing else.
   */
  lemma HeaderIsStored(req: Request, line: string, colon: nat) returns (front: string, value: string, back: string)
    requires colon < |line|
    ensures Http.AddHeader(req, line, colon) == req.(headers := req.headers[line[..colon] := value])
    ensures line[colon + 1..] == front + value + back && Blank(front) && Blank(back)
    ensures value != "" ==> !IsSpace(value[0]) && !IsSpace(value[|value| - 1])
  {
    var text := line[colon + 1..];
    front := LeftTrimmed(text);
    back := RightTrimmed(TrimLeft(text));
    value := TrimRight(TrimLeft(text));
    if value != "" { assert value[0] == TrimLeft(text)[0]; }
  }
}
