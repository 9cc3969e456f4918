/**
 * Complete requests: the bytes of a well-formed request (request line, header
 * lines, the blank line, the body) and what the parser makes of them, proved
 * from the phase lemmas about `Run`.
 */
module Messages {
  import opened Wrappers
  import opened Ascii
  import opened HttpRequest
  import opened Parser
  import opened ParserRuns

  /** A request as a client writes it; the version is two digit characters. */
  datatype Message = Message(methodToken: string, target: string, major: char, minor: char, headers: seq<Header>, body: string)

  function RequestLine(m: Message): string
  {
    m.methodToken + " " + m.target + " HTTP/" + [m.major, '.', m.minor] + "\r\n"
  }

  function HeaderLine(h: Header): string
  {
    h.name + ": " + h.value + "\r\n"
  }

  function HeaderLines(hs: seq<Header>): string
    decreases |hs|
  {
    if hs == [] then [] else HeaderLine(hs[0]) + HeaderLines(hs[1..])
  }

  /** The bytes of a request. */
  function Text(m: Message): string
  {
    RequestLine(m) + HeaderLines(m.headers) + "\r\n" + m.body
  }

  /**
   * A header line the parser reads as written: a non-empty name without ':' or
   * spaces that does not start with a newline byte, and a value without newline
   * bytes that does not start with a space (leading spaces are skipped).
   */
  predicate WellFormedHeader(h: Header)
  {
    && |h.name| > 0 && !IsNewLine(h.name[0])
    && (forall i | 0 <= i < |h.name| :: KeyByte(h.name[i]))
    && (forall i | 0 <= i < |h.value| :: !IsNewLine(h.value[i]))
    && (h.value == [] || !IsSpace(h.value[0]))
  }

  /**
   * A request the parser reads as written: an upper-case method token, a
   * target without spaces, two version digits and at least one header line
   * (a request line followed directly by the blank line is rejected, see
   * `NoHeadersIsError`).
   */
  predicate WellFormed(m: Message)
  {
    && (forall i | 0 <= i < |m.methodToken| :: IsUpperAlpha(m.methodToken[i]))
    && |m.target| > 0 && (forall i | 0 <= i < |m.target| :: !IsSpace(m.target[i]))
    && IsDigit(m.major) && IsDigit(m.minor)
    && |m.headers| > 0 && (forall i | 0 <= i < |m.headers| :: WellFormedHeader(m.headers[i]))
  }

  /** The request after `reset` and a request line: method, target and version recorded. */
  function AfterRequestLine(q: RequestValue, m: Message): RequestValue
  {
    q.(contentLength := -1, keepAlive := false, connectionTimeout := 15,
       httpMethod := LookupMethod(m.methodToken), methodString := m.methodToken, url := m.target,
       versionMajor := m.major as int - '0' as int, versionMinor := m.minor as int - '0' as int,
       versionString := [m.major, '.', m.minor])
  }

  /**
   * One header line applied to the request: dispatched by the kind of its
   * name and then appended to the headers; None when it is rejected. The
   * request line's fields and the body are left alone.
   */
  function Applied(q: RequestValue, h: Header): (r: Option<RequestValue>)
    ensures r.Some? ==> r.value.headers == q.headers + [h]
    ensures r.Some? ==> && r.value.httpMethod == q.httpMethod && r.value.methodString == q.methodString
                        && r.value.url == q.url && r.value.versionString == q.versionString
                        && r.value.data == q.data
  {
    match Dispatch(q, KindAfterKey(h.name, NoHeader), h.value)
    case None => None
    case Some(d) => Some(d.(headers := d.headers + [h]))
  }

  /** The header lines applied in order; None as soon as one is rejected. */
  function ApplyHeaders(q: RequestValue, hs: seq<Header>): (r: Option<RequestValue>)
    ensures r.Some? ==> r.value.headers == q.headers + hs
    ensures r.Some? ==> && r.value.httpMethod == q.httpMethod && r.value.methodString == q.methodString
                        && r.value.url == q.url && r.value.versionString == q.versionString
                        && r.value.data == q.data
    decreases |hs|
  {
    if hs == [] then Some(q)
    else
      match Applied(q, hs[0])
      case None => None
      case Some(d) =>
        var r := ApplyHeaders(d, hs[1..]);
        assert r.Some? ==> r.value.headers == q.headers + hs by {
          assert q.headers + [hs[0]] + hs[1..] == q.headers + hs;
        }
        r
  }

  /** The request the parser should produce for `m`, starting from the request `q`. */
  function Expected(q: RequestValue, m: Message): (r: Option<RequestValue>)
    ensures r.Some? ==> && r.value.headers == q.headers + m.headers
                        && r.value.methodString == m.methodToken && r.value.httpMethod == LookupMethod(m.methodToken)
                        && r.value.url == m.target && r.value.data == m.body
  {
    match ApplyHeaders(AfterRequestLine(q, m), m.headers)
    case None => None
    case Some(r) => Some(r.(data := m.body))
  }

  /** The parser between two header lines: in Headers and HeaderStart, with everything else cleared. */
  const BetweenHeaders: ParserValue := InitialParser.(state := Headers)

  /**
   * The method token, the target and the protocol word: the first two are
   * recorded and the parser waits in Version with an empty buffer.
   */
  lemma {:induction false} RequestLineStartRun(c: Config, m: Message)
    requires c.parser.state == Start
    requires forall i | 0 <= i < |m.methodToken| :: IsUpperAlpha(m.methodToken[i])
    requires |m.target| > 0 && forall i | 0 <= i < |m.target| :: !IsSpace(m.target[i])
    ensures Run(c, m.methodToken + " " + m.target + " HTTP/")
         == (Config(Begin(c).parser.(state := Version, buffer := []),
                    Begin(c).request.(httpMethod := LookupMethod(m.methodToken), methodString := m.methodToken, url := m.target)),
             Processings(|m.methodToken| + |m.target| + 7))
  {
    var t := m.methodToken;
    MethodSpaceRun(c, t);
    var c1 := Config(Begin(c).parser.(state := Space1, buffer := []),
                     Begin(c).request.(httpMethod := LookupMethod(t), methodString := t));
    TargetSpaceRun(c1, m.target);
    var c2 := Config(c1.parser.(state := Space2), c1.request.(url := m.target));
    ProtocolRun(c2);
    RunConcat3(c, t + " ", m.target + " ", "HTTP/", c1, Processings(|t| + 1), c2, Processings(|m.target| + 1),
               Goto(c2, Version), Processings(5));
    ProcessingsAdd(|t| + 1, |m.target| + 1, |t| + |m.target| + 2);
    ProcessingsAdd(|t| + |m.target| + 2, 5, |m.methodToken| + |m.target| + 7);
    RequestLineStartSplit(t, m.target);
  }

  lemma RequestLineStartSplit(t: string, u: string)
    ensures t + " " + (u + " ") + "HTTP/" == t + " " + u + " HTTP/"
  {
  }

  /** The method token and its space. */
  lemma MethodSpaceRun(c: Config, t: string)
    requires c.parser.state == Start
    requires forall i | 0 <= i < |t| :: IsUpperAlpha(t[i])
    ensures Run(c, t + " ")
         == (Config(Begin(c).parser.(state := Space1, buffer := []), Begin(c).request.(httpMethod := LookupMethod(t), methodString := t)),
             Processings(|t| + 1))
  {
    MethodTokenRun(c, t, ' ');
    assert t + " " == t + [' '];
    ProcessingsAdd(|t|, 1, |t| + 1);
    assert Processings(1) == [Processing];
  }

  /** The target and its space. */
  lemma TargetSpaceRun(c: Config, u: string)
    requires c.parser.state == Space1 && c.parser.buffer == []
    requires |u| > 0 && forall i | 0 <= i < |u| :: !IsSpace(u[i])
    ensures Run(c, u + " ") == (Config(c.parser.(state := Space2), c.request.(url := u)), Processings(|u| + 1))
  {
    UrlRun(c, [], u);
    assert [] + u + " " == u + " ";
  }

  /** The protocol word and its slash. */
  lemma ProtocolRun(c: Config)
    requires c.parser.state == Space2 && c.parser.buffer == []
    ensures Run(c, "HTTP/") == (Goto(c, Version), Processings(5))
  {
    HttpWordRun(c, [], "HTTP", '/');
    assert [] + "HTTP" + ['/'] == "HTTP/";
    ProcessingsAdd(4, 1, 5);
    assert Processings(1) == [Processing];
  }

  /**
   * The version, the CR LF that ends the request line and the first byte of
   * the first header name: both digits and the version text are recorded and
   * the parser waits in the Key sub-state with that byte as its buffer.
   */
  lemma {:induction false} VersionLineEndRun(c: Config, major: char, minor: char, h: char)
    requires c.parser.state == Version && c.parser.buffer == []
    requires IsDigit(major) && IsDigit(minor)
    requires !IsNewLine(h)
    ensures Run(c, [major, '.', minor] + "\r\n" + [h])
         == (Config(c.parser.(state := Headers, headerState := Key, buffer := [h]),
                    c.request.(versionMajor := major as int - '0' as int, versionMinor := minor as int - '0' as int,
                               versionString := [major, '.', minor])),
             Processings(6))
  {
    var v := [major, '.', minor];
    VersionRun(c, v, '\r');
    ProcessingsAdd(3, 1, 4);
    assert Processings(1) == [Processing];
    var c4 := Config(c.parser.(state := NewLine, buffer := ['\r']),
                     c.request.(versionMajor := v[0] as int - '0' as int,
                                versionMinor := v[2] as int - '0' as int, versionString := v));
    LineEndRun(c4, "\n", h);
    assert c4.parser.buffer + "\n" == "\r\n";
    ProcessingsAdd(1, 1, 2);
    var c5 := c4.(parser := c4.parser.(buffer := [h], state := Headers, headerState := Key));
    RunConcat(c, v + ['\r'], "\n" + [h], c4, Processings(4), c5, Processings(2));
    ProcessingsAdd(4, 2, 6);
    assert v + ['\r'] + ("\n" + [h]) == v + "\r\n" + [h];
  }

  /**
   * The request line and the first byte of the first header name: every byte
   * is accepted, the request line's fields are recorded, and the parser waits
   * in the Key sub-state with that byte as its buffer.
   */
  lemma {:induction false} RequestLineRun(c: Config, m: Message, h: char)
    requires c.parser.state == Start
    requires forall i | 0 <= i < |m.methodToken| :: IsUpperAlpha(m.methodToken[i])
    requires |m.target| > 0 && forall i | 0 <= i < |m.target| :: !IsSpace(m.target[i])
    requires IsDigit(m.major) && IsDigit(m.minor)
    requires !IsNewLine(h)
    ensures Run(c, RequestLine(m) + [h])
         == (Config(c.parser.(consumedContent := 0, state := Headers, headerState := Key, buffer := [h]), AfterRequestLine(c.request, m)),
             Processings(|RequestLine(m)| + 1))
  {
    var first := m.methodToken + " " + m.target + " HTTP/";
    var second := [m.major, '.', m.minor] + "\r\n" + [h];
    RequestLineStartRun(c, m);
    var c3 := Config(Begin(c).parser.(state := Version, buffer := []),
                     Begin(c).request.(httpMethod := LookupMethod(m.methodToken), methodString := m.methodToken, url := m.target));
    VersionLineEndRun(c3, m.major, m.minor, h);
    RunConcat(c, first, second, c3, Processings(|m.methodToken| + |m.target| + 7),
              Config(c.parser.(consumedContent := 0, state := Headers, headerState := Key, buffer := [h]), AfterRequestLine(c.request, m)),
              Processings(6));
    ProcessingsAdd(|m.methodToken| + |m.target| + 7, 6, |RequestLine(m)| + 1);
    assert first + second == RequestLine(m) + [h];
  }

  /**
   * What one header line does, from the configuration `c`: when `Applied`
   * accepts it, every byte is accepted and the parser ends between headers
   * with the request `Applied` gives; otherwise an Error is returned.
   */
  ghost predicate LineAccepted(c: Config, line: string, q: RequestValue, h: Header)
  {
    && (Applied(q, h).Some? ==> Run(c, line) == (Config(BetweenHeaders, Applied(q, h).value), Processings(|line|)))
    && (Applied(q, h).None? ==> Error in Run(c, line).1)
  }

  /**
   * A header line read from the Key sub-state, where the buffer already holds
   * the name's first bytes and `k` is the rest of the name.
   */
  lemma {:induction false} KeyLineAccepted(c: Config, h: Header, k: string)
    requires c.parser == BetweenHeaders.(headerState := Key, buffer := c.parser.buffer, currentHeader := c.parser.currentHeader)
    requires WellFormedHeader(h) && c.parser.buffer + k == h.name
    requires forall i | 0 <= i < |k| :: KeyByte(k[i])
    ensures LineAccepted(c, k + ":" + " " + h.value + ['\r', '\n'], c.request, h)
  {
    var line := k + ":" + " " + h.value + ['\r', '\n'];
    HeaderLineRun(c, k, " ", h.value, '\r', '\n');
    var d := Dispatch(c.request, KindAfterKey(h.name, NoHeader), h.value);
    if d.Some? {
      ProcessingsAdd(|line| - 1, 1, |line|);
      assert Processings(1) == [Processing];
    } else {
      assert Run(c, line).1[|line| - 1] == Error;
    }
  }

  /** A header line read between headers. */
  lemma HeaderLineFromStart(c: Config, h: Header)
    requires c.parser == BetweenHeaders && WellFormedHeader(h)
    ensures LineAccepted(c, HeaderLine(h), c.request, h)
  {
    var line := HeaderLine(h);
    assert line == h.name + ":" + " " + h.value + ['\r', '\n'];
    HeaderStartRun(c, line);
    var ck := c.(parser := c.parser.(headerState := Key));
    assert ck.parser.buffer + h.name == h.name;
    KeyLineAccepted(ck, h, h.name);
  }

  /**
   * Header lines between headers: when every line is dispatched, the request
   * is the one `ApplyHeaders` gives and the parser is back between headers;
   * when one is rejected, an Error is returned.
   */
  lemma {:induction false} HeaderLinesRun(c: Config, hs: seq<Header>)
    requires c.parser == BetweenHeaders
    requires forall i | 0 <= i < |hs| :: WellFormedHeader(hs[i])
    ensures ApplyHeaders(c.request, hs).Some? ==>
      Run(c, HeaderLines(hs)) == (Config(BetweenHeaders, ApplyHeaders(c.request, hs).value), Processings(|HeaderLines(hs)|))
    ensures ApplyHeaders(c.request, hs).None? ==> Error in Run(c, HeaderLines(hs)).1
    decreases |hs|, 1
  {
    if hs != [] {
      assert WellFormedHeader(hs[0]);
      HeaderLineFromStart(c, hs[0]);
      ThenHeaderLines(c, HeaderLine(hs[0]), c.request, hs);
    }
  }

  /**
   * The first of the header lines `hs`, read as `LineAccepted` describes, and
   * then the others.
   */
  lemma {:induction false} ThenHeaderLines(c: Config, line: string, q: RequestValue, hs: seq<Header>)
    requires |hs| > 0 && LineAccepted(c, line, q, hs[0])
    requires forall i | 0 <= i < |hs| :: WellFormedHeader(hs[i])
    ensures ApplyHeaders(q, hs).Some? ==>
      Run(c, line + HeaderLines(hs[1..])) == (Config(BetweenHeaders, ApplyHeaders(q, hs).value), Processings(|line + HeaderLines(hs[1..])|))
    ensures ApplyHeaders(q, hs).None? ==> Error in Run(c, line + HeaderLines(hs[1..])).1
    decreases |hs|, 0
  {
    var rest := HeaderLines(hs[1..]);
    RunAppend(c, line, rest);
    if Applied(q, hs[0]).Some? {
      var c1 := Config(BetweenHeaders, Applied(q, hs[0]).value);
      forall i | 0 <= i < |hs[1..]| ensures WellFormedHeader(hs[1..][i]) {
        assert hs[1..][i] == hs[i + 1];
      }
      HeaderLinesRun(c1, hs[1..]);
      if ApplyHeaders(q, hs).Some? {
        ProcessingsAdd(|line|, |rest|, |line + rest|);
      } else {
        assert Error in Run(c1, rest).1;
      }
    }
  }

  /** An Error returned for a prefix stays among the statuses of a longer input. */
  lemma ErrorInPrefix(c: Config, a: string, b: string)
    requires Error in Run(c, a).1
    ensures Error in Run(c, a + b).1
  {
    RunAppend(c, a, b);
  }

  /** The blank line that ends the headers, as seen when the headers were accepted. */
  lemma {:induction false} BlankLineEntersBody(q: RequestValue, s: string)
    requires |s| > 0 && !IsNewLine(s[0])
    ensures Run(Config(BetweenHeaders, q), "\r\n" + s)
         == (Run(Config(InitialParser.(state := Data), q), s).0, Processings(2) + Run(Config(InitialParser.(state := Data), q), s).1)
  {
    var c := Config(BetweenHeaders, q);
    var n2 := Config(InitialParser.(state := NewLine2, buffer := "\r\n"), q);
    var n1 := Config(InitialParser.(state := NewLine2, buffer := "\r"), q);
    RunOne(c, '\r');
    assert Step(c, '\r') == (n1, Processing) by {
      assert BetweenHeaders.buffer + ['\r'] == "\r";
    }
    RunOne(n1, '\n');
    assert Step(n1, '\n') == (n2, Processing) by {
      assert n1.parser.buffer + ['\n'] == "\r\n";
    }
    assert "\r" == ['\r'] && "\n" == ['\n'];
    RunConcat(c, "\r", "\n", n1, [Processing], n2, [Processing]);
    assert "\r" + "\n" == "\r\n";
    assert [Processing] + [Processing] == Processings(2);
    SameFirstStep(n2, Config(InitialParser.(state := Data), q), s);
    RunAppend(c, "\r\n", s);
  }

  /**
   * The headers of a well-formed request, from the Key sub-state that the
   * request line leaves: accepted exactly as `ApplyHeaders` describes.
   */
  lemma {:induction false} AllHeadersRun(c: Config, m: Message, q: RequestValue)
    requires WellFormed(m)
    requires c.parser == BetweenHeaders.(headerState := Key, buffer := [m.headers[0].name[0]], currentHeader := c.parser.currentHeader)
    requires q == c.request
    ensures var rest := HeaderLines(m.headers)[1..];
      && |HeaderLines(m.headers)| > 0 && HeaderLines(m.headers)[0] == m.headers[0].name[0]
      && (ApplyHeaders(q, m.headers).Some? ==>
            Run(c, rest) == (Config(BetweenHeaders, ApplyHeaders(q, m.headers).value), Processings(|rest|)))
      && (ApplyHeaders(q, m.headers).None? ==> Error in Run(c, rest).1)
  {
    var h := m.headers[0];
    assert WellFormedHeader(h);
    var k := h.name[1..];
    var line := k + ":" + " " + h.value + ['\r', '\n'];
    HeadersSplit(m.headers);
    forall i | 0 <= i < |k| ensures KeyByte(k[i]) {
      assert k[i] == h.name[i + 1];
    }
    assert c.parser.buffer + k == h.name;
    KeyLineAccepted(c, h, k);
    ThenHeaderLines(c, line, q, m.headers);
  }

  /** The header lines cut after the first byte of the first name. */
  lemma HeadersSplit(hs: seq<Header>)
    requires |hs| > 0 && |hs[0].name| > 0
    ensures var k := hs[0].name[1..];
      && |HeaderLines(hs)| > 0 && HeaderLines(hs)[0] == hs[0].name[0]
      && HeaderLines(hs)[1..] == k + ":" + " " + hs[0].value + ['\r', '\n'] + HeaderLines(hs[1..])
  {
    var h := hs[0];
    assert HeaderLines(hs) == HeaderLine(h) + HeaderLines(hs[1..]);
    assert HeaderLine(h) == [h.name[0]] + (h.name[1..] + ":" + " " + h.value + ['\r', '\n']);
  }

  /** The bytes of a request split at the phases the parser goes through. */
  lemma TextParts(m: Message)
    requires |HeaderLines(m.headers)| > 0
    ensures RequestLine(m) + HeaderLines(m.headers) == RequestLine(m) + [HeaderLines(m.headers)[0]] + HeaderLines(m.headers)[1..]
  {
    var hl := HeaderLines(m.headers);
    assert hl == [hl[0]] + hl[1..];
  }

  /**
   * The request line and the header lines of a well-formed request: when
   * every header is dispatched, all of them are accepted and the parser waits
   * between headers; otherwise an Error is returned.
   */
  lemma {:induction false} HeadRun(c: Config, m: Message)
    requires c.parser.state == Start && c.parser.importantHeader == NoHeader
    requires WellFormed(m)
    ensures var head := RequestLine(m) + HeaderLines(m.headers);
      var r := ApplyHeaders(AfterRequestLine(c.request, m), m.headers);
      && (r.Some? ==> Run(c, head) == (Config(BetweenHeaders, r.value), Processings(|head|)))
      && (r.None? ==> Error in Run(c, head).1)
  {
    assert WellFormedHeader(m.headers[0]);
    var h0 := m.headers[0].name[0];
    RequestLineRun(c, m, h0);
    var q0 := AfterRequestLine(c.request, m);
    var c5 := Config(c.parser.(consumedContent := 0, state := Headers, headerState := Key, buffer := [h0]), q0);
    assert c5.parser == BetweenHeaders.(headerState := Key, buffer := [h0], currentHeader := c.parser.currentHeader);
    AllHeadersRun(c5, m, q0);
    var rest := HeaderLines(m.headers)[1..];
    TextParts(m);
    RunAppend(c, RequestLine(m) + [h0], rest);
    if ApplyHeaders(q0, m.headers).Some? {
      ProcessingsAdd(|RequestLine(m)| + 1, |rest|, |RequestLine(m) + HeaderLines(m.headers)|);
    }
  }

  /**
   * The blank line and a body of the declared length: Ok for the byte after
   * the body, the body stored and the parser back in its initial state.
   */
  lemma {:induction false} TailRun(q: RequestValue, body: string, x: char)
    requires !IsNewLine((body + [x])[0])
    requires q.contentLength == |body|
    ensures Run(Config(BetweenHeaders, q), "\r\n" + body + [x]) == (Config(InitialParser, q.(data := body)), Processings(2 + |body|) + [Ok])
  {
    BlankLineEntersBody(q, body + [x]);
    var data := Config(InitialParser.(state := Data), q);
    BodyRun(data, body, x);
    assert data.parser.buffer + body == body;
    assert data.parser.(state := Start, buffer := [], consumedContent := 0) == InitialParser;
    assert "\r\n" + (body + [x]) == "\r\n" + body + [x];
    ProcessingsAdd(2, |body|, 2 + |body|);
    assert Processings(2) + (Processings(|body|) + [Ok]) == Processings(2 + |body|) + [Ok];
  }

  /**
   * The main property of the parser: a well-formed request whose declared
   * Content-Length is the length of its body is parsed into exactly the
   * request `Expected` describes. Every byte of it is accepted, Ok is returned
   * for the byte after it (which is not otherwise used), and the parser is
   * back in its initial state.
   */
  lemma {:induction false} ParsesMessage(c: Config, m: Message, x: char)
    requires c.parser.state == Start && c.parser.importantHeader == NoHeader
    requires WellFormed(m)
    requires !IsNewLine((m.body + [x])[0])
    requires Expected(c.request, m).Some? && Expected(c.request, m).value.contentLength == |m.body|
    ensures Run(c, Text(m) + [x]) == (Config(InitialParser, Expected(c.request, m).value), Processings(|Text(m)|) + [Ok])
  {
    var head := RequestLine(m) + HeaderLines(m.headers);
    var q := ApplyHeaders(AfterRequestLine(c.request, m), m.headers).value;
    HeadRun(c, m);
    TailRun(q, m.body, x);
    RunConcat(c, head, "\r\n" + m.body + [x], Config(BetweenHeaders, q), Processings(|head|),
              Config(InitialParser, q.(data := m.body)), Processings(2 + |m.body|) + [Ok]);
    TextSplit(m, [x]);
    ProcessingsThenOk(|head|, 2 + |m.body|, |Text(m)|);
  }

  lemma Regroup<T>(a: seq<T>, b: seq<T>, c: seq<T>)
    ensures a + (b + c) == a + b + c
  {
  }

  /** The bytes of a request, and what follows them, cut after the header lines. */
  lemma TextSplit(m: Message, after: string)
    ensures var head := RequestLine(m) + HeaderLines(m.headers);
      && head + ("\r\n" + m.body + after) == Text(m) + after
      && head + ("\r\n" + m.body) == Text(m)
      && |Text(m)| == |head| + 2 + |m.body|
  {
  }

  lemma ProcessingsThenOk(a: nat, b: nat, n: nat)
    requires n == a + b
    ensures Processings(a) + (Processings(b) + [Ok]) == Processings(n) + [Ok]
  {
    ProcessingsAdd(a, b, n);
  }

  /**
   * The other side of `ParsesMessage`: a well-formed request with a header the
   * parser rejects (a Content-Length value that is not an integer) draws an
   * Error before its headers end.
   */
  lemma {:induction false} RejectsMessage(c: Config, m: Message)
    requires c.parser.state == Start && c.parser.importantHeader == NoHeader
    requires WellFormed(m)
    requires Expected(c.request, m).None?
    ensures Error in Run(c, Text(m)).1
  {
    HeadRun(c, m);
    ErrorInPrefix(c, RequestLine(m) + HeaderLines(m.headers), "\r\n" + m.body);
    assert RequestLine(m) + HeaderLines(m.headers) + ("\r\n" + m.body) == Text(m);
  }

  /**
   * Without a Content-Length header the body never completes: every byte of
   * the request is accepted, no Ok is returned, and the body bytes pile up in
   * the buffer.
   */
  lemma {:induction false} WaitsWithoutContentLength(c: Config, m: Message)
    requires c.parser.state == Start && c.parser.importantHeader == NoHeader
    requires WellFormed(m)
    requires |m.body| > 0 && !IsNewLine(m.body[0])
    requires ApplyHeaders(AfterRequestLine(c.request, m), m.headers).Some?
    requires ApplyHeaders(AfterRequestLine(c.request, m), m.headers).value.contentLength == -1
    ensures Run(c, Text(m)).1 == Processings(|Text(m)|)
    ensures Run(c, Text(m)).0.parser.state == Data && Run(c, Text(m)).0.parser.buffer == m.body
  {
    var head := RequestLine(m) + HeaderLines(m.headers);
    var q := ApplyHeaders(AfterRequestLine(c.request, m), m.headers).value;
    HeadRun(c, m);
    BlankLineEntersBody(q, m.body);
    var data := Config(InitialParser.(state := Data), q);
    UnboundedBodyRun(data, m.body);
    assert data.parser.buffer + m.body == m.body;
    ProcessingsAdd(2, |m.body|, 2 + |m.body|);
    RunConcat(c, head, "\r\n" + m.body, Config(BetweenHeaders, q), Processings(|head|),
              WithBuffer(data, m.body), Processings(2 + |m.body|));
    TextSplit(m, []);
    ProcessingsAdd(|head|, 2 + |m.body|, |Text(m)|);
  }

  /**
   * A request line followed directly by the blank line is rejected: the four
   * line-end bytes are collected together, and the next byte finds them
   * unequal to CR LF.
   */
  lemma {:induction false} NoHeadersIsError(c: Config, m: Message, x: char)
    requires c.parser.state == Start
    requires forall i | 0 <= i < |m.methodToken| :: IsUpperAlpha(m.methodToken[i])
    requires |m.target| > 0 && forall i | 0 <= i < |m.target| :: !IsSpace(m.target[i])
    requires IsDigit(m.major) && IsDigit(m.minor)
    requires !IsNewLine(x)
    ensures Run(c, RequestLine(m) + "\r\n" + [x]).1 == Processings(|RequestLine(m)| + 2) + [Error]
  {
    RequestLineStartRun(c, m);
    var c3 := Config(Begin(c).parser.(state := Version, buffer := []),
                     Begin(c).request.(httpMethod := LookupMethod(m.methodToken), methodString := m.methodToken, url := m.target));
    var v := [m.major, '.', m.minor];
    VersionRun(c3, v, '\r');
    ProcessingsAdd(3, 1, 4);
    assert Processings(1) == [Processing];
    var c4 := Config(c3.parser.(state := NewLine, buffer := ['\r']),
                     c3.request.(versionMajor := v[0] as int - '0' as int,
                                 versionMinor := v[2] as int - '0' as int, versionString := v));
    LineEndRun(c4, "\n\r\n", x);
    assert c4.parser.buffer + "\n\r\n" != "\r\n";
    var first := m.methodToken + " " + m.target + " HTTP/";
    RunConcat(c, first, v + ['\r'], c3, Processings(|m.methodToken| + |m.target| + 7), c4, Processings(4));
    RunAppend(c, first + (v + ['\r']), "\n\r\n" + [x]);
    ProcessingsAdd(|m.methodToken| + |m.target| + 7, 4, |m.methodToken| + |m.target| + 11);
    ProcessingsAdd(|m.methodToken| + |m.target| + 11, 3, |RequestLine(m)| + 2);
    LineEndSplit(m, x);
  }

  /** A request line and a blank line, cut after the CR that ends the version. */
  lemma LineEndSplit(m: Message, x: char)
    ensures var first := m.methodToken + " " + m.target + " HTTP/";
      first + ([m.major, '.', m.minor] + ['\r']) + ("\n\r\n" + [x]) == RequestLine(m) + "\r\n" + [x]
  {
  }

  /**
   * Two requests sent back to back: the byte that completes the first is the
   * first letter of the second's method, so that letter is lost and the second
   * request is read as if its method token started one byte later. Its headers
   * are added to those of the first, which nothing clears.
   */
  lemma {:induction false} PipelinedRequests(c: Config, m1: Message, m2: Message, y: char)
    requires c.parser.state == Start && c.parser.importantHeader == NoHeader
    requires WellFormed(m1) && WellFormed(m2) && |m2.methodToken| > 0
    requires !IsNewLine((m1.body + [m2.methodToken[0]])[0])
    requires Expected(c.request, m1).Some? && Expected(c.request, m1).value.contentLength == |m1.body|
    requires !IsNewLine((m2.body + [y])[0])
    requires var q1 := Expected(c.request, m1).value;
      var r := Expected(q1, m2.(methodToken := m2.methodToken[1..]));
      r.Some? && r.value.contentLength == |m2.body|
    ensures var q1 := Expected(c.request, m1).value;
      var q2 := Expected(q1, m2.(methodToken := m2.methodToken[1..])).value;
      && Run(c, Text(m1) + Text(m2) + [y])
         == (Config(InitialParser, q2), Processings(|Text(m1)|) + [Ok] + Processings(|Text(m2)| - 1) + [Ok])
      && q2.methodString == m2.methodToken[1..]
      && q2.headers == c.request.headers + m1.headers + m2.headers
  {
    var t0 := m2.methodToken[0];
    var m2b := m2.(methodToken := m2.methodToken[1..]);
    var q1 := Expected(c.request, m1).value;
    DropFirstLetter(m2);
    ParsesMessage(c, m1, t0);
    ParsesMessage(Config(InitialParser, q1), m2b, y);
    var q2 := Expected(q1, m2b).value;
    BackToBack(c, Text(m1), t0, Text(m2b), y, Text(m2), Config(InitialParser, q1), Config(InitialParser, q2));
  }

  /**
   * Two inputs each completed by one extra byte, where the first one's extra
   * byte is the first byte of `second`.
   */
  lemma BackToBack(c: Config, first: string, x: char, rest: string, y: char, second: string, d1: Config, d2: Config)
    requires second == [x] + rest
    requires Run(c, first + [x]) == (d1, Processings(|first|) + [Ok])
    requires Run(d1, rest + [y]) == (d2, Processings(|rest|) + [Ok])
    ensures Run(c, first + second + [y]) == (d2, Processings(|first|) + [Ok] + Processings(|second| - 1) + [Ok])
  {
    RunConcat(c, first + [x], rest + [y], d1, Processings(|first|) + [Ok], d2, Processings(|rest|) + [Ok]);
    ShiftByte(first, x, rest, y, second);
    Regroup(Processings(|first|) + [Ok], Processings(|rest|), [Ok]);
    assert |rest| == |second| - 1;
  }

  /** The first byte of `full` moved to the end of what precedes it. */
  lemma ShiftByte<T>(a: seq<T>, x: T, b: seq<T>, y: T, full: seq<T>)
    requires full == [x] + b
    ensures a + [x] + (b + [y]) == a + full + [y]
  {
  }

  /** A request without the first letter of its method is the same request with a shorter token. */
  lemma DropFirstLetter(m: Message)
    requires WellFormed(m) && |m.methodToken| > 0
    ensures WellFormed(m.(methodToken := m.methodToken[1..]))
    ensures Text(m) == [m.methodToken[0]] + Text(m.(methodToken := m.methodToken[1..]))
  {
    var mb := m.(methodToken := m.methodToken[1..]);
    forall i | 0 <= i < |mb.methodToken| ensures IsUpperAlpha(mb.methodToken[i]) {
      assert mb.methodToken[i] == m.methodToken[i + 1];
    }
    assert m.methodToken == [m.methodToken[0]] + mb.methodToken;
  }
}
