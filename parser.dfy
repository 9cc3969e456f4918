/**
 * The incremental request parser: a byte-at-a-time state machine over the
 * request line, the header fields and a Content-Length delimited body.
 *
 * The transition of one byte is given twice: once as pure functions over the
 * values of the parser's and the request's fields (`Step` and the functions it
 * calls), and once as the class `RequestParser`, whose methods update those
 * fields in place and are proved to compute exactly `Step`. Where the source
 * falls through from one `case` into the next, the same byte is handled
 * again by the next state's function.
 */
module Parser {
  import opened Wrappers
  import opened Ascii
  import opened HttpRequest

  datatype State = Start | Method | Space1 | Url | Space2 | Http | Version | NewLine | Headers | NewLine2 | Data

  datatype HeaderState = HeaderStart | Key | Space | Value | HeaderNewLine

  /** The header kinds the parser dispatches on; NoHeader for every other name. */
  datatype ImportantHeader = ContentType | ContentLength | Connection | KeepAlive | Max | Host | NoHeader

  datatype ResultType = Processing | Ok | Error

  /** The recognised header names, keyed by their lower-case spelling. */
  const ImportantHeaders: map<string, ImportantHeader> :=
    map["host" := Host, "content-length" := ContentLength, "content-type" := ContentType,
        "connection" := Connection, "keep-alive" := KeepAlive, "max" := Max]

  /** The value of every field of a parser at one moment. */
  datatype ParserValue = ParserValue(
    state: State,
    headerState: HeaderState,
    buffer: string,
    consumedContent: int,
    importantHeader: ImportantHeader,
    currentHeader: string)

  /** A parser and the request it fills, taken together. */
  datatype Config = Config(parser: ParserValue, request: RequestValue)

  const InitialParser: ParserValue := ParserValue(Start, HeaderStart, [], 0, NoHeader, [])

  function Append(c: Config, ch: char): Config
  {
    c.(parser := c.parser.(buffer := c.parser.buffer + [ch]))
  }

  function Goto(c: Config, s: State): Config
  {
    c.(parser := c.parser.(state := s))
  }

  /**
   * What survives of a Keep-Alive value after `remove_suffix(find('=') + 1)`:
   * the whole value when it holds no '=' (the position is npos and npos + 1 is
   * 0), and otherwise the value with as many characters dropped from its END
   * as the '=' and everything before it hold.
   */
  function KeepAliveTimeoutText(v: string): (r: string)
    ensures '=' !in v ==> r == v
    ensures '=' in v ==> |r| < |v| && r == v[..|r|]
  {
    match IndexOf(v, '=')
    case None => v
    case Some(i) => v[..|v| - (i + 1)]
  }

  /** The header kind recorded when the key `name` is complete, given the one recorded before. */
  function KindAfterKey(name: string, previous: ImportantHeader): (r: ImportantHeader)
    ensures r == previous || r in ImportantHeaders.Values
    ensures r == NoHeader ==> previous == NoHeader
  {
    var lower := ToLower(name);
    if lower in ImportantHeaders then ImportantHeaders[lower] else previous
  }

  /** The lookup is case-insensitive: names equal up to case select the same kind. */
  lemma KindIgnoresCase(a: string, b: string, previous: ImportantHeader)
    requires IEquals(a, b)
    ensures KindAfterKey(a, previous) == KindAfterKey(b, previous)
  {
    IEqualsToLower(a, b);
  }

  /**
   * The effect of a completed header line on the request's dedicated fields;
   * None when a Content-Length value does not parse (the parse error).
   */
  function Dispatch(q: RequestValue, kind: ImportantHeader, v: string): Option<RequestValue>
  {
    match kind
    case Host => Some(q.(host := v))
    case ContentType => Some(q.(contentType := v))
    case ContentLength =>
      (match ParseInt(v)
       case None => None
       case Some(n) => Some(q.(contentLength := n)))
    case Connection => Some(q.(keepAlive := IEquals(v, "keep-alive")))
    case KeepAlive =>
      (match ParseInt(KeepAliveTimeoutText(v))
       case None => Some(q)
       case Some(t) => Some(q.(connectionTimeout := t)))
    case Max => Some(q)
    case NoHeader => Some(q)
  }

  /**
   * Only a Content-Length value that does not parse is refused; any other line
   * changes at most the one dedicated field its kind names, and nothing else.
   */
  lemma DispatchTouchesOneField(q: RequestValue, kind: ImportantHeader, v: string)
    ensures var r := Dispatch(q, kind, v);
      && (r.None? <==> kind == ContentLength && ParseInt(v).None?)
      && (r.Some? ==> r.value == q.(host := r.value.host, contentType := r.value.contentType,
                                    contentLength := r.value.contentLength, keepAlive := r.value.keepAlive,
                                    connectionTimeout := r.value.connectionTimeout))
      && (r.Some? ==> && (kind != Host ==> r.value.host == q.host)
                      && (kind != ContentType ==> r.value.contentType == q.contentType)
                      && (kind != ContentLength ==> r.value.contentLength == q.contentLength)
                      && (kind != Connection ==> r.value.keepAlive == q.keepAlive)
                      && (kind != KeepAlive ==> r.value.connectionTimeout == q.connectionTimeout))
  {
  }

  /*
   * What a completed header line does to the request, by the lower-case form
   * of its name (the table lookup is case-insensitive).
   */

  /** Host is copied. */
  lemma HostHeader(q: RequestValue, name: string, v: string, previous: ImportantHeader)
    requires ToLower(name) == "host"
    ensures Dispatch(q, KindAfterKey(name, previous), v) == Some(q.(host := v))
  {
  }

  /** Content-Type is copied. */
  lemma ContentTypeHeader(q: RequestValue, name: string, v: string, previous: ImportantHeader)
    requires ToLower(name) == "content-type"
    ensures Dispatch(q, KindAfterKey(name, previous), v) == Some(q.(contentType := v))
  {
  }

  /** Content-Length must be an integer; otherwise the line is rejected. */
  lemma ContentLengthHeader(q: RequestValue, name: string, v: string, previous: ImportantHeader)
    requires ToLower(name) == "content-length"
    ensures Dispatch(q, KindAfterKey(name, previous), v)
         == (if ParseInt(v).Some? then Some(q.(contentLength := ParseInt(v).value)) else None)
  {
  }

  /** Connection sets keep-alive exactly when the value is "keep-alive" in any case, and nothing else. */
  lemma ConnectionHeader(q: RequestValue, name: string, v: string, previous: ImportantHeader)
    requires ToLower(name) == "connection"
    ensures var r := Dispatch(q, KindAfterKey(name, previous), v);
      r.Some? && (r.value.keepAlive <==> IEquals(v, "keep-alive")) && r.value == q.(keepAlive := r.value.keepAlive)
  {
    assert KindAfterKey(name, previous) == Connection;
    var keep := IEquals(v, "keep-alive");
    assert Dispatch(q, Connection, v) == Some(q.(keepAlive := keep));
  }

  /**
   * Keep-Alive never rejects the line: the timeout is set from a value without
   * '=' that parses, and left alone when the trimmed value does not parse.
   */
  lemma KeepAliveHeader(q: RequestValue, name: string, v: string, previous: ImportantHeader)
    requires ToLower(name) == "keep-alive"
    ensures var r := Dispatch(q, KindAfterKey(name, previous), v);
      && r.Some? && r.value == q.(connectionTimeout := r.value.connectionTimeout)
      && ('=' !in v && ParseInt(v).Some? ==> r.value.connectionTimeout == ParseInt(v).value)
      && (ParseInt(KeepAliveTimeoutText(v)).None? ==> r == Some(q))
  {
  }

  /** Max is recognised and ignored. */
  lemma MaxHeader(q: RequestValue, name: string, v: string, previous: ImportantHeader)
    requires ToLower(name) == "max"
    ensures Dispatch(q, KindAfterKey(name, previous), v) == Some(q)
  {
  }

  /**
   * A name outside the table keeps the kind recorded before it: nothing
   * changes when that is NoHeader, as it is after every completed line.
   */
  lemma OtherHeader(q: RequestValue, name: string, v: string, previous: ImportantHeader)
    requires ToLower(name) !in ImportantHeaders
    ensures KindAfterKey(name, previous) == previous
    ensures previous == NoHeader ==> Dispatch(q, KindAfterKey(name, previous), v) == Some(q)
  {
  }

  /**
   * The Keep-Alive trimming on a value `k=t` whose key part has no '=': as
   * many characters as `k=` holds are cut from the END, so what is left is
   * the value's first |t| characters, not `t`.
   */
  lemma {:induction false} KeepAliveKeepsPrefix(k: string, t: string)
    requires '=' !in k
    ensures KeepAliveTimeoutText(k + "=" + t) == (k + "=" + t)[..|t|]
  {
    var v := k + "=" + t;
    assert v[|k|] == '=';
  }

  /**
   * So the usual form "timeout=N" never changes the timeout, whatever N is:
   * what is left starts with 't' (or is empty) and does not parse.
   */
  lemma {:induction false} KeepAliveIgnoresTimeoutForm(q: RequestValue, n: string)
    ensures Dispatch(q, KeepAlive, "timeout=" + n) == Some(q)
  {
    KeepAliveKeepsPrefix("timeout", n);
    var v := "timeout=" + n;
    assert "timeout" + "=" + n == v;
    var kept := v[..|n|];
    if |n| > 0 {
      assert kept[0] == 't';
      assert !AllDigits(kept) by { assert !IsDigit(kept[0]); }
    }
  }

  /** And "12=3" sets the timeout to 1. */
  lemma KeepAliveTrimsFromEnd(q: RequestValue)
    ensures Dispatch(q, KeepAlive, "12=3") == Some(q.(connectionTimeout := 1))
  {
    KeepAliveKeepsPrefix("12", "3");
    assert "12" + "=" + "3" == "12=3";
    assert "12=3"[..1] == "1";
    assert DigitsValue("1") == 1 by {
      assert "1"[..0] == [];
    }
  }

  /** A plain number sets the timeout. */
  lemma KeepAliveSetsTimeout(q: RequestValue)
    ensures Dispatch(q, KeepAlive, "30") == Some(q.(connectionTimeout := 30))
  {
    assert IndexOf("30", '=') == None;
    assert DigitsValue("30") == 30 by {
      assert "30"[..1] == "3" && "3"[..0] == [];
    }
  }

  /** `reset`: only the length, keep-alive and timeout fields, the counter and the buffer. */
  function ResetStep(c: Config): (r: Config)
    ensures r.request.contentLength == -1 && !r.request.keepAlive && r.request.connectionTimeout == 15
    ensures r.parser.consumedContent == 0 && r.parser.buffer == []
    ensures && r.request.httpMethod == c.request.httpMethod && r.request.methodString == c.request.methodString
            && r.request.url == c.request.url && r.request.headers == c.request.headers
            && r.request.host == c.request.host && r.request.contentType == c.request.contentType
            && r.request.data == c.request.data && r.request.versionString == c.request.versionString
            && r.request.versionMajor == c.request.versionMajor && r.request.versionMinor == c.request.versionMinor
    ensures r.parser.state == c.parser.state && r.parser.headerState == c.parser.headerState
            && r.parser.importantHeader == c.parser.importantHeader && r.parser.currentHeader == c.parser.currentHeader
  {
    Config(c.parser.(buffer := [], consumedContent := 0),
           c.request.(contentLength := -1, keepAlive := false, connectionTimeout := 15))
  }

  /** A byte in the Method state. */
  function MethodStep(c: Config, ch: char): (Config, ResultType)
  {
    if IsUpperAlpha(ch) then (Append(c, ch), Processing)
    else if IsSpace(ch) then
      (Config(c.parser.(buffer := [], state := Space1),
              c.request.(httpMethod := LookupMethod(c.parser.buffer), methodString := c.parser.buffer)),
       Processing)
    else (c, Error)
  }

  /** A byte in the Version state. */
  function VersionStep(c: Config, ch: char): (Config, ResultType)
  {
    if IsFloat(ch) then (Append(c, ch), Processing)
    else if IsNewLine(ch) then
      var b := c.parser.buffer;
      var d := Goto(c, NewLine);
      if |b| != 3 || b[1] != '.' then (d, Error)
      else
        match DigitValue(b[0])
        case None => (d, Error)
        case Some(major) =>
          var q := d.request.(versionMajor := major);
          match DigitValue(b[2])
          case None => (d.(request := q), Error)
          case Some(minor) =>
            (Config(d.parser.(buffer := [ch]), q.(versionMinor := minor, versionString := b)), Processing)
    else (c, Processing)
  }

  /** A byte in the Data state. */
  function DataStep(c: Config, ch: char): (Config, ResultType)
  {
    var p, q := c.parser, c.request;
    if q.contentLength == -1 then (Append(c, ch), Processing)
    else if q.contentLength > p.consumedContent then
      (Config(p.(buffer := p.buffer + [ch], consumedContent := p.consumedContent + 1), q), Processing)
    else
      (Config(p.(buffer := [], consumedContent := 0, state := Start), q.(data := p.buffer)), Ok)
  }

  /**
   * A negative Content-Length other than -1: the first byte of the body
   * completes the request at once, with an empty body, and is dropped.
   */
  lemma NegativeLengthCompletesAtOnce(c: Config, ch: char)
    requires c.request.contentLength < -1
    requires c.parser.buffer == [] && c.parser.consumedContent == 0
    ensures DataStep(c, ch).1 == Ok
    ensures DataStep(c, ch).0.request == c.request.(data := [])
    ensures DataStep(c, ch).0.parser == c.parser.(state := Start)
  {
  }

  /** A byte in the Key header sub-state. */
  function KeyStep(c: Config, ch: char): (Config, ResultType)
  {
    var p := c.parser;
    if IsCollon(ch) then
      (c.(parser := p.(importantHeader := KindAfterKey(p.buffer, p.importantHeader),
                       currentHeader := p.buffer, buffer := [], headerState := Space)),
       Processing)
    else if !IsSpace(ch) then (Append(c, ch), Processing)
    else (c, Error)
  }

  /** A byte in the Value header sub-state. */
  function ValueStep(c: Config, ch: char): (Config, ResultType)
  {
    if !IsNewLine(ch) then (Append(c, ch), Processing)
    else (c.(parser := c.parser.(headerState := HeaderNewLine)), Processing)
  }

  /** A byte in the HeaderNewLine sub-state: the end of one header line. */
  function HeaderEndStep(c: Config, ch: char): (Config, ResultType)
  {
    var p := c.parser;
    if !IsNewLine(ch) then (c, Error)
    else
      match Dispatch(c.request, p.importantHeader, p.buffer)
      case None => (c, Error)
      case Some(q) =>
        (Config(p.(importantHeader := NoHeader, currentHeader := [], buffer := [], headerState := HeaderStart),
                q.(headers := q.headers + [Header(p.currentHeader, p.buffer)])),
         Processing)
  }

  /** `consumeHeaders`: a byte in the Headers state. */
  function HeadersStep(c: Config, ch: char): (Config, ResultType)
  {
    match c.parser.headerState
    case HeaderStart =>
      if IsNewLine(ch) then (Goto(Append(c, ch), NewLine2), Processing)
      else KeyStep(c.(parser := c.parser.(headerState := Key)), ch)
    case Key => KeyStep(c, ch)
    case Space =>
      if !IsSpace(ch) then ValueStep(c.(parser := c.parser.(headerState := Value)), ch)
      else (c, Processing)
    case Value => ValueStep(c, ch)
    case HeaderNewLine => HeaderEndStep(c, ch)
  }

  /** `consume`: the new parser and request, and the status returned, for one byte. */
  function Step(c: Config, ch: char): (Config, ResultType)
  {
    var p := c.parser;
    match p.state
    case Start => MethodStep(Goto(ResetStep(c), Method), ch)
    case Method => MethodStep(c, ch)
    case Space1 => if !IsSpace(ch) then (Goto(Append(c, ch), Url), Processing) else (c, Processing)
    case Url =>
      if IsSpace(ch) then (Config(p.(state := Space2, buffer := []), c.request.(url := p.buffer)), Processing)
      else (Append(c, ch), Processing)
    case Space2 => if !IsSpace(ch) then (Goto(Append(c, ch), Http), Processing) else (c, Processing)
    case Http =>
      if IsUpperAlpha(ch) then VersionStep(Append(c, ch), ch)
      else if IsSlash(ch) then
        if p.buffer == "HTTP" then VersionStep(c.(parser := p.(state := Version, buffer := [])), ch)
        else (c, Error)
      else (c, Error)
    case Version => VersionStep(c, ch)
    case NewLine =>
      if !IsNewLine(ch) then
        if p.buffer != "\r\n" then (c, Error)
        else (c.(parser := p.(buffer := [ch], state := Headers, headerState := Key)), Processing)
      else (Append(c, ch), Processing)
    case Headers => HeadersStep(c, ch)
    case NewLine2 =>
      if !IsNewLine(ch) then
        if p.buffer != "\r\n" then (c, Error)
        else DataStep(c.(parser := p.(buffer := [], state := Data)), ch)
      else (Append(c, ch), Processing)
    case Data => DataStep(c, ch)
  }

  /**
   * What one byte can do: headers are only ever added, at most one per byte; a
   * request completes only from the end of the headers or within the body, and
   * leaves the parser ready for the next request; a byte that does not complete
   * a request leaves the body as it is.
   */
  lemma StepBounds(c: Config, ch: char)
    ensures var r := Step(c, ch);
      && c.request.headers <= r.0.request.headers && |r.0.request.headers| <= |c.request.headers| + 1
      && (r.1 == Ok ==> && (c.parser.state == NewLine2 || c.parser.state == Data)
                        && r.0.parser.state == Start && r.0.parser.buffer == [] && r.0.parser.consumedContent == 0)
      && (r.1 != Ok ==> r.0.request.data == c.request.data)
  {
    match c.parser.state
    case Start =>
    case Method =>
    case Space1 =>
    case Url =>
    case Space2 =>
    case Http =>
    case Version =>
    case NewLine =>
    case Headers =>
    case NewLine2 =>
    case Data =>
  }

  /**
   * The parser object; the two function-level statics of `consumeHeaders` are
   * fields here. Each case of the source's switch is a method; a case that
   * falls through into the next calls that case's method with the same byte.
   */
  class RequestParser {
    var state: State
    var headerState: HeaderState
    var currentBuffer: string
    var consumedContent: int
    var currentImportantHeader: ImportantHeader
    var currentHeader: string

    function Snapshot(): ParserValue
      reads this
    {
      ParserValue(state, headerState, currentBuffer, consumedContent, currentImportantHeader, currentHeader)
    }

    function Current(request: Request): Config
      reads this, request
    {
      Config(Snapshot(), request.Snapshot())
    }

    /** A parser in the Start state with an empty buffer and counter (the header sub-state is not read before it is set). */
    constructor ()
      ensures Snapshot() == InitialParser
    {
      state := Start;
      headerState := HeaderStart;
      currentBuffer := [];
      consumedContent := 0;
      currentImportantHeader := NoHeader;
      currentHeader := [];
    }

    method Reset(request: Request)
      modifies this, request
      ensures Current(request) == ResetStep(old(Current(request)))
    {
      request.contentLength := -1;
      request.keepAlive := false;
      request.connectionTimeout := 15;
      consumedContent := 0;
      currentBuffer := [];
    }

    /** Feeds one byte. */
    method Consume(request: Request, ch: char) returns (r: ResultType)
      modifies this, request
      ensures (Current(request), r) == Step(old(Current(request)), ch)
    {
      match state
      case Start =>
        Reset(request);
        state := Method;
        r := ConsumeMethod(request, ch);
      case Method =>
        r := ConsumeMethod(request, ch);
      case Space1 =>
        if !IsSpace(ch) {
          state := Url;
          currentBuffer := currentBuffer + [ch];
        }
        r := Processing;
      case Url =>
        if IsSpace(ch) {
          request.url := currentBuffer;
          state := Space2;
          currentBuffer := [];
        } else {
          currentBuffer := currentBuffer + [ch];
        }
        r := Processing;
      case Space2 =>
        if !IsSpace(ch) {
          state := Http;
          currentBuffer := currentBuffer + [ch];
        }
        r := Processing;
      case Http =>
        if IsUpperAlpha(ch) {
          currentBuffer := currentBuffer + [ch];
        } else if IsSlash(ch) {
          if currentBuffer == "HTTP" {
            state := Version;
            currentBuffer := [];
          } else {
            return Error;
          }
        } else {
          return Error;
        }
        r := ConsumeVersion(request, ch);
      case Version =>
        r := ConsumeVersion(request, ch);
      case NewLine =>
        if !IsNewLine(ch) {
          if currentBuffer != "\r\n" {
            return Error;
          }
          currentBuffer := [ch];
          state := Headers;
          headerState := Key;
        } else {
          currentBuffer := currentBuffer + [ch];
        }
        r := Processing;
      case Headers =>
        r := ConsumeHeaders(request, ch);
      case NewLine2 =>
        if !IsNewLine(ch) {
          if currentBuffer != "\r\n" {
            return Error;
          }
          currentBuffer := [];
          state := Data;
          r := ConsumeData(request, ch);
        } else {
          currentBuffer := currentBuffer + [ch];
          r := Processing;
        }
      case Data =>
        r := ConsumeData(request, ch);
    }

    /** The Method case. */
    method ConsumeMethod(request: Request, ch: char) returns (r: ResultType)
      modifies this, request
      ensures (Current(request), r) == MethodStep(old(Current(request)), ch)
    {
      if IsUpperAlpha(ch) {
        currentBuffer := currentBuffer + [ch];
      } else if IsSpace(ch) {
        request.httpMethod := LookupMethod(currentBuffer);
        request.methodString := currentBuffer;
        currentBuffer := [];
        state := Space1;
      } else {
        return Error;
      }
      r := Processing;
    }

    /** The Version case. */
    method ConsumeVersion(request: Request, ch: char) returns (r: ResultType)
      modifies this, request
      ensures (Current(request), r) == VersionStep(old(Current(request)), ch)
    {
      if IsFloat(ch) {
        currentBuffer := currentBuffer + [ch];
      } else if IsNewLine(ch) {
        state := NewLine;
        // the only versions accepted are a digit, '.', a digit
        if |currentBuffer| != 3 || currentBuffer[1] != '.' {
          return Error;
        }
        var major := DigitValue(currentBuffer[0]);
        if major.None? {
          return Error;
        }
        request.versionMajor := major.value;
        var minor := DigitValue(currentBuffer[2]);
        if minor.None? {
          return Error;
        }
        request.versionMinor := minor.value;
        request.versionString := currentBuffer;
        currentBuffer := [ch];
      }
      r := Processing;
    }

    /** The Data case. */
    method ConsumeData(request: Request, ch: char) returns (r: ResultType)
      modifies this, request
      ensures (Current(request), r) == DataStep(old(Current(request)), ch)
    {
      // `contentLength == -1 || contentLength > consumedContent++`: the counter
      // only advances when the length is known
      var more := request.contentLength == -1;
      if !more {
        var before := consumedContent;
        consumedContent := consumedContent + 1;
        more := request.contentLength > before;
      }
      if more {
        currentBuffer := currentBuffer + [ch];
      } else if request.contentLength != -1 {
        request.data := currentBuffer;
        currentBuffer := [];
        consumedContent := 0;
        state := Start;
        return Ok;
      }
      r := Processing;
    }

    /** Feeds one byte while in the Headers state. */
    method ConsumeHeaders(request: Request, ch: char) returns (r: ResultType)
      modifies this, request
      ensures (Current(request), r) == HeadersStep(old(Current(request)), ch)
    {
      match headerState
      case HeaderStart =>
        if IsNewLine(ch) {
          currentBuffer := currentBuffer + [ch];
          state := NewLine2;
          r := Processing;
        } else {
          headerState := Key;
          r := ConsumeKey(request, ch);
        }
      case Key =>
        r := ConsumeKey(request, ch);
      case Space =>
        if !IsSpace(ch) {
          headerState := Value;
          r := ConsumeValue(request, ch);
        } else {
          r := Processing;
        }
      case Value =>
        r := ConsumeValue(request, ch);
      case HeaderNewLine =>
        r := EndHeader(request, ch);
    }

    /** The Key case of the header sub-states. */
    method ConsumeKey(request: Request, ch: char) returns (r: ResultType)
      modifies this
      ensures (Current(request), r) == KeyStep(old(Current(request)), ch)
    {
      if IsCollon(ch) {
        var lowerData := ToLower(currentBuffer);
        if lowerData in ImportantHeaders {
          currentImportantHeader := ImportantHeaders[lowerData];
        }
        currentHeader := currentBuffer;
        currentBuffer := [];
        headerState := Space;
      } else if !IsSpace(ch) {
        currentBuffer := currentBuffer + [ch];
      } else {
        return Error;
      }
      r := Processing;
    }

    /** The Value case of the header sub-states. */
    method ConsumeValue(request: Request, ch: char) returns (r: ResultType)
      modifies this
      ensures (Current(request), r) == ValueStep(old(Current(request)), ch)
    {
      if !IsNewLine(ch) {
        currentBuffer := currentBuffer + [ch];
      } else {
        headerState := HeaderNewLine;
      }
      r := Processing;
    }

    /** The switch on the recorded header kind, at the end of a header line; false on a parse error. */
    method DispatchHeader(request: Request) returns (ok: bool)
      modifies request
      ensures ok == Dispatch(old(request.Snapshot()), currentImportantHeader, currentBuffer).Some?
      ensures ok ==> request.Snapshot() == Dispatch(old(request.Snapshot()), currentImportantHeader, currentBuffer).value
      ensures !ok ==> request.Snapshot() == old(request.Snapshot())
    {
      ok := true;
      match currentImportantHeader {
        case Host =>
          request.host := currentBuffer;
        case ContentType =>
          request.contentType := currentBuffer;
        case ContentLength =>
          var length := ParseInt(currentBuffer);
          if length.None? {
            return false;
          }
          request.contentLength := length.value;
        case Connection =>
          request.keepAlive := IEquals(currentBuffer, "keep-alive");
        case KeepAlive =>
          var timeout := ParseInt(KeepAliveTimeoutText(currentBuffer));
          if timeout.Some? {
            request.connectionTimeout := timeout.value;
          }
        case Max =>
        case NoHeader =>
      }
    }

    /** The HeaderNewLine case: dispatch the finished header and record it. */
    method EndHeader(request: Request, ch: char) returns (r: ResultType)
      modifies this, request
      ensures (Current(request), r) == HeaderEndStep(old(Current(request)), ch)
    {
      if !IsNewLine(ch) {
        return Error;
      }
      var ok := DispatchHeader(request);
      if !ok {
        return Error;
      }
      currentImportantHeader := NoHeader;
      // the name and the value are moved into the new entry, leaving both empty
      request.headers := request.headers + [Header(currentHeader, currentBuffer)];
      currentHeader := [];
      currentBuffer := [];
      headerState := HeaderStart;
      r := Processing;
    }
  }
}
