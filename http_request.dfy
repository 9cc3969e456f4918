/**
 * The request record that the parser fills in place, and the table of
 * request methods it recognises.
 */
module HttpRequest {

  datatype HttpMethod = GET | HEAD | POST | PUT | DELETE | TRACE | OPTIONS | CONNECT | PATCH | CUSTOM

  /** The method table: exact, case-sensitive spellings of the nine standard verbs. */
  const MethodTable: map<string, HttpMethod> :=
    map["GET" := GET, "HEAD" := HEAD, "POST" := POST, "PUT" := PUT, "DELETE" := DELETE,
        "TRACE" := TRACE, "OPTIONS" := OPTIONS, "CONNECT" := CONNECT, "PATCH" := PATCH]

  /** The wire spelling of a standard method. */
  function MethodName(m: HttpMethod): string
    requires m != CUSTOM
  {
    match m
    case GET => "GET"
    case HEAD => "HEAD"
    case POST => "POST"
    case PUT => "PUT"
    case DELETE => "DELETE"
    case TRACE => "TRACE"
    case OPTIONS => "OPTIONS"
    case CONNECT => "CONNECT"
    case PATCH => "PATCH"
  }

  /**
   * The method a token names: a standard method exactly when the token is that
   * method's spelling, and CUSTOM for every other token.
   */
  function LookupMethod(token: string): (m: HttpMethod)
    ensures m != CUSTOM ==> MethodName(m) == token
    ensures forall k: HttpMethod | k != CUSTOM && MethodName(k) == token :: m == k
  {
    if token in MethodTable then MethodTable[token] else CUSTOM
  }

  /** One header line as received: name in its original case, raw value. */
  datatype Header = Header(name: string, value: string)

  /** The value of every field of a Request at one moment. */
  datatype RequestValue = RequestValue(
    httpMethod: HttpMethod,
    methodString: string,
    url: string,
    versionMajor: int,
    versionMinor: int,
    versionString: string,
    headers: seq<Header>,
    host: string,
    contentType: string,
    contentLength: int,
    keepAlive: bool,
    connectionTimeout: int,
    data: string)

  /** The caller-owned request that the parser writes into, field by field (`httpMethod` is the source's `method`, a Dafny keyword). */
  class Request {
    var httpMethod: HttpMethod
    var methodString: string
    var url: string
    var versionMajor: int
    var versionMinor: int
    var versionString: string
    var headers: seq<Header>
    var host: string
    var contentType: string
    /** -1 when no Content-Length header has been seen. */
    var contentLength: int
    var keepAlive: bool
    var connectionTimeout: int
    var data: string

    function Snapshot(): RequestValue
      reads this
    {
      RequestValue(httpMethod, methodString, url, versionMajor, versionMinor, versionString,
                   headers, host, contentType, contentLength, keepAlive, connectionTimeout, data)
    }

    /** An empty request; the parser's reset sets the fields it relies on. */
    constructor ()
      ensures Snapshot() == RequestValue(CUSTOM, [], [], 0, 0, [], [], [], [], -1, false, 15, [])
    {
      httpMethod, methodString, url := CUSTOM, [], [];
      versionMajor, versionMinor, versionString := 0, 0, [];
      headers, host, contentType := [], [], [];
      contentLength, keepAlive, connectionTimeout := -1, false, 15;
      data := [];
    }
  }
}
