# Wizrd request parser and URL codec, modelled in Dafny

This project models two parsing components of the Wizrd embedded web server.

**The incremental HTTP request parser** (`RequestParser::reset`, `consume` and
`consumeHeaders`). It reads a request one byte at a time. The request line,
the header lines and a Content-Length delimited body go into a caller-owned
`Request`. Each byte returns Processing, Ok or Error.

- `HttpRequest` holds the `Request` class, whose fields the parser writes in
  place. It also holds the method table and `LookupMethod`.
- `Parser` holds the transition of one byte, written twice:
  - as pure step functions over the values of all fields (`Step`,
    `MethodStep`, `VersionStep`, `HeadersStep`, `KeyStep`, `ValueStep`,
    `HeaderEndStep`, `DataStep`, `ResetStep`);
  - as the class `RequestParser`. Its methods update the parser's fields and
    the `Request` in place, and each is proved to compute exactly its step
    function.
- The switch fall-throughs are kept: Start→Method, Http→Version,
  NewLine2→Data, HeaderStart→Key and Space→Value. In each one, the same byte
  is handled again in the next state.
- The two function-level statics of `consumeHeaders` are fields of the
  parser: the recognised-header kind and the current header name.
- `ParserRuns` feeds a string byte by byte (`Run`) and proves what each phase
  of a request does.
- `Messages` builds on those phase lemmas. It proves what the parser makes of
  a whole well-formed request, of a rejected one, of one without a
  Content-Length, of a request line without headers, and of two requests sent
  back to back.

**The URL codec** `Wizrd::URL` (`quote`, `quotePlus`, `unquote`,
`unquotePlus`, `decode`, `decodeMap`, `encode` and the `URLEncodeError` it
raises). It implements the percent-encoding of section 2.1 of RFC 3986. The
unreserved set of section 2.3 and `/` are left unencoded. Query strings use
the `+`-for-space form.

- `Url` gives these as pure functions over strings of byte-valued characters
  and proves their round trips.
- `UrlTests` proves every assertion of the codec's unit tests, one lemma
  each.

The character classes and the `lexical_cast` conversions are in `Ascii`.
`Wrappers` holds `Option` and `Result`.

## Model

| member | source | states |
|---|---|---|
| Ascii.ToLower | internal_webserver/requestparser.cpp:223 | `to_lower_copy`: same length, and every character is ASCII-lower-cased. |
| Ascii.IEqualsToLower | internal_webserver/requestparser.cpp:274 | `iequals` holds exactly when the lower-case copies are equal. |
| Ascii.IEqualsPointwise | internal_webserver/requestparser.cpp:274 | `iequals` holds exactly when the lengths agree and every position agrees up to case. |
| Ascii.IndexOf | internal_webserver/requestparser.cpp:278 | `find`: None exactly when the character is absent; otherwise the position of its first occurrence. |
| Ascii.ParseInt | internal_webserver/requestparser.cpp:266 | `lexical_cast<int>` succeeds exactly when, after one optional sign, the text is a non-empty run of decimal digits whose signed value lies in the 32-bit range, and the value it yields is that signed value. |
| Ascii.ParseIntRejects | internal_webserver/requestparser.cpp:266-270 | The cast fails, so Content-Length is a parse error, on the empty text, a lone sign, any character that is neither a digit nor a leading sign, and a magnitude beyond the 32-bit range. |
| Ascii.ParseFormatInt | internal_webserver/requestparser.cpp:266 | Every 32-bit integer written in decimal is read back by `lexical_cast<int>` as itself. |
| Ascii.DigitValue | internal_webserver/requestparser.cpp:131-132 | `lexical_cast<int>` on one character succeeds exactly on a digit, and the value is that digit. |
| HttpRequest.LookupMethod | internal_webserver/requestparser.cpp:38-46 | A token names a standard method exactly when it is that method's exact (case-sensitive) spelling; any other token gives CUSTOM. |
| Parser.ResetStep | internal_webserver/requestparser.cpp:26-34 | `reset` sets the length to -1, keep-alive to false, the timeout to 15, and clears the counter and the buffer. Method, URL, headers, host, content type, data, the version and the parser's states are kept. |
| Parser.RequestParser.Reset | internal_webserver/requestparser.cpp:26-34 | The new parser and request are `ResetStep` of the old ones. |
| Parser.RequestParser.constructor | internal_webserver/requestparser.cpp:18-22 | A new parser is in Start with an empty buffer and a zero counter. |
| Parser.RequestParser.Consume | internal_webserver/requestparser.cpp:36-190 | One byte: the new parser, the new request and the status are exactly `Step` of the old ones. |
| Parser.RequestParser.ConsumeMethod | internal_webserver/requestparser.cpp:57-75 | The Method case equals `MethodStep`. |
| Parser.RequestParser.ConsumeVersion | internal_webserver/requestparser.cpp:117-144 | The Version case equals `VersionStep`. |
| Parser.RequestParser.ConsumeData | internal_webserver/requestparser.cpp:174-186 | The Data case, with its post-incremented counter, equals `DataStep`. |
| Parser.RequestParser.ConsumeHeaders | internal_webserver/requestparser.cpp:192-292 | `consumeHeaders` equals `HeadersStep`. |
| Parser.RequestParser.ConsumeKey | internal_webserver/requestparser.cpp:220-238 | The Key case equals `KeyStep`. |
| Parser.RequestParser.ConsumeValue | internal_webserver/requestparser.cpp:245-252 | The Value case equals `ValueStep`. |
| Parser.KindAfterKey | internal_webserver/requestparser.cpp:223-227 | The recorded header kind is either the previous one or a kind from the table, and it is NoHeader only if it already was. |
| Parser.KindIgnoresCase | internal_webserver/requestparser.cpp:223-227 | Two names equal up to case select the same header kind. |
| Parser.DispatchTouchesOneField | internal_webserver/requestparser.cpp:256-284 | Dispatching a header line fails exactly for a Content-Length value that does not parse. Otherwise it changes only the one dedicated field its kind names (Host the host, Connection keep-alive, Keep-Alive the timeout, and so on), and nothing else in the request. |
| Parser.StepBounds | internal_webserver/requestparser.cpp:36-190 | One byte adds at most one header and never removes one. Ok comes only from the end of the headers or within the body, and leaves the parser in Start with an empty buffer and a zero counter. A byte that does not complete a request leaves the body as it was. |
| Parser.NegativeLengthCompletesAtOnce | internal_webserver/requestparser.cpp:174-186 | With a Content-Length below -1, the first body byte gives Ok with an empty body, since the counter is never below the length. |
| Parser.RequestParser.DispatchHeader | internal_webserver/requestparser.cpp:256-284 | The switch on the recorded header kind succeeds exactly when `Dispatch` does. On success the request is `Dispatch`'s result; on failure it is unchanged. |
| Parser.RequestParser.EndHeader | internal_webserver/requestparser.cpp:253-290 | The HeaderNewLine case equals `HeaderEndStep`. |
| Parser.HostHeader | internal_webserver/requestparser.cpp:257-259 | A header whose name is "host" in any case copies its value to `host` and changes nothing else. |
| Parser.ContentTypeHeader | internal_webserver/requestparser.cpp:260-263 | A "content-type" header copies its value to `contentType`. |
| Parser.ContentLengthHeader | internal_webserver/requestparser.cpp:264-272 | A "content-length" header sets the length when the value parses as an integer, and is rejected otherwise. |
| Parser.ConnectionHeader | internal_webserver/requestparser.cpp:273-275 | A "connection" header sets keep-alive exactly when its value equals "keep-alive" up to case, and changes nothing else. |
| Parser.KeepAliveHeader | internal_webserver/requestparser.cpp:276-283 | A "keep-alive" header is never rejected and changes only the timeout. An '='-free value that parses sets it; a trimmed value that does not parse leaves the request unchanged. |
| Parser.MaxHeader | internal_webserver/requestparser.cpp:205-210 | A "max" header is recognised and changes nothing. |
| Parser.OtherHeader | internal_webserver/requestparser.cpp:224-227 | A name outside the table keeps the previously recorded kind. When that kind is none, the line changes nothing. |
| Parser.KeepAliveTimeoutText | internal_webserver/requestparser.cpp:277-278 | `remove_suffix(find('=') + 1)`: the value itself when it has no '='; otherwise a strictly shorter prefix of it. |
| Parser.KeepAliveKeepsPrefix | internal_webserver/requestparser.cpp:277-278 | For `k=t` with no '=' in `k`, what is left is the first \|t\| characters, not `t`. |
| Parser.KeepAliveIgnoresTimeoutForm | internal_webserver/requestparser.cpp:276-283 | "timeout=N" never changes the request, whatever N is. |
| Parser.KeepAliveTrimsFromEnd | internal_webserver/requestparser.cpp:276-283 | "12=3" sets the timeout to 1. |
| Parser.KeepAliveSetsTimeout | internal_webserver/requestparser.cpp:276-283 | "30" sets the timeout to 30. |
| ParserRuns.Run | internal_webserver/requestparser.cpp:36-190 | Feeding a string returns exactly one status per byte. |
| ParserRuns.RunAppend | internal_webserver/requestparser.cpp:36-190 | Feeding `a + b` is feeding `a` and then `b`. |
| ParserRuns.MethodTokenRun | internal_webserver/requestparser.cpp:54-75 | From Start, upper-case letters are accepted, and a space ends the token, recording it and its table entry. Any other byte after it is an Error. |
| ParserRuns.MethodLettersRun | internal_webserver/requestparser.cpp:54-59 | From Start the parser is reset, and the method's letters are collected in the buffer. |
| ParserRuns.UrlRun | internal_webserver/requestparser.cpp:76-91 | Leading spaces are skipped, and every byte up to the next space is stored as the URL unchanged. |
| ParserRuns.UrlTextRun | internal_webserver/requestparser.cpp:76-91 | The spaces and the URL bytes are collected in the Url state. |
| ParserRuns.HttpWordRun | internal_webserver/requestparser.cpp:92-117 | '/' is accepted only after exactly "HTTP", and then the parser moves to Version. Any other byte that is not an upper-case letter is an Error. |
| ParserRuns.HttpTextRun | internal_webserver/requestparser.cpp:92-100 | The spaces and the protocol word are collected in the Http state. |
| ParserRuns.VersionRun | internal_webserver/requestparser.cpp:117-143 | At the first newline byte the version must be digit, '.', digit, or it is an Error. On success both digit values and the token are recorded. |
| ParserRuns.VersionEnd | internal_webserver/requestparser.cpp:122-143 | The newline byte that ends the version: accepted exactly for digit, '.', digit, recording both digits and the token. |
| ParserRuns.VersionSkipsOtherBytes | internal_webserver/requestparser.cpp:117-144 | In Version, bytes that are neither digits, dots nor newline bytes change nothing. |
| ParserRuns.LineEndRun | internal_webserver/requestparser.cpp:145-157 | After the request line, the run of newline bytes must be exactly CR LF when the next byte arrives, or it is an Error. That byte starts the key unchecked. |
| ParserRuns.KeyRun | internal_webserver/requestparser.cpp:220-234 | Key bytes are appended to the buffer. |
| ParserRuns.KeyRejectsSpace | internal_webserver/requestparser.cpp:232-237 | A space in a key before its ':' is an Error. |
| ParserRuns.KeyColonRun | internal_webserver/requestparser.cpp:220-231 | ':' records the name and looks up its kind case-insensitively. |
| ParserRuns.ValueRun | internal_webserver/requestparser.cpp:239-252 | Spaces after ':' are skipped, the value is collected, and its first newline byte moves to HeaderNewLine. |
| ParserRuns.SpacesSkipped | internal_webserver/requestparser.cpp:239-244 | In the Space sub-state, spaces change nothing. |
| ParserRuns.ValueTextRun | internal_webserver/requestparser.cpp:239-248 | The spaces and a non-empty value are collected in the Value sub-state. |
| ParserRuns.HeaderLineRun | internal_webserver/requestparser.cpp:220-290 | A whole header line is rejected exactly when its second line-end byte is not a newline byte or its dispatch fails. Otherwise the line is dispatched and (name, value) is appended to the headers. |
| ParserRuns.HeaderEnd | internal_webserver/requestparser.cpp:253-290 | The byte after the value's first newline byte must be a newline byte. The header is dispatched and then pushed, and the buffer and name are left empty. |
| ParserRuns.HeaderStartRun | internal_webserver/requestparser.cpp:213-220 | Between headers, a byte that is not a newline byte is handled exactly as in Key. |
| ParserRuns.BlankLineRun | internal_webserver/requestparser.cpp:160-174 | The blank line after the headers is recognised only when the next byte arrives, and only as exactly CR LF. That byte is the first body byte. |
| ParserRuns.BodyRun | internal_webserver/requestparser.cpp:174-186 | With Content-Length N, N body bytes are accepted. The next byte returns Ok and is dropped. The body is stored, the counter is 0 and the state is Start. |
| ParserRuns.UnboundedBodyRun | internal_webserver/requestparser.cpp:178-179 | Without a Content-Length, every body byte is appended and Processing is returned. |
| Messages.Applied | internal_webserver/requestparser.cpp:256-289 | An accepted header line appends itself to the headers and keeps the request line's fields and the data. |
| Messages.ApplyHeaders | internal_webserver/requestparser.cpp:256-289 | Accepted header lines are appended in arrival order, and the request line's fields and the data are kept. |
| Messages.Expected | internal_webserver/requestparser.cpp:36-292 | The request a parse should produce: headers after the old ones, and method, URL and body as written. |
| Messages.MethodSpaceRun | internal_webserver/requestparser.cpp:54-75 | The method token and its space: the token and its table entry are recorded. |
| Messages.TargetSpaceRun | internal_webserver/requestparser.cpp:76-91 | The target and its space: the URL is recorded. |
| Messages.ProtocolRun | internal_webserver/requestparser.cpp:92-117 | "HTTP/" moves from Space_2 to Version. |
| Messages.RequestLineStartRun | internal_webserver/requestparser.cpp:54-117 | Method, target and protocol word are accepted and recorded. |
| Messages.VersionLineEndRun | internal_webserver/requestparser.cpp:117-157 | The version, CR LF and the next byte: both digits and the token are recorded, and the parser waits in Key. |
| Messages.RequestLineRun | internal_webserver/requestparser.cpp:54-157 | A whole request line is accepted and sets method, URL and version, after `reset`. |
| Messages.KeyLineAccepted | internal_webserver/requestparser.cpp:220-290 | A well-formed header line, from the Key sub-state, is accepted exactly as `Applied` describes. |
| Messages.HeaderLineFromStart | internal_webserver/requestparser.cpp:213-290 | The same for a header line read between headers. |
| Messages.HeaderLinesRun | internal_webserver/requestparser.cpp:212-292 | Header lines are accepted exactly as `ApplyHeaders` describes, and the first rejected one draws an Error. |
| Messages.ThenHeaderLines | internal_webserver/requestparser.cpp:212-292 | After one accepted line, the remaining lines run as `ApplyHeaders` describes. |
| Messages.AllHeadersRun | internal_webserver/requestparser.cpp:212-292 | The header block of a request, from the Key sub-state the request line leaves, runs as `ApplyHeaders` describes. |
| Messages.BlankLineEntersBody | internal_webserver/requestparser.cpp:160-174 | CR LF between headers enters Data, and the next byte is handled as a body byte. |
| Messages.HeadRun | internal_webserver/requestparser.cpp:36-159 | Request line and headers: every byte is accepted when every header is dispatched, and otherwise an Error is returned. |
| Messages.TailRun | internal_webserver/requestparser.cpp:160-186 | Blank line and a body of the declared length: Ok on the byte after the body, and the parser is back in its initial state. |
| Messages.ParsesMessage | internal_webserver/requestparser.cpp:36-190 | A well-formed request whose Content-Length is its body's length is parsed into exactly `Expected`. Every byte is accepted, Ok comes on the next byte, and the parser is back in its initial state. |
| Messages.RejectsMessage | internal_webserver/requestparser.cpp:264-270 | A well-formed request with a header the parser rejects draws an Error. |
| Messages.WaitsWithoutContentLength | internal_webserver/requestparser.cpp:178-179 | Without a Content-Length, every byte is accepted, Ok never comes, and the body piles up in the buffer. |
| Messages.NoHeadersIsError | internal_webserver/requestparser.cpp:145-148 | A request line followed directly by the blank line is an Error, because "\r\n\r\n" is not CR LF. |
| Messages.PipelinedRequests | internal_webserver/requestparser.cpp:178-186 | Two requests back to back: the second loses its method's first letter, and the headers of both accumulate. |
| Url.HexDigit | tests/url_test.cpp:36 | Escapes use upper-case hexadecimal digits. |
| Url.HexValue | tests/url_test.cpp:57 | A hex digit is read in either case, and nothing else is one. |
| Url.HexRoundTrip | tests/url_test.cpp:48-50 | The digit written for a value is read back as that value. |
| Url.Escape | tests/url_test.cpp:36-37 | An escape is '%' and two more characters. |
| Url.QuoteChar | tests/url_test.cpp:36-43 | One character becomes one character or one escape. |
| Url.QuoteWith | tests/url_test.cpp:36-43 | The output is never shorter, and holds only safe characters, '%' and, for `quotePlus`, '+'. |
| Url.Unquote | tests/url_test.cpp:48-57 | `unquote` never lengthens. |
| Url.PlusToSpace | tests/url_test.cpp:62-71 | Every '+' becomes a space and nothing else changes. |
| Url.Split | tests/url_test.cpp:98-126 | At least one piece, and no piece holds the separator. |
| Url.DecodeItem | tests/url_test.cpp:104-126 | A piece is a bare key exactly when it has no '='; otherwise a key and a value. |
| Url.DecodeAll | tests/url_test.cpp:112-126 | Each piece is decoded in order. |
| Url.Decode | tests/url_test.cpp:98-126 | The empty string has no items; otherwise there is one item per '&'-separated piece. |
| Url.ToMap | tests/url_test.cpp:74-96 | The map's keys are exactly the items' keys. |
| Url.EncodeAll | tests/url_test.cpp:128-135 | Each item is encoded in order. |
| Url.Encode | tests/url_test.cpp:153-162 | `encode` fails exactly when some item has no string or more than two. |
| Url.MapItems | tests/url_test.cpp:136-139 | A map's entries, each key once, in some order. |
| Url.EncodeMap | tests/url_test.cpp:131-139 | `encode` of a map never fails. |
| Url.Quote | tests/url_test.cpp:36-37 | `quote` never shortens its input, and writes only safe characters and '%'. |
| Url.QuotePlus | tests/url_test.cpp:42-43 | `quotePlus` writes no space: only safe characters, '%' and '+'. |
| Url.UnquotePlus | tests/url_test.cpp:62-71 | `unquotePlus` never lengthens its input. |
| Url.DecodeMap | tests/url_test.cpp:74-96 | `decodeMap("")` is the empty map, and the keys of `decodeMap(s)` are exactly the keys of the items of `decode(s)`. |
| Url.QuoteConcat | tests/url_test.cpp:36-43 | Quoting works piecewise. |
| Url.QuoteUnchanged | tests/url_test.cpp:36-37 | `quote` leaves a string unchanged exactly when all its characters are safe. |
| Url.QuotePlusWithoutSpaces | tests/url_test.cpp:42-43 | Without spaces, `quotePlus` equals `quote`. |
| Url.QuotePlusChar | tests/url_test.cpp:42-43 | `quotePlus` differs from `quote` only at a space, which it writes as '+'. |
| Url.UnquoteKeeps | tests/url_test.cpp:55-57 | A character other than '%' is kept, and decoding resumes at the next one. |
| Url.UnquoteEscape | tests/url_test.cpp:48-50 | An escape written by `quote` is decoded to its byte. |
| Url.EscapeRoundTrip | tests/url_test.cpp:48-50 | The escape of a byte stands for that byte. |
| Url.UnquoteConcat | tests/url_test.cpp:48-57 | `unquote` works piecewise where no escape is cut. |
| Url.UnquoteQuote | tests/url_test.cpp:49 | `unquote` inverts `quote` on byte strings. |
| Url.PlusToSpaceConcat | tests/url_test.cpp:62-71 | The '+'-to-space step works piecewise. |
| Url.PlusToSpaceWithoutPlus | tests/url_test.cpp:62-71 | Without '+', the '+'-to-space step changes nothing. |
| Url.UnquotePlusQuotePlus | tests/url_test.cpp:63 | `unquotePlus` inverts `quotePlus` on byte strings. |
| Url.UnquotePlusWithoutPlus | tests/url_test.cpp:69-70 | Without '+', `unquotePlus` is `unquote`, malformed escapes included. |
| Url.UnquoteWithoutPercent | tests/url_test.cpp:48-57 | Without '%', `unquote` changes nothing. |
| Url.SplitJoin | tests/url_test.cpp:112-126 | Splitting joined pieces gives them back when none holds the separator. |
| Url.JoinSplit | tests/url_test.cpp:112-126 | Joining the pieces of a split gives the string back. |
| Url.DecodeItemEncodeItem | tests/url_test.cpp:128-135 | Decoding an encoded item gives the item back. |
| Url.EncodedItemShape | tests/url_test.cpp:128-151 | An encoded item holds no '&', and is empty only for a bare empty key. |
| Url.EncodedEmpty | tests/url_test.cpp:142-151 | `encode` writes the empty string only for no items or a single bare empty key. |
| Url.DecodeEncode | tests/url_test.cpp:128-135 | `decode(encode(p)) == p` for valid byte items, except a single bare empty key, which reads back as no items. |
| Url.ToMapLastWins | tests/url_test.cpp:74-96 | Of items with the same key, the last one wins. |
| Url.ToMapMapItems | tests/url_test.cpp:139 | A map's entries, collected into a map again, give the map. |
| Url.ToMapEntries | tests/url_test.cpp:139 | Items that are all entries of a map make a map that agrees with it on every key. |
| Url.ToMapKeys | tests/url_test.cpp:74-96 | The keys of the map the items make are exactly the keys of the items. |
| Url.ToMapOfEntries | tests/url_test.cpp:139 | Items that list the entries of a map, every key at least once, make that map. |
| Url.EntriesBytes | tests/url_test.cpp:139 | Entries of a map of byte strings are items of byte strings. |
| Url.DecodeMapEncodeEntries | tests/url_test.cpp:139 | Whatever order the entries of a map of byte strings are listed in, repeats included, `encode` succeeds and `decodeMap` of the result is the map. |
| Url.DecodeMapEncodeMap | tests/url_test.cpp:139 | `decodeMap(encode(m)) == m` for every map of byte strings. |
| UrlTests.QuoteWikipedia | tests/url_test.cpp:36 | `quote` of the Wikipedia URL. |
| UrlTests.QuoteSpace | tests/url_test.cpp:37 | `quote("abc def") == "abc%20def"`. |
| UrlTests.QuotePlusWikipedia | tests/url_test.cpp:42 | `quotePlus` of the Wikipedia URL. |
| UrlTests.QuotePlusSpace | tests/url_test.cpp:43 | `quotePlus("abc def") == "abc+def"`. |
| UrlTests.UnquoteTwoEscapes | tests/url_test.cpp:48 | `unquote("%20%30") == " 0"`. |
| UrlTests.UnquoteWikipedia | tests/url_test.cpp:49 | `unquote` of the quoted Wikipedia URL. |
| UrlTests.UnquoteSpace | tests/url_test.cpp:50 | `unquote("abc%20def") == "abc def"`. |
| UrlTests.UnquoteTrailingPercent | tests/url_test.cpp:55 | A trailing '%' is kept. |
| UrlTests.UnquoteMalformedEscape | tests/url_test.cpp:56 | "%4H" is kept. |
| UrlTests.UnquotePercentPercent | tests/url_test.cpp:57 | `unquote("%%abc%20def") == "%\xABc def"`. |
| UrlTests.UnquotePlusTwoEscapes | tests/url_test.cpp:62 | `unquotePlus("%20%30") == " 0"`. |
| UrlTests.UnquotePlusWikipedia | tests/url_test.cpp:63 | `unquotePlus` of the '+' form of the Wikipedia URL. |
| UrlTests.UnquotePlusSpace | tests/url_test.cpp:64 | `unquotePlus("abc%20def") == "abc def"`. |
| UrlTests.UnquotePlusTrailingPercent | tests/url_test.cpp:69 | A trailing '%' is kept by `unquotePlus`. |
| UrlTests.UnquotePlusMalformedEscape | tests/url_test.cpp:70 | "%4H" is kept by `unquotePlus`. |
| UrlTests.UnquotePlusPercentPercent | tests/url_test.cpp:71 | `unquotePlus("%%abc+def") == "%\xABc def"`. |
| UrlTests.DecodeMapEmpty | tests/url_test.cpp:74-80 | `decodeMap("")` is the empty map. |
| UrlTests.DecodeMapCommon | tests/url_test.cpp:82-88 | `decodeMap("foo=bar&ba+=+baz+")`. |
| UrlTests.DecodeMapBareKey | tests/url_test.cpp:90-96 | A bare key maps to "". |
| UrlTests.DecodeEmpty | tests/url_test.cpp:98-103 | `decode("")` has no items. |
| UrlTests.DecodeEmptyValues | tests/url_test.cpp:104-109 | `decode("foo=&bar=+")` gives `[["foo", ""], ["bar", " "]]`. |
| UrlTests.DecodeCommon | tests/url_test.cpp:112-118 | `decode("foo=bar&ba+=+baz+")`. |
| UrlTests.DecodeBareKey | tests/url_test.cpp:120-126 | A bare key decodes to a one-string item. |
| UrlTests.SpacedFooQuoted | tests/url_test.cpp:130-132 | `quotePlus("  foo  ") == "++foo++"`. |
| UrlTests.BaAtQuoted | tests/url_test.cpp:130-132 | `quotePlus("ba@") == "ba%40"`. |
| UrlTests.EncodeCommon | tests/url_test.cpp:128-135 | `encode` of the test's items is "foo=bar&++foo++=ba%40". |
| UrlTests.EncodeMapCommon | tests/url_test.cpp:139 | The test's map, encoded in any order, decodes back to itself. |
| UrlTests.EncodeEmpty | tests/url_test.cpp:142-151 | `encode` of no items, and of the empty map, is "". |
| UrlTests.EncodeRejectsTooManyStrings | tests/url_test.cpp:158-160 | An item with three strings raises `URLEncodeError`. |
| UrlTests.EncodeRejectsEmptyItem | tests/url_test.cpp:159-161 | An item with no string raises `URLEncodeError`. |

## Behaviour of the code worth knowing

- `reset` sets only the length, keep-alive and the timeout, and clears the
  counter and the buffer (`Parser.ResetStep`). Method, URL, host, content
  type, data and headers carry over to the next request:
  `Messages.PipelinedRequests` shows the headers accumulating.
- Ok comes on the byte after the body, not on the last byte of the body,
  and that byte is dropped (`ParserRuns.BodyRun`). Two requests sent back to
  back therefore do not parse independently: the second loses the first
  letter of its method (`Messages.PipelinedRequests`).
- The Keep-Alive timeout is read by cutting characters from the end of the
  value, so "timeout=N" never sets it (`Parser.KeepAliveIgnoresTimeoutForm`),
  and "12=3" sets it to 1 (`Parser.KeepAliveTrimsFromEnd`).
- A request line followed directly by the blank line is rejected
  (`Messages.NoHeadersIsError`).
- Any 32-bit Content-Length is accepted, negative ones included. For a
  negative length other than -1, `reserve` is called with that length when
  the body starts; converted to `size_t` it exceeds the largest size, so
  `reserve` throws `std::length_error` on the first body byte. The model
  does not throw; see "Left out".
- A body whose first byte is a newline byte is absorbed into the blank line,
  which then is not CR LF, so it is an Error. `Messages.ParsesMessage`
  therefore asks that the first body byte, or the byte after the request
  when the body is empty, is not a newline byte.

## Left out

- Logging (`BOOST_LOG_TRIVIAL`) has no effect on results, so it is not modelled. `reserve` has no effect on results for a Content-Length of -1 or more, so it is not modelled.
- Parser.DataStep: the `std::length_error` that `reserve` throws for a Content-Length below -1 is not modelled. Exceptions are outside the model, so for that input the model instead completes the request on the first body byte, with an empty body (`Parser.NegativeLengthCompletesAtOnce`). That result is the model's choice, not the code's.
- The statics of `consumeHeaders` are shared by every parser instance. The model gives each parser its own copy, so that sharing is not modelled.
- The I/O driver that feeds bytes, connection-close handling and concurrency are outside the parser.
- `requestparser.h`, `request.h` and `utils/url.h`/`url.cpp` are not part of this model.
  - The character classes are given their evident definitions.
  - `consumedContent` is a signed int.
  - The `Request` constructor's defaults (`HttpRequest.Request.constructor`) are chosen, because `reset` sets the fields the parser relies on.
- Parser.DataStep: parser integers are unbounded, and the signed overflow of `consumedContent` is not modelled. The counter is post-incremented even when the comparison with the length fails (requestparser.cpp:178). So for a Content-Length of 2^31-1, the byte that completes the request takes the counter from 2^31-1 to 2^31, an overflow that is undefined behaviour in C++. The same byte resets the counter to 0 (requestparser.cpp:183). The model never increments on that path and sets the counter to 0 directly. For every other length, the counter stays within the int range.
- Characters are bytes.
  - `Url.Escape` writes a character above 255 by its low eight bits.
  - `Url.UnquoteQuote`, `Url.UnquotePlusQuotePlus`, `Url.DecodeEncode` and `Url.DecodeMapEncodeMap` require byte strings.
- Url.Decode: the tests fix only the empty string and '&'-separated pieces. An empty piece (as in "a&&b") is decoded as a bare empty key, and `decode` of the empty string has no items.
- Url.DecodeItem: a piece holding several '=' could be split at the first or at the last one, and the tests do not fix which. The model splits at the first '=', so the value keeps any later '='.
- Url.ToMap: which of two items with the same key wins is not fixed by the tests. The model keeps the last.
- Url.EncodeMap: the order of a map's entries is not fixed by the source, so the model writes them in an unspecified order chosen by a ghost function. `Url.DecodeMapEncodeEntries` proves the round trip for any listing of the entries, so the result does not depend on that choice.
- `Url.EncodeMap` and `Url.MapItems` are ghost for that reason, so they are not executable.
