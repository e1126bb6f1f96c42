# jbhttp request-processing core in Dafny

This project models the request-processing engine of jbhttp, a small HTTP/1.x
server library written in Rust. It proves properties of the model. The model
covers:

- **The request parser** (`parser.dfy`, with proofs in `parser_props.dfy`,
  `roundtrip.dfy`, `wire.dfy` and `params_props.dfy`). A recursive-descent
  parser with one byte of lookahead. It reads a finite byte sequence into a
  `Request` or a `ParseError(position, reason)`, and splits
  `name=value&...` text into typed parameters.
- **Header values** (`headers.dfy`). Header names compare case-insensitively.
  `Accept` preferences are parsed and stably sorted by ascending quality, as
  the code does, `Content-Type`
  with its `charset`/`boundary` parameters is parsed, and media types are
  matched with wildcards.
- **Requests and responses** (`requests.dfy`, `responses.dfy`,
  `response_wire.dfy`). Parameter lookup with precedence path > query > body,
  the payload-dropping conversions, and the response wire format. The proofs
  show the parser reads the response's header block back.
- **The router** (`router.dfy`). Path patterns with literal, `*`, `?name`
  and trailing `**` segments. Matching segment by segment, as written: the
  first route that matches answers, a route whose matching panics ends the
  request, and without a match the answer is 404. The documented router sits
  beside it (see Findings).
- **Content negotiation** (`content.dfy`). Codec registries selected by
  `Accept` and `Content-Type`, and the status codes the negotiating handlers
  answer with (406, 415, 400, 500).
- **Filters, authentication and verb dispatch** (`filters.dfy`, `auth.dfy`,
  `api.dfy`).
- **The LF to CRLF converter** (`io.dfy`). The one imperative loop, over a
  sequence standing for the output buffer.

Shared vocabulary lives in `base.dfy`: `Option`, `Result`, `byte`, `u16` and
`usize::MAX`. `text.dfy` models the Rust string operations the source relies
on: `split`, `splitn`, `trim`, ASCII lowercasing, and `usize` parsing and
printing. `utf8.dfy` models UTF-8 encoding and decoding; both round trips are
proved.

A handler is a function value `(Request<I>, C) -> (Res<O, E>, C)`. The
source's `&mut C` context becomes a value threaded through the call. "The
inner handler is never called" is stated as independence: the result is the
same whatever inner handler, or filter function, is supplied. Codecs are
partial functions given as parameters.

Where the code and its documentation disagree, the model follows the code,
and a corrected version sits beside it where the code looks wrong:

- The router's comment promises that `/foo/**` matches `/foo/bar`; the code
  does not. `Routing.WithRoute` and `Routing.Handle` are the code as written;
  `Routing.WithRouteIntended` and `Routing.HandleIntended` are the documented
  router (see Findings).
- `Accept` preferences are tried lowest quality first, as the code sorts
  them. `Headers.ParseAcceptIntended` tries the highest first (see
  Findings).
- The `Accept` comment shows `application/xml;q=0.9`. The code parses the
  whole `q=0.9` piece as a number, so that item is rejected
  (`Headers.QualityTextIsWholeParameter`).
- The request and response types name their payload `payload`, while the
  parser and the content module still say `body`. These are one field here,
  `payload`.

## Model

| member | source | states |
|---|---|---|
| Parser.MethodFromStr | src/request/parser.rs:9-25 | a successful parse returns the verb whose name is exactly the input; every failure is position 0, "invalid HTTP method" |
| Parser.MethodRoundTrip | src/request/parser.rs:9-25 | each of the nine verbs parses back from its own name |
| Parser.MethodFromStrExactly | src/request/parser.rs:9-25 | a word parses as a verb if and only if it is one of the nine verb names |
| Parser.Next | src/request/parser.rs:84-101 | `next` returns the previous lookahead, consumes at most one byte, and leaves the end-of-input flag alone |
| Parser.Expect | src/request/parser.rs:102-109 | `expect(b)` succeeds exactly when the lookahead is `b` |
| Parser.One | src/request/parser.rs:116-130 | `one` succeeds exactly when the lookahead satisfies the class, returns that byte, and otherwise fails with "unexpected character" at the current position |
| Parser.Star | src/request/parser.rs:131-148 | every byte `star` takes is in the class, and it stops at a byte outside it or at the end |
| Parser.Plus | src/request/parser.rs:149-156 | `plus` succeeds exactly when the first byte is in the class; the run is non-empty and all in the class; failure is "unexpected character" at the current position |
| Parser.Until | src/request/parser.rs:160-169 | `until(b)` returns a word without `b` and stops with `b` as lookahead; running out of input is "unexpected end of input", never a loop |
| Parser.Utf8Text | src/request/parser.rs:179-180 | bytes become text exactly when they are valid UTF-8, and the text encodes back to those bytes |
| Parser.ParsePath | src/request/parser.rs:175-181 | a parsed path is non-empty and starts with `/` |
| Parser.ParseUri | src/request/parser.rs:200-202 | the path of a parsed URI is non-empty and starts with `/` |
| Parser.ParseRequestLine | src/request/parser.rs:237-245 | the path of a parsed request line starts with `/` |
| Parser.ParseHeader | src/request/parser.rs:203-214 | a parsed header name contains no `:` and its value contains no `\r` |
| Parser.ParseHeaders | src/request/parser.rs:215-221 | the header block ends with `\r` as lookahead |
| Parser.ParseBody | src/request/parser.rs:222-235 | a body read for length `n` has exactly `n` bytes |
| Parser.ParseParams | src/request/parser.rs:281-293 | every pair's name contains neither `=` nor `&`, and no value contains `&` |
| Parser.DeclaredLength | src/request/parser.rs:248-254 | without a `Content-Length` header the length is 0; a declared length fits in a `usize` |
| Parser.ContentLength | src/request/parser.rs:248-254 | the length is read exactly when it is declared as a `usize`; otherwise the error is "invalid content-length" at the current position |
| Parser.ParsePayload | src/request/parser.rs:255-264 | there is no payload exactly when the length is 0; otherwise the payload has that length |
| Parser.ParseRest | src/request/parser.rs:246-277 | the request keeps the request line's verb and path; there is no payload exactly when the length is 0, and otherwise the payload has that length |
| Parser.Parse | src/request/parser.rs:237-278 | a parsed request has a path starting with `/`, and a payload exactly when its content length is positive, of that length |
| ParserProps.NextAt | src/request/parser.rs:84-101 | at byte `k`, `next` yields `input[k]` and moves to byte `k+1` |
| ParserProps.StartAt | src/request/parser.rs:238 | the priming `next` makes the first byte the lookahead |
| ParserProps.StarAt | src/request/parser.rs:131-148 | `star` over a maximal run of class bytes returns exactly that run and stops after it |
| ParserProps.PlusAt | src/request/parser.rs:149-156 | `plus` over a non-empty maximal run returns exactly that run |
| ParserProps.UntilAt | src/request/parser.rs:160-169 | `until(b)` returns exactly the bytes before the next `b` |
| ParserProps.UntilRunsOut | src/request/parser.rs:160-169 | without a `b` before the end, `until(b)` fails with "unexpected end of input" at the input length |
| ParserProps.ExpectsAt | src/request/parser.rs:110-115 | `expects(bs)` succeeds over input that holds `bs` and moves past it |
| ParserProps.BodyFromAt | src/request/parser.rs:222-235 | with enough bytes the body is the next `n` bytes; otherwise the error is "expected m more bytes", with `m` the shortfall, at the input length |
| ParserProps.PayloadEmptyAt | src/request/parser.rs:256-260 | with length 0, one CRLF ends the request and there is no payload |
| ParserProps.PayloadAt | src/request/parser.rs:261-264 | with length `n > 0`, the payload is the `n` bytes after the CRLF |
| ParserProps.PayloadShort | src/request/parser.rs:222-235 | with too few bytes after the CRLF, the error names the missing count, at the input length |
| ParserRoundTrip.ClassTextAt | src/request/parser.rs:149-156 | `plus` over the ASCII bytes of a class word, followed by a non-class byte, reads that word back |
| ParserRoundTrip.MethodNameUpper | src/request/parser.rs:170-174 | every verb name is a non-empty upper-case word, which the method parser takes whole |
| ParserRoundTrip.MethodAt | src/request/parser.rs:170-174 | the bytes of a verb name followed by a space parse as that verb |
| ParserRoundTrip.UpperWordAt | src/request/parser.rs:170-174 | an upper-case word that names a verb parses as that verb and stops at the space |
| ParserRoundTrip.PathAt | src/request/parser.rs:175-181 | a path of PATH bytes starting with `/` parses back exactly |
| ParserRoundTrip.MarkedTextAt | src/request/parser.rs:182-199 | a marker byte followed by a non-empty class word reads back the word |
| ParserRoundTrip.QueryAt | src/request/parser.rs:182-190 | an empty query is read from no bytes; a non-empty one is read back from `?` and its QUERY bytes |
| ParserRoundTrip.FragmentAt | src/request/parser.rs:191-199 | an empty fragment is read from no bytes; a non-empty one is read back from `#` and its FRAGMENT bytes |
| ParserRoundTrip.UriAt | src/request/parser.rs:200-202 | the bytes of a well-formed path, query and fragment parse back into the same three parts |
| ParserRoundTrip.VersionAt | src/request/parser.rs:242-245 | ` HTTP/1.1` and CRLF are accepted and consumed |
| ParserRoundTrip.GapAt | src/request/parser.rs:240 | a single space followed by a non-blank byte is taken whole as the separator |
| ParserRoundTrip.RequestLineAt | src/request/parser.rs:237-245 | the bytes of any well-formed request line in the canonical form (single spaces, `HTTP/1.1`) parse back into the same line |
| RequestRoundTrip.UntilSegAt | src/request/parser.rs:160-169 | `until(b)` over bytes without `b`, followed by `b`, returns exactly those bytes |
| RequestRoundTrip.HeaderBytesAt | src/request/parser.rs:203-214 | `name: value CRLF`, with valid UTF-8 name and value, parses back into that header |
| RequestRoundTrip.HeaderAt | src/request/parser.rs:203-214 | the line of a well-formed header parses back into the same name and value |
| RequestRoundTrip.HeadersStep | src/request/parser.rs:215-221 | a header line followed by more headers parses as that header, then the rest |
| RequestRoundTrip.HeadersAt | src/request/parser.rs:215-221 | the lines of a well-formed header list parse back into the same list, in order, ending at the blank line's `\r` |
| RequestRoundTrip.ParseWire | src/request/parser.rs:237-278 | for the canonical wire form (single spaces, `HTTP/1.1`, `: ` after each header name), a well-formed request line, headers and a body of the declared length are parsed back: same line, headers collected case-insensitively with later values winning, the body as payload, query and form parameters added; trailing bytes are never read |
| RequestRoundTrip.ParsePayloadFails | src/request/parser.rs:255-264 | a failure while reading the payload is the failure of the whole parse |
| RequestRoundTrip.ParseShortPayload | src/request/parser.rs:222-235 | a body shorter than the declared length fails with "expected k more bytes", at the input length |
| RequestRoundTrip.ParseLengthFails | src/request/parser.rs:248-252 | a `Content-Length` that is not a `usize` fails with "invalid content-length" just after the blank line's `\r` |
| RequestRoundTrip.ParseInvalidLength | src/request/parser.rs:248-252 | on a well-formed request whose length header is invalid, the error position is the length of the request line and headers plus one |
| RequestRoundTrip.ParseUnknownMethod | src/request/parser.rs:444-447 | an upper-case word that is not a verb (such as `FOO`) fails at position 0 with "invalid HTTP method" |
| RequestRoundTrip.TextOfEncode | src/request/parser.rs:211-212 | the UTF-8 bytes of any text decode back to it |
| ParamsProps.AddParamsAppends | src/request/parser.rs:309-313 | adding pairs appends each value to its key's list, in order, and creates only keys that receive a value |
| ParamsProps.PairsOfPairTexts | src/request/parser.rs:284-291 | `name=value` pieces without stray separators split back into the same pairs |
| ParamsProps.ParseParamsOfJoin | src/request/parser.rs:281-293 | `parse_params` of pairs joined with `&` returns those pairs in order |
| ParamsProps.PieceWithoutEqualsDropped | src/request/parser.rs:285-290 | a piece without `=` contributes no pair |
| ParamsProps.QueryParamsAdded | src/request/parser.rs:309-313 | query pairs are appended as Query parameters; other kinds and every other field are unchanged |
| ParamsProps.BodyParamsCondition | src/request/parser.rs:295-307 | body pairs are added only with a payload, the exact content type `application/www-form-urlencoded` and a UTF-8 payload, and are then added as Body parameters; nothing else changes |
| ParserExamples.HostOnlyDeclaresNothing | src/request/parser.rs:248-254 | a header list without `Content-Length` declares a content length of 0 |
| ParserExamples.HostAndLengthDeclares | src/request/parser.rs:248-254 | a `Content-Length` header holding a printed number declares that number, although its name is written in another case than the one looked up |
| ParserExamples.HostOnlyMap | src/request/parser.rs:246 | a single `Host` header collects into the map holding only `host` |
| ParserExamples.HostAndLengthMap | src/request/parser.rs:246 | `Host` followed by `Content-Length` collects into the map holding exactly `host` and `content-length`, the latter with the printed number |
| ParserExamples.HostAndLengthNoContentType | src/request/parser.rs:297 | those two headers leave `content-type` absent, so no form parameters can be read |
| ParserExamples.GetQueryPairs | src/request/parser.rs:281-293 | `p1=v1&p2=v2` splits into the pairs (`p1`, `v1`) and (`p2`, `v2`), in order |
| ParserExamples.GetPairsAdded | src/request/parser.rs:281-293 | adding those pairs as query parameters gives `p1` the list `v1` and `p2` the list `v2`, and nothing else |
| ParserExamples.EmptyQueryPairs | src/request/parser.rs:281-293 | an empty query gives no pairs |
| ParserExamples.NoParams | src/request/parser.rs:275-313 | with an empty query and no `content-type` header the parsed request carries no parameters |
| ParserExamples.AssembledFields | src/request/parser.rs:265-277 | adding the query and form parameters leaves the method, path, query, fragment, headers, payload and length as parsed |
| ParserExamples.ParsedFields | src/request/parser.rs:237-278 | a well-formed request parses to its line's method, path, query and fragment, its collected headers, its body as payload (none when empty), the body's length, and the query and form parameters added to an empty store |
| ParserExamples.ShortFields | src/request/parser.rs:222-235 | a body shorter than the declared length fails at the end of the input, naming how many bytes are missing |
| ParserExamples.ParserGetExample | src/request/parser.rs:359-412 | `GET /path?p1=v1&p2=v2#fragment` with one `Host` header parses to the request the test builds: path `/path`, query `p1=v1&p2=v2`, fragment `fragment`, exactly the header `host: localhost`, no payload, length 0, and the query parameters `p1` = [`v1`] and `p2` = [`v2`] and no others |
| ParserExamples.ParserPostExample | src/request/parser.rs:414-427 | `POST /` with `Content-Length: 3` and body `foo` parses to the request the test builds: path `/`, empty query and fragment, exactly the headers `host: localhost` and `content-length: 3`, payload `foo`, length 3 and no parameters |
| ParserExamples.ParserNonsenseExample | src/request/parser.rs:444-447 | the input `FOO` fails at position 0 with "invalid HTTP method" |
| ParserExamples.ParserTooLongExample | src/request/parser.rs:449-455 | `GET /` declaring 10 bytes but carrying `foo` is 58 bytes long and fails at position 58 with "expected 7 more bytes" |
| Text.JoinSplit | src/request/parser.rs:283 | splitting loses nothing: the pieces rejoined with the separator give the input back |
| Text.SplitJoin | src/router.rs:56 | pieces without the separator, once joined, split back into the same pieces |
| Text.SplitOnce | src/request/parser.rs:285 | `splitn(2, '=')` gives two parts exactly when `=` occurs, split at its first occurrence |
| Text.Trim | src/request/header.rs:139 | `trim` returns the slice between leading and trailing whitespace, which starts and ends with a non-whitespace character |
| Text.Lower | src/request/header.rs:18 | lowercasing keeps the length and lowercases each ASCII letter |
| Text.LowerIdempotent | src/request/header.rs:26 | lowercasing twice is lowercasing once, so the key a header hashes to is stable |
| Text.ParseUsizeOfNatToString | src/response/mod.rs:92 | a printed length reads back as the same number whenever it fits in a `usize` |
| Text.DigitsValueOfNatToString | src/response/mod.rs:92 | the decimal digits printed for a number have that number as their value |
| Utf8.DecodeEncode | src/response/mod.rs:96-97 | decoding the UTF-8 bytes of any text gives the text back |
| Utf8.EncodeDecode | src/request/parser.rs:211-212 | bytes that decode are exactly the encoding of their decoded text |
| Headers.HeaderInsert | src/request/mod.rs:42-45 | after insertion the name yields the new value under any case, and every name that differs other than by case is unchanged |
| Headers.HeaderMapOfLastWins | src/request/parser.rs:246 | collecting header pairs gives each name the value of its last occurrence, case-insensitively |
| Headers.HostIsCaseInsensitive | src/request/header.rs:16-28 | `Host`, `HOST` and `host` are one key |
| Headers.ParsePreference | src/request/header.rs:100-120 | errors are "invalid q value" or "invalid mimetype format" for `Accept`; a success has exactly one `/` in the first piece, at most two pieces, quality 1.0 without a second piece; with a second piece, a success means that piece parsed as a quality and carries it, and a piece that does not parse is exactly the error "invalid q value" |
| Headers.BadQualityRejected | src/request/header.rs:104-106 | a preference with a second piece that does not parse as a quality is rejected with "invalid q value", whatever its first piece |
| Headers.ParsePreferenceOf | src/request/header.rs:100-120 | `type/subtype`, optionally followed by `;` and a number, parses into those parts, with quality 1.0 when no number is given |
| Headers.QualityTextIsWholeParameter | src/request/header.rs:104-106 | a second piece that is not itself a number, such as `q=0.9`, is rejected with "invalid q value" |
| Headers.InsertByQuality | src/request/header.rs:143 | inserting a preference adds exactly that element to the list |
| Headers.SortByQuality | src/request/header.rs:143 | sorting permutes the preferences |
| Headers.InsertSorted | src/request/header.rs:143 | insertion keeps a list sorted in the given quality order |
| Headers.SortSorted | src/request/header.rs:143 | the sorted list is in the given quality order: ascending for `sort_by` as written |
| Headers.InsertKeepsQualityClass | src/request/header.rs:143 | insertion keeps the header order of the preferences that share its quality |
| Headers.SortIsStable | src/request/header.rs:143 | preferences of equal quality keep their header order |
| Headers.OrderedAccept | src/request/header.rs:133-146 | the valid trimmed items of a header, a permutation sorted in the given quality order, with equal qualities in header order |
| Headers.ParseAccept | src/request/header.rs:133-146 | `Accept` parsing never fails; the result is the valid trimmed items, sorted by ascending quality, with equal qualities in header order |
| Headers.ParseAcceptIntended | src/request/header.rs:143 | corrected: the same items, sorted by descending quality, with equal qualities in header order |
| Headers.AllInvalidAcceptIsEmpty | src/request/header.rs:133-146 | a header whose every item is invalid parses as the empty list, not as an error |
| Headers.ParseParameters | src/request/header.rs:180-192 | parameters succeed exactly when every piece is one `key=value`, otherwise "invalid key-value"; the last `charset` and the last `boundary` win, and other keys are ignored |
| Headers.ParseContentType | src/request/header.rs:163-200 | errors are for `Content-Type` and never "empty"; a first piece that is not one `type/subtype` gives "invalid mimetype format"; success means that and well-formed parameters, with the parts, charset and boundary as written |
| Headers.EmptyContentType | src/request/header.rs:166-178 | the empty value gives "invalid mimetype format" |
| Requests.ParamsAdd | src/request/mod.rs:115-117 | `add` appends the value to the key's list, creating it if missing; every other key is unchanged |
| Requests.GetAll | src/request/mod.rs:119-121 | `get_all` returns the key's list exactly when the key is present |
| Requests.GetFirst | src/request/mod.rs:123-129 | `get_first` returns the first value, and nothing for a missing key or an empty list |
| Requests.GetAny | src/request/mod.rs:131-143 | `get_any` returns the first Path value if there is one, else the first Query value, else the first Body value |
| Requests.FirstFound | src/request/mod.rs:137-142 | trying the kinds in order returns the first kind that has a value, and nothing exactly when none has |
| Requests.GetFirstAfterAdd | src/request/mod.rs:115-129 | adding a value does not change the first value of a non-empty list, and is the first value of an empty one |
| Requests.PathShadowsQueryAndBody | src/request/mod.rs:131-143 | a Path value, once added, is what `get_any` returns, whatever Query and Body hold |
| Requests.DefaultRequest | src/request/mod.rs:24-39 | the default request is GET `/` with empty query and fragment, the single header `Host: localhost`, no payload, length 0 and no parameters |
| Requests.WithHeader | src/request/mod.rs:42-45 | `with_header` inserts or replaces the value under a case-insensitive name and changes nothing else |
| Requests.IntoType | src/request/mod.rs:46-57 | `into_type` keeps every field except the payload, which it drops |
| Requests.AcceptOf | src/request/mod.rs:58-63 | there are no preferences exactly when there is no `Accept` header; otherwise they are the parsed header |
| Requests.ContentTypeOf | src/request/mod.rs:64-69 | no `Content-Type` header gives `Ok(None)`; otherwise the parse result, with its error passed on |
| Responses.DefaultReason | src/response/mod.rs:31-38 | code 200 reads "OK" and code 500 reads "Internal Server Error" |
| Responses.New | src/response/mod.rs:31-38 | a new response has the code, the default reason, no headers and no payload |
| Responses.WithStatusCode | src/response/mod.rs:43-46 | only the code changes; the reason is kept |
| Responses.WithStatus | src/response/mod.rs:48-51 | only the reason changes |
| Responses.WithHeader | src/response/mod.rs:53-56 | the header is appended after the existing ones, which stay; nothing else changes |
| Responses.WithPayload | src/response/mod.rs:69-72 | only the payload changes |
| Responses.IntoType | src/response/mod.rs:57-64 | `into_type` keeps the code, reason and headers and drops the payload |
| Responses.PairsMap | src/response/mod.rs:39-41 | the `headers()` map has exactly the names that occur in the list |
| Responses.PairsMapLastWins | src/response/mod.rs:39-41 | in the `headers()` map a name holds the value of its last occurrence |
| Responses.ContentLength | src/response/mod.rs:77-82 | the content length is the payload's length, or 0 without a payload |
| Responses.IntoBytesLayout | src/response/mod.rs:84-105 | the bytes are the status line, the headers in insertion order, `Content-Length` last and only for a non-empty payload, a blank line, then the payload |
| Responses.PayloadIsTail | src/response/mod.rs:84-105 | the last `content_length` bytes are the payload |
| Responses.IntoBytesExample | src/response/mod.rs:118-127 | a 500 with `Connection: closed` and a 7-byte payload reads "Internal Server Error" and writes `Connection: closed` then `Content-Length: 7` before the payload |
| ResponseWire.HeaderTextIsHeaderLine | src/response/mod.rs:95-98 | a written header line is the same line the request parser reads |
| ResponseWire.HeadersBytesAreHeaderLines | src/response/mod.rs:95-98 | the written header block is the concatenation of those lines |
| ResponseWire.SentHeadersWellFormed | src/response/mod.rs:90-93 | adding `Content-Length` keeps a header list well-formed |
| ResponseWire.ResponseHeadersParse | src/response/mod.rs:84-105 | the request parser reads a response's header block back as exactly the headers it was written from, `Content-Length` included |
| ResponseWire.SentLength | src/response/mod.rs:90-93 | when the response sets no `Content-Length` of its own, the headers it sends declare exactly the payload length |
| Filters.RequestFilterContinues | src/filter.rs:32-37 | when `f` lets the request through, the result is the inner handler on `f`'s request and the context `f` left |
| Filters.RequestFilterPreempts | src/filter.rs:32-37 | when `f` answers, that answer is the result and the inner handler makes no difference |
| Filters.ResponseFilterPassesErr | src/filter.rs:65-70 | an inner error passes unchanged and `f` makes no difference |
| Filters.ErrorFilterPassesOk | src/filter.rs:98-103 | an inner Ok passes unchanged and `f` makes no difference |
| Filters.FiltersKeepKind | src/filter.rs:65-103 | response and error filters never turn Ok into an error or the reverse |
| Filters.ResFilterGeneralises | src/filter.rs:134-136 | a result filter given the lifted function behaves as any response or error filter |
| Filters.ResFilterCanTurnOkIntoErr | src/filter.rs:134-136 | a result filter can turn an inner Ok into an error |
| Filters.ResponseFiltersFuse | src/filter.rs:65-70 | two nested response filters behave as one that applies the inner function first |
| Filters.RequestFiltersFuse | src/filter.rs:32-37 | two nested request filters behave as one in which the outer function runs first and may pre-empt the inner one |
| Filters.ResFilterSeesInnerContext | src/filter.rs:134-136 | `f` receives the inner result and the context as the inner handler left it |
| Auth.AuthenticatorIsRequestFilter | src/auth.rs:37-43 | an authenticator is the request filter that passes the request on untouched or answers 401 |
| Auth.AuthenticatorAccepts | src/auth.rs:38-39 | on success the result is the inner handler on the same request, with the context the authentication function left |
| Auth.AuthenticatorRefuses | src/auth.rs:40 | on failure, whatever the reason and the inner handler, the answer is 401 with its default reason (assumed "Unauthorized", see Left out), no headers and no payload |
| Auth.WrapOrder | examples/api_service.rs:177-184 | with a result filter outside, a refused request still passes through it; with the authenticator outside, the result filter never sees the request |
| Apis.DispatchesToItsMethod | src/api.rs:34-39 | GET, POST, PUT, PATCH and DELETE reach their own method with the request and context unchanged |
| Apis.UnsupportedIs405 | src/api.rs:6-40 | a verb without a method, or a method left at its default, answers 405 with its default reason (assumed "Method Not Allowed", see Left out), no payload and the context unchanged |
| Apis.NoMethodForOtherVerbs | src/api.rs:34-40 | exactly HEAD, CONNECT, OPTIONS and TRACE have no method |
| Apis.OnlyItsMethodRuns | src/api.rs:34-41 | the answer depends only on the method for the request's verb |
| Routing.PartFromStr | src/router.rs:13-21 | `*` is Any, a leading `?` makes a Param of the rest, and anything else is Exact |
| Routing.PartRoundTrip | src/router.rs:13-21 | segment patterns read back as written |
| Routing.PartMatches | src/router.rs:22-28 | Exact matches only an equal segment; Any and Param match every segment, even an empty one; only Param captures, as (name, segment) |
| Routing.PartsFromStr | src/router.rs:47-49 | one part per `/`-separated piece, each read by `from_str` |
| Routing.PathFromStr | src/router.rs:37-54 | a pattern is a prefix exactly when it ends in `**`, and its parts are the pieces of what precedes the `**` |
| Routing.MatchSegmentsMeaning | src/router.rs:67-76 | with no more segments than parts the loop never fails, matches exactly when every segment matches, and captures in segment order |
| Routing.MatchesAsWrittenEqualCounts | src/router.rs:55-77 | a match as written has as many segments as parts, each matching |
| Routing.MatchSegmentsLonger | src/router.rs:67-70 | more segments than parts can never match as written |
| Routing.StarsAfterWordParts | src/router.rs:37-54 | `/w**` reads as the parts `""` and `w` |
| Routing.StarsAfterSlashParts | src/router.rs:37-54 | `/w/**` reads as the parts `""`, `w` and `""` |
| Routing.TwoSegments | src/router.rs:56 | `/w/x` has the segments `""`, `w` and `x` |
| Routing.StarsAfterWordPanics | src/router.rs:63-70 | as written, `/w**` against `/w/x` indexes past its parts |
| Routing.StarsAfterSlashRejects | src/router.rs:93 | as written, `/w/**` rejects every `/w/x` with non-empty `x` |
| Routing.PrefixRoutePanics | src/router.rs:63-70 | as written, `/a**` against `/a/b` indexes past its parts |
| Routing.PrefixRouteRejectsChild | src/router.rs:93 | as written, `/foo/**` rejects `/foo/bar` |
| Routing.PathFromStrIntended | src/router.rs:93 | corrected pattern reading: a prefix exactly when the pattern ends in `**` |
| Routing.MatchesIntended | src/router.rs:55-77 | corrected matching never fails |
| Routing.MatchesIntendedMeaning | src/router.rs:55-77 | corrected matching accepts exactly when there are enough segments, no extra ones unless the pattern is a prefix, and the pattern's segments all match; the captures are theirs, in order |
| Routing.IntendedAgreesWithoutStars | src/router.rs:55-77 | without a trailing `**` the corrected reading and matching equal the code as written |
| Routing.IntendedStarsAfterSlashParts | src/router.rs:93 | corrected, `/w/**` reads as the parts `""` and `w` |
| Routing.IntendedStarsAfterSlashMatches | src/router.rs:93 | corrected, `/w/**` matches every `/w/x`, capturing nothing |
| Routing.IntendedPrefixMatchesChild | src/router.rs:93 | corrected, `/foo/**` matches `/foo/bar` |
| Routing.WithRoute | src/router.rs:131-140 | `with_route` reads the pattern as written and appends the route after the existing ones, which stay in order |
| Routing.HandleFirstMatch | src/router.rs:152-161 | when every earlier route gives no match, the first route that matches as written answers, with its captures added as Path parameters; later routes are never consulted |
| Routing.HandlePanics | src/router.rs:153-154 | when every earlier route gives no match, a route whose matching panics ends the request with no answer |
| Routing.HandleNoMatch | src/router.rs:162 | when every route gives no match, the answer is a bare 404 with its default reason (assumed "Not Found", see Left out), no handler runs and the context is unchanged |
| Routing.StarsAfterWordRouterPanics | src/router.rs:152-163 | a router holding only `/w**` panics on every `/w/x` |
| Routing.StarsAfterSlashRouter404 | src/router.rs:152-163 | a router holding only `/w/` followed by `**` answers 404 to every `/w/x` with non-empty `x` |
| Routing.RouterPanicsOnPrefix | src/router.rs:63-70 | as written, a router holding only `/a**` panics on `/a/b` |
| Routing.RouterRejectsChild | src/router.rs:37-54 | as written, a router holding only `/foo/**` answers 404 to `/foo/bar` |
| Routing.WithRouteIntended | src/router.rs:93 | corrected: the route is appended with its pattern read as documented |
| Routing.HandleIntendedFirstMatch | src/router.rs:91-94 | corrected: the first route that matches as documented answers, with its captures as Path parameters |
| Routing.HandleIntendedNoMatch | src/router.rs:91-94 | corrected: without a documented match the answer is a bare 404 and the context is unchanged |
| Routing.HandleAgreesWithoutPrefix | src/router.rs:152-163 | for routes without `**` the router as written never panics and answers exactly as the documented one |
| Routing.IntendedStarsAfterWordMatches | src/router.rs:93 | corrected, `/w**` with a non-empty word `w` matches every `/w/x`, capturing nothing |
| Routing.IntendedRouterTakesPrefix | src/router.rs:93 | corrected, a router holding only `/a**` runs its handler for `/a/b`, adding no parameters |
| Routing.IntendedRouterTakesChild | src/router.rs:93 | corrected, a router holding only `/foo/**` runs its handler for `/foo/bar`, adding no parameters |
| Routing.CapturesArePathParams | src/router.rs:156-158 | captures are appended as Path parameters in order; other kinds are unchanged |
| Content.MatchMediaType | src/content/mod.rs:65-75 | an item is found exactly when some registered entry is accepted |
| Content.MatchMediaTypeFirst | src/content/mod.rs:65-75 | the found item is that of the first accepted entry in registration order |
| Content.WithMediaType | src/content/mod.rs:258-271 | `with_media_type` appends the entry, and replaces the default only when asked to |
| Content.RegisterAllMeaning | src/content/mod.rs:258-271 | after a series of registrations the entries are in registration order and the default is the last one registered as default |
| Content.LastDefaultCons | src/content/mod.rs:258-271 | the last registration marked default is that of the later registrations when they have one, else the first registration when it is marked; the step `RegisterAllMeaning` needs, since registrations run first to last |
| Content.SingleSerialize | src/content/mod.rs:463-476 | with a payload, the encoding is the new payload and `Content-Type: type/subtype` is appended; without one, no payload and no header are added; status and earlier headers are kept; an encoding error is passed on |
| Content.FirstPreferred | src/content/mod.rs:277-284 | some entry is chosen exactly when some preference matches some entry |
| Content.FirstPreferredPicks | src/content/mod.rs:277-284 | the first preference that matches anything chooses its first matching entry |
| Content.GetSerializer | src/content/mod.rs:272-287 | without `Accept` the default is used; with `Accept` the preference-order choice is used |
| Content.WildcardPicksFirstEntry | src/request/header.rs:48-51 | an `Accept` led by a preference of type `*` selects the first registered entry |
| Content.SubtypeWildcardPicksFirstOfType | src/request/header.rs:52-54 | an `Accept` led by a preference with subtype `*` selects the first registered entry of its type |
| Content.ChosenByOrder | src/content/mod.rs:276-284 | with the preferences sorted in a quality order, the first satisfiable one chooses its first matching entry, and every preference the order sorts strictly before it by quality is unsatisfiable |
| Content.LeastPreferredServed | src/content/mod.rs:276-284 | as written, the answer comes from the satisfiable preference of lowest quality: every preference of lower quality matches no entry |
| Content.MostPreferredServed | src/request/header.rs:143 | corrected, the answer comes from the satisfiable preference of highest quality: every preference of higher quality matches no entry |
| Content.SortTwo | src/request/header.rs:143 | two preferences listed higher quality first are reversed by `sort_by` as written and kept by the corrected order |
| Content.TwoPreferencesOrder | src/content/mod.rs:276-284 | with one entry for each of two preferences, the as-written order chooses the lower one's entry and the corrected order the higher one's |
| Content.LowQualityBeatsHigh | src/request/header.rs:143 | `text/html` at quality 1 and `application/json` at 0.5, both registered: as written JSON is chosen, corrected HTML |
| Content.GetSerializerIgnoresDefault | src/content/mod.rs:276-286 | with `Accept` present the default never matters, and an empty `Accept` gives nothing |
| Content.Serialize | src/content/mod.rs:288-300 | no serializer gives UnsupportedMediaType without a type; any other failure is a Serialization error |
| Content.SingleDeserialize | src/content/mod.rs:595-606 | without a payload the request is retyped without one; with one, it is decoded and a decoding error is passed on |
| Content.NoPayloadNoDecode | src/content/mod.rs:604 | without a payload the decoder makes no difference |
| Content.GetDeserializer | src/content/mod.rs:523-531 | without `Content-Type` the default is used; otherwise only an exact type and subtype match counts |
| Content.Deserialize | src/content/mod.rs:532-543 | a header parse error becomes HeaderParse; no decoder gives UnsupportedMediaType carrying `type/subtype`; a decoding error becomes Serialization |
| Content.SerdeNotAcceptable | src/content/mod.rs:201-210 | an unsatisfiable `Accept` is answered 406 before any decoding or handling, with the context untouched |
| Content.SerdeDecodeFailure | src/content/mod.rs:211-216 | a decoding failure is answered 415 for an unsupported type and 400 otherwise, and the inner handler makes no difference |
| Content.SerdeAfterHandler | src/content/mod.rs:217-225 | an inner error is returned unchanged; an encoding failure becomes 500; otherwise the encoded response is returned |
| Content.SerializerHandlerOutcomes | src/content/mod.rs:310-327 | the serializing handler answers 406 before the inner handler, passes inner errors on, and turns an encoding failure into 500 |
| Content.ErrorSerializerNotAcceptable | src/content/mod.rs:411-418 | the error serializer answers 406 to an unsatisfiable `Accept` even when the handler would succeed, and does not run it |
| Content.ErrorSerializerOutcomes | src/content/mod.rs:411-428 | Ok passes unchanged; an error payload is encoded, and an encoding failure becomes 500 |
| Content.DeserializerIsRequestFilter | src/content/mod.rs:553-561 | the deserializing handler is a request filter answering 400 or 415 on failure |
| LineEndings.WritePiece | src/io.rs:17-23 | one loop step writes `\r\n` for `\n` and the byte itself otherwise, at the write index, and leaves every other byte of the buffer alone |
| LineEndings.ConvertedLength | src/io.rs:14-27 | the output is one byte longer than the input for every `\n` |
| LineEndings.ConvertLfToCrlf | src/io.rs:14-27 | the returned count is the input length plus the number of `\n`; the written prefix is the input with each `\n` as `\r\n`; the rest of the buffer is unchanged |
| LineEndings.NoLfUnchanged | src/io.rs:14-27 | input without `\n` is copied unchanged |
| LineEndings.CrlfBecomesCrCrlf | src/io.rs:16-23 | an existing `\r\n` becomes `\r\r\n` |
| LineEndings.HalfBufferSuffices | src/io.rs:31-38 | half a buffer of input always fits into the whole buffer once converted |
| LineEndings.Read | src/io.rs:31-38 | `read` converts what the inner stream gave into the buffer, and the count never exceeds the buffer |
| LineEndings.ConverterExample | src/io.rs:71-83 | `this is a test\nreally\n` is 22 bytes and converts to the 24 bytes with `\r\n` line ends |

## Left out

- Socket and stream I/O, timeouts, logging and the accept loop (`src/server/`): the parser reads a finite byte sequence instead, and I/O errors are not modelled.
- The thread pool and runner (`src/runner/`): their point is concurrency.
- The directory handler (`src/handler/directory.rs`): file-system access.
- The JSON codec (`src/content/json.rs`) and the media-type table (`src/content/mediatypes.rs`): codecs are partial functions given as parameters, and media types are literal pairs.
- `src/handler/mod.rs`: trait and builder glue. A handler is a function value, and the filter semantics follow `src/filter.rs`.
- The prototype parser and server in `src/http.rs`, `src/tcp.rs` and `src/helloserver.rs`: they are not part of the library.
- `ReadWriteAdapter` in `src/io.rs`: pure delegation to the inner streams.
- The parser's 1024-byte buffer and its refills: a read position into the input stands for them.
- RequestRoundTrip.ParseWire: the round trip is proved for the canonical wire form only. The parser also accepts runs of blanks between the request-line parts, `HTTP/1.0`, and any blanks after a header colon (`src/request/parser.rs:240-245`, `src/request/parser.rs:203-214`); those inputs are covered by the per-step contracts of `Parser.Plus`, `Parser.One` and `Parser.ParseHeader`, not by a round trip.
- Responses.DefaultReason: names only the codes the library produces itself (200, 400, 401, 404, 405, 406, 415, 500), because the status table `src/response/status.rs` is not part of this model; other codes read as "". Only "OK" for 200 and "Internal Server Error" for 500 are shown by the code (`src/response/mod.rs:30`, `src/response/mod.rs:125`). The phrases for 400, 401, 404, 405, 406 and 415 are the standard reason phrases of section 15 of RFC 9110, assumed and not read from the code.
- Auth.AuthenticatorRefuses: the phrase "Unauthorized" in its contract is the assumed RFC 9110 phrase; what the code fixes is only that the reason is `status::default` of 401, as `Responses.New` states.
- Apis.UnsupportedIs405: the phrase "Method Not Allowed" in its contract is the assumed RFC 9110 phrase; what the code fixes is only that the reason is `status::default` of 405, as `Responses.New` states.
- Routing.HandleNoMatch: the phrase "Not Found" in its contract is the assumed RFC 9110 phrase; what the code fixes is only that the reason is `status::default` of 404, as `Responses.New` states.
- Routing.HandleIntendedNoMatch: the phrase "Not Found" in its contract is the assumed RFC 9110 phrase; what the code fixes is only that the reason is `status::default` of 404, as `Responses.New` states.
- Text.Lower: lowercases ASCII letters only, where Rust's `to_lowercase` covers all of Unicode.
- Headers.ParsePreference: `str::parse::<f32>` is a parameter, a partial function from text to a real quality. Floating-point rounding, NaN, and the NaN panic of the sort comparison are not modelled.
- Parser.Utf8Text: a UTF-8 failure is reported with the fixed reason "invalid utf-8" at position 0, not with the text of Rust's `Utf8Error`.
- Parser.Next, Parser.Expect, Parser.ParseQuery, Parser.ParseFragment and Parser.ParseVersion: their own contracts state only what termination needs. What they read is stated by the lemmas of ParserProps and ParserRoundTrip.
- Responses.IntoBytesExample: states the test's response as its status line, header list and payload rather than as the literal byte string.
- The `Accept` error branch (406) in `MediaTypeSerde`, `MediaTypeSerializer` and `MediaTypeErrorSerializer`: `Accept` parsing never fails, so the branch cannot be taken and is not modelled.
- `Response::into_raw` and `Default for Response`: they are `into_type` and `new(200)`.
- The `MediaTypeSerde` builder methods: they are modelled by the registry operations `WithMediaType` and `RegisterAll`.
- The test `test_parser_post_body_params` (`src/request/parser.rs:429-442`): it writes headers without a space after the colon, while the wire form used for the round trip always writes `: `. Its content-type rule is stated by ParamsProps.BodyParamsCondition.
- Integer widths: `usize` bounds only the parsed `Content-Length`. Lengths and positions are otherwise unbounded naturals.

## Findings

The model follows the code as written in each case. The corrected definitions sit beside it, and each has its intended property proved.

| source | as written | input that shows it | evidently intended | confidence | as-written member | corrected member |
|---|---|---|---|---|---|---|
| src/router.rs:63-70 | a prefix pattern indexes `self.parts[i]` for every request segment, also beyond the pattern's parts | pattern `/a**`, path `/a/b`: parts `""`, `a`; segments `""`, `a`, `b`; the third lookup is out of bounds and panics | a prefix pattern checks only its own parts, and the extra segments are accepted | not executed | Routing.RouterPanicsOnPrefix | Routing.IntendedRouterTakesPrefix |
| src/router.rs:37-54 | `/foo/**` drops only the `**`, so the pattern keeps an empty last part | pattern `/foo/**`, path `/foo/bar`: parts `""`, `foo`, `""`; the segment `bar` is not `""`, so there is no match, contrary to the comment at src/router.rs:93 | `/foo/**` has the parts `""` and `foo`, and matches every path under `/foo/` | not executed | Routing.RouterRejectsChild | Routing.IntendedRouterTakesChild |
| src/request/header.rs:143 | `Accept` preferences are sorted by ascending quality, and `get_serializer` (src/content/mod.rs:278-281) returns the codec of the first preference that matches, so the least preferred acceptable type is served | `Accept: text/html, application/json;0.5` (this code reads the quality without `q=`), with HTML and JSON codecs registered: the preferences are sorted JSON first and the JSON codec is chosen | the highest-quality preference that some codec satisfies decides | not executed | Content.LeastPreferredServed | Content.MostPreferredServed |
