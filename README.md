# Body consumption of `HttpMessage` (actix-http), in Dafny

This project models the part of actix-http's `HttpMessage` trait
(`src/httpmessage.rs`) that reads a request's headers and body:

- header negotiation: `content_type`, `mime_type`, `encoding`, `chunked`,
  `get_header` (module `Negotiate`, over the string helpers in `Text` and the
  header map in `Headers`);
- the cookie cache: `cookies` parses every `Cookie` header once and caches
  the list on success, and `cookie(name)` is a first-match lookup (module
  `Message`, class `Message.Message`);
- `MessageBody`: a future that resolves to the whole body under a byte
  limit (module `Body`);
- `UrlEncoded`: the same bounded read, plus three construction-time checks
  and form deserialization (module `Urlencoded`);
- `Readlines`: a stream that cuts the body into lines (module `Readlines`).

The payload is the sequence of answers its `poll` will give, in order:
`Chunk(bytes)`, `NotReady`, `End` or `Error(e)`. An exhausted sequence
answers `End`, as `Payload::None` does (module `Payload`). In futures 0.1 a
`fold` keeps polling its stream within a single `poll` until the stream is
not ready, ends, fails, or the closure rejects a chunk. `Payload.Drain`
states that, and `Payload.DrainLoop` is the loop proved to compute it.

Each poll-driven type has three parts:
- a state datatype (`BodyState`, `FormState`, `LinesState`);
- a pure step function (`BodyPoll`, `FormPoll`, `LinesPoll`) that returns the
  poll result and the new state;
- a class whose fields are that state, and whose `Poll` method is proved
  to return the step function's result and to leave it as the new state.

The properties are proved about the step functions. The constructors take
the payload out of the `Message` only on the paths where the source calls
`take_payload`.

Library routines the code calls are uninterpreted function values in
`Headers.Env`:
- `HeaderValue::to_str`;
- MIME parsing;
- `encoding_from_whatwg_label`;
- `str::from_utf8`;
- strict decoding with a non-UTF-8 charset;
- `Cookie::parse_encoded`.

`serde_urlencoded::from_bytes` and `from_str` are the pair
`Urlencoded.FormCodec`. `str::parse::<usize>` is modelled concretely
(`Text.ParseUsize`, 64-bit `usize`). `str::trim` uses the Unicode
White_Space set.

Three behaviours of the code are kept as written, though a reader might
expect otherwise:
- `content_type` does not lower-case its result; only `UrlEncoded::new`
  lower-cases it before comparing.
- Concatenating the lines `Readlines` yields does not in general give back
  the payload. When a chunk holding a newline arrives while bytes are
  waiting in `buff`, the line yielded is the chunk's own prefix. The waiting
  bytes stay in front of the chunk's rest (`Readlines.LostPrefix`).
- The line limit is checked against the scanned segment only, not the whole
  accumulated line (`Readlines.PerSegmentLimit`).

## Model

| member | source | states |
|---|---|---|
| Text.Trim | src/httpmessage.rs:62 | `trim`: the result is the slice of the input between leading and trailing whitespace, and neither of its ends is whitespace |
| Text.TrimSubset | src/httpmessage.rs:62 | trimming introduces no character that was not in the input |
| Text.Split | src/httpmessage.rs:62 | `split(';')` gives at least one piece, and no piece contains the separator |
| Text.JoinSplit | src/httpmessage.rs:62 | joining the pieces of `split` with the separator gives back the input |
| Text.SplitHead | src/httpmessage.rs:62 | the first piece of `split` is the prefix before the first separator, or the whole string when there is none |
| Text.ParseUsize | src/httpmessage.rs:466 | `parse::<usize>` accepts only a non-empty string of digits with an optional leading `+`, so a sign `-`, whitespace or a decimal point is rejected; an accepted value fits in 64 bits |
| Text.ParseDigits | src/httpmessage.rs:466 | conversely, every optional `+` followed by one or more digits parses to its decimal value, unless that value exceeds 2^64-1 |
| Text.ParseLeadingZeros | src/httpmessage.rs:466 | leading zeros are accepted and do not change the value: any number of zeros before the decimal form of a `usize` reads as that `usize` |
| Text.ParseExamples | src/httpmessage.rs:466 | `-1`, ` 10`, `10 ` and `1.5` are rejected, and `007` reads as 7 |
| Text.ParseDecimal | src/httpmessage.rs:466 | every `usize` written in decimal, with or without a leading `+`, parses back to itself |
| Text.ParseOverflow | src/httpmessage.rs:466 | 2^64 written in decimal does not parse as a `usize` |
| Negotiate.ContentType | src/httpmessage.rs:59-66 | `content_type` is `""` when Content-Type is absent or is not text |
| Negotiate.ContentTypeIsTrimmedPrefix | src/httpmessage.rs:59-66 | for a textual Content-Type, `content_type` is the trimmed text before the first `;`, and contains no `;` |
| Negotiate.ContentTypeOfBareMediaType | src/httpmessage.rs:679-680 | a media type with no parameters and no surrounding whitespace comes back unchanged |
| Negotiate.ContentTypeDropsParameters | src/httpmessage.rs:681-684 | everything from the first `;` on is dropped |
| Negotiate.MimeType | src/httpmessage.rs:88-100 | `Ok(None)` exactly when Content-Type is absent; `ParseError` exactly when it is present but not text or not a media type; otherwise the parsed media type |
| Negotiate.GetParam | src/httpmessage.rs:73 | `get_param` returns the value of a parameter whose name matches ignoring ASCII case, and returns none only when no parameter matches |
| Negotiate.Encoding | src/httpmessage.rs:71-86 | a `mime_type` failure is `ParseError`; no Content-Type gives UTF-8; `UnknownEncoding` exactly when the media type has a `charset` parameter the registry does not know |
| Negotiate.EncodingOutcomes | src/httpmessage.rs:71-86 | `encoding` is UTF-8 with no Content-Type or no `charset` parameter, the registry's charset for a known label, and `UnknownEncoding` for an unknown one; it is `ParseError` exactly when Content-Type is present but not text or not a media type |
| Text.Lower | src/httpmessage.rs:106 | `to_lowercase`: same length, no ASCII capital left, every other character unchanged |
| Negotiate.Chunked | src/httpmessage.rs:103-113 | `Ok(false)` with no Transfer-Encoding, `Err(Header)` exactly when the value is not text, and `Ok(true)` exactly when the lower-cased value contains `chunked` |
| Negotiate.ChunkedValue | src/httpmessage.rs:751-753 | the value `chunked` is chunked |
| Negotiate.ChunkedIgnoresCase | src/httpmessage.rs:106 | `chunked` in any capitalisation, anywhere in the value, is recognised |
| Negotiate.GetHeader | src/httpmessage.rs:46-56 | `get_header` gives a value exactly when the name is present and the header parses, and that value is the parsed one |
| Negotiate.DeclaredLength | src/httpmessage.rs:463-474 | Content-Length is absent, declares a parsed `usize`, or is bad exactly when it is not text or not a `usize` |
| Negotiate.DeclaredLengthNotANumber | src/httpmessage.rs:863 | Content-Length `xxxx` is bad |
| Negotiate.DeclaredLengthMillion | src/httpmessage.rs:870 | Content-Length `1000000` declares 1000000 |
| Message.ParseSegments | src/httpmessage.rs:122-127 | one header's pieces parse to at most one cookie each; like `?`, a failure is the error of the first piece that does not parse, every piece before it being empty once trimmed or parsing |
| Message.HeaderCookies | src/httpmessage.rs:120-127 | a header that is not UTF-8 fails with `Utf8Error`; a successful parse gives at most one cookie per `;`-piece |
| Message.CookiesOf | src/httpmessage.rs:119-129 | success implies every `Cookie` header is UTF-8, and a first header that is not UTF-8 gives `Utf8Error` |
| Message.SegmentsParsed | src/httpmessage.rs:122-127 | one header's cookies are its non-empty trimmed `;`-pieces, each parsed, in order; parsing fails exactly when one piece fails |
| Message.CookiesOfParsed | src/httpmessage.rs:117-131 | the parsed list covers every `Cookie` header in order, header by header; it succeeds exactly when every header is UTF-8 and every piece parses; a failure is that of the first header that fails, every header before it parsing |
| Message.PushSegments | src/httpmessage.rs:122-127 | the inner loop appends one header's parsed cookies to the list, or stops at the first failure |
| Message.ParseCookieHeaders | src/httpmessage.rs:119-129 | the outer loop over the `Cookie` headers computes the cookie list defined above |
| Message.FindCookie | src/httpmessage.rs:137-146 | the lookup finds nothing exactly when no cookie has the name; what it finds has the name and is in the list |
| Message.FindCookieFirst | src/httpmessage.rs:139-143 | the cookie found is the first one with the name |
| Message.SearchCookies | src/httpmessage.rs:139-143 | the loop with an early return computes that first-match lookup |
| Message.Message.TakePayload | src/httpmessage.rs:36 | the payload is handed over and the message is left with an empty one |
| Message.Message.Cookies | src/httpmessage.rs:117-135 | a cached list is returned as it is, without parsing; otherwise the list is parsed, and it is cached only on success |
| Message.Message.CookieNamed | src/httpmessage.rs:137-146 | the first cookie with the name in the (possibly just cached) list; none when parsing fails |
| Payload.Drain | src/httpmessage.rs:528-537 | one poll of the fold consumes at least one answer of the stream unless it is exhausted, and the body it holds only grows (the exact prefix consumed is `DrainConsumesPrefix`) |
| Payload.DrainLoop | src/httpmessage.rs:526-538 | the fold's loop computes `Drain`: it pulls chunks until not ready, end, error, or a chunk that would exceed the cap |
| Payload.DrainBounded | src/httpmessage.rs:531-536 | the body the fold holds never exceeds the cap |
| Payload.DrainConsumesPrefix | src/httpmessage.rs:528-537 | the fold consumes a prefix of the stream, and its body is the starting body followed by that prefix's chunks in order |
| Payload.DrainWholeStream | src/httpmessage.rs:528-537 | a stream of chunks that then ends folds to their concatenation when it is at most the cap (equal included), and to overflow otherwise |
| Body.NewBody | src/httpmessage.rs:462-483 | the limit starts at 262 144; a bad Content-Length becomes a deferred `UnknownLength` with no stream; otherwise the declared length is kept and the payload becomes the stream |
| Body.Resume | src/httpmessage.rs:511-513 | polling the installed fold keeps its bound, and a body it completes is within the cap |
| Body.BodyPoll | src/httpmessage.rs:510-541 | a poll keeps the fold's bound, and a body it returns is within the limit in force |
| Body.FirstPoll | src/httpmessage.rs:510-540 | first poll: a bad Content-Length gives `UnknownLength`, and a declared length above the limit set after `new` gives `Overflow`, both without pulling from the stream; otherwise the fold runs under that limit |
| Body.FirstPollReadsWholeBody | src/httpmessage.rs:526-540 | a body of chunks that then ends resolves to their concatenation when it fits the limit, exactly equal included, and to `Overflow` otherwise, whatever length was declared |
| Body.ResumeGrowsBody | src/httpmessage.rs:511-513 | across polls the fold's body grows by exactly the chunks of the stream prefix it consumed, and the body it resolves to is the old one followed by them |
| Body.NotReadyChangesNothing | src/httpmessage.rs:511-513 | a not-ready answer leaves the fold as it was |
| Body.PollAfterDeferredError | src/httpmessage.rs:491-499 | the deferred error is reported once; the next poll folds the empty stream and resolves to an empty body |
| Body.DeclaredLengthTests | src/httpmessage.rs:862-873 | Content-Length `xxxx` gives `UnknownLength`, and `1000000` gives `Overflow` under the default limit |
| Body.ReadsTest | src/httpmessage.rs:875-881 | the payload `test` resolves to `test` |
| Body.FourteenBytesOverflowFive | src/httpmessage.rs:883-889 | fourteen bytes under a limit of 5 give `Overflow` |
| Body.MessageBody.constructor | src/httpmessage.rs:462-483 | builds the state `NewBody` describes, taking the payload only when Content-Length is acceptable |
| Body.MessageBody.Limit | src/httpmessage.rs:486-489 | replaces the limit and nothing else |
| Body.MessageBody.Poll | src/httpmessage.rs:510-541 | returns what `BodyPoll` returns and moves to its new state |
| Urlencoded.NewForm | src/httpmessage.rs:560-591 | checks in order: lower-cased media type not form-urlencoded gives `ContentType`, a failing charset gives `ContentType`, and a bad Content-Length gives `UnknownLength`; only a request passing all three keeps its charset, declared length and payload |
| Urlencoded.Finish | src/httpmessage.rs:649-660 | UTF-8 bodies go to the byte deserializer, and others are strictly decoded and then deserialized; any failure is `Parse` |
| Urlencoded.Resume | src/httpmessage.rs:621-623 | polling the installed fold keeps its bound; any result other than not-ready (the form, `Overflow`, a payload error or `Parse`) ends the future, and not-ready keeps the fold under the same cap |
| Urlencoded.ResumeGrowsForm | src/httpmessage.rs:641-660 | across polls the form's body grows by exactly the chunks of the stream prefix consumed, and a form is what the old body followed by those chunks deserializes to |
| Urlencoded.FormPoll | src/httpmessage.rs:620-663 | a poll keeps the fold's bound |
| Urlencoded.FirstPollOrder | src/httpmessage.rs:620-663 | the first poll's errors come in this order: media type, charset, Content-Length, declared length above the current limit (without pulling from the stream); only then is the stream folded |
| Urlencoded.FirstPollReadsForm | src/httpmessage.rs:636-662 | a body of chunks that then ends gives `Overflow` when it exceeds the limit; otherwise it gives the deserialized form, or `Parse` |
| Urlencoded.ErrorTests | src/httpmessage.rs:794-824 | `xxxx` gives `UnknownLength`, `1000000` gives `Overflow`, and `text/plain` gives `ContentType` |
| Urlencoded.HelloWorld | src/httpmessage.rs:827-859 | `hello=world` with Content-Length 11 and a UTF-8 form type resolves to what the deserializer makes of it |
| Urlencoded.UrlEncoded.constructor | src/httpmessage.rs:560-591 | builds the state `NewForm` describes, taking the payload only when every check passes |
| Urlencoded.UrlEncoded.Limit | src/httpmessage.rs:605-608 | replaces the limit and nothing else |
| Urlencoded.UrlEncoded.Poll | src/httpmessage.rs:620-663 | returns what `FormPoll` returns and moves to its new state |
| Readlines.FirstNewline | src/httpmessage.rs:361-367 | the offset of the first `\n`, and none exactly when there is no `\n` |
| Readlines.FindNewline | src/httpmessage.rs:391-397 | the scan loop with `break` finds that first `\n` |
| Readlines.NewLines | src/httpmessage.rs:312-325 | a charset error poisons the stream with `ContentType(e)` and leaves the payload; otherwise the stream starts empty, checked, with the charset and the payload |
| Readlines.LinesPoll | src/httpmessage.rs:354-444 | a poll preserves "checked implies no `\n` in `buff`", clears the pending error, and keeps the limit and charset |
| Readlines.YieldedLine | src/httpmessage.rs:368-440 | every line yielded decodes at most `limit` bytes cut from `buff` or from the chunk just pulled; those bytes hold no `\n` except a final one, which only the end of the payload may lack |
| Readlines.ChunkLine | src/httpmessage.rs:398-416 | a pulled chunk whose first line fits in `limit` yields the decoding of that segment alone, not of `buff` before it, and appends the chunk's rest to `buff`; if the segment does not decode, the whole chunk is dropped |
| Readlines.ChunkSegmentOverflow | src/httpmessage.rs:398-402 | a pulled chunk whose first line is longer than `limit` gives `LimitOverflow`; the chunk is dropped and `buff` is unchanged |
| Readlines.AtEnd | src/httpmessage.rs:422-440 | at the end of the payload: an empty `buff` ends the stream, more than `limit` bytes give `LimitOverflow`, and a decodable rest is yielded once and cleared |
| Readlines.OverflowInBufferRepeats | src/httpmessage.rs:368-372 | a too-long line waiting in `buff` is not cleared, so the overflow repeats |
| Readlines.ConstructionError | src/httpmessage.rs:334-343 | a charset error from construction is the first poll's result, and the next poll ends the stream |
| Readlines.LostPrefix | src/httpmessage.rs:398-416 | with `ab` waiting, the chunk `c\nd` yields `c\n` and leaves `abd` |
| Readlines.PerSegmentLimit | src/httpmessage.rs:398-402 | with limit 3 and `ab` waiting, the chunk `cd\nef` yields its segment although the line is five bytes long |
| Readlines.ThreeLines | src/httpmessage.rs:894-924 | a one-chunk, three-line payload yields the two terminated lines, then the unterminated last one, then ends |
| Readlines.Readlines.constructor | src/httpmessage.rs:312-325 | builds the state `NewLines` describes, taking the payload only when the charset is known |
| Readlines.Readlines.Limit | src/httpmessage.rs:329-332 | replaces the limit and nothing else |
| Readlines.Readlines.Poll | src/httpmessage.rs:354-444 | returns what `LinesPoll` returns and moves to its new state |

## Left out

- Asynchronous plumbing is flattened into explicit state plus one step per poll. This covers task wake-ups, `Box<Future>`, the `from_err`, `fold`, `map` and `and_then` combinators, and `RefCell` borrows of the extension map.
- Body.BodyPoll: polling after the future has resolved is excluded by a precondition; futures 0.1 panics there.
- Urlencoded.FormPoll: polling after the future has resolved is excluded by a precondition, for the same reason.
- Payload.Drain: `body.len() + chunk.len()` is compared in unbounded integers. A `usize` overflow of that sum is not modelled; it needs more than 2^64 bytes.
- Text.Lower: `to_lowercase` is modelled on ASCII letters only. Unicode case mapping is not modelled.
- Headers.Env: MIME parsing, the WHATWG label registry, UTF-8 validation, strict decoding, cookie parsing and `HeaderValue::to_str` are uninterpreted functions. Their internals are other libraries.
- Urlencoded.FormCodec: `serde_urlencoded` deserialization is an uninterpreted partial function for the same reason.
- Header names are stored lower-cased, which stands in for case-insensitive lookup. The test request builder is not part of this model.
- `json()` (src/httpmessage.rs:254-259) only forwards to `JsonBody`, whose file is not part of this model.
- The `&mut T` blanket implementation (src/httpmessage.rs:270-294) is pure delegation.
- The test-only `PartialEq` for `UrlencodedError` is test scaffolding.
- The demonstration server `echo2.rs` is a program with no logic of its own.
- The `body()`, `urlencoded()` and `readlines()` trait methods only call the constructors modelled above.
- The source picks the UTF-8 path by comparing charset pointers. The model compares `Charset` values instead.
