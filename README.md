# requests-batch: a verified model of the batching client

`requests_batch/client.py` turns many HTTP calls into one. A `Batching` session holds back every request issued through it. It answers each one at once with a placeholder response (status 204, a body that refuses to be read). On `finalize`, it serialises the held requests as `application/http` parts of one multipart POST. It then decodes the multipart reply into one response per part and fills the placeholders in order.

The model has five parts.

- **Decoder** (`decoder.dfy`). These are the byte-string functions of the reply decoder: `unquote`, `parse_multi`, `strip_headers`, `make_response` and `decode_batch_response`.
  - The multipart framing follows section 5.1 of RFC 2046.
  - The `Content-ID` part header follows section 7 of RFC 2045.
  - The status line follows section 3.1.2 of RFC 7230.
  - The loop of `strip_headers` is a method (`ContentIdLoop`) proved equal to the function `ContentIdOf`, and `StripHeaders` is proved equal to the function `SplitPart`.
- **Reply framing** (`reply_format.dfy`). This is how a server writes the reply, as functions. The lemmas prove that the decoder reads every well-formed framed sub-response back, in order, with its status, reason, body and content id. They also prove where it fails.
- **Encoder** (`encoder.dfy`). This is the text of one sub-request built by `MIMEApplicationHTTPRequest.__init__`: a request-line (section 3.1.1 of RFC 7230), one `k: v` line per header, a blank line, then the body.
  - A dictionary body is written as JSON. `Content-Type` and `Content-Length` are then set in the request's own header mapping, in place (`PendingRequest` is a class, and its `headers` field is updated).
  - `prepare_batch_request` is a method with its loop. It is proved against the function `Encode`, and its effect on the header mappings is proved against the function `Outcome`.
- **URL rewrite** (`urls.dfy`). `_prepend_host` works on the six-field record `urlparse` returns: the scheme and authority (section 3 of RFC 3986) come from the batch URL, and everything else comes from the target.
- **Session** (`session.dfy`). `Batching` is a class whose two parallel lists grow in `send`. `FutureResponse` is the placeholder, with the fields `finalize` writes.
  - `Finalize` and its parts `Deliver`, `Receive` and `ResolveFutures` are methods.
  - Each is proved against a function on values (`Finalized`, `Delivered`, `Received`, `Settled`). The lemmas about the whole batch are stated over those functions.

The model follows Python 2, the only version on which line 30 runs, since `str.decode` does not exist in Python 3. So `str.lower` folds ASCII letters only, and `int()` takes surrounding whitespace, a sign, whitespace after the sign and leading zeros, but no `_` between digits.

Bytes are characters no greater than U+00FF (`Text.Byte`), so that the source's byte literals read the same. The Python `bytes` methods the decoder calls are in `text.dfy` and `seqs.dfy`: `split`, `rsplit`, `lower`, `strip`, `replace`, `int` and `encode("ascii")`.

The code and the design description disagree on one point. The description says that a count mismatch between placeholders and decoded parts should fail. The code pairs them with `zip`, which stops at the shorter list and raises nothing. The model follows the code: placeholders beyond the decoded parts stay unresolved (`Session.SettledPositions`, `Session.SettledCount`).

## Model

| member | source | states |
|---|---|---|
| Decoder.Unquote | requests_batch/client.py:54-57 | at most one leading and one trailing `"` are removed; text without them is returned unchanged; `"` alone becomes empty |
| Decoder.UnquoteQuoted | requests_batch/client.py:54-57 | a boundary written in quotes is read back without them |
| Decoder.Delimiter | requests_batch/client.py:61-62 | fails with `NoBoundary` exactly when the Content-Type has no `=`, and with `NonAsciiBoundary` exactly when there is one and the text after it holds a non-ASCII character; a delimiter always starts with `--` |
| Decoder.NonAsciiBoundaryFails | requests_batch/client.py:62 | a boundary with a non-ASCII character after the first `=` makes `encode("ascii")` fail |
| Decoder.DelimiterOf | requests_batch/client.py:61-62 | the delimiter is `--` plus the unquoted text after the first `=` |
| Decoder.QuotedBoundary | requests_batch/client.py:61-62 | `boundary="abc123"` delimits with `--abc123` |
| Decoder.Interior | requests_batch/client.py:63 | `pieces[1:-1]`: the first and last pieces are dropped, the rest keep their order |
| Decoder.ParseMulti | requests_batch/client.py:60-64 | a delimiter failure is passed on; on success there is one part per piece between consecutive delimiters, each equal to `strip_headers` of that piece, in body order |
| Decoder.ParseMultiOk | requests_batch/client.py:60-64 | `parse_multi` succeeds exactly when the delimiter does and `strip_headers` succeeds on every piece between delimiters |
| Outcomes.MapAllOkAll | requests_batch/client.py:64 | mapping a failing step over a list succeeds exactly when the step succeeds on every element |
| Decoder.ColonValueSplits | requests_batch/client.py:48 | the two-field unpacking succeeds exactly when the line holds one colon, and it yields the colon-free text that ends the line after it |
| Decoder.ContentIdOf | requests_batch/client.py:45-49 | a failure of the header loop is always `BadContentId` |
| Decoder.ContentIdFails | requests_batch/client.py:46-48 | the content id fails exactly when some Content-ID line does not split into two at `:` (both directions) |
| Decoder.ContentIdFailsAt | requests_batch/client.py:46-48 | one malformed Content-ID line anywhere makes the loop raise |
| Decoder.ContentIdFailure | requests_batch/client.py:46-48 | a failure has a malformed Content-ID line to blame |
| Decoder.ContentIdFailsOn | requests_batch/client.py:46-48 | a failure among the first lines is a failure of the whole loop |
| Decoder.ContentIdLastWins | requests_batch/client.py:46-49 | without malformed lines, the content id is the trimmed value of the last line whose lower-case form starts with `content-id` |
| Decoder.ContentIdAbsent | requests_batch/client.py:45-49 | with no Content-ID line, the content id is `None` |
| Decoder.HeaderLines | requests_batch/client.py:44 | the header lines hold no LF, and rejoined with LF they give the header block without its carriage returns |
| Decoder.ContentIdStep | requests_batch/client.py:47-49 | a failure is kept; a Content-ID line that does not split into two at `:` fails; any other line leaves the content id as it was |
| Decoder.ContentIdLoopStep | requests_batch/client.py:46-49 | one more turn of the header loop is one more `ContentIdStep` on the lines read so far |
| Decoder.SplitPart | requests_batch/client.py:42-51 | fails with `NoPartSeparator` exactly when there is no `\r\n\r\n`; otherwise the body is exactly the bytes after the first one, and the content id is that of the header lines before it; it fails with `BadContentId` exactly when there is a separator and those header lines fail |
| Decoder.StripHeaders | requests_batch/client.py:42-51 | `strip_headers` returns exactly `SplitPart` of its input |
| Decoder.ContentIdLoop | requests_batch/client.py:45-49 | the loop over the header lines returns exactly `ContentIdOf` of them: the last Content-ID value, or `BadContentId` at the first malformed one |
| Decoder.StatusParts | requests_batch/client.py:180 | fails exactly when the status line has fewer than two spaces; otherwise the status line is a space-free version, a space, the space-free code, a space and the reason |
| Decoder.MakeResponse | requests_batch/client.py:175-185 | fails with `NoPayloadSeparator` exactly when there is no blank line; on success the content id is passed through, `code` equals `error_type`, and the body is the text after the first blank line up to its last CRLF |
| Decoder.MakeResponseOutcome | requests_batch/client.py:175-185 | every outcome, by the first step that raises: no blank line gives `NoPayloadSeparator`, no CRLF in the content `NoTrailingCrlf`, no CRLF in the head `NoHeaderLine`, fewer than two spaces in the status line `BadStatusLine`, a code `int()` refuses `BadStatusCode`; otherwise the response has `int(code)`, the rest of the status line as `code` and `error_type`, the content up to its last CRLF, and the content id passed in |
| Text.Lower | requests_batch/client.py:47 | `lower()` keeps the length and lowers each ASCII capital, leaving every other character alone |
| Text.ParseInt | requests_batch/client.py:183 | `int()` succeeds exactly when the text without surrounding whitespace is either at least one digit, or a sign followed by optional whitespace and at least one digit |
| Text.ParseIntRender | requests_batch/client.py:183 | `int(str(n)) == n` |
| Text.DigitsLeadingZero | requests_batch/client.py:183 | a leading zero changes neither the validity nor the value of a digit string |
| Text.ParseIntLeadingZero | requests_batch/client.py:183 | `int()` reads a code with a leading zero as its value |
| Text.ParseIntPlusSign | requests_batch/client.py:183 | `int()` reads a code with a plus sign as its value |
| Text.ParseIntUnderscore | requests_batch/client.py:183 | `int()` refuses digits with `_` between them |
| Text.ParseIntSignSpace | requests_batch/client.py:183 | `int()` reads a code with a plus sign and a tab before its digits as its value |
| Text.ParseIntSpacedSign | requests_batch/client.py:183 | a plus sign, one whitespace byte, then digits: `int()` gives the digits' value |
| Text.ParseIntBrokenDigits | requests_batch/client.py:183 | digits with a non-digit between them are refused by `int()` |
| Decoder.DecodeBatchResponse | requests_batch/client.py:188-191 | without a Content-Type it fails; on success there is exactly one response per part of `parse_multi`, each `make_response` of that part, in the same order |
| Decoder.DecodeBatchResponseOk | requests_batch/client.py:188-191 | decoding succeeds exactly when there is a Content-Type, `parse_multi` succeeds, and `make_response` succeeds on every part |
| ReplyFormat.PayloadSplit | requests_batch/client.py:176 | a payload splits at its first blank line into its head and `body + CRLF` |
| ReplyFormat.StatusPartsOf | requests_batch/client.py:180 | the status code is the second field and the reason is all the rest, spaces included |
| ReplyFormat.StatusPartsTwoWords | requests_batch/client.py:180 | a status line of two space-free words fails the unpacking |
| ReplyFormat.MakeResponseAnyStatus | requests_batch/client.py:175-185 | for any CR-free status line followed by header lines, the status line alone decides the outcome: `BadStatusLine`, `BadStatusCode`, or the response of `int(code)`, the reason, the body before the closing CRLF and the content id |
| ReplyFormat.MakeResponseAnyCode | requests_batch/client.py:180-184 | with a three-word status line, the outcome is `BadStatusCode` exactly when `int()` refuses the second word, and otherwise carries its value and the rest of the line |
| ReplyFormat.MakeResponseNoReason | requests_batch/client.py:180 | a status line without a reason phrase fails with `BadStatusLine` |
| ReplyFormat.LeadingZeroStatus | requests_batch/client.py:180-184 | a status code written with a leading zero is read as its value |
| ReplyFormat.PlusSignStatus | requests_batch/client.py:180-184 | a status code written with a plus sign is read as its value |
| ReplyFormat.MakeResponseRoundTrip | requests_batch/client.py:175-185 | `make_response` of a framed payload gives back its status code, its reason as `code` and `error_type`, its body, and the content id passed in |
| ReplyFormat.StatusLineAlone | requests_batch/client.py:179 | a payload whose head is the status line alone, with no header line, fails with `NoHeaderLine` |
| ReplyFormat.PartTextSplit | requests_batch/client.py:43-44 | a framed part splits at its first blank line into its header block and its payload; the block reads back as an empty line followed by the part header lines |
| ReplyFormat.ContentIdAfterEmptyLine | requests_batch/client.py:44-49 | the empty line left by the delimiter's CRLF does not change the content id |
| ReplyFormat.HeaderLinesOf | requests_batch/client.py:44 | lines without CR or LF, joined by CRLF, come back unchanged from `replace(b"\r", b"").split(b"\n")` |
| ReplyFormat.SplitPartRoundTrip | requests_batch/client.py:42-51 | `strip_headers` of a framed part returns its payload and the content id of its header lines, or their failure |
| ReplyFormat.InteriorOfJoin | requests_batch/client.py:63 | splitting at the delimiter and dropping the ends gives back exactly the parts joined between preamble and epilogue |
| ReplyFormat.SplitPartsOf | requests_batch/client.py:64 | every well-formed framed sub-response splits into its own part |
| ReplyFormat.ParseMultiRoundTrip | requests_batch/client.py:60-64 | `parse_multi` returns one part per framed sub-response, in order, with the preamble and epilogue dropped |
| ReplyFormat.DecodeRoundTrip | requests_batch/client.py:188-191 | `decode_batch_response` returns, in order, each sub-response's status, reason, body and content id |
| Encoder.Put | requests_batch/client.py:28-29 | after `headers[k] = v` the pair is present; every entry with another name stays where it was; the mapping grows by at most one |
| Encoder.PutUnique | requests_batch/client.py:28-29 | assignment keeps header names distinct, ignoring case |
| Encoder.PutLookup | requests_batch/client.py:28-29 | after `headers[k] = v`, `k` in any case gives `v`, and every other name gives what it gave before |
| Encoder.PendingRequest.SetHeader | requests_batch/client.py:28-29 | the request's own mapping becomes the mapping after assignment |
| Encoder.BodyText | requests_batch/client.py:26-30 | the body text is absent exactly when the request has no body; a text body is used as it is; a dictionary is its `json.dumps` text |
| Encoder.Normalized | requests_batch/client.py:26-29 | a body that is not a dictionary leaves the header items as they are; a dictionary body puts `Content-Length` with the decimal length of its JSON text among them |
| Encoder.SubText | requests_batch/client.py:25-36 | serialisation fails, with `BodyNotBytes`, exactly when the request has no body |
| Encoder.BuildSubRequest | requests_batch/client.py:25-36 | the method returns the text `SubText` gives for the request as it was, and leaves its header mapping normalised |
| Encoder.RequestTextReadBack | requests_batch/client.py:31-36 | the text splits at its first blank line into the head and the unchanged body; the head splits at CRLF into the request-line and one `k: v` line per header item, in mapping order |
| Encoder.RequestTextParts | requests_batch/client.py:31-36 | the request text is the head, a blank line, then the body |
| Encoder.HeadSplit | requests_batch/client.py:31-33 | the head splits at CRLF into the request-line and the header lines |
| Encoder.NormalizedDict | requests_batch/client.py:26-29 | after a dictionary body, `Content-Type` is `application/json`, `Content-Length` is the decimal length of the JSON text, names stay distinct, and every other header is unchanged |
| Encoder.Encode | requests_batch/client.py:151-163 | an empty batch fails with `EmptyBatch`; on success there is one text per request, in list order; otherwise the failure is `BodyNotBytes` from a request without body |
| Encoder.Reached | requests_batch/client.py:157-162 | the requests before the stopping point all have bodies, and the one at it has none |
| Encoder.EncodeStep | requests_batch/client.py:157-163 | each request either stops the batch with a failure or appends its own text to the texts so far |
| Encoder.EncodeStops | requests_batch/client.py:157-162 | a request without body, reached by the loop, makes the batch fail and is where the loop stops |
| Encoder.OutcomeStep | requests_batch/client.py:160-162 | serialising one more request normalises its mapping only; a request without body leaves every mapping as it was |
| Encoder.BuildAt | requests_batch/client.py:157-162 | serialising the i-th request gives `SubText` of it as it was, and of all the mappings in the list only its own changes, to its normalised form |
| Encoder.PrepareStep | requests_batch/client.py:157-163 | one turn of the loop: a request without body fails the batch where it stands; otherwise its text extends the texts so far and its mapping alone is normalised |
| Encoder.PrepareBatchRequest | requests_batch/client.py:151-163 | the result is `Encode` of the requests as they were; the mappings of the requests serialised are normalised, and the others are unchanged |
| Urls.PrependHost | requests_batch/client.py:107-112 | the result has the batch URL's scheme and netloc, and the target's path, params, query and fragment |
| Urls.PrependHostFixed | requests_batch/client.py:107-112 | a URL is left unchanged exactly when it already has the batch URL's scheme and netloc |
| Urls.PrependHostIdempotent | requests_batch/client.py:107-112 | rewriting twice is rewriting once |
| Urls.PrependHostSameLocation | requests_batch/client.py:107-112 | two URLs rewrite to the same one exactly when they agree after the authority |
| Urls.RewriteIdempotent | requests_batch/client.py:107-112 | on text, with the batch URL parsed, when the records `_prepend_host` builds from it reparse (keeping scheme and netloc, with a stable unparse), the rewritten URL parses with the batch host and rewriting it again changes nothing |
| Session.FutureResponse.constructor | requests_batch/client.py:84-88 | a new placeholder has status 204 and an unresolved document |
| Session.FutureResponse.Json | requests_batch/client.py:67-95 | reading the document succeeds exactly when the placeholder is resolved; before that it fails with `NotFinalized` |
| Session.Loaded | requests_batch/client.py:146-147 | every response before the count parses as JSON, and the one at it does not |
| Session.Paired | requests_batch/client.py:146-147 | `zip` reaches the shorter list's length, or stops earlier exactly at a response that is not JSON |
| Session.Settles | requests_batch/client.py:146-148 | the loop succeeds exactly when every response that `zip` pairs parses as JSON; otherwise it fails with `InvalidJson` |
| Session.SettledPositions | requests_batch/client.py:146-148 | the i-th placeholder takes the i-th response's status code and document if the loop reaches it, and otherwise keeps what it had |
| Session.SettledCount | requests_batch/client.py:146 | when all documents load, exactly the first `min(len(futures), len(decoded))` placeholders are resolved |
| Session.LoadedAt | requests_batch/client.py:147 | before the end of the list, a response is counted as loaded exactly when its content parses as JSON |
| Session.ResolvedStep | requests_batch/client.py:146-148 | resolving one more placeholder changes that placeholder only |
| Session.ResolvedStop | requests_batch/client.py:146-148 | where the loop stops, it has resolved what `Settled` says, and it succeeds exactly when a list ran out |
| Session.Settled | requests_batch/client.py:146-148 | the placeholders keep their number, and those `zip` does not reach keep what they had |
| Session.ResolveFutures | requests_batch/client.py:146-148 | the placeholders become `Settled` of their old fields, and the outcome is `Settles` |
| Session.RaiseForStatus | requests_batch/client.py:144 | a 4xx or 5xx status fails with `HttpError` of that status; any other passes the reply on |
| Session.Answer | requests_batch/client.py:144-145 | the status check comes first, then the decoder |
| Session.AnswerFramed | requests_batch/client.py:144-145 | a successful reply that frames well-formed sub-responses is answered with them, decoded, in order |
| Session.SettledFramed | requests_batch/client.py:145-148 | with well-formed JSON sub-responses, the i-th placeholder takes the i-th sub-response's status and document |
| Session.Batching.constructor | requests_batch/client.py:100-105 | both lists start empty; the batch URL is kept and parsed once; nothing has been sent |
| Session.Batching.PrepareRequest | requests_batch/client.py:114-117 | the request's URL is rewritten in place, and the prepared request carries the rewritten URL |
| Session.Batching.Send | requests_batch/client.py:119-124 | each list grows by exactly one, at the end; the lists stay the same length; the new placeholder has status 204 and is unresolved |
| Session.Batching.Finalize | requests_batch/client.py:136-148 | the session's outcome, request data, reply and placeholders are `Finalized` of the state before; the lists are unchanged; the header mappings are normalised as far as serialisation got |
| Session.Batching.Deliver | requests_batch/client.py:139-148 | the request data, reply, placeholders and outcome are `Delivered` of the state before |
| Session.Received | requests_batch/client.py:144-148 | the placeholders keep their number; a failing status check or decoder leaves them as they were and passes its failure on; success means every pair `zip` forms was resolved |
| Session.Receive | requests_batch/client.py:144-148 | the outcome and placeholders are `Received` of the old placeholders: unchanged when the status check or decoder raises, settled otherwise |
| Session.Finalized | requests_batch/client.py:136-148 | when serialisation fails, only the outcome changes, to that failure; otherwise the request data is the serialised texts |
| Session.Delivered | requests_batch/client.py:139-148 | the request data is always recorded, even when the POST later fails |
| Session.EmptyBatchNotPosted | requests_batch/client.py:136-141 | an empty batch fails with `EmptyBatch`, changes nothing else, and does not depend on what the POST would answer |
| Session.MissingBodyNotPosted | requests_batch/client.py:136-141 | a request without body fails the batch before the POST, whatever the POST would answer |
| Session.FailureKeepsPlaceholders | requests_batch/client.py:141-148 | any failure except a part that is not JSON leaves every placeholder as it was |
| Session.RequestDataInOrder | requests_batch/client.py:137-139 | the request data is recorded exactly when serialisation succeeds, as one text per request in send order |
| Session.FinalizedFramed | requests_batch/client.py:136-148 | end to end: with bodies on every request and a successful reply framing well-formed JSON sub-responses, `finalize` succeeds, records the reply, and the i-th placeholder takes the i-th sub-response's status and document |

## Left out

- MIME flattening (`MIMEMultipart`, `attach`, `HTTPGenerator`, lines 155-172) is left out. The batch is handed to the POST as the ordered list of sub-request texts. The envelope headers, the generated boundary and the split at line 171 are not modelled, and neither is `_request_headers` (line 138).
- The POST (line 141) is a function parameter: it returns the reply's status, Content-Type and content, or nothing when `requests.post` raises (`PostFailed`). Other reply headers are not modelled.
- `json.dumps` (line 27) and `r.json()` (line 147) are function parameters. They are treated as library codecs.
- `urlparse` and `urlunparse` are function parameters. `Urls.RewriteIdempotent` assumes this only of the records `_prepend_host` builds from the parsed batch URL: parsing such a record once unparsed keeps its scheme and netloc, and unparsing the result gives the same text. `urllib` meets this when the batch URL has an authority, since the parsed scheme is already lower-case and the parsed netloc holds no `/`, `?` or `#`. A batch URL without an authority is not covered. The lemma does not assume the path survives, since `urlunparse` may put a `/` before a relative path.
- `body.decode('utf-8') or ''` (line 30): a missing body fails (`BodyNotBytes`), as `None.decode` raises. In Python 2 the call decodes a byte string as UTF-8 into a `unicode` string; the model keeps the text as it is.
- Encoder.BodyText: every text body is treated as valid UTF-8. A body that is not raises `UnicodeDecodeError` in Python 2; that failure is not modelled.
- The superclass's `prepare_request` (line 117) is modelled as copying method, URL, headers and body into a new pending request. Merging in session-level defaults is library code and is left out.
- `_FutureDict` (lines 67-81) is folded into `FutureResponse.Json`: an unresolved document fails with `NotFinalized`. The wrong arity of `__getitem__` and the stored request, which is never used, are not modelled.
- `__exit__`, `close` and the empty hooks `before_request`/`after_response` (lines 126-134) do nothing the model could state, and are left out.
- Session.Batching.Send: requires that the request is not already pending, because the frame reasoning about in-place header updates needs distinct objects. Python would accept the same request object twice.
- Encoder.PrepareBatchRequest: requires distinct request objects, for the same reason as `Send`.
- Encoder.Put: header names are compared with ASCII case folding, as Python 2's `str.lower` does. Header names given as `unicode` strings, which fold non-ASCII letters too, are not modelled.
- Encoder.BuildSubRequest: `Content-Length` is the number of characters of the JSON text, which is what `len` gives on a `str`. The byte length after encoding is not modelled.
- Decoder.ParseMulti: the number of parts is stated as the number of pieces between delimiters, which is one less than the number of delimiter occurrences. The occurrence count itself is not defined separately.
