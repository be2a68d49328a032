/**
 * The batch response decoder of `requests_batch/client.py`: the reply to the
 * batch POST is a multipart body (section 5.1 of RFC 2046) whose parts
 * each carry MIME part headers, possibly a `Content-ID` (section 7 of
 * RFC 2045), and an `application/http` payload: one HTTP/1.1 response
 * (section 3.1.2 of RFC 7230).  Everything here is splitting of byte strings.
 */
module Decoder {
  import opened Outcomes
  import opened Seqs
  import opened Text

  /** The fields `make_response` sets on a `requests.Response`. */
  datatype Response = Response(
    statusCode: int,          // `status_code`: `int` of the status line's second token
    code: Bytes,              // `code`: the rest of the status line
    errorType: Bytes,         // `error_type`: the same text as `code`
    content: Bytes,           // `_content`: the payload body
    contentId: Option<Bytes>) // `content_id`: from the MIME part headers

  /** One MIME part as `strip_headers` returns it: `(content_id, body)`. */
  datatype Part = Part(contentId: Option<Bytes>, payload: Bytes)

  /** What the decoder reads of the reply to the batch POST. */
  datatype Reply = Reply(statusCode: int, contentType: Option<string>, content: Bytes)

  const QUOTE: Bytes := "\""
  const CONTENT_ID: Bytes := "content-id"
  /** What a multipart delimiter starts with, before the boundary. */
  const DASHES: Bytes := "--"

  // ---------------------------------------------------------------------
  // unquote, parse_multi

  /** `unquote`: one leading and one trailing `"` removed where present. */
  function Unquote(s: Bytes): (r: Bytes)
    ensures |s| == 0 || (s[0] != '"' && s[|s| - 1] != '"') ==> r == s
    ensures |s| >= 2 && s[0] == '"' && s[|s| - 1] == '"' ==> r == s[1..|s| - 1]
    ensures |s| >= 1 && s[0] == '"' && s[|s| - 1] != '"' ==> r == s[1..]
    ensures |s| >= 1 && s[0] != '"' && s[|s| - 1] == '"' ==> r == s[..|s| - 1]
    ensures s == QUOTE ==> r == []
  {
    var t := if StartsWith(s, QUOTE) then s[1..] else s;
    if EndsWith(t, QUOTE) then t[..|t| - 1] else t
  }

  /** A boundary written in quotes is read back without them. */
  lemma UnquoteQuoted(b: Bytes)
    ensures Unquote(QUOTE + b + QUOTE) == b
  {
  }

  /**
   * The delimiter `parse_multi` splits at: `--` and the ASCII text after the
   * first `=` of the Content-Type, unquoted.
   */
  function Delimiter(contentType: string): (r: Result<Bytes>)
    ensures r == Err(NoBoundary) <==> '=' !in contentType
    ensures r == Err(NonAsciiBoundary) <==>
      && SplitOnce(contentType, "=").Some?
      && var raw := SplitOnce(contentType, "=").value.1;
      && exists i :: 0 <= i < |raw| && raw[i] >= '\U{80}'
    ensures r.Ok? ==> |r.value| >= 2 && r.value[..2] == DASHES
  {
    FreeSingle(contentType, '=');
    match SplitOnce(contentType, "=")
    case None => Err(NoBoundary)
    case Some((_, raw)) =>
      match EncodeAscii(raw)
      case None => Err(NonAsciiBoundary)
      case Some(b) =>
        var delimiter: Bytes := DASHES + Unquote(b);
        Ok(delimiter)
  }

  /**
   * With no `=` before the boundary parameter, the delimiter is `--` and the
   * parameter's value, quoted or not.
   */
  lemma {:induction false} DelimiterOf(prefix: string, value: string)
    requires '=' !in prefix
    requires forall i :: 0 <= i < |value| ==> value[i] < '\U{80}'
    ensures Delimiter(prefix + "=" + value) == Ok(DASHES + Unquote(value))
  {
    var ct := prefix + "=" + value;
    FreeSingle(prefix, '=');
    LineDelimits(prefix, "=");
    DelimitsFind(prefix, "=", value);
    assert ct[..|prefix|] == prefix && ct[|prefix| + 1..] == value;
  }

  /** A boundary parameter that is not ASCII fails, as `.encode("ascii")` raises. */
  lemma {:induction false} NonAsciiBoundaryFails(prefix: string, value: string, i: nat)
    requires '=' !in prefix
    requires i < |value| && value[i] >= '\U{80}'
    ensures Delimiter(prefix + "=" + value) == Err(NonAsciiBoundary)
  {
    var ct := prefix + "=" + value;
    LineDelimits(prefix, "=");
    DelimitsFind(prefix, "=", value);
    assert ct[..|prefix|] == prefix && ct[|prefix| + 1..] == value;
  }

  /**
   * A quoted boundary parameter, as in `multipart/mixed; boundary="abc123"`,
   * delimits with `--` and the boundary without its quotes (`--abc123`).
   */
  lemma QuotedBoundary(prefix: string, boundary: Bytes)
    requires '=' !in prefix
    requires forall i :: 0 <= i < |boundary| ==> boundary[i] < '\U{80}'
    ensures Delimiter(prefix + "=" + QUOTE + boundary + QUOTE) == Ok(DASHES + boundary)
  {
    var value := QUOTE + boundary + QUOTE;
    assert prefix + "=" + QUOTE + boundary + QUOTE == prefix + "=" + value;
    DelimiterOf(prefix, value);
    UnquoteQuoted(boundary);
  }

  /** Python's `pieces[1:-1]`: preamble and epilogue dropped. */
  function Interior<T>(pieces: seq<T>): (r: seq<T>)
    ensures |r| == if |pieces| < 2 then 0 else |pieces| - 2
    ensures forall i :: 0 <= i < |r| ==> r[i] == pieces[i + 1]
  {
    if |pieces| < 2 then [] else pieces[1..|pieces| - 1]
  }

  /**
   * `parse_multi`: the body split at every delimiter, the text before the
   * first and after the last dropped, and each part between them split by
   * `strip_headers`, in body order.
   */
  function ParseMulti(contentType: string, multi: Bytes): (r: Result<seq<Part>>)
    ensures Delimiter(contentType).Err? ==> r == Err(Delimiter(contentType).error)
    ensures r.Ok? ==>
      && Delimiter(contentType).Ok?
      && var pieces := Split<Byte>(multi, Delimiter(contentType).value);
      && |r.value| == (if |pieces| < 2 then 0 else |pieces| - 2)
      && forall i :: 0 <= i < |r.value| ==> SplitPart(pieces[i + 1]) == Ok(r.value[i])
  {
    var delimiter :- Delimiter(contentType);
    MapAll(Interior(Split<Byte>(multi, delimiter)), SplitPart)
  }

  /** The pieces `parse_multi` hands to `strip_headers`. */
  function Pieces(contentType: string, multi: Bytes): seq<Bytes>
    requires Delimiter(contentType).Ok?
  {
    Interior(Split<Byte>(multi, Delimiter(contentType).value))
  }

  /**
   * `parse_multi` succeeds exactly when the Content-Type has an ASCII
   * boundary and every piece between two delimiters has a blank line and
   * well-formed Content-ID lines.
   */
  lemma ParseMultiOk(contentType: string, multi: Bytes)
    ensures ParseMulti(contentType, multi).Ok? <==>
      Delimiter(contentType).Ok? &&
      forall i :: 0 <= i < |Pieces(contentType, multi)| ==> SplitPart(Pieces(contentType, multi)[i]).Ok?
  {
    if Delimiter(contentType).Ok? {
      var pieces := Pieces(contentType, multi);
      var parts := MapAll(pieces, SplitPart);
      assert ParseMulti(contentType, multi) == parts;
      if parts.Err? {
        var i :| 0 <= i < |pieces| && SplitPart(pieces[i]).Err?;
      }
    }
  }

  // ---------------------------------------------------------------------
  // strip_headers

  /** A MIME part header line whose lower-case form starts with `content-id`. */
  predicate IsContentIdLine(h: Bytes) {
    StartsWith(Lower(h), CONTENT_ID)
  }

  /**
   * `_, v = h.split(b":")`: the text after the colon of `h`, or nothing when
   * `h` does not split into exactly two fields and the unpacking raises.
   */
  function ColonValue(h: Bytes): Option<Bytes> {
    var fields := Split<Byte>(h, ":");
    if |fields| == 2 then Some(fields[1]) else None
  }

  /**
   * The unpacking succeeds exactly when `h` holds one colon, and then gives
   * the colon-free text that ends `h` after it.
   */
  lemma ColonValueSplits(h: Bytes)
    ensures ColonValue(h).Some? <==> multiset(h)[':'] == 1
    ensures ColonValue(h).Some? ==> ':' !in ColonValue(h).value && EndsWith(h, ":" + ColonValue(h).value)
  {
    var fields := Split<Byte>(h, ":");
    SplitSingleCount<Byte>(h, ':');
    if |fields| == 2 {
      assert h == fields[0] + ":" + fields[1];
      FreeSingle<Byte>(fields[1], ':');
    }
  }

  /** A Content-ID line that does not split into two at `:` makes the loop raise. */
  predicate Malformed(h: Bytes) {
    IsContentIdLine(h) && ColonValue(h).None?
  }

  /**
   * The content id of a part's header lines, read in order as the loop of
   * `strip_headers` reads them: every Content-ID line replaces the value
   * found so far with its own trimmed value, and a malformed one is a
   * failure.
   */
  function ContentIdOf(lines: seq<Bytes>): (r: Result<Option<Bytes>>)
    ensures r.Err? ==> r.error == BadContentId
  {
    if lines == [] then Ok(None)
    else ContentIdStep(ContentIdOf(lines[..|lines| - 1]), lines[|lines| - 1])
  }

  /**
   * One turn of the loop: a failure stays a failure, a Content-ID line
   * replaces the value so far or raises, and any other line changes nothing.
   */
  function ContentIdStep(sofar: Result<Option<Bytes>>, h: Bytes): (r: Result<Option<Bytes>>)
    ensures sofar.Err? ==> r == sofar
    ensures Malformed(h) ==> r.Err?
    ensures sofar.Ok? && !IsContentIdLine(h) ==> r == sofar
  {
    if sofar.Err? then sofar
    else if !IsContentIdLine(h) then sofar
    else match ColonValue(h)
      case None => Err(BadContentId)
      case Some(v) => Ok(Some(Strip(v)))
  }

  /** Reading one more line is one more turn of the loop. */
  lemma ContentIdSnoc(lines: seq<Bytes>, h: Bytes)
    ensures ContentIdOf(lines + [h]) == ContentIdStep(ContentIdOf(lines), h)
  {
    assert (lines + [h])[..|lines|] == lines;
  }

  /** A malformed Content-ID line anywhere makes the content id a failure. */
  lemma {:induction false} ContentIdFailsAt(lines: seq<Bytes>, k: nat)
    requires k < |lines| && Malformed(lines[k])
    ensures ContentIdOf(lines).Err?
  {
    var n := |lines| - 1;
    var prefix := lines[..n];
    assert lines == prefix + [lines[n]];
    ContentIdSnoc(prefix, lines[n]);
    if k < n {
      assert prefix[k] == lines[k];
      ContentIdFailsAt(prefix, k);
    }
  }

  /** A failing content id has a malformed Content-ID line to blame. */
  lemma {:induction false} ContentIdFailure(lines: seq<Bytes>) returns (k: nat)
    requires ContentIdOf(lines).Err?
    ensures k < |lines| && Malformed(lines[k])
  {
    var n := |lines| - 1;
    var prefix := lines[..n];
    assert lines == prefix + [lines[n]];
    ContentIdSnoc(prefix, lines[n]);
    if ContentIdOf(prefix).Err? {
      k := ContentIdFailure(prefix);
      assert prefix[k] == lines[k];
    } else {
      k := n;
    }
  }

  /** The content id is a failure exactly when some Content-ID line is malformed. */
  lemma ContentIdFails(lines: seq<Bytes>)
    ensures ContentIdOf(lines).Err? <==> exists k :: 0 <= k < |lines| && Malformed(lines[k])
  {
    if ContentIdOf(lines).Err? {
      var k := ContentIdFailure(lines);
    }
    if exists k :: 0 <= k < |lines| && Malformed(lines[k]) {
      var k :| 0 <= k < |lines| && Malformed(lines[k]);
      ContentIdFailsAt(lines, k);
    }
  }

  /**
   * The last Content-ID line wins: when no line is malformed, the content
   * id is the trimmed value of the last Content-ID line.
   */
  lemma {:induction false} ContentIdLastWins(lines: seq<Bytes>, j: nat)
    requires ContentIdOf(lines).Ok?
    requires j < |lines| && IsContentIdLine(lines[j])
    requires forall k :: j < k < |lines| ==> !IsContentIdLine(lines[k])
    ensures ColonValue(lines[j]).Some?
    ensures ContentIdOf(lines) == Ok(Some(Strip(ColonValue(lines[j]).value)))
  {
    var n := |lines| - 1;
    var prefix := lines[..n];
    assert lines == prefix + [lines[n]];
    ContentIdSnoc(prefix, lines[n]);
    assert ContentIdOf(prefix).Ok?;
    if j < n {
      assert !IsContentIdLine(lines[n]);
      assert prefix[j] == lines[j];
      forall k | j < k < |prefix| ensures !IsContentIdLine(prefix[k]) {
        assert prefix[k] == lines[k];
      }
      ContentIdLastWins(prefix, j);
    }
  }

  /** Without a Content-ID line there is no content id. */
  lemma {:induction false} ContentIdAbsent(lines: seq<Bytes>)
    requires forall k :: 0 <= k < |lines| ==> !IsContentIdLine(lines[k])
    ensures ContentIdOf(lines) == Ok(None)
  {
    if lines != [] {
      var n := |lines| - 1;
      var prefix := lines[..n];
      forall k | 0 <= k < |prefix| ensures !IsContentIdLine(prefix[k]) {
        assert prefix[k] == lines[k];
      }
      ContentIdAbsent(prefix);
      assert lines == prefix + [lines[n]];
      ContentIdSnoc(prefix, lines[n]);
    }
  }

  /** A failure among the first `i` lines is a failure of them all. */
  lemma {:induction false} ContentIdFailsOn(lines: seq<Bytes>, i: nat)
    requires i <= |lines| && ContentIdOf(lines[..i]).Err?
    ensures ContentIdOf(lines).Err?
  {
    if i == |lines| {
      assert lines[..i] == lines;
    } else {
      var prefix := lines[..|lines| - 1];
      assert prefix[..i] == lines[..i];
      ContentIdFailsOn(prefix, i);
    }
  }

  /**
   * `headers.replace(b"\r", b"").split(b"\n")`: the lines hold no LF, and
   * rejoined with LF they give the block without its carriage returns.
   */
  function HeaderLines(block: Bytes): (r: seq<Bytes>)
    ensures |r| >= 1
    ensures Join(r, [LF]) == RemoveCR(block)
    ensures forall i :: 0 <= i < |r| ==> LF !in r[i]
  {
    var r := Split<Byte>(RemoveCR(block), [LF]);
    forall i | 0 <= i < |r| ensures LF !in r[i] {
      if i < |r| - 1 {
        DelimitsSingle<Byte>(r[i], LF);
      } else {
        FreeSingle<Byte>(r[i], LF);
      }
    }
    r
  }

  /**
   * `strip_headers` as a function of its input: the bytes after the first
   * blank line are the payload, and the header lines before it give the
   * content id.
   */
  function SplitPart(bb: Bytes): (r: Result<Part>)
    ensures r == Err(NoPartSeparator) <==> Free(bb, BLANK_LINE)
    ensures r.Err? ==> r.error in {NoPartSeparator, BadContentId}
    ensures r.Ok? ==> Find(bb, BLANK_LINE).Some? && r.value.payload == bb[Find(bb, BLANK_LINE).value + 4..]
    ensures r.Ok? ==> ContentIdOf(HeaderLines(bb[..Find(bb, BLANK_LINE).value])) == Ok(r.value.contentId)
    ensures r == Err(BadContentId) <==>
      !Free(bb, BLANK_LINE) && ContentIdOf(HeaderLines(bb[..Find(bb, BLANK_LINE).value])).Err?
  {
    match SplitOnce<Byte>(bb, BLANK_LINE)
    case None => Err(NoPartSeparator)
    case Some((block, body)) =>
      DelimitsFind<Byte>(block, BLANK_LINE, body);
      assert bb[|block| + 4..] == body && bb[..|block|] == block;
      match ContentIdOf(HeaderLines(block))
      case Err(e) => Err(e)
      case Ok(contentId) => Ok(Part(contentId, body))
  }

  /**
   * `strip_headers`: the bytes after the first blank line are the body, and
   * the header lines before it give the content id.
   */
  method StripHeaders(bb: Bytes) returns (r: Result<Part>)
    ensures r == SplitPart(bb)
  {
    var split := SplitOnce<Byte>(bb, BLANK_LINE);
    if split.None? {
      return Err(NoPartSeparator);
    }
    var (block, body) := split.value;
    var contentId := ContentIdLoop(HeaderLines(block));
    if contentId.Err? {
      return Err(contentId.error);
    }
    return Ok(Part(contentId.value, body));
  }

  /**
   * The loop of `strip_headers` over the header lines: it overwrites the
   * content id at every Content-ID line, so the last one wins, and raises at
   * the first one that does not split into two at `:`.
   */
  method ContentIdLoop(headers: seq<Bytes>) returns (r: Result<Option<Bytes>>)
    ensures r == ContentIdOf(headers)
  {
    var contentId: Option<Bytes> := None;
    var i := 0;
    while i < |headers|
      invariant 0 <= i <= |headers|
      invariant ContentIdOf(headers[..i]) == Ok(contentId)
    {
      var h := headers[i];
      ContentIdLoopStep(headers, i);
      if IsContentIdLine(h) {
        var value := ColonValue(h);
        if value.None? {
          ContentIdFailsOn(headers, i + 1);
          return Err(BadContentId);
        }
        contentId := Some(Strip(value.value));
      }
      i := i + 1;
    }
    assert headers[..i] == headers;
    return Ok(contentId);
  }

  /** One turn of the loop of `strip_headers`, on the lines read so far. */
  lemma ContentIdLoopStep(lines: seq<Bytes>, i: nat)
    requires i < |lines|
    ensures ContentIdOf(lines[..i + 1]) == ContentIdStep(ContentIdOf(lines[..i]), lines[i])
  {
    PrefixStep(lines, i);
    ContentIdSnoc(lines[..i], lines[i]);
  }

  // ---------------------------------------------------------------------
  // make_response, decode_batch_response

  /** `_, code, reason = status.split(b' ', 2)`: the second token and the rest. */
  function StatusParts(status: Bytes): (r: Option<(Bytes, Bytes)>)
    ensures r.None? <==> multiset(status)[' '] < 2
    ensures r.Some? ==> ' ' !in r.value.0 && EndsWith(status, r.value.0 + " " + r.value.1)
    ensures r.Some? ==> |r.value.0| + |r.value.1| + 2 <= |status| && ' ' !in status[..|status| - |r.value.0| - |r.value.1| - 2]
  {
    match SplitOnce<Byte>(status, " ")
    case None =>
      FreeSingle<Byte>(status, ' ');
      None
    case Some((version, rest)) =>
      DelimitsSingle<Byte>(version, ' ');
      CountAfterFirst<Byte>(status, version, ' ', rest);
      match SplitOnce<Byte>(rest, " ")
      case None =>
        FreeSingle<Byte>(rest, ' ');
        None
      case Some((code, reason)) =>
        DelimitsSingle<Byte>(code, ' ');
        CountAfterFirst<Byte>(rest, code, ' ', reason);
        StatusShape(version, code, reason);
        Some((code, reason))
  }

  /** A status line read from the right: what precedes the code and the reason is the version. */
  lemma StatusShape(version: Bytes, code: Bytes, reason: Bytes)
    ensures var status := version + " " + code + " " + reason;
      && status == version + " " + (code + " " + reason)
      && status[..|status| - |code| - |reason| - 2] == version
  {
  }

  /**
   * `make_response`: the payload is an HTTP/1.1 response; its body is what
   * precedes the last CRLF after the first blank line, its status code the
   * integer value of the status line's second token, its reason the rest of
   * the status line.  The content id is passed through.
   */
  function MakeResponse(contentId: Option<Bytes>, data: Bytes): (r: Result<Response>)
    ensures r == Err(NoPayloadSeparator) <==> Free(data, BLANK_LINE)
    ensures r.Ok? ==> r.value.contentId == contentId && r.value.code == r.value.errorType
    ensures r.Ok? ==>
      && Find(data, BLANK_LINE).Some?
      && var content := data[Find(data, BLANK_LINE).value + 4..];
      && RFind(content, CRLF).Some?
      && r.value.content == content[..RFind(content, CRLF).value]
  {
    match SplitOnce<Byte>(data, BLANK_LINE)
    case None => Err(NoPayloadSeparator)
    case Some((header, content)) =>
      DelimitsFind<Byte>(header, BLANK_LINE, content);
      assert data[|header| + 4..] == content;
      match RSplitOnce<Byte>(content, CRLF)
      case None => Err(NoTrailingCrlf)
      case Some((body, _)) =>
        match SplitOnce<Byte>(header, CRLF)
        case None => Err(NoHeaderLine)
        case Some((status, _)) =>
          match StatusParts(status)
          case None => Err(BadStatusLine)
          case Some((code, reason)) =>
            match ParseInt(code)
            case None => Err(BadStatusCode)
            case Some(n) => Ok(Response(n, reason, reason, body, contentId))
  }

  /**
   * `make_response` on any payload.  With `head` the text before the first
   * blank line, `content` the text after it and `status` the text of `head`
   * before its first CRLF, each unpacking that has nothing to split raises
   * its own error, in the order of the source; otherwise the status code
   * is `int()` of the second token of `status`, the reason (both `code` and
   * `error_type`) the rest of it, and the body the content up to its last
   * CRLF.
   */
  lemma MakeResponseOutcome(contentId: Option<Bytes>, data: Bytes)
    ensures Find(data, BLANK_LINE).None? ==> MakeResponse(contentId, data) == Err(NoPayloadSeparator)
    ensures Find(data, BLANK_LINE).Some? ==>
      var head := data[..Find(data, BLANK_LINE).value];
      var content := data[Find(data, BLANK_LINE).value + 4..];
      var r := MakeResponse(contentId, data);
      && (RFind(content, CRLF).None? ==> r == Err(NoTrailingCrlf))
      && (RFind(content, CRLF).Some? && Find(head, CRLF).None? ==> r == Err(NoHeaderLine))
      && (RFind(content, CRLF).Some? && Find(head, CRLF).Some? ==>
            var status := head[..Find(head, CRLF).value];
            && (StatusParts(status).None? ==> r == Err(BadStatusLine))
            && (StatusParts(status).Some? && ParseInt(StatusParts(status).value.0).None? ==> r == Err(BadStatusCode))
            && (StatusParts(status).Some? && ParseInt(StatusParts(status).value.0).Some? ==>
                  r == Ok(Response(ParseInt(StatusParts(status).value.0).value, StatusParts(status).value.1,
                                   StatusParts(status).value.1, content[..RFind(content, CRLF).value], contentId))))
  {
  }

  /**
   * `decode_batch_response`: one response per part `parse_multi` returns,
   * in the same order.
   */
  function DecodeBatchResponse(reply: Reply): (r: Result<seq<Response>>)
    ensures reply.contentType.None? ==> r == Err(MissingContentType)
    ensures r.Ok? <==>
      && reply.contentType.Some?
      && var parts := ParseMulti(reply.contentType.value, reply.content);
      && parts.Ok?
      && forall i :: 0 <= i < |parts.value| ==> MakeResponse(parts.value[i].contentId, parts.value[i].payload).Ok?
    ensures r.Ok? ==>
      && reply.contentType.Some?
      && var parts := ParseMulti(reply.contentType.value, reply.content);
      && parts.Ok? && |r.value| == |parts.value|
      && forall i :: 0 <= i < |r.value| ==>
           MakeResponse(parts.value[i].contentId, parts.value[i].payload) == Ok(r.value[i])
  {
    match reply.contentType
    case None => Err(MissingContentType)
    case Some(contentType) =>
      var parts :- ParseMulti(contentType, reply.content);
      MapAll(parts, (p: Part) => MakeResponse(p.contentId, p.payload))
  }

  /**
   * `decode_batch_response` succeeds exactly when the reply has a
   * Content-Type, `parse_multi` succeeds, and `make_response` succeeds on
   * every part.
   */
  lemma DecodeBatchResponseOk(reply: Reply)
    ensures DecodeBatchResponse(reply).Ok? <==>
      && reply.contentType.Some?
      && ParseMulti(reply.contentType.value, reply.content).Ok?
      && forall p :: p in ParseMulti(reply.contentType.value, reply.content).value ==> MakeResponse(p.contentId, p.payload).Ok?
  {
    if reply.contentType.Some? && ParseMulti(reply.contentType.value, reply.content).Ok? {
      var parts := ParseMulti(reply.contentType.value, reply.content).value;
      var f := (p: Part) => MakeResponse(p.contentId, p.payload);
      assert DecodeBatchResponse(reply) == MapAll(parts, f);
      MapAllOkAll(parts, f);
    }
  }
}
