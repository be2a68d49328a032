/**
 * How a server frames the reply to a batch POST, written out as functions:
 * a multipart body (section 5.1 of RFC 2046) whose parts carry MIME part
 * headers and an `application/http` payload, each payload an HTTP/1.1
 * response (section 3.1.2 of RFC 7230).  The lemmas show that the decoder
 * of `requests_batch/client.py` reads every framed sub-response back, in
 * order, and where it does not.
 */
module ReplyFormat {
  import opened Outcomes
  import opened Seqs
  import opened Text
  import opened Decoder

  /** A header line of a payload: non-empty and without CR. */
  predicate HeaderLine(l: Bytes) {
    |l| > 0 && CR !in l
  }

  /** A MIME part header line: a payload header line that also has no LF. */
  predicate MimeLine(l: Bytes) {
    HeaderLine(l) && LF !in l
  }

  /** `HTTP/1.1 200 OK`: version, status code and reason phrase. */
  function StatusLine(version: Bytes, status: nat, reason: Bytes): Bytes {
    version + " " + Render(status) + " " + reason
  }

  /**
   * An `application/http` payload: the status line and header lines joined
   * by CRLF, a blank line, the body, and the CRLF that closes the part.
   */
  function Payload(version: Bytes, status: nat, reason: Bytes, headers: seq<Bytes>, body: Bytes): Bytes {
    Join([StatusLine(version, status, reason)] + headers, CRLF) + BLANK_LINE + body + CRLF
  }

  /** The same framing around a status line given as raw bytes. */
  function LinePayload(statusLine: Bytes, headers: seq<Bytes>, body: Bytes): Bytes {
    Join([statusLine] + headers, CRLF) + BLANK_LINE + body + CRLF
  }

  /**
   * One MIME part as it follows its delimiter: the CRLF ending the delimiter
   * line, the part header lines, a blank line, the payload.
   */
  function PartText(mimeHeaders: seq<Bytes>, payload: Bytes): Bytes {
    CRLF + Join(mimeHeaders, CRLF) + BLANK_LINE + payload
  }

  /** The parts of one sub-response a server writes. */
  datatype SubResponse = SubResponse(
    mimeHeaders: seq<Bytes>,
    version: Bytes,
    status: nat,
    reason: Bytes,
    headers: seq<Bytes>,
    body: Bytes)

  /** A sub-response whose framing the decoder can cut apart again. */
  predicate WellFormed(s: SubResponse) {
    && |s.mimeHeaders| >= 1
    && (forall i :: 0 <= i < |s.mimeHeaders| ==> MimeLine(s.mimeHeaders[i]))
    && ContentIdOf(s.mimeHeaders).Ok?
    && ' ' !in s.version && CR !in s.version && CR !in s.reason
    && |s.headers| >= 1
    && (forall i :: 0 <= i < |s.headers| ==> HeaderLine(s.headers[i]))
  }

  /** The payload of a sub-response. */
  function PayloadOf(s: SubResponse): Bytes {
    Payload(s.version, s.status, s.reason, s.headers, s.body)
  }

  /** The text of one framed sub-response. */
  function Framed(s: SubResponse): Bytes {
    PartText(s.mimeHeaders, PayloadOf(s))
  }

  /** The framed texts of the sub-responses, in order. */
  function FramedAll(subs: seq<SubResponse>): seq<Bytes> {
    seq(|subs|, i requires 0 <= i < |subs| => Framed(subs[i]))
  }

  /** The multipart body: preamble, framed parts and epilogue, joined by the delimiter. */
  function MultipartBody(delimiter: Bytes, preamble: Bytes, subs: seq<SubResponse>, epilogue: Bytes): Bytes {
    Join([preamble] + FramedAll(subs) + [epilogue], delimiter)
  }

  /** The response the decoder should produce for a well-formed sub-response. */
  function Expected(s: SubResponse): Response
    requires ContentIdOf(s.mimeHeaders).Ok?
  {
    Response(s.status, s.reason, s.reason, s.body, ContentIdOf(s.mimeHeaders).value)
  }

  /** A status line holds no CR when its version and reason hold none. */
  lemma StatusLineNoCR(version: Bytes, status: nat, reason: Bytes)
    requires CR !in version && CR !in reason
    ensures CR !in StatusLine(version, status, reason)
  {
    var r := Render(status);
    assert CR !in r by {
      forall i | 0 <= i < |r| ensures r[i] != CR {
        assert IsDigit(r[i]);
      }
    }
  }

  /** The payload text splits at its first blank line into the head and `body + CRLF`. */
  lemma PayloadSplit(lines: seq<Bytes>, body: Bytes)
    requires |lines| >= 1 && CR !in lines[0]
    requires forall i :: 1 <= i < |lines| ==> HeaderLine(lines[i])
    ensures SplitOnce<Byte>(Join(lines, CRLF) + BLANK_LINE + body + CRLF, BLANK_LINE) ==
      Some((Join(lines, CRLF), body + CRLF))
  {
    BlankLineShape(Join(lines, CRLF), body);
    PayloadLinesFree(lines);
    SplitAtBlankLine<Byte>(lines, CR, LF, body + CRLF);
  }

  /** The separators spelled out as their bytes. */
  lemma BlankLineShape(head: Bytes, body: Bytes)
    ensures CRLF == [CR, LF] && BLANK_LINE == [CR, LF, CR, LF]
    ensures head + BLANK_LINE + body + CRLF == head + [CR, LF, CR, LF] + (body + CRLF)
  {
  }

  /** The payload's head lines meet the conditions for splitting at the blank line. */
  lemma PayloadLinesFree(lines: seq<Bytes>)
    requires |lines| >= 1 && CR !in lines[0]
    requires forall i :: 1 <= i < |lines| ==> HeaderLine(lines[i])
    ensures forall i :: 1 <= i < |lines| ==> |lines[i]| > 0
    ensures forall i :: 0 <= i < |lines| ==> CR !in lines[i]
  {
    forall i | 0 <= i < |lines| ensures CR !in lines[i] {
      if i > 0 {
        assert HeaderLine(lines[i]);
      }
    }
  }

  /** The second and third fields of a status line whose first two fields hold no space. */
  lemma StatusPartsOf(version: Bytes, code: Bytes, reason: Bytes)
    requires ' ' !in version && ' ' !in code
    ensures StatusParts(version + " " + code + " " + reason) == Some((code, reason))
  {
    LineDelimits<Byte>(version, " ");
    assert version + " " + code + " " + reason == version + " " + (code + " " + reason);
    SplitOnceAt<Byte>(version, " ", code + " " + reason);
    LineDelimits<Byte>(code, " ");
    SplitOnceAt<Byte>(code, " ", reason);
  }

  /** A rendered number holds neither a space nor a CR. */
  lemma RenderPlain(n: nat)
    ensures ' ' !in Render(n) && CR !in Render(n)
  {
    var r := Render(n);
    forall i | 0 <= i < |r| ensures r[i] != ' ' && r[i] != CR {
      assert IsDigit(r[i]);
    }
  }

  /** A status line of two words has too few spaces for the unpacking. */
  lemma StatusPartsTwoWords(version: Bytes, code: Bytes)
    requires ' ' !in version && ' ' !in code
    ensures StatusParts(version + " " + code) == None
  {
    assert multiset(version)[' '] == 0 && multiset(code)[' '] == 0;
    var sp: Bytes := " ";
    assert multiset(version + sp + code) == multiset(version) + multiset(sp) + multiset(code);
  }

  /**
   * `make_response` on a payload with any status line and at least one
   * header line: the status line alone decides the outcome.  Fewer than two
   * spaces make the three-name unpacking fail, a second token `int()`
   * refuses fails the status code, and otherwise the status code is that
   * token's value, `code` and `error_type` the rest of the line, the body
   * what precedes the closing CRLF, and the content id the one passed in.
   */
  lemma MakeResponseAnyStatus(contentId: Option<Bytes>, sl: Bytes, headers: seq<Bytes>, body: Bytes)
    requires CR !in sl
    requires |headers| >= 1 && forall i :: 0 <= i < |headers| ==> HeaderLine(headers[i])
    ensures MakeResponse(contentId, LinePayload(sl, headers, body)) ==
      match StatusParts(sl)
      case None => Err(BadStatusLine)
      case Some((code, reason)) =>
        match ParseInt(code)
        case None => Err(BadStatusCode)
        case Some(n) => Ok(Response(n, reason, reason, body, contentId))
  {
    var lines := [sl] + headers;
    var head := Join(lines, CRLF);
    PayloadSplit(lines, body);
    RSplitOnceSuffix<Byte>(body, CRLF);
    assert lines[1..] == headers;
    assert head == sl + CRLF + Join(headers, CRLF);
    LineDelimits<Byte>(sl, CRLF);
    SplitOnceAt<Byte>(sl, CRLF, Join(headers, CRLF));
  }

  /**
   * A status line of three or more words: the second word is the status
   * code as `int()` reads it, the rest of the line `code` and `error_type`.
   */
  lemma MakeResponseAnyCode(contentId: Option<Bytes>, version: Bytes, code: Bytes, reason: Bytes, headers: seq<Bytes>, body: Bytes)
    requires ' ' !in version && ' ' !in code
    requires CR !in version && CR !in code && CR !in reason
    requires |headers| >= 1 && forall i :: 0 <= i < |headers| ==> HeaderLine(headers[i])
    ensures MakeResponse(contentId, LinePayload(version + " " + code + " " + reason, headers, body)) ==
      match ParseInt(code)
      case None => Err(BadStatusCode)
      case Some(n) => Ok(Response(n, reason, reason, body, contentId))
  {
    var sl := version + " " + code + " " + reason;
    assert CR !in sl;
    MakeResponseAnyStatus(contentId, sl, headers, body);
    StatusPartsOf(version, code, reason);
  }

  /** A status line of two words fails the three-name unpacking. */
  lemma MakeResponseNoReason(contentId: Option<Bytes>, version: Bytes, code: Bytes, headers: seq<Bytes>, body: Bytes)
    requires ' ' !in version && ' ' !in code && CR !in version && CR !in code
    requires |headers| >= 1 && forall i :: 0 <= i < |headers| ==> HeaderLine(headers[i])
    ensures MakeResponse(contentId, LinePayload(version + " " + code, headers, body)) == Err(BadStatusLine)
  {
    var sl := version + " " + code;
    assert CR !in sl;
    StatusPartsTwoWords(version, code);
    MakeResponseAnyStatus(contentId, sl, headers, body);
  }

  /**
   * `make_response` inverts the payload framing: the status code is the
   * rendered number, `code` and `error_type` the reason phrase (spaces and
   * all), the body what precedes the closing CRLF, and the content id the
   * one passed in.
   */
  lemma MakeResponseRoundTrip(contentId: Option<Bytes>, version: Bytes, status: nat, reason: Bytes, headers: seq<Bytes>, body: Bytes)
    requires ' ' !in version && CR !in version && CR !in reason
    requires |headers| >= 1 && forall i :: 0 <= i < |headers| ==> HeaderLine(headers[i])
    ensures MakeResponse(contentId, Payload(version, status, reason, headers, body)) ==
      Ok(Response(status, reason, reason, body, contentId))
  {
    RenderPlain(status);
    MakeResponseAnyCode(contentId, version, Render(status), reason, headers, body);
    ParseIntRender(status);
  }

  /** A status code written with a leading zero reads as its value. */
  lemma LeadingZeroStatus(contentId: Option<Bytes>, version: Bytes, status: nat, reason: Bytes, headers: seq<Bytes>, body: Bytes)
    requires ' ' !in version && CR !in version && CR !in reason
    requires |headers| >= 1 && forall i :: 0 <= i < |headers| ==> HeaderLine(headers[i])
    ensures MakeResponse(contentId, LinePayload(version + " " + ("0" + Render(status)) + " " + reason, headers, body)) ==
      Ok(Response(status, reason, reason, body, contentId))
  {
    var z: Bytes := "0";
    RenderPlain(status);
    assert ' ' !in z + Render(status) && CR !in z + Render(status);
    MakeResponseAnyCode(contentId, version, z + Render(status), reason, headers, body);
    ParseIntLeadingZero(status);
  }

  /** A status code written with a plus sign reads as its value. */
  lemma PlusSignStatus(contentId: Option<Bytes>, version: Bytes, status: nat, reason: Bytes, headers: seq<Bytes>, body: Bytes)
    requires ' ' !in version && CR !in version && CR !in reason
    requires |headers| >= 1 && forall i :: 0 <= i < |headers| ==> HeaderLine(headers[i])
    ensures MakeResponse(contentId, LinePayload(version + " " + ("+" + Render(status)) + " " + reason, headers, body)) ==
      Ok(Response(status, reason, reason, body, contentId))
  {
    var p: Bytes := "+";
    RenderPlain(status);
    assert ' ' !in p + Render(status) && CR !in p + Render(status);
    MakeResponseAnyCode(contentId, version, p + Render(status), reason, headers, body);
    ParseIntPlusSign(status);
  }

  /**
   * A payload whose head is the status line alone, with no header line
   * after it, makes `make_response` fail: its head has no CRLF to split at.
   */
  lemma StatusLineAlone(contentId: Option<Bytes>, version: Bytes, status: nat, reason: Bytes, body: Bytes)
    requires CR !in version && CR !in reason
    ensures MakeResponse(contentId, Payload(version, status, reason, [], body)) == Err(NoHeaderLine)
  {
    var sl := StatusLine(version, status, reason);
    StatusLineNoCR(version, status, reason);
    AloneSplit(version, status, reason, body);
    RSplitOnceSuffix<Byte>(body, CRLF);
    NoCRFree(sl);
  }

  /** A payload with no header line splits into the status line and `body + CRLF`. */
  lemma AloneSplit(version: Bytes, status: nat, reason: Bytes, body: Bytes)
    requires CR !in StatusLine(version, status, reason)
    ensures SplitOnce<Byte>(Payload(version, status, reason, [], body), BLANK_LINE) ==
      Some((StatusLine(version, status, reason), body + CRLF))
  {
    var sl := StatusLine(version, status, reason);
    assert [sl] + [] == [sl];
    assert Join([sl], CRLF) == sl;
    PayloadSplit([sl], body);
  }

  /** A line without CR holds no CRLF. */
  lemma NoCRFree(l: Bytes)
    requires CR !in l
    ensures Free(l, CRLF)
  {
    forall i | 0 <= i <= |l| ensures !OccursAt(l, CRLF, i) {
      if i + 2 <= |l| {
        assert l[i..i + 2][0] == l[i];
      }
    }
  }

  /** The empty line before the part headers is no Content-ID line and leaves the content id alone. */
  lemma {:induction false} ContentIdAfterEmptyLine(lines: seq<Bytes>)
    ensures ContentIdOf([[]] + lines) == ContentIdOf(lines)
  {
    var all := [[]] + lines;
    if lines == [] {
      assert all[..0] == [] && !IsContentIdLine(all[0]);
    } else {
      var n := |lines| - 1;
      assert all[..n + 1] == [[]] + lines[..n] && all[n + 1] == lines[n];
      ContentIdAfterEmptyLine(lines[..n]);
    }
  }

  /**
   * `strip_headers` inverts the part framing: the payload is the text after
   * the blank line, and the content id is the one the part header lines
   * give, or their failure.
   */
  lemma SplitPartRoundTrip(mimeHeaders: seq<Bytes>, payload: Bytes)
    requires |mimeHeaders| >= 1 && forall i :: 0 <= i < |mimeHeaders| ==> MimeLine(mimeHeaders[i])
    ensures SplitPart(PartText(mimeHeaders, payload)) ==
      match ContentIdOf(mimeHeaders)
      case Err(e) => Err(e)
      case Ok(contentId) => Ok(Part(contentId, payload))
  {
    PartTextSplit(mimeHeaders, payload);
    ContentIdAfterEmptyLine(mimeHeaders);
  }

  /**
   * A framed part splits at its first blank line into the part header block,
   * which reads back as an empty line and the part header lines, and the
   * payload.
   */
  lemma PartTextSplit(mimeHeaders: seq<Bytes>, payload: Bytes)
    requires |mimeHeaders| >= 1 && forall i :: 0 <= i < |mimeHeaders| ==> MimeLine(mimeHeaders[i])
    ensures SplitOnce<Byte>(PartText(mimeHeaders, payload), BLANK_LINE) == Some((Join([[]] + mimeHeaders, CRLF), payload))
    ensures HeaderLines(Join([[]] + mimeHeaders, CRLF)) == [[]] + mimeHeaders
  {
    var lines := [[]] + mimeHeaders;
    PartTextHead(mimeHeaders, payload);
    forall i | 0 <= i < |lines| ensures CR !in lines[i] && LF !in lines[i] && (i > 0 ==> |lines[i]| > 0) {
      if i > 0 {
        assert lines[i] == mimeHeaders[i - 1] && MimeLine(mimeHeaders[i - 1]);
      }
    }
    assert CRLF == [CR, LF] && BLANK_LINE == [CR, LF, CR, LF];
    SplitAtBlankLine<Byte>(lines, CR, LF, payload);
    HeaderLinesOf(lines);
  }

  /** The CRLF that ends the delimiter line reads as an empty first header line. */
  lemma PartTextHead(mimeHeaders: seq<Bytes>, payload: Bytes)
    requires |mimeHeaders| >= 1
    ensures PartText(mimeHeaders, payload) == Join([[]] + mimeHeaders, CRLF) + BLANK_LINE + payload
  {
    var lines := [[]] + mimeHeaders;
    assert lines[0] == [] && lines[1..] == mimeHeaders;
    var head := Join(lines, CRLF);
    assert head == lines[0] + CRLF + Join(lines[1..], CRLF);
    assert head == CRLF + Join(mimeHeaders, CRLF);
  }

  /** Lines without CR or LF joined by CRLF are read back as the same lines. */
  lemma HeaderLinesOf(lines: seq<Bytes>)
    requires |lines| >= 1
    requires forall i :: 0 <= i < |lines| ==> CR !in lines[i] && LF !in lines[i]
    ensures HeaderLines(Join(lines, CRLF)) == lines
  {
    RemoveCRJoin(lines);
    forall i | 0 <= i < |lines| - 1 ensures Delimits<Byte>(lines[i], "\n") {
      LineDelimits<Byte>(lines[i], "\n");
    }
    FreeSingle<Byte>(lines[|lines| - 1], LF);
    SplitJoin<Byte>(lines, "\n");
  }

  /** The part `parse_multi` should produce for a well-formed sub-response. */
  function PartOf(s: SubResponse): Part
    requires ContentIdOf(s.mimeHeaders).Ok?
  {
    Part(ContentIdOf(s.mimeHeaders).value, PayloadOf(s))
  }

  /** The pieces between the first and the last delimiter are the ones joined between them. */
  lemma InteriorOfJoin<T>(preamble: seq<T>, pieces: seq<seq<T>>, epilogue: seq<T>, delimiter: seq<T>)
    requires |delimiter| > 0 && Delimits(preamble, delimiter) && Free(epilogue, delimiter)
    requires forall i :: 0 <= i < |pieces| ==> Delimits(pieces[i], delimiter)
    ensures Interior(Split(Join([preamble] + pieces + [epilogue], delimiter), delimiter)) == pieces
  {
    var all := [preamble] + pieces + [epilogue];
    forall i | 0 <= i < |all| - 1 ensures Delimits(all[i], delimiter) {
      if i > 0 {
        assert all[i] == pieces[i - 1];
      }
    }
    SplitJoin(all, delimiter);
    assert all[1..|all| - 1] == pieces;
  }

  /** Once the delimiter is known, `parse_multi` is `strip_headers` over the interior pieces. */
  lemma ParseMultiWith(contentType: string, multi: Bytes, delimiter: Bytes)
    requires Delimiter(contentType) == Ok(delimiter)
    ensures ParseMulti(contentType, multi) == MapAll(Interior(Split<Byte>(multi, delimiter)), SplitPart)
  {
  }

  /** The parts of well-formed sub-responses, in order. */
  function PartsOf(subs: seq<SubResponse>): seq<Part>
    requires forall i :: 0 <= i < |subs| ==> WellFormed(subs[i])
  {
    seq(|subs|, i requires 0 <= i < |subs| => assert WellFormed(subs[i]); PartOf(subs[i]))
  }

  /** The responses well-formed sub-responses decode to, in order. */
  function ExpectedAll(subs: seq<SubResponse>): seq<Response>
    requires forall i :: 0 <= i < |subs| ==> WellFormed(subs[i])
  {
    seq(|subs|, i requires 0 <= i < |subs| => assert WellFormed(subs[i]); Expected(subs[i]))
  }

  /** A well-formed framed sub-response is split into its part. */
  lemma SplitPartOfFramed(s: SubResponse)
    requires WellFormed(s)
    ensures SplitPart(Framed(s)) == Ok(PartOf(s))
  {
    SplitPartRoundTrip(s.mimeHeaders, PayloadOf(s));
  }

  /** Each well-formed framed sub-response is split into its part. */
  lemma SplitPartsOf(subs: seq<SubResponse>)
    requires forall i :: 0 <= i < |subs| ==> WellFormed(subs[i])
    ensures forall i :: 0 <= i < |subs| ==> SplitPart(FramedAll(subs)[i]) == Ok(PartsOf(subs)[i])
  {
    forall i | 0 <= i < |subs| ensures SplitPart(FramedAll(subs)[i]) == Ok(PartsOf(subs)[i]) {
      assert WellFormed(subs[i]);
      SplitPartOfFramed(subs[i]);
    }
  }

  /**
   * `parse_multi` inverts the multipart framing: one part per framed
   * sub-response, in order, preamble and epilogue dropped.
   */
  lemma ParseMultiRoundTrip(contentType: string, delimiter: Bytes, preamble: Bytes, subs: seq<SubResponse>, epilogue: Bytes)
    requires Delimiter(contentType) == Ok(delimiter)
    requires Delimits(preamble, delimiter) && Free(epilogue, delimiter)
    requires forall i :: 0 <= i < |subs| ==> WellFormed(subs[i]) && Delimits(Framed(subs[i]), delimiter)
    ensures ParseMulti(contentType, MultipartBody(delimiter, preamble, subs, epilogue)) == Ok(PartsOf(subs))
  {
    var framed := FramedAll(subs);
    ParseMultiWith(contentType, MultipartBody(delimiter, preamble, subs, epilogue), delimiter);
    InteriorOfJoin<Byte>(preamble, framed, epilogue, delimiter);
    SplitPartsOf(subs);
    MapAllOk(framed, SplitPart, PartsOf(subs));
  }

  /**
   * `decode_batch_response` inverts the whole framing: for a body made of a
   * preamble, framed well-formed sub-responses and an epilogue, joined by
   * the delimiter of the Content-Type, it returns one response per
   * sub-response, in order, each with its status, reason, body and content
   * id.
   */
  lemma DecodeRoundTrip(contentType: string, delimiter: Bytes, preamble: Bytes, subs: seq<SubResponse>, epilogue: Bytes, statusCode: int)
    requires Delimiter(contentType) == Ok(delimiter)
    requires Delimits(preamble, delimiter) && Free(epilogue, delimiter)
    requires forall i :: 0 <= i < |subs| ==> WellFormed(subs[i]) && Delimits(Framed(subs[i]), delimiter)
    ensures DecodeBatchResponse(Reply(statusCode, Some(contentType), MultipartBody(delimiter, preamble, subs, epilogue))) ==
      Ok(ExpectedAll(subs))
  {
    ParseMultiRoundTrip(contentType, delimiter, preamble, subs, epilogue);
    var parts := PartsOf(subs);
    var f := (p: Part) => MakeResponse(p.contentId, p.payload);
    forall i | 0 <= i < |subs| ensures f(parts[i]) == Ok(ExpectedAll(subs)[i]) {
      var s := subs[i];
      assert WellFormed(s);
      MakeResponseRoundTrip(parts[i].contentId, s.version, s.status, s.reason, s.headers, s.body);
    }
    MapAllOk(parts, f, ExpectedAll(subs));
  }
}
