/**
 * The sub-request serialiser of `requests_batch/client.py`: each pending
 * request becomes the text of one HTTP/1.1 request (request-line as in
 * section 3.1.1 of RFC 7230, one `k: v` line per header, a blank line,
 * the body), and a dictionary body is first written as JSON, which also
 * sets `Content-Type` and `Content-Length` in that request's own header
 * mapping.
 */
module Encoder {
  import opened Outcomes
  import opened Seqs
  import Text

  /** A JSON document, as `json.dumps` takes it and `json.loads` gives it. */
  datatype Json =
    | JNull
    | JBool(b: bool)
    | JNumber(n: int)
    | JString(s: string)
    | JArray(items: seq<Json>)
    | JObject(members: seq<(string, Json)>)

  /** The body of a pending request: none, text, or a dictionary to send as JSON. */
  datatype Body = Absent | Raw(text: string) | Dict(members: seq<(string, Json)>)

  /** The items of a header mapping, in iteration order. */
  type Entries = seq<(string, string)>

  // ---------------------------------------------------------------------
  // The header mapping of a prepared request

  /** Two header names that differ at most in ASCII case. */
  predicate SameKey(a: string, b: string) {
    Text.Lower(a) == Text.Lower(b)
  }

  /** No two entries share a name. */
  predicate UniqueKeys(entries: Entries) {
    forall i, j :: 0 <= i < j < |entries| ==> !SameKey(entries[i].0, entries[j].0)
  }

  /** The position of the entry named `k`, if any. */
  function IndexOf(entries: Entries, k: string): (r: Option<nat>)
    ensures r.None? <==> forall i :: 0 <= i < |entries| ==> !SameKey(entries[i].0, k)
    ensures r.Some? ==> r.value < |entries| && SameKey(entries[r.value].0, k)
    ensures r.Some? ==> forall i :: 0 <= i < r.value ==> !SameKey(entries[i].0, k)
  {
    if entries == [] then None
    else if SameKey(entries[0].0, k) then Some(0)
    else
      match IndexOf(entries[1..], k)
      case None => None
      case Some(j) => Some(j + 1)
  }

  /** `headers.get(k)`. */
  function Lookup(entries: Entries, k: string): (r: Option<string>)
    ensures r.None? <==> forall i :: 0 <= i < |entries| ==> !SameKey(entries[i].0, k)
  {
    match IndexOf(entries, k)
    case None => None
    case Some(i) => Some(entries[i].1)
  }

  /**
   * `headers[k] = v` on the case-insensitive mapping of a prepared request:
   * an entry with the same name, ignoring case, is replaced where it
   * stands and takes the new spelling; otherwise the entry goes last.
   */
  function Put(entries: Entries, k: string, v: string): (r: Entries)
    ensures |r| == |entries| || |r| == |entries| + 1
    ensures (k, v) in r
    ensures forall i :: 0 <= i < |entries| && !SameKey(entries[i].0, k) ==> r[i] == entries[i]
  {
    match IndexOf(entries, k)
    case None => entries + [(k, v)]
    case Some(i) =>
      var r := entries[i := (k, v)];
      assert r[i] == (k, v);
      r
  }

  /** Assignment keeps the names distinct. */
  lemma PutUnique(entries: Entries, k: string, v: string)
    requires UniqueKeys(entries)
    ensures UniqueKeys(Put(entries, k, v))
  {
    var r := Put(entries, k, v);
    forall i, j | 0 <= i < j < |r| ensures !SameKey(r[i].0, r[j].0) {
      match IndexOf(entries, k)
      case None =>
        if j == |entries| {
          assert r[j].0 == k;
        }
      case Some(m) =>
        if i == m {
        } else if j == m {
        }
    }
  }

  /**
   * After `headers[k] = v`, looking up any name equal to `k` up to case
   * gives `v`, and every other name gives what it gave before.
   */
  lemma PutLookup(entries: Entries, k: string, v: string, key: string)
    requires UniqueKeys(entries)
    ensures Lookup(Put(entries, k, v), key) == if SameKey(key, k) then Some(v) else Lookup(entries, key)
  {
    var r := Put(entries, k, v);
    PutUnique(entries, k, v);
    match IndexOf(entries, k)
    case None =>
      if SameKey(key, k) {
        forall i | 0 <= i < |entries| ensures !SameKey(r[i].0, key) {
          if SameKey(r[i].0, key) {
          }
        }
        assert SameKey(r[|entries|].0, key);
        IndexOfUnique(r, key, |entries|);
      } else {
        assert !SameKey(r[|entries|].0, key);
        match IndexOf(entries, key)
        case None =>
        case Some(j) =>
          IndexOfUnique(r, key, j);
      }
    case Some(m) =>
      if SameKey(key, k) {
        assert SameKey(r[m].0, key);
        IndexOfUnique(r, key, m);
      } else {
        assert !SameKey(r[m].0, key);
        if !SameKey(entries[m].0, key) {
          match IndexOf(entries, key)
          case None =>
            assert forall i :: 0 <= i < |r| ==> !SameKey(r[i].0, key);
          case Some(j) =>
            IndexOfUnique(r, key, j);
        } else {
        }
      }
  }

  /** With distinct names, the entry found is the only one with that name. */
  lemma IndexOfUnique(entries: Entries, k: string, j: nat)
    requires UniqueKeys(entries) && j < |entries| && SameKey(entries[j].0, k)
    ensures IndexOf(entries, k) == Some(j)
  {
    var m := IndexOf(entries, k).value;
    if m < j {
    }
  }

  // ---------------------------------------------------------------------
  // MIMEApplicationHTTPRequest

  /** A pending request as the serialiser reads it. */
  datatype SubRequest = SubRequest(verb: string, url: string, headers: Entries, body: Body)

  /**
   * A request issued through the batching session and held until
   * `finalize`; its header mapping is the one the serialiser may set.
   */
  class PendingRequest {
    const verb: string
    const url: string
    var headers: Entries
    const body: Body

    constructor(verb: string, url: string, headers: Entries, body: Body)
      ensures this.verb == verb && this.url == url && this.headers == headers && this.body == body
    {
      this.verb := verb;
      this.url := url;
      this.headers := headers;
      this.body := body;
    }

    /** The request's current method, URL, header items and body. */
    function View(): SubRequest
      reads this
    {
      SubRequest(verb, url, headers, body)
    }

    /** `headers[k] = v`. */
    method SetHeader(k: string, v: string)
      modifies this
      ensures headers == Put(old(headers), k, v)
    {
      headers := Put(headers, k, v);
    }
  }

  /**
   * The body text: a text body is used as it is, a dictionary is written
   * by `json.dumps`, and a request without body has none.
   */
  function BodyText(body: Body, dumps: Json -> string): (r: Option<string>)
    ensures r.None? <==> body.Absent?
    ensures body.Raw? ==> r == Some(body.text)
    ensures body.Dict? ==> r == Some(dumps(JObject(body.members)))
  {
    match body
    case Absent => None
    case Raw(text) => Some(text)
    case Dict(members) => Some(dumps(JObject(members)))
  }

  /**
   * The header items once the body is normalised: a dictionary body sets
   * `Content-Type: application/json` and then `Content-Length` to the
   * length of its JSON text; any other body leaves them alone.
   */
  function Normalized(entries: Entries, body: Body, dumps: Json -> string): (r: Entries)
    ensures !body.Dict? ==> r == entries
    ensures body.Dict? ==> ("Content-Length", Text.Render(|dumps(JObject(body.members))|)) in r
  {
    match body
    case Dict(members) =>
      var text := dumps(JObject(members));
      Put(Put(entries, "Content-Type", "application/json"), "Content-Length", Text.Render(|text|))
    case _ => entries
  }

  /** `{method} {path} HTTP/1.1`. */
  function RequestLine(verb: string, path: string): string {
    verb + " " + path + " HTTP/1.1"
  }

  /** `{k}: {v}`, one per header item, in iteration order. */
  function FieldLines(entries: Entries): (r: seq<string>)
    ensures |r| == |entries|
  {
    seq(|entries|, i requires 0 <= i < |entries| => entries[i].0 + ": " + entries[i].1)
  }

  /** The request-line, the header lines, an empty line and the body, joined by CRLF. */
  function RequestText(verb: string, path: string, entries: Entries, body: string): string
  {
    Join<char>([RequestLine(verb, path)] + FieldLines(entries) + ["", body], Text.CRLF)
  }

  /**
   * The text of one sub-request, read off the request as it stands before
   * serialisation; fails when the request has no body.
   */
  function SubText(req: SubRequest, dumps: Json -> string): (r: Result<string>)
    ensures r.Err? <==> req.body.Absent?
    ensures r.Err? ==> r.error == BodyNotBytes
  {
    match BodyText(req.body, dumps)
    case None => Err(BodyNotBytes)
    case Some(text) => Ok(RequestText(req.verb, req.url, Normalized(req.headers, req.body, dumps), text))
  }

  /**
   * `MIMEApplicationHTTPRequest.__init__`: serialises `req`, writing the
   * JSON headers into its own mapping when the body is a dictionary.
   */
  method BuildSubRequest(req: PendingRequest, dumps: Json -> string) returns (r: Result<string>)
    modifies req
    ensures r == SubText(SubRequest(req.verb, req.url, old(req.headers), req.body), dumps)
    ensures req.headers == Normalized(old(req.headers), req.body, dumps)
  {
    var text: string;
    match req.body {
      case Dict(members) =>
        text := dumps(JObject(members));
        req.SetHeader("Content-Type", "application/json");
        req.SetHeader("Content-Length", Text.Render(|text|));
      case Raw(raw) =>
        text := raw;
      case Absent =>
        return Err(BodyNotBytes);
    }
    r := Ok(RequestText(req.verb, req.url, req.headers, text));
  }

  // ---------------------------------------------------------------------
  // prepare_batch_request

  /** The views of a list of pending requests. */
  function Views(requests: seq<PendingRequest>): (r: seq<SubRequest>)
    reads requests
    ensures |r| == |requests|
  {
    seq(|requests|, i reads requests requires 0 <= i < |requests| => requests[i].View())
  }

  /**
   * The texts of the batch's parts, in request order: an empty batch is
   * refused, and the first request without body stops the batch.
   */
  function Encode(reqs: seq<SubRequest>, dumps: Json -> string): (r: Result<seq<string>>)
    ensures |reqs| == 0 ==> r == Err(EmptyBatch)
    ensures r.Ok? ==> |r.value| == |reqs| && forall i :: 0 <= i < |reqs| ==> SubText(reqs[i], dumps) == Ok(r.value[i])
    ensures r.Err? && |reqs| > 0 ==> r.error == BodyNotBytes && exists i :: 0 <= i < |reqs| && reqs[i].body.Absent?
  {
    if |reqs| == 0 then Err(EmptyBatch)
    else MapAll(reqs, Serialiser(dumps))
  }

  /** `SubText` with the JSON writer fixed, as a function value. */
  function Serialiser(dumps: Json -> string): SubRequest -> Result<string> {
    (q: SubRequest) => SubText(q, dumps)
  }

  /** How many requests `prepare_batch_request` serialises before it stops. */
  function Reached(reqs: seq<SubRequest>): (n: nat)
    ensures n <= |reqs|
    ensures forall i :: 0 <= i < n ==> !reqs[i].body.Absent?
    ensures n < |reqs| ==> reqs[n].body.Absent?
  {
    if reqs == [] || reqs[0].body.Absent? then 0 else 1 + Reached(reqs[1..])
  }

  /**
   * `prepare_batch_request`: serialises the requests in list order, one
   * part each.  The header mappings of the requests it reaches are
   * normalised in place, the others are left as they were.
   */
  method PrepareBatchRequest(requests: seq<PendingRequest>, dumps: Json -> string) returns (r: Result<seq<string>>)
    requires forall i, j :: 0 <= i < j < |requests| ==> requests[i] != requests[j]
    modifies requests
    ensures r == Encode(old(Views(requests)), dumps)
    ensures HeadersOf(requests) == Outcome(old(Views(requests)), dumps, Reached(old(Views(requests))))
  {
    ghost var before := Views(requests);
    if |requests| == 0 {
      return Err(EmptyBatch);
    }
    var parts: seq<string> := [];
    var i := 0;
    while i < |requests|
      invariant 0 <= i <= |requests| && i <= Reached(before)
      invariant MapAll(before[..i], Serialiser(dumps)) == Ok(parts)
      invariant HeadersOf(requests) == Outcome(before, dumps, i)
    {
      ghost var hs := HeadersOf(requests);
      assert hs[i] == requests[i].headers && Outcome(before, dumps, i)[i] == before[i].headers;
      assert before[i] == requests[i].View();
      var part := BuildAt(requests, i, dumps);
      PrepareStep(before, dumps, i, parts, part, hs, HeadersOf(requests));
      if part.Err? {
        return Err(part.error);
      }
      parts := parts + [part.value];
      i := i + 1;
    }
    PrefixStep(before, i);
    return Ok(parts);
  }

  /**
   * Serialises the `i`-th pending request; of all the header mappings in
   * the list, only its own changes.
   */
  method BuildAt(requests: seq<PendingRequest>, i: nat, dumps: Json -> string) returns (r: Result<string>)
    requires i < |requests|
    requires forall j, k :: 0 <= j < k < |requests| ==> requests[j] != requests[k]
    modifies requests[i]
    ensures r == SubText(old(requests[i].View()), dumps)
    ensures HeadersOf(requests) == old(HeadersOf(requests))[i := Normalized(old(requests[i].headers), requests[i].body, dumps)]
  {
    ghost var hs := HeadersOf(requests);
    r := BuildSubRequest(requests[i], dumps);
    forall k | 0 <= k < |requests| ensures HeadersOf(requests)[k] == hs[i := requests[i].headers][k] {
      if k != i {
        assert requests[k] != requests[i];
      }
    }
  }

  /**
   * One turn of the loop of `prepare_batch_request`, on values: the
   * request's text extends the texts so far and its mapping is normalised,
   * or the request has no body and the batch fails where it stands.
   */
  lemma PrepareStep(before: seq<SubRequest>, dumps: Json -> string, i: nat, parts: seq<string>, part: Result<string>,
                    hs: seq<Entries>, hs': seq<Entries>)
    requires i < |before| && i <= Reached(before)
    requires MapAll(before[..i], Serialiser(dumps)) == Ok(parts)
    requires hs == Outcome(before, dumps, i) && part == SubText(before[i], dumps)
    requires hs' == hs[i := Normalized(before[i].headers, before[i].body, dumps)]
    ensures part.Err? ==> Encode(before, dumps) == Err(part.error) && hs' == Outcome(before, dumps, Reached(before))
    ensures part.Ok? ==>
      && i + 1 <= Reached(before)
      && MapAll(before[..i + 1], Serialiser(dumps)) == Ok(parts + [part.value])
      && hs' == Outcome(before, dumps, i + 1)
  {
    OutcomeStep(before, dumps, i);
    EncodeStep(before, dumps, i, parts);
  }

  /** The header mappings of a list of pending requests, as they stand. */
  function HeadersOf(requests: seq<PendingRequest>): (r: seq<Entries>)
    reads requests
    ensures |r| == |requests|
  {
    seq(|requests|, i reads requests requires 0 <= i < |requests| => requests[i].headers)
  }

  /**
   * The header mappings once the first `n` requests have been serialised:
   * those are normalised, the rest are as they were.
   */
  function Outcome(reqs: seq<SubRequest>, dumps: Json -> string, n: nat): (r: seq<Entries>)
    ensures |r| == |reqs|
  {
    seq(|reqs|, i requires 0 <= i < |reqs| =>
      if i < n then Normalized(reqs[i].headers, reqs[i].body, dumps) else reqs[i].headers)
  }

  /** Serialising one more request normalises its mapping; one without body keeps it. */
  lemma OutcomeStep(reqs: seq<SubRequest>, dumps: Json -> string, i: nat)
    requires i < |reqs|
    ensures Outcome(reqs, dumps, i)[i := Normalized(reqs[i].headers, reqs[i].body, dumps)] == Outcome(reqs, dumps, i + 1)
    ensures reqs[i].body.Absent? ==> Outcome(reqs, dumps, i + 1) == Outcome(reqs, dumps, i)
  {
  }

  /** A request with a body before the stopping point moves the stopping point past it. */
  lemma ReachedStep(reqs: seq<SubRequest>, i: nat)
    requires i < |reqs| && i <= Reached(reqs) && !reqs[i].body.Absent?
    ensures i + 1 <= Reached(reqs)
  {
  }

  /**
   * One step of `prepare_batch_request`: a request without body stops the
   * batch, which then fails, and any other extends the texts so far by its
   * own.
   */
  lemma EncodeStep(reqs: seq<SubRequest>, dumps: Json -> string, i: nat, parts: seq<string>)
    requires i < |reqs| && i <= Reached(reqs)
    requires MapAll(reqs[..i], Serialiser(dumps)) == Ok(parts)
    ensures reqs[i].body.Absent? ==> Encode(reqs, dumps) == Err(BodyNotBytes) && Reached(reqs) == i
    ensures !reqs[i].body.Absent? ==>
      && i + 1 <= Reached(reqs)
      && MapAll(reqs[..i + 1], Serialiser(dumps)) == Ok(parts + [SubText(reqs[i], dumps).value])
  {
    if reqs[i].body.Absent? {
      EncodeStops(reqs, dumps, i);
    } else {
      MapAllSnoc(reqs[..i], Serialiser(dumps), parts, reqs[i], SubText(reqs[i], dumps).value);
      PrefixStep(reqs, i);
      ReachedStep(reqs, i);
    }
  }

  /** A request without body stops the batch, and it is where serialisation stops. */
  lemma EncodeStops(reqs: seq<SubRequest>, dumps: Json -> string, i: nat)
    requires i < |reqs| && i <= Reached(reqs) && reqs[i].body.Absent?
    ensures Encode(reqs, dumps) == Err(BodyNotBytes)
    ensures Reached(reqs) == i
  {
  }

  // ---------------------------------------------------------------------
  // Reading a sub-request back

  /** A line that holds neither CR nor LF. */
  predicate OneLine(s: string) {
    '\r' !in s && '\n' !in s
  }

  /** The head of a request: the request-line and the header lines, joined by CRLF. */
  function Head(verb: string, path: string, entries: Entries): string {
    Join<char>(HeadLines(verb, path, entries), Text.CRLF)
  }

  /** The request-line and header lines: the lines of the head, in order. */
  function HeadLines(verb: string, path: string, entries: Entries): seq<string> {
    [RequestLine(verb, path)] + FieldLines(entries)
  }

  /** Every line of the head is non-empty and holds neither CR nor LF. */
  lemma HeadLinesOneLine(verb: string, path: string, entries: Entries)
    requires OneLine(verb) && OneLine(path)
    requires forall i :: 0 <= i < |entries| ==> OneLine(entries[i].0) && OneLine(entries[i].1)
    ensures forall i :: 0 <= i < |HeadLines(verb, path, entries)| ==>
      |HeadLines(verb, path, entries)[i]| > 0 && OneLine(HeadLines(verb, path, entries)[i])
  {
    var lines := HeadLines(verb, path, entries);
    forall i | 0 <= i < |lines| ensures |lines[i]| > 0 && OneLine(lines[i]) {
      if i > 0 {
        assert lines[i] == entries[i - 1].0 + ": " + entries[i - 1].1;
      }
    }
  }

  /** The request text is the head, a blank line, and the body. */
  lemma RequestTextParts(verb: string, path: string, entries: Entries, body: string)
    ensures RequestText(verb, path, entries, body) == Head(verb, path, entries) + Text.BLANK_LINE + body
  {
    var lines := HeadLines(verb, path, entries);
    JoinAppend<char>(lines, ["", body], Text.CRLF);
    assert lines + ["", body] == [RequestLine(verb, path)] + FieldLines(entries) + ["", body];
    assert ["", body][1..] == [body];
    assert Join<char>(["", body], Text.CRLF) == Text.CRLF + body;
  }

  /** The head splits at CRLF into its lines. */
  lemma HeadSplit(verb: string, path: string, entries: Entries)
    requires forall i :: 0 <= i < |HeadLines(verb, path, entries)| ==> OneLine(HeadLines(verb, path, entries)[i])
    ensures Split<char>(Head(verb, path, entries), Text.CRLF) == HeadLines(verb, path, entries)
  {
    var lines := HeadLines(verb, path, entries);
    forall i | 0 <= i < |lines| - 1 ensures Delimits<char>(lines[i], Text.CRLF) {
      LineDelimits<char>(lines[i], Text.CRLF);
    }
    assert Free<char>(lines[|lines| - 1], Text.CRLF) by {
      var last := lines[|lines| - 1];
      forall i | 0 <= i <= |last| ensures !OccursAt<char>(last, Text.CRLF, i) {
        if i + 2 <= |last| {
          assert last[i..i + 2][0] == last[i];
        }
      }
    }
    SplitJoin<char>(lines, Text.CRLF);
  }

  /**
   * The request text reads back as the server would read it: its first
   * blank line ends the head, after it comes the body unchanged, and the
   * head splits at CRLF into the request-line and one `k: v` line per
   * header item, in mapping order.
   */
  lemma RequestTextReadBack(verb: string, path: string, entries: Entries, body: string)
    requires OneLine(verb) && OneLine(path)
    requires forall i :: 0 <= i < |entries| ==> OneLine(entries[i].0) && OneLine(entries[i].1)
    ensures SplitOnce<char>(RequestText(verb, path, entries, body), Text.BLANK_LINE) == Some((Head(verb, path, entries), body))
    ensures Split<char>(Head(verb, path, entries), Text.CRLF) == HeadLines(verb, path, entries)
  {
    var lines := HeadLines(verb, path, entries);
    var head := Head(verb, path, entries);
    HeadLinesOneLine(verb, path, entries);
    RequestTextParts(verb, path, entries, body);
    HeadSplit(verb, path, entries);
    assert Text.CRLF == ['\r', '\n'] && Text.BLANK_LINE == ['\r', '\n', '\r', '\n'];
    SplitAtBlankLine(lines, '\r', '\n', body);
  }

  /**
   * A dictionary body announces itself: after normalisation the mapping
   * holds `Content-Type: application/json` and a `Content-Length` that is
   * the length of the JSON text, and every other header is as it was.
   */
  lemma NormalizedDict(entries: Entries, members: seq<(string, Json)>, dumps: Json -> string, key: string)
    requires UniqueKeys(entries)
    ensures var n := Normalized(entries, Dict(members), dumps);
      && UniqueKeys(n)
      && Lookup(n, "Content-Type") == Some("application/json")
      && Lookup(n, "Content-Length") == Some(Text.Render(|dumps(JObject(members))|))
      && (!SameKey(key, "Content-Type") && !SameKey(key, "Content-Length") ==> Lookup(n, key) == Lookup(entries, key))
  {
    var once := Put(entries, "Content-Type", "application/json");
    var len := Text.Render(|dumps(JObject(members))|);
    PutUnique(entries, "Content-Type", "application/json");
    PutUnique(once, "Content-Length", len);
    PutLookup(entries, "Content-Type", "application/json", "Content-Type");
    PutLookup(once, "Content-Length", len, "Content-Type");
    PutLookup(once, "Content-Length", len, "Content-Length");
    PutLookup(entries, "Content-Type", "application/json", key);
    PutLookup(once, "Content-Length", len, key);
    assert !SameKey("Content-Type", "Content-Length");
  }
}
