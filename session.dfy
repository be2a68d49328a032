/**
 * The batching session of `requests_batch/client.py`: requests issued
 * through it are held back, each answered at once by a placeholder
 * response, and `finalize` sends them all in one POST and resolves the
 * placeholders, in order, from the decoded reply.
 *
 * The POST itself, the JSON codec and `urlparse`/`urlunparse` are library
 * code; they are parameters here.
 */
module Session {
  import opened Outcomes
  import opened Text
  import opened Urls
  import Encoder
  import Decoder
  import ReplyFormat

  // ---------------------------------------------------------------------
  // Placeholder responses

  /**
   * What a placeholder holds: the `_FutureDict` that refuses every access
   * until the batch is finalised, or the decoded JSON document.
   */
  datatype FutureValue = Pending | Ready(doc: Encoder.Json)

  /** `_FutureResponse`: the response `send` hands back before the batch is sent. */
  class FutureResponse {
    var statusCode: int
    var value: FutureValue

    /** A new placeholder: status 204 and an unresolved document. */
    constructor()
      ensures statusCode == 204 && value == Pending
    {
      statusCode := 204;
      value := Pending;
    }

    /**
     * `json()` (and `content`, which returns the same object) read through
     * to the document: an unresolved placeholder raises.
     */
    function Json(): (r: Result<Encoder.Json>)
      reads this
      ensures r.Ok? <==> value.Ready?
      ensures r.Ok? ==> r.value == value.doc
      ensures r.Err? ==> r.error == NotFinalized
    {
      match value
      case Pending => Err(NotFinalized)
      case Ready(doc) => Ok(doc)
    }
  }

  /** The two fields `finalize` writes on a placeholder. */
  datatype FutureState = FutureState(statusCode: int, value: FutureValue)

  /** The placeholders' fields, as they stand. */
  function States(futures: seq<FutureResponse>): (r: seq<FutureState>)
    reads futures
    ensures |r| == |futures|
  {
    seq(|futures|, i reads futures requires 0 <= i < |futures| => FutureState(futures[i].statusCode, futures[i].value))
  }

  // ---------------------------------------------------------------------
  // Resolving the placeholders

  function Min(a: nat, b: nat): nat {
    if a <= b then a else b
  }

  /** How many leading decoded responses carry content that parses as JSON. */
  function Loaded(decoded: seq<Decoder.Response>, loads: Bytes -> Option<Encoder.Json>): (n: nat)
    ensures n <= |decoded|
    ensures forall i :: 0 <= i < n ==> loads(decoded[i].content).Some?
    ensures n < |decoded| ==> loads(decoded[n].content).None?
  {
    if decoded == [] || loads(decoded[0].content).None? then 0
    else 1 + Loaded(decoded[1..], loads)
  }

  /**
   * The placeholders once the first `n` have been paired with their
   * responses: each of those carries its response's status code and
   * document, the others are as they were.
   */
  function Resolved(states: seq<FutureState>, decoded: seq<Decoder.Response>, loads: Bytes -> Option<Encoder.Json>, n: nat): (r: seq<FutureState>)
    requires n <= |decoded|
    ensures |r| == |states|
  {
    seq(|states|, i requires 0 <= i < |states| =>
      if i < n && loads(decoded[i].content).Some? then
        FutureState(decoded[i].statusCode, Ready(loads(decoded[i].content).value))
      else states[i])
  }

  /**
   * How far `zip` gets: the shorter of the two lists, or the first
   * response whose content is not JSON, where `r.json()` raises.
   */
  function Paired(futures: nat, decoded: seq<Decoder.Response>, loads: Bytes -> Option<Encoder.Json>): (n: nat)
    ensures n <= futures && n <= |decoded|
    ensures n == Min(futures, |decoded|) || (n < Min(futures, |decoded|) && loads(decoded[n].content).None?)
    ensures forall i :: 0 <= i < n ==> loads(decoded[i].content).Some?
  {
    Min(Loaded(decoded, loads), Min(futures, |decoded|))
  }

  /**
   * The `zip` loop of `finalize` on values: the placeholders it reaches
   * are resolved positionally, the rest keep what they had.
   */
  function Settled(states: seq<FutureState>, decoded: seq<Decoder.Response>, loads: Bytes -> Option<Encoder.Json>): (r: seq<FutureState>)
    ensures |r| == |states|
    ensures forall i :: Paired(|states|, decoded, loads) <= i < |states| ==> r[i] == states[i]
  {
    Resolved(states, decoded, loads, Paired(|states|, decoded, loads))
  }

  /** The outcome of the `zip` loop: it fails where `r.json()` raises. */
  function Settles(states: seq<FutureState>, decoded: seq<Decoder.Response>, loads: Bytes -> Option<Encoder.Json>): (r: Result<()>)
    ensures r.Ok? <==> forall i :: 0 <= i < Min(|states|, |decoded|) ==> loads(decoded[i].content).Some?
    ensures r.Err? ==> r.error == InvalidJson
  {
    if Paired(|states|, decoded, loads) == Min(|states|, |decoded|) then Ok(()) else Err(InvalidJson)
  }

  /**
   * The i-th placeholder gets the i-th decoded response, for as many as
   * `zip` pairs; a placeholder without a response, or past the first
   * response that is not JSON, keeps what it had.
   */
  lemma SettledPositions(states: seq<FutureState>, decoded: seq<Decoder.Response>, loads: Bytes -> Option<Encoder.Json>, i: nat)
    requires i < |states|
    ensures var s := Settled(states, decoded, loads);
      && |s| == |states|
      && (i < Paired(|states|, decoded, loads) ==>
            s[i].statusCode == decoded[i].statusCode && s[i].value.Ready? &&
            loads(decoded[i].content) == Some(s[i].value.doc))
      && (i >= Paired(|states|, decoded, loads) ==> s[i] == states[i])
  {
  }

  /** When every document loads, exactly the first `min(len(futures), len(decoded))` placeholders are resolved. */
  lemma SettledCount(states: seq<FutureState>, decoded: seq<Decoder.Response>, loads: Bytes -> Option<Encoder.Json>)
    requires Settles(states, decoded, loads).Ok?
    requires forall i :: 0 <= i < |states| ==> states[i].value.Pending?
    ensures forall i :: 0 <= i < |states| ==> (Settled(states, decoded, loads)[i].value.Ready? <==> i < |decoded|)
  {
  }

  /**
   * The `zip` loop: pairs placeholders and decoded responses in order,
   * writing each document and then the status code, and stops where
   * `r.json()` raises.
   */
  method ResolveFutures(futures: seq<FutureResponse>, decoded: seq<Decoder.Response>, loads: Bytes -> Option<Encoder.Json>)
    returns (r: Result<()>)
    requires forall i, j :: 0 <= i < j < |futures| ==> futures[i] != futures[j]
    modifies futures
    ensures States(futures) == Settled(old(States(futures)), decoded, loads)
    ensures r == Settles(old(States(futures)), decoded, loads)
  {
    ghost var before := States(futures);
    var i := 0;
    while i < |futures| && i < |decoded|
      invariant 0 <= i <= Min(|futures|, |decoded|) && i <= Loaded(decoded, loads)
      invariant States(futures) == Resolved(before, decoded, loads, i)
    {
      var doc := loads(decoded[i].content);
      LoadedAt(decoded, loads, i);
      if doc.None? {
        ResolvedStop(before, decoded, loads, i);
        return Err(InvalidJson);
      }
      ghost var states := States(futures);
      futures[i].value := Ready(doc.value);
      futures[i].statusCode := decoded[i].statusCode;
      assert States(futures) == states[i := FutureState(decoded[i].statusCode, Ready(doc.value))];
      ResolvedStep(before, decoded, loads, i);
      i := i + 1;
    }
    ResolvedStop(before, decoded, loads, i);
    r := Ok(());
  }

  /** Resolving one more placeholder. */
  lemma ResolvedStep(states: seq<FutureState>, decoded: seq<Decoder.Response>, loads: Bytes -> Option<Encoder.Json>, i: nat)
    requires i < |states| && i < Loaded(decoded, loads)
    ensures Resolved(states, decoded, loads, i)[i := FutureState(decoded[i].statusCode, Ready(loads(decoded[i].content).value))]
         == Resolved(states, decoded, loads, i + 1)
  {
  }

  /** Below the end of the list, a response is counted as loaded exactly when its content loads. */
  lemma LoadedAt(decoded: seq<Decoder.Response>, loads: Bytes -> Option<Encoder.Json>, i: nat)
    requires i < |decoded| && i <= Loaded(decoded, loads)
    ensures i < Loaded(decoded, loads) <==> loads(decoded[i].content).Some?
  {
  }

  /** Where the loop stops, it has resolved what `Settled` says. */
  lemma ResolvedStop(states: seq<FutureState>, decoded: seq<Decoder.Response>, loads: Bytes -> Option<Encoder.Json>, i: nat)
    requires i <= |states| && i <= |decoded| && i <= Loaded(decoded, loads)
    requires i == |states| || i == |decoded| || loads(decoded[i].content).None?
    ensures Paired(|states|, decoded, loads) == i
    ensures Resolved(states, decoded, loads, i) == Settled(states, decoded, loads)
    ensures (Settles(states, decoded, loads) == Ok(())) <==> (i == |states| || i == |decoded|)
  {
  }

  // ---------------------------------------------------------------------
  // The reply to the batch POST

  /** `resp.raise_for_status()`: a 4xx or 5xx status raises. */
  function RaiseForStatus(reply: Decoder.Reply): (r: Result<Decoder.Reply>)
    ensures r.Err? <==> 400 <= reply.statusCode < 600
    ensures r.Ok? ==> r.value == reply
    ensures r.Err? ==> r.error == HttpError(reply.statusCode)
  {
    if 400 <= reply.statusCode < 600 then Err(HttpError(reply.statusCode)) else Ok(reply)
  }

  /** What `finalize` makes of the reply: the status check, then the decoder. */
  function Answer(reply: Decoder.Reply): (r: Result<seq<Decoder.Response>>)
    ensures 400 <= reply.statusCode < 600 ==> r == Err(HttpError(reply.statusCode))
    ensures !(400 <= reply.statusCode < 600) ==> r == Decoder.DecodeBatchResponse(reply)
  {
    var ok :- RaiseForStatus(reply);
    Decoder.DecodeBatchResponse(ok)
  }

  /**
   * A reply with a success status whose body frames well-formed
   * sub-responses is answered with those sub-responses, decoded, in order.
   */
  lemma AnswerFramed(reply: Decoder.Reply, delimiter: Bytes, preamble: Bytes, subs: seq<ReplyFormat.SubResponse>, epilogue: Bytes)
    requires reply.contentType.Some? && Decoder.Delimiter(reply.contentType.value) == Ok(delimiter)
    requires reply.content == ReplyFormat.MultipartBody(delimiter, preamble, subs, epilogue)
    requires !(400 <= reply.statusCode < 600)
    requires Seqs.Delimits(preamble, delimiter) && Seqs.Free(epilogue, delimiter)
    requires forall k :: 0 <= k < |subs| ==> ReplyFormat.WellFormed(subs[k]) && Seqs.Delimits(ReplyFormat.Framed(subs[k]), delimiter)
    ensures Answer(reply) == Ok(ReplyFormat.ExpectedAll(subs))
  {
    ReplyFormat.DecodeRoundTrip(reply.contentType.value, delimiter, preamble, subs, epilogue, reply.statusCode);
    assert reply == Decoder.Reply(reply.statusCode, Some(reply.contentType.value), reply.content);
  }

  /**
   * Placeholders paired with the responses of well-formed sub-responses
   * whose bodies are all JSON: the i-th takes the i-th sub-response's status
   * code and document, for every i both lists reach.
   */
  lemma SettledFramed(states: seq<FutureState>, subs: seq<ReplyFormat.SubResponse>, loads: Bytes -> Option<Encoder.Json>, i: nat)
    requires forall k :: 0 <= k < |subs| ==> ReplyFormat.WellFormed(subs[k])
    requires forall k :: 0 <= k < |subs| ==> loads(subs[k].body).Some?
    requires i < |states| && i < |subs|
    ensures Settles(states, ReplyFormat.ExpectedAll(subs), loads) == Ok(())
    ensures Settled(states, ReplyFormat.ExpectedAll(subs), loads)[i] == FutureState(subs[i].status, Ready(loads(subs[i].body).value))
  {
    var decoded := ReplyFormat.ExpectedAll(subs);
    forall k | 0 <= k < |decoded| ensures decoded[k].content == subs[k].body && decoded[k].statusCode == subs[k].status {
      assert ReplyFormat.WellFormed(subs[k]);
    }
    SettledPositions(states, decoded, loads, i);
  }

  // ---------------------------------------------------------------------
  // The session

  /** `requests.Request` as the session receives it; only its URL is rewritten. */
  class Request {
    const verb: string
    var url: string
    const headers: Encoder.Entries
    const body: Encoder.Body

    constructor(verb: string, url: string, headers: Encoder.Entries, body: Encoder.Body)
      ensures this.verb == verb && this.url == url && this.headers == headers && this.body == body
    {
      this.verb := verb;
      this.url := url;
      this.headers := headers;
      this.body := body;
    }
  }

  /** `Batching`: a session that defers every request until `finalize`. */
  class Batching {
    var futures: seq<FutureResponse>
    var requests: seq<Encoder.PendingRequest>
    const batchUrl: string
    const batchUrlParsed: Url
    var requestData: Option<seq<string>>
    var response: Option<Decoder.Reply>

    /**
     * The two lists run in parallel, one placeholder per pending request,
     * and neither holds the same object twice.
     */
    ghost predicate Valid()
      reads this
    {
      && |futures| == |requests|
      && (forall i, j :: 0 <= i < j < |futures| ==> futures[i] != futures[j])
      && (forall i, j :: 0 <= i < j < |requests| ==> requests[i] != requests[j])
    }

    /** `Batching.__init__`: nothing pending, the batch URL parsed once. */
    constructor(batchUrl: string, parse: string -> Url)
      ensures Valid()
      ensures futures == [] && requests == []
      ensures this.batchUrl == batchUrl && batchUrlParsed == parse(batchUrl)
      ensures requestData == None && response == None
    {
      futures := [];
      requests := [];
      this.batchUrl := batchUrl;
      batchUrlParsed := parse(batchUrl);
      requestData := None;
      response := None;
    }

    /**
     * `prepare_request`: points the request at the batch endpoint, in place,
     * then prepares it.
     */
    method PrepareRequest(request: Request, parse: string -> Url, unparse: Url -> string) returns (p: Encoder.PendingRequest)
      modifies request
      ensures request.url == Rewrite(batchUrlParsed, old(request.url), parse, unparse)
      ensures fresh(p)
      ensures p.View() == Encoder.SubRequest(request.verb, request.url, request.headers, request.body)
    {
      request.url := Rewrite(batchUrlParsed, request.url, parse, unparse);
      p := new Encoder.PendingRequest(request.verb, request.url, request.headers, request.body);
    }

    /**
     * `send`: holds the request back and answers with a fresh placeholder;
     * the two lists each grow by one, at the end.
     */
    method Send(request: Encoder.PendingRequest) returns (f: FutureResponse)
      requires Valid() && request !in requests
      modifies this
      ensures Valid()
      ensures fresh(f) && f.statusCode == 204 && f.value == Pending
      ensures requests == old(requests) + [request] && futures == old(futures) + [f]
      ensures requestData == old(requestData) && response == old(response)
    {
      f := new FutureResponse();
      futures := futures + [f];
      requests := requests + [request];
    }

    /**
     * `finalize`: serialises the pending requests (an empty batch raises
     * before anything is posted), then delivers them.  The header mappings
     * of the requests serialised are normalised in place.
     */
    method Finalize(post: (string, seq<string>) -> Option<Decoder.Reply>, dumps: Encoder.Json -> string,
                    loads: Bytes -> Option<Encoder.Json>) returns (r: Result<()>)
      requires Valid()
      modifies this, requests, futures
      ensures Valid() && futures == old(futures) && requests == old(requests)
      ensures Encoder.HeadersOf(requests) ==
        Encoder.Outcome(old(Encoder.Views(requests)), dumps, Encoder.Reached(old(Encoder.Views(requests))))
      ensures Record(r, requestData, response, States(futures)) ==
        Finalized(batchUrl, old(Encoder.Views(requests)), old(Record(Ok(()), requestData, response, States(futures))), post, dumps, loads)
    {
      ghost var states := States(futures);
      var sent := Encoder.PrepareBatchRequest(requests, dumps);
      assert States(futures) == states;
      if sent.Err? {
        return Err(sent.error);
      }
      ghost var headers := Encoder.HeadersOf(requests);
      r := Deliver(sent.value, post, loads);
      assert Encoder.HeadersOf(requests) == headers;
    }

    /**
     * The rest of `finalize`: records the request data, posts it once to
     * the batch URL, records the reply, raises on a 4xx or 5xx status,
     * decodes the reply and resolves the placeholders in order.
     */
    method Deliver(texts: seq<string>, post: (string, seq<string>) -> Option<Decoder.Reply>,
                   loads: Bytes -> Option<Encoder.Json>) returns (r: Result<()>)
      requires forall i, j :: 0 <= i < j < |futures| ==> futures[i] != futures[j]
      modifies this, futures
      ensures futures == old(futures) && requests == old(requests)
      ensures Record(r, requestData, response, States(futures)) ==
        Delivered(batchUrl, texts, old(Record(Ok(()), requestData, response, States(futures))), post, loads)
    {
      ghost var before := States(futures);
      requestData := Some(texts);
      var answer := post(batchUrl, texts);
      if answer.None? {
        return Err(PostFailed);
      }
      response := answer;
      assert States(futures) == before;
      r := Receive(futures, answer.value, loads);
    }
  }

  /**
   * What `finalize` does with the reply: raises on a 4xx or 5xx status,
   * decodes the reply and resolves the placeholders in order.
   */
  method Receive(futures: seq<FutureResponse>, reply: Decoder.Reply, loads: Bytes -> Option<Encoder.Json>) returns (r: Result<()>)
    requires forall i, j :: 0 <= i < j < |futures| ==> futures[i] != futures[j]
    modifies futures
    ensures (r, States(futures)) == Received(old(States(futures)), reply, loads)
  {
    if 400 <= reply.statusCode < 600 {
      return Err(HttpError(reply.statusCode));
    }
    var decoded := Decoder.DecodeBatchResponse(reply);
    if decoded.Err? {
      return Err(decoded.error);
    }
    r := ResolveFutures(futures, decoded.value, loads);
  }

  // ---------------------------------------------------------------------
  // What finalize does, on values

  /** The session fields `finalize` writes, with the outcome of the call. */
  datatype Record = Record(result: Result<()>, requestData: Option<seq<string>>, response: Option<Decoder.Reply>, states: seq<FutureState>)

  /**
   * Everything after serialisation: the request data is recorded, the reply
   * recorded once it arrives, and the placeholders resolved from it unless
   * the POST, the status check or the decoder raises first.
   */
  function Delivered(batchUrl: string, texts: seq<string>, before: Record, post: (string, seq<string>) -> Option<Decoder.Reply>,
                     loads: Bytes -> Option<Encoder.Json>): (r: Record)
    ensures r.requestData == Some(texts)
  {
    match post(batchUrl, texts)
    case None => before.(result := Err(PostFailed), requestData := Some(texts))
    case Some(reply) =>
      var (result, states) := Received(before.states, reply, loads);
      Record(result, Some(texts), Some(reply), states)
  }

  /**
   * The outcome of the reply and the placeholders after it: untouched when
   * the status check or the decoder raises, settled otherwise.
   */
  function Received(states: seq<FutureState>, reply: Decoder.Reply, loads: Bytes -> Option<Encoder.Json>): (r: (Result<()>, seq<FutureState>))
    ensures |r.1| == |states|
    ensures Answer(reply).Err? ==> r == (Err(Answer(reply).error), states)
    ensures r.0.Ok? ==> Answer(reply).Ok? && Paired(|states|, Answer(reply).value, loads) == Min(|states|, |Answer(reply).value|)
  {
    match Answer(reply)
    case Err(e) => (Err(e), states)
    case Ok(decoded) => (Settles(states, decoded, loads), Settled(states, decoded, loads))
  }

  /** `finalize` on values: serialisation first, and nothing is posted when it raises. */
  function Finalized(batchUrl: string, views: seq<Encoder.SubRequest>, before: Record, post: (string, seq<string>) -> Option<Decoder.Reply>,
                     dumps: Encoder.Json -> string, loads: Bytes -> Option<Encoder.Json>): (r: Record)
    ensures Encoder.Encode(views, dumps).Err? ==> r == before.(result := Err(Encoder.Encode(views, dumps).error))
    ensures Encoder.Encode(views, dumps).Ok? ==> r.requestData == Some(Encoder.Encode(views, dumps).value)
  {
    match Encoder.Encode(views, dumps)
    case Err(e) => before.(result := Err(e))
    case Ok(texts) => Delivered(batchUrl, texts, before, post, loads)
  }

  /**
   * An empty batch raises before anything is posted: whatever the POST
   * would have answered, the outcome is the same, and neither the request
   * data nor the reply nor any placeholder changes.
   */
  lemma EmptyBatchNotPosted(batchUrl: string, before: Record, post1: (string, seq<string>) -> Option<Decoder.Reply>,
                            post2: (string, seq<string>) -> Option<Decoder.Reply>, dumps: Encoder.Json -> string,
                            loads: Bytes -> Option<Encoder.Json>)
    ensures Finalized(batchUrl, [], before, post1, dumps, loads) == before.(result := Err(EmptyBatch))
    ensures Finalized(batchUrl, [], before, post1, dumps, loads) == Finalized(batchUrl, [], before, post2, dumps, loads)
  {
  }

  /**
   * A pending request without body stops the batch before the POST: the
   * outcome does not depend on what the POST would have answered.
   */
  lemma MissingBodyNotPosted(batchUrl: string, views: seq<Encoder.SubRequest>, before: Record,
                             post1: (string, seq<string>) -> Option<Decoder.Reply>,
                             post2: (string, seq<string>) -> Option<Decoder.Reply>, dumps: Encoder.Json -> string,
                             loads: Bytes -> Option<Encoder.Json>, i: nat)
    requires i < |views| && views[i].body.Absent?
    ensures Finalized(batchUrl, views, before, post1, dumps, loads) == before.(result := Err(BodyNotBytes))
    ensures Finalized(batchUrl, views, before, post1, dumps, loads) == Finalized(batchUrl, views, before, post2, dumps, loads)
  {
    assert Encoder.Serialiser(dumps)(views[i]).Err?;
  }

  /**
   * Every failure except a reply part that is not JSON leaves all
   * placeholders as they were; only the `zip` loop writes them.
   */
  lemma FailureKeepsPlaceholders(batchUrl: string, views: seq<Encoder.SubRequest>, before: Record,
                                 post: (string, seq<string>) -> Option<Decoder.Reply>, dumps: Encoder.Json -> string,
                                 loads: Bytes -> Option<Encoder.Json>)
    requires Finalized(batchUrl, views, before, post, dumps, loads).result.Err?
    requires Finalized(batchUrl, views, before, post, dumps, loads).result.error != InvalidJson
    ensures Finalized(batchUrl, views, before, post, dumps, loads).states == before.states
  {
  }

  /**
   * The request data is the list of sub-request texts, one per pending
   * request and in the order they were sent; it is recorded exactly when
   * serialisation succeeds.
   */
  lemma RequestDataInOrder(batchUrl: string, views: seq<Encoder.SubRequest>, before: Record,
                           post: (string, seq<string>) -> Option<Decoder.Reply>, dumps: Encoder.Json -> string,
                           loads: Bytes -> Option<Encoder.Json>)
    ensures var after := Finalized(batchUrl, views, before, post, dumps, loads);
      && (after.requestData != before.requestData ==> after.requestData.Some?)
      && (Encoder.Encode(views, dumps).Ok? ==>
            && after.requestData.Some?
            && |after.requestData.value| == |views|
            && forall i :: 0 <= i < |views| ==> Encoder.SubText(views[i], dumps) == Ok(after.requestData.value[i]))
      && (Encoder.Encode(views, dumps).Err? ==> after.requestData == before.requestData)
  {
  }

  /**
   * Batch and reply end to end: when every pending request has a body, and
   * the POST of their texts answers with a success status and a multipart
   * body framing well-formed sub-responses whose bodies are JSON, `finalize`
   * succeeds and the i-th placeholder takes the i-th sub-response's status
   * code and document, for every i both lists reach.
   */
  lemma FinalizedFramed(batchUrl: string, views: seq<Encoder.SubRequest>, before: Record,
                        post: (string, seq<string>) -> Option<Decoder.Reply>, dumps: Encoder.Json -> string,
                        loads: Bytes -> Option<Encoder.Json>, texts: seq<string>,
                        reply: Decoder.Reply, delimiter: Bytes, preamble: Bytes, subs: seq<ReplyFormat.SubResponse>, epilogue: Bytes, i: nat)
    requires Encoder.Encode(views, dumps) == Ok(texts) && post(batchUrl, texts) == Some(reply)
    requires reply.contentType.Some? && Decoder.Delimiter(reply.contentType.value) == Ok(delimiter)
    requires reply.content == ReplyFormat.MultipartBody(delimiter, preamble, subs, epilogue)
    requires !(400 <= reply.statusCode < 600)
    requires Seqs.Delimits(preamble, delimiter) && Seqs.Free(epilogue, delimiter)
    requires forall k :: 0 <= k < |subs| ==> ReplyFormat.WellFormed(subs[k]) && Seqs.Delimits(ReplyFormat.Framed(subs[k]), delimiter)
    requires forall k :: 0 <= k < |subs| ==> loads(subs[k].body).Some?
    requires i < |before.states| && i < |subs|
    ensures var after := Finalized(batchUrl, views, before, post, dumps, loads);
      && after.result == Ok(())
      && after.response == Some(reply)
      && after.states[i] == FutureState(subs[i].status, Ready(loads(subs[i].body).value))
  {
    AnswerFramed(reply, delimiter, preamble, subs, epilogue);
    SettledFramed(before.states, subs, loads, i);
  }
}
