/**
 * The failures the batch client can raise, and the Option/Result wrappers
 * that carry them in place of Python exceptions.
 */
module Outcomes {
  datatype Option<+T> = None | Some(value: T)

  /** Each Python exception the core raises, with the line that raises it. */
  datatype Error =
    | EmptyBatch            // ValueError("No deferred requests"), client.py:153
    | BodyNotBytes          // `None.decode(...)` on a request without body, client.py:30
    | NoBoundary            // `content_type.split("=", 1)` has nothing to unpack, client.py:61
    | NonAsciiBoundary      // `boundary_raw.encode("ascii")` fails, client.py:62
    | NoPartSeparator       // a MIME part has no blank line, client.py:43
    | BadContentId          // a Content-ID line does not split into two at ":", client.py:48
    | NoPayloadSeparator    // an HTTP payload has no blank line, client.py:176
    | NoTrailingCrlf        // the payload body has no CRLF to cut off, client.py:178
    | NoHeaderLine          // the payload head is a status line alone, client.py:179
    | BadStatusLine         // the status line has fewer than two spaces, client.py:180
    | BadStatusCode         // `int(code)` fails, client.py:183
    | MissingContentType    // `resp.headers["Content-Type"]` is absent, client.py:189
    | PostFailed            // `requests.post` raises: no reply was received, client.py:141
    | HttpError(status: int)  // `resp.raise_for_status()`, client.py:144
    | InvalidJson           // `r.json()` fails on a decoded part, client.py:147
    | NotFinalized          // the ValueError of an unresolved `_FutureDict`, client.py:68

  datatype Result<+T> = Ok(value: T) | Err(error: Error) {
    predicate IsFailure() { Err? }
    function PropagateFailure<U>(): Result<U>
      requires Err?
    {
      Err(error)
    }
    function Extract(): T
      requires Ok?
    {
      value
    }
  }

  /**
   * A list comprehension whose element expression may raise: the results in
   * order, or the failure of the first element that fails.
   */
  function MapAll<A, B>(xs: seq<A>, f: A -> Result<B>): (r: Result<seq<B>>)
    ensures r.Ok? <==> forall i :: 0 <= i < |xs| ==> f(xs[i]).Ok?
    ensures r.Ok? ==> |r.value| == |xs| && forall i :: 0 <= i < |xs| ==> r.value[i] == f(xs[i]).value
    ensures r.Err? ==> exists i :: 0 <= i < |xs| && f(xs[i]).Err? && r.error == f(xs[i]).error &&
                                  forall j :: 0 <= j < i ==> f(xs[j]).Ok?
  {
    if xs == [] then Ok([])
    else
      match f(xs[0])
      case Err(e) => Err(e)
      case Ok(y) =>
        match MapAll(xs[1..], f)
        case Err(e) => Err(e)
        case Ok(ys) => Ok([y] + ys)
  }

  /** When every element succeeds with a known value, the comprehension yields exactly those values. */
  lemma MapAllOk<A, B>(xs: seq<A>, f: A -> Result<B>, ys: seq<B>)
    requires |xs| == |ys| && forall i :: 0 <= i < |xs| ==> f(xs[i]) == Ok(ys[i])
    ensures MapAll(xs, f) == Ok(ys)
  {
    var r := MapAll(xs, f);
    assert r.Ok?;
    assert r.value == ys;
  }

  /** The comprehension succeeds exactly when no element of the list fails. */
  lemma MapAllOkAll<A, B>(xs: seq<A>, f: A -> Result<B>)
    ensures MapAll(xs, f).Ok? <==> forall x :: x in xs ==> f(x).Ok?
  {
    if MapAll(xs, f).Err? {
      var i :| 0 <= i < |xs| && f(xs[i]).Err?;
      assert xs[i] in xs;
    } else {
      forall x | x in xs ensures f(x).Ok? {
        var i :| 0 <= i < |xs| && xs[i] == x;
      }
    }
  }

  /** One more element that succeeds adds its value at the end. */
  lemma MapAllSnoc<A, B>(xs: seq<A>, f: A -> Result<B>, ys: seq<B>, x: A, y: B)
    requires MapAll(xs, f) == Ok(ys) && f(x) == Ok(y)
    ensures MapAll(xs + [x], f) == Ok(ys + [y])
  {
    var zs := xs + [x];
    assert forall i :: 0 <= i < |zs| ==> f(zs[i]) == Ok((ys + [y])[i]) by {
      forall i | 0 <= i < |zs| ensures f(zs[i]) == Ok((ys + [y])[i]) {
        if i < |xs| {
          assert zs[i] == xs[i];
        }
      }
    }
    MapAllOk(zs, f, ys + [y]);
  }
}
