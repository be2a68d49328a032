/**
 * The URL rewrite of the batching session: every sub-request is pointed at
 * the scheme and authority of the batch endpoint (section 3 of RFC 3986),
 * keeping its own path, parameters, query and fragment.  A URL is the
 * six-field record `urlparse` returns; `urlparse` and `urlunparse`
 * themselves are library code and are taken as parameters.
 */
module Urls {
  /** `urlparse`'s result: `scheme://netloc/path;params?query#fragment`. */
  datatype Url = Url(
    scheme: string,
    netloc: string,
    path: string,
    params: string,
    query: string,
    fragment: string)

  /** The URL names the same endpoint as `base`: same scheme and authority. */
  predicate SameHost(base: Url, u: Url) {
    u.scheme == base.scheme && u.netloc == base.netloc
  }

  /** Everything of `u` after its authority. */
  function Location(u: Url): (string, string, string, string) {
    (u.path, u.params, u.query, u.fragment)
  }

  /**
   * `Batching._prepend_host` on parsed URLs: the scheme and netloc of the
   * batch URL, the rest of the target.
   */
  function PrependHost(base: Url, target: Url): (r: Url)
    ensures SameHost(base, r) && Location(r) == Location(target)
  {
    Url(base.scheme, base.netloc, target.path, target.params, target.query, target.fragment)
  }

  /** A URL is left alone exactly when it already names the batch endpoint. */
  lemma PrependHostFixed(base: Url, target: Url)
    ensures PrependHost(base, target) == target <==> SameHost(base, target)
  {
    if SameHost(base, target) {
      assert PrependHost(base, target) == target;
    }
  }

  /** Rewriting twice is rewriting once. */
  lemma PrependHostIdempotent(base: Url, target: Url)
    ensures PrependHost(base, PrependHost(base, target)) == PrependHost(base, target)
  {
    PrependHostFixed(base, PrependHost(base, target));
  }

  /** Two URLs rewrite alike exactly when they agree after the authority. */
  lemma PrependHostSameLocation(base: Url, u: Url, v: Url)
    ensures PrependHost(base, u) == PrependHost(base, v) <==> Location(u) == Location(v)
  {
  }

  /**
   * `_prepend_host` on text: parse the target, rewrite it, unparse the
   * result.
   */
  function Rewrite(base: Url, target: string, parse: string -> Url, unparse: Url -> string): (r: string)
  {
    unparse(PrependHost(base, parse(target)))
  }

  /**
   * The record survives a trip through text as far as the rewrite needs:
   * unparsed and parsed again, it keeps its scheme and authority, and
   * unparsing that gives the same text.
   */
  predicate Reparses(u: Url, parse: string -> Url, unparse: Url -> string) {
    SameHost(u, parse(unparse(u))) && unparse(parse(unparse(u))) == unparse(u)
  }

  /**
   * Rewriting is idempotent on text.  The batch URL is parsed once, as the
   * session's constructor does, and of `urlparse` and `urlunparse` this
   * assumes only that the records `_prepend_host` builds from it reparse.
   * Nothing is assumed of the location: `urlunparse` puts a `/` before a
   * relative path when there is an authority, so it may not survive.
   */
  lemma RewriteIdempotent(batchUrl: string, target: string, parse: string -> Url, unparse: Url -> string)
    requires forall t :: Reparses(PrependHost(parse(batchUrl), parse(t)), parse, unparse)
    ensures SameHost(parse(batchUrl), parse(Rewrite(parse(batchUrl), target, parse, unparse)))
    ensures var once := Rewrite(parse(batchUrl), target, parse, unparse);
      Rewrite(parse(batchUrl), once, parse, unparse) == once
  {
    var base := parse(batchUrl);
    var once := PrependHost(base, parse(target));
    assert Reparses(once, parse, unparse);
    var again := parse(unparse(once));
    PrependHostFixed(base, again);
    assert unparse(again) == unparse(once);
  }
}
