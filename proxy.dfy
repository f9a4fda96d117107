/**
 * The request handler of src/main.ts: every request path names the target
 * URL after its first character; a target without an http(s) scheme or
 * without a known top-level domain is answered with 404, any other is
 * fetched upstream once and its body (or the thrown error) becomes the
 * response body.
 */
module Proxy {
  import opened Wrappers

  /** The text the 404 body starts with; the rejected URL follows it. */
  const INVALID_HOST_MESSAGE := "Invalid hostname!! - "

  /** What the upstream GET gives: its body, or the error it throws (transport failure or a non-2xx answer). */
  datatype Fetched = Received(body: string) | Threw(error: string)

  /** `ctx.body` as the handler leaves it: untouched, text, or the caught error value. */
  datatype Body = Unset | Text(text: string) | Error(error: string)

  /**
   * What one call of the handler does: the status it assigns (None when it
   * assigns none and leaves the status to the framework), the body it
   * assigns, and the URLs it asks the upstream client to GET, in order.
   */
  datatype Response = Response(status: Option<int>, body: Body, upstreamRequests: seq<string>)

  /** `url.startsWith(prefix)`. */
  predicate StartsWith(url: string, prefix: string) {
    |prefix| <= |url| && url[..|prefix|] == prefix
  }

  /**
   * `isValidHost`: an `http://` or `https://` prefix, and the top-level
   * domain pattern `tldTest` (a regular expression in the source) matching
   * the whole URL string.
   */
  predicate IsValidHost(url: string, tldTest: string -> bool)
    ensures IsValidHost(url, tldTest) ==> tldTest(url) && (StartsWith(url, "http://") || StartsWith(url, "https://"))
  {
    (StartsWith(url, "http://") || StartsWith(url, "https://")) && tldTest(url)
  }

  /** Without one of the two scheme prefixes no URL is valid, whatever the pattern says. */
  lemma NoSchemeIsInvalid(url: string, tldTest: string -> bool)
    requires !StartsWith(url, "http://") && !StartsWith(url, "https://")
    ensures !IsValidHost(url, tldTest)
  {
  }

  /**
   * A URL is valid exactly when it is `http://` or `https://` followed by
   * anything, and the pattern accepts the whole URL (not only its host).
   */
  lemma IsValidHostIff(url: string, tldTest: string -> bool)
    ensures IsValidHost(url, tldTest)
        <==> ((exists rest :: url == "http://" + rest) || (exists rest :: url == "https://" + rest))
             && tldTest(url)
  {
    if StartsWith(url, "http://") {
      assert url == "http://" + url[7..];
    }
    if StartsWith(url, "https://") {
      assert url == "https://" + url[8..];
    }
    forall rest | url == "http://" + rest ensures StartsWith(url, "http://") {
      assert url[..7] == "http://";
    }
    forall rest | url == "https://" + rest ensures StartsWith(url, "https://") {
      assert url[..8] == "https://";
    }
  }

  /** An `ftp://` target is never valid. */
  lemma FtpIsInvalid(rest: string, tldTest: string -> bool)
    ensures !IsValidHost("ftp://" + rest, tldTest)
  {
    var url := "ftp://" + rest;
    assert url[0] == 'f';
    if |url| >= 7 {
      assert url[..7][0] == 'f';
    }
    if |url| >= 8 {
      assert url[..8][0] == 'f';
    }
  }

  /** `ctx.request.url.slice(1)`: the request path with exactly its first character removed. */
  function TargetUrl(requestPath: string): (r: string)
    ensures requestPath != [] ==> requestPath == [requestPath[0]] + r
    ensures requestPath == [] ==> r == []
  {
    if requestPath == [] then [] else requestPath[1..]
  }

  /**
   * `handleRequest`: `tldTest` stands for the top-level domain pattern and
   * `upstream` for the HTTP client's GET.
   */
  method HandleRequest(requestPath: string, tldTest: string -> bool, upstream: string -> Fetched)
    returns (r: Response)
    ensures var url := TargetUrl(requestPath);
      !IsValidHost(url, tldTest) ==> r == Response(Some(404), Text(INVALID_HOST_MESSAGE + url), [])
    ensures var url := TargetUrl(requestPath);
      IsValidHost(url, tldTest) ==>
        && r.status == None
        && r.upstreamRequests == [url]
        && r.body == match upstream(url) case Received(b) => Text(b) case Threw(e) => Error(e)
  {
    var status: Option<int> := None;
    var body := Unset;
    var requests: seq<string> := [];
    var requestUrl := TargetUrl(requestPath);

    if !IsValidHost(requestUrl, tldTest) {
      status := Some(404);
      body := Text(INVALID_HOST_MESSAGE + requestUrl);
      return Response(status, body, requests);
    }

    requests := requests + [requestUrl];
    var fetched := upstream(requestUrl);
    match fetched {
      case Received(responseBody) => body := Text(responseBody);
      case Threw(e) => body := Error(e);
    }
    r := Response(status, body, requests);
  }
}
