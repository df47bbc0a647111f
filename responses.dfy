/**
 * `Response`, its value-returning builders and `build`, which renders it
 * into the status, header map and body handed to the HTTP transport.
 */
module Responses {
  import opened Wrappers
  import opened Headers

  /** Rust's `u16`. */
  type U16 = x: int | 0 <= x < 0x1_0000

  /** A response as handlers produce it. It is a value: the builders return updated copies. */
  datatype Response = Response(body: string, status: U16, headers: map<string, string>)

  /**
   * The responses a handler can return. The fields of the Rust `Response`
   * are private, so every response starts from `html`, which sets
   * `Content-Type`, and neither builder removes a key.
   */
  type HandlerResponse = r: Response | "Content-Type" in r.headers
    witness Response("", 200, map["Content-Type" := "text/html"])

  datatype ResponseError = CannotGetHeaders | InvalidHeaderName | InvalidHeaderValue | FailedToCreateHeader

  /** The rendered response (`hyper::Response<String>`): its header map is keyed by lower-cased names. */
  datatype Rendered = Rendered(status: int, headers: map<string, string>, body: string)

  /** `Response::html`: status 200 and `Content-Type: text/html` as the only header. */
  function Html(body: string): (r: Response)
    ensures r.body == body && r.status == 200
    ensures r.headers.Keys == {"Content-Type"} && r.headers["Content-Type"] == "text/html"
  {
    Response(body, 200, map["Content-Type" := "text/html"])
  }

  /** `Response::with_status`: a copy that differs from `r` in its status only. */
  function WithStatus(r: Response, status: U16): (r': Response)
    ensures r'.status == status
    ensures r'.body == r.body && r'.headers == r.headers
  {
    r.(status := status)
  }

  /** `Response::with_header`: a copy in which `key` holds `value` and nothing else differs from `r`. */
  function WithHeader(r: Response, key: string, value: string): (r': Response)
    ensures r'.body == r.body && r'.status == r.status
    ensures r'.headers.Keys == r.headers.Keys + {key} && r'.headers[key] == value
    ensures forall k :: k in r.headers && k != key ==> r'.headers[k] == r.headers[k]
  {
    r.(headers := r.headers[key := value])
  }

  /** The status codes `StatusCode` accepts; any other leaves the response builder in its error state. */
  predicate ValidStatus(status: int) {
    100 <= status <= 999
  }

  predicate HeadersValid(headers: map<string, string>) {
    forall k :: k in headers ==> ValidName(k) && ValidValue(headers[k])
  }

  /** The `content-length` value: the decimal byte length of the body. */
  function ContentLength(body: string): string {
    DecimalString(ByteLength(body))
  }

  /** No two supplied names differ only in the case of their letters. */
  predicate NoCaseClash(headers: map<string, string>) {
    forall a, b :: a in headers && b in headers && a != b ==> Lower(a) != Lower(b)
  }

  /**
   * The rendered header map `out` for the supplied headers and body: one
   * entry per lower-cased supplied name plus `content-length`; each entry but
   * `content-length` holds the value of a supplied name that lower-cases to
   * it (which one, when several do, depends on the unspecified iteration
   * order); `content-length` is the body's byte length, whatever was supplied.
   */
  predicate RendersHeaders(headers: map<string, string>, body: string, out: map<string, string>) {
    && out.Keys == (set k | k in headers :: Lower(k)) + {"content-length"}
    && out["content-length"] == ContentLength(body)
    && forall n :: n in out && n != "content-length" ==>
         exists k :: k in headers && Lower(k) == n && out[n] == headers[k]
  }

  /**
   * The outcomes `build` may have. It fails with `CannotGetHeaders` exactly
   * when the status is not a valid status code; otherwise with
   * `InvalidHeaderName` only if some name is invalid and with
   * `InvalidHeaderValue` only if some header has a valid name and an invalid
   * value (which of the two is reported, when both apply, depends on the
   * iteration order); it never fails with `FailedToCreateHeader`. It succeeds
   * only when every header is valid, carrying the status and the body.
   */
  predicate BuildsTo(resp: Response, result: Result<Rendered, ResponseError>) {
    match result
    case Failure(CannotGetHeaders) => !ValidStatus(resp.status)
    case Failure(InvalidHeaderName) =>
      ValidStatus(resp.status) && exists k :: k in resp.headers && !ValidName(k)
    case Failure(InvalidHeaderValue) =>
      ValidStatus(resp.status) && exists k :: k in resp.headers && ValidName(k) && !ValidValue(resp.headers[k])
    case Failure(FailedToCreateHeader) => false
    case Success(out) =>
      && ValidStatus(resp.status)
      && HeadersValid(resp.headers)
      && out.status == resp.status
      && out.body == resp.body
      && RendersHeaders(resp.headers, resp.body, out.headers)
  }

  /**
   * `Response::build`. The supplied headers are visited in an order the
   * model leaves open, as a `HashMap` iteration does.
   */
  method Build(resp: Response) returns (result: Result<Rendered, ResponseError>)
    ensures BuildsTo(resp, result)
  {
    if !ValidStatus(resp.status) {
      return Failure(CannotGetHeaders);
    }

    var headers: map<string, string> := map[];
    var remaining := resp.headers.Keys;
    while remaining != {}
      invariant remaining <= resp.headers.Keys
      invariant forall k :: k in resp.headers && k !in remaining ==> ValidName(k) && ValidValue(resp.headers[k])
      invariant headers.Keys == set k | k in resp.headers && k !in remaining :: Lower(k)
      invariant forall n :: n in headers ==>
        exists k :: k in resp.headers && k !in remaining && Lower(k) == n && headers[n] == resp.headers[k]
      decreases remaining
    {
      var k :| k in remaining;
      if !ValidName(k) {
        return Failure(InvalidHeaderName);
      }
      if !ValidValue(resp.headers[k]) {
        return Failure(InvalidHeaderValue);
      }
      headers := headers[Lower(k) := resp.headers[k]];
      remaining := remaining - {k};
    }

    // The decimal length is always a legal value, so `FailedToCreateHeader` cannot arise.
    DecimalIsValidValue(ByteLength(resp.body));
    headers := headers["content-length" := ContentLength(resp.body)];
    return Success(Rendered(resp.status, headers, resp.body));
  }

  /** `build` succeeds exactly when the status is a valid code and every supplied header is valid. */
  lemma BuildSucceedsIff(resp: Response, result: Result<Rendered, ResponseError>)
    requires BuildsTo(resp, result)
    ensures result.Success? <==> ValidStatus(resp.status) && HeadersValid(resp.headers)
  {
  }

  /** With no two names differing only in case, `build` has at most one successful outcome. */
  lemma BuildDeterministic(resp: Response, r1: Result<Rendered, ResponseError>, r2: Result<Rendered, ResponseError>)
    requires NoCaseClash(resp.headers)
    requires BuildsTo(resp, r1) && BuildsTo(resp, r2) && r1.Success?
    ensures r1 == r2
  {
    var h1, h2 := r1.value.headers, r2.value.headers;
    assert h1.Keys == h2.Keys;
    forall n | n in h1
      ensures h1[n] == h2[n]
    {
      if n != "content-length" {
        var k1 :| k1 in resp.headers && Lower(k1) == n && h1[n] == resp.headers[k1];
        var k2 :| k2 in resp.headers && Lower(k2) == n && h2[n] == resp.headers[k2];
        assert k1 == k2;
      }
    }
    assert h1 == h2;
  }

  /**
   * A supplied header whose lower-cased name is shared with no other supplied
   * name, and is not `content-length`, appears in the rendered map with its value.
   */
  lemma BuildKeepsHeader(resp: Response, out: Rendered, key: string)
    requires BuildsTo(resp, Success(out))
    requires key in resp.headers && Lower(key) != "content-length"
    requires forall k :: k in resp.headers && k != key ==> Lower(k) != Lower(key)
    ensures Lower(key) in out.headers && out.headers[Lower(key)] == resp.headers[key]
  {
    assert Lower(key) in (set k | k in resp.headers :: Lower(k));
  }

  /**
   * The rendered `content-length` reads back as the body's byte length, even
   * when the caller set a `Content-Length` of its own.
   */
  lemma ContentLengthAuthoritative(resp: Response, supplied: string, out: Rendered)
    requires BuildsTo(WithHeader(resp, "Content-Length", supplied), Success(out))
    ensures "content-length" in out.headers
    ensures ParseDecimal(out.headers["content-length"]) == ByteLength(resp.body)
  {
    DecimalRoundTrip(ByteLength(resp.body));
  }

  /**
   * An HTML response given a valid status renders to exactly that status, the
   * body, `content-type: text/html` and the computed `content-length`.
   */
  lemma HtmlRendering(body: string, status: U16, result: Result<Rendered, ResponseError>)
    requires ValidStatus(status)
    ensures BuildsTo(WithStatus(Html(body), status), result) <==>
      result == Success(Rendered(status, map["content-type" := "text/html", "content-length" := ContentLength(body)], body))
  {
    var resp := WithStatus(Html(body), status);
    assert ValidName("Content-Type") by {
      assert forall i :: 0 <= i < |"Content-Type"| ==> IsTokenChar("Content-Type"[i]);
    }
    assert Lower("Content-Type") == "content-type";
    assert HeadersValid(resp.headers);
    assert (set k | k in resp.headers :: Lower(k)) == {"content-type"};
    var expected := map["content-type" := "text/html", "content-length" := ContentLength(body)];
    if BuildsTo(resp, result) {
      var out := result.value;
      assert out.headers.Keys == expected.Keys;
      assert out.headers == expected;
    }
    if result == Success(Rendered(status, expected, body)) {
      assert RendersHeaders(resp.headers, body, expected);
    }
  }

  /**
   * A header added to an HTML response with `with_header`, and a status set
   * with `with_status`, both survive rendering beside the default
   * `content-type` and the computed `content-length`.
   */
  lemma HeaderAndStatusRendering(body: string, status: U16, result: Result<Rendered, ResponseError>)
    requires ValidStatus(status)
    requires BuildsTo(WithStatus(WithHeader(Html(body), "X-Test", "v"), status), result)
    ensures result.Success? && result.value.status == status && result.value.body == body
    ensures result.value.headers == map["x-test" := "v", "content-type" := "text/html", "content-length" := ContentLength(body)]
  {
    var resp := WithStatus(WithHeader(Html(body), "X-Test", "v"), status);
    assert ValidName("Content-Type") by {
      assert forall i :: 0 <= i < |"Content-Type"| ==> IsTokenChar("Content-Type"[i]);
    }
    assert ValidName("X-Test") by {
      assert forall i :: 0 <= i < |"X-Test"| ==> IsTokenChar("X-Test"[i]);
    }
    assert Lower("Content-Type") == "content-type";
    assert Lower("X-Test") == "x-test";
    assert resp.headers == map["Content-Type" := "text/html", "X-Test" := "v"];
    assert HeadersValid(resp.headers);
    assert (set k | k in resp.headers :: Lower(k)) == {"content-type", "x-test"};
    var out := result.value;
    assert out.headers.Keys == {"x-test", "content-type", "content-length"};
  }

  /** `html` yields a handler response, and both builders keep one. */
  lemma BuildersKeepContentType(body: string, r: HandlerResponse, status: U16, key: string, value: string)
    ensures "Content-Type" in Html(body).headers
    ensures "Content-Type" in WithStatus(r, status).headers
    ensures "Content-Type" in WithHeader(r, key, value).headers
  {
  }

  /** A built handler response always carries a `content-type` entry. */
  lemma ContentTypeAlwaysRendered(resp: HandlerResponse, out: Rendered)
    requires BuildsTo(resp, Success(out))
    ensures "content-type" in out.headers
  {
    assert Lower("Content-Type") == "content-type";
    assert "content-type" in (set k | k in resp.headers :: Lower(k));
  }

  /**
   * As written, `with_header("content-type", …)` on an HTML response keeps
   * both "Content-Type" and "content-type"; both render to the key
   * `content-type`, and the iteration order alone decides which value is sent.
   */
  lemma CaseVariantOverrideAmbiguous(body: string)
    ensures var resp := WithHeader(Html(body), "content-type", "application/json");
      && BuildsTo(resp, Success(Rendered(200, map["content-type" := "text/html", "content-length" := ContentLength(body)], body)))
      && BuildsTo(resp, Success(Rendered(200, map["content-type" := "application/json", "content-length" := ContentLength(body)], body)))
  {
    var headers := map["Content-Type" := "text/html", "content-type" := "application/json"];
    assert WithHeader(Html(body), "content-type", "application/json").headers == headers;
    ContentTypeNames();
    assert HeadersValid(headers);
    assert (set k | k in headers :: Lower(k)) == {"content-type"};
    var html := map["content-type" := "text/html", "content-length" := ContentLength(body)];
    var json := map["content-type" := "application/json", "content-length" := ContentLength(body)];
    assert RendersHeaders(headers, body, html) by {
      assert html["content-type"] == headers["Content-Type"];
    }
    assert RendersHeaders(headers, body, json) by {
      assert json["content-type"] == headers["content-type"];
    }
  }

  /** Both spellings of the content-type name are valid and lower-case to `content-type`. */
  lemma ContentTypeNames()
    ensures ValidName("Content-Type") && ValidName("content-type")
    ensures Lower("Content-Type") == "content-type" && Lower("content-type") == "content-type"
  {
    assert forall i :: 0 <= i < |"Content-Type"| ==> IsTokenChar("Content-Type"[i]);
    assert forall i :: 0 <= i < |"content-type"| ==> IsTokenChar("content-type"[i]);
  }

  /**
   * `with_header` with case-insensitive keys: every supplied name equal to
   * `key` up to case is dropped before `key` is inserted, so the latest value
   * set under any spelling is the one kept.
   */
  function WithHeaderCaseless(r: Response, key: string, value: string): (r': Response)
    ensures r'.body == r.body && r'.status == r.status
    ensures key in r'.headers && r'.headers[key] == value
    ensures forall k :: k in r'.headers && k != key ==>
      k in r.headers && Lower(k) != Lower(key) && r'.headers[k] == r.headers[k]
    ensures forall k :: k in r.headers && Lower(k) != Lower(key) ==> k in r'.headers
    ensures NoCaseClash(r.headers) ==> NoCaseClash(r'.headers)
  {
    r.(headers := (map k | k in r.headers && Lower(k) != Lower(key) :: r.headers[k])[key := value])
  }

  /**
   * With case-insensitive overriding, building renders the value last set for
   * a name, and the rendered map is determined by the response.
   */
  lemma CaselessOverrideRenders(resp: Response, key: string, value: string, out: Rendered)
    requires NoCaseClash(resp.headers) && Lower(key) != "content-length"
    requires BuildsTo(WithHeaderCaseless(resp, key, value), Success(out))
    ensures Lower(key) in out.headers && out.headers[Lower(key)] == value
    ensures forall r :: BuildsTo(WithHeaderCaseless(resp, key, value), r) ==> r == Success(out)
  {
    var resp' := WithHeaderCaseless(resp, key, value);
    BuildKeepsHeader(resp', out, key);
    forall r | BuildsTo(resp', r)
      ensures r == Success(out)
    {
      BuildDeterministic(resp', Success(out), r);
    }
  }
}
