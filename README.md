# bobby: a verified model of the router core

This project models the core of `bobby`, a small HTTP router written in Rust
on top of hyper. Applications register routes: a method, a path pattern and
a handler. For each incoming request the router picks the first registered
route whose method equals the request's and whose pattern matches the URI
path. It extracts the pattern's named parameters and calls the handler. It
then renders the handler's `Response` into a `hyper::Response`, with
normalised header names and an authoritative `content-length`. When no route
matches, it renders a 404 "Not found." page.

Modules, one per component of `src/bobby.rs`:

- `Wrappers` (`wrappers.dfy`): `Option` and `Result`.
- `Paths` (`paths.dfy`): `str::split('/')` and the filter that drops empty pieces.
- `Matcher` (`matcher.dfy`): segment classification (literal, `{name}`, `{name?}`).
  It also holds `uri_matches_path` and `extract_params`. Both are loop methods,
  each proved equal to a specification: the predicate `Matches` and the
  function `Params`.
- `Headers` (`headers.dfy`): which header names and values are legal, ASCII
  lower-casing of names, the UTF-8 byte length of a body, and decimal text.
- `Responses` (`responses.dfy`): `Response` as a value type, and
  `html` / `with_status` / `with_header`. It also holds `build`, a loop over the
  header map that visits keys in an unspecified order, and `BuildsTo`, the
  relation that says which outcomes `build` may have.
- `Router` (`router.dfy`): `Request`, `Route`, `FirstMatch`, and the class
  `Bobby`. The class holds the route table (a `seq` field), the seven
  registration methods that append to it, and `RouteRequest` (the source's
  `route`).

Two consequences of the code are worth stating:

- The walk stops at the first pattern segment beyond the URI. It succeeds
  exactly when that segment is an optional parameter. Later segments are never
  looked at, even required ones, so `/a/{x?}/{y}` matches `/a` without binding
  `y` (`Matcher.OptionalBeforeRequired`).
- The check that rejects an empty URI segment for a required parameter
  (`src/bobby.rs:260`) is dead code. Segments are never empty after filtering.
  In `UriMatchesPath` that branch holds only `assert false`, and the verifier
  proves that it cannot be reached.

## Model

| member | source | states |
|---|---|---|
| `Paths.Split` | src/bobby.rs:241-242 | `split('/')` yields at least one piece and no piece contains '/' |
| `Paths.JoinSplit` | src/bobby.rs:241-242 | splitting loses nothing: joining the pieces with '/' gives back the input |
| `Paths.SplitJoin` | src/bobby.rs:241-242 | on pieces without '/', splitting their join gives the pieces back |
| `Paths.Segments` | src/bobby.rs:241-242 | after filtering, every segment is non-empty and holds no '/' (so the empty-segment check at line 260 can never fire) |
| `Paths.SegmentsConcat` | src/bobby.rs:241-242 | the segments of `a + "/" + b` are the segments of `a` followed by those of `b`, in order |
| `Paths.SlashesNormalised` | src/bobby.rs:241-242 | a doubled slash reads as one, and a trailing slash is ignored |
| `Paths.SegmentsOfPath` | src/bobby.rs:292-293 | a path written as '/' followed by non-empty, slash-free segments joined with '/' splits back into exactly those segments |
| `Matcher.ParamNameRoundTrip` | src/bobby.rs:297-302 | the stripped parameter name, wrapped back in `{`…`}` or `{`…`?}`, is the segment; the slice bounds are in range |
| `Matcher.UriMatchesPath` | src/bobby.rs:240-266 | returns true iff the URI has no more segments than the pattern, every literal pattern segment aligned with a URI segment equals it, and, when the URI is shorter, the pattern segment at index \|uri\| is an optional parameter |
| `Matcher.ParamsUpToSpec` | src/bobby.rs:296-308 | a name is bound iff a parameter segment carrying it lies at an index the URI reaches; it holds the URI segment at the last such index (a repeated name keeps the later value) |
| `Matcher.ExtractParams` | src/bobby.rs:291-311 | always returns `Some`, holding exactly the parameter map `Params` of the pattern and URI segments |
| `Matcher.LiteralPatternMatchesOnlyItself` | src/bobby.rs:244-265 | a pattern with no parameters matches a URI iff their segment sequences are equal |
| `Matcher.MatchIgnoresTail` | src/bobby.rs:249-254 | when the URI is shorter, replacing the pattern segments after index \|uri\| by anything leaves the outcome unchanged |
| `Matcher.MatchBindsRequired` | src/bobby.rs:248-306 | on a pattern whose optional parameters all come last, a match binds every required parameter's name |
| `Matcher.OptionalBeforeRequired` | src/bobby.rs:249-254 | `/a/{x?}/{y}` matches `/a` and binds nothing: a required parameter after an optional one can go unbound |
| `Matcher.RequiredParamExample` | src/bobby.rs:240-311 | `/users/{id}` matches `/users/42` binding `id` to "42", and matches neither `/users` nor `/users/42/extra` |
| `Matcher.OptionalParamExample` | src/bobby.rs:240-311 | `/users/{id?}` matches `/users` with no binding, and `/users/42` binding `id` to "42" |
| `Matcher.LiteralPatternExample` | src/bobby.rs:244-258 | `/a/b` matches neither `/a/b/c` nor `/a` |
| `Headers.LowerNormalises` | src/bobby.rs:126 | lower-casing keeps a name valid, leaves no upper-case letter and is idempotent |
| `Headers.LowerIgnoresCase` | src/bobby.rs:126 | two names lower-case to the same key iff they have equal length and, at each position, the same character or the same ASCII letter in the other case |
| `Headers.ByteLength` | src/bobby.rs:138 | `len()` is between one and four bytes per character, and equals the character count iff the body is ASCII |
| `Headers.DecimalString` | src/bobby.rs:138 | `to_string()` of the length is a non-empty string of digits with no leading zero |
| `Headers.DecimalRoundTrip` | src/bobby.rs:138 | reading the decimal text back gives the length |
| `Headers.DecimalIsValidValue` | src/bobby.rs:136-140 | the decimal length is a legal header value, so `FailedToCreateHeader` cannot occur |
| `Responses.Html` | src/bobby.rs:94-100 | status 200, the given body, and a header map whose only key is `Content-Type`, mapped to `text/html` |
| `Responses.WithStatus` | src/bobby.rs:102-108 | the copy differs from the original only in its status |
| `Responses.WithHeader` | src/bobby.rs:110-116 | the copy maps the key to the value, keeps every other header, body and status |
| `Responses.Build` | src/bobby.rs:118-144 | every outcome satisfies `BuildsTo`. `CannotGetHeaders` iff the status is outside 100..=999. `InvalidHeaderName` / `InvalidHeaderValue` only if some name (resp. some validly named header's value) is illegal. Success only when all are legal: same status and body; one entry per lower-cased name, each holding a supplied value; `content-length` is the body's byte length |
| `Responses.BuildSucceedsIff` | src/bobby.rs:119-133 | `build` succeeds iff the status is valid and every header name and value is legal |
| `Responses.BuildDeterministic` | src/bobby.rs:125-133 | when no two names differ only in case, all successful outcomes are the same response |
| `Responses.BuildKeepsHeader` | src/bobby.rs:125-133 | a supplied header whose lower-cased name is unshared and not `content-length` appears in the output under the lower-cased name with its value |
| `Responses.ContentLengthAuthoritative` | src/bobby.rs:135-140 | even after `with_header("Content-Length", v)`, the rendered `content-length` reads back as the body's byte length |
| `Responses.HtmlRendering` | src/bobby.rs:94-144 | an HTML response with a valid status renders to exactly that status, the body, `content-type: text/html` and the computed `content-length` |
| `Responses.HeaderAndStatusRendering` | src/bobby.rs:94-144 | `html(b).with_header("X-Test", "v").with_status(s)` renders status s with `x-test: v`, `content-type: text/html` and the computed `content-length` |
| `Responses.BuildersKeepContentType` | src/bobby.rs:86-116 | `html` sets `Content-Type`, and `with_status` and `with_header` keep it, so every handler response (type `HandlerResponse`) carries it |
| `Responses.ContentTypeAlwaysRendered` | src/bobby.rs:118-133 | a successfully built handler response always has a `content-type` entry |
| `Responses.CaseVariantOverrideAmbiguous` | src/bobby.rs:110-133 | `html(b).with_header("content-type", "application/json")` may render either content type; iteration order decides |
| `Responses.WithHeaderCaseless` | src/bobby.rs:110-116 | the corrected `with_header`: drops every case variant of the key before inserting, keeps the rest, and preserves the absence of case clashes |
| `Responses.CaselessOverrideRenders` | src/bobby.rs:110-144 | after the corrected `with_header`, the rendered value under the lower-cased key is the one just set, and the rendered response is unique |
| `Router.Param` | src/bobby.rs:55-57 | `Some(v)` iff the name is bound, with v its value |
| `Router.FirstMatch` | src/bobby.rs:273-285 | `Some(i)` iff route i takes the request (equal method, matching pattern) and no earlier route does; `None` iff no route takes it |
| `Router.Bobby.constructor` | src/bobby.rs:162-168 | a new router has an empty route table |
| `Router.Bobby.Get` | src/bobby.rs:175-181 | appends exactly one GET route with the given pattern and handler; earlier routes unchanged |
| `Router.Bobby.Post` | src/bobby.rs:183-189 | appends exactly one POST route; earlier routes unchanged |
| `Router.Bobby.Put` | src/bobby.rs:191-197 | appends exactly one PUT route; earlier routes unchanged |
| `Router.Bobby.Delete` | src/bobby.rs:199-205 | appends exactly one DELETE route; earlier routes unchanged |
| `Router.Bobby.Patch` | src/bobby.rs:207-213 | appends exactly one PATCH route; earlier routes unchanged |
| `Router.Bobby.Options` | src/bobby.rs:215-221 | appends exactly one OPTIONS route; earlier routes unchanged |
| `Router.Bobby.Head` | src/bobby.rs:223-229 | appends exactly one HEAD route; earlier routes unchanged |
| `Router.Bobby.RouteRequest` | src/bobby.rs:268-289 | the result is a possible `build` outcome of the handler response of the first route that takes the request, called with the extracted parameters; with no such route, of the 404 "Not found." HTML response; a successful result always carries `content-type` |
| `Router.NotFoundRendering` | src/bobby.rs:287-288 | the fallback renders to exactly status 404, body "Not found.", `content-type: text/html`, `content-length: 10` |
| `Router.FirstMatchAppend` | src/bobby.rs:175-181 | appending a route keeps the choice when an earlier route takes the request; otherwise the new route is chosen iff it takes the request |
| `Router.FirstMatchWins` | src/bobby.rs:273-284 | with `/items/{id}` registered before `/items/special`, `/items/special` goes to the first route, with `id` bound to "special", although the second also matches |
| `Router.HandlerSeesParam` | src/bobby.rs:275-281 | the chosen handler's `param(name)` for a parameter of its pattern gives the URI segment at the last index carrying that name |

## Left out

- `listen`, `run`, `TokioExecutor` and `log_request`: the TCP accept loop, the async runtime, task spawning and console output.
- `with_address` and the `ip` and `port` fields: bind configuration only.
- `Request::new`, `Request::method` and `Request::uri`: `Request` is a datatype. `RouteRequest` builds it from the incoming request's method and path, with an empty parameter map that it then fills.
- `Uri::path()`: the request is reduced to its method and path string. Percent-decoding and query strings are not modelled.
- The `Display`, `Debug` and `Error` impls of `ResponseError`: formatting only.
- The http crate's header-name parsing (its table of standard names and its length limit) is not part of this model. A name is legal when it is a non-empty token of RFC 7230 section 3.2.6, with upper-case letters lowered. A value is legal when every character is a tab or at least a space and not DEL.
- `Responses.Build`: the order in which the `HashMap` is visited is left open. So the model does not fix which error is reported when several headers are invalid, or which value survives when two supplied names differ only in case.
- `CannotGetHeaders` is modelled as its only cause: a status outside 100..=999, which `StatusCode` refuses. The final `builder.body(..).unwrap()` cannot panic after that check and is not modelled.
- Handlers are total Dafny functions. A handler that panics or loops is not modelled, and neither are handlers with side effects.
- Rust `u16` status values are an integer subtype. Bodies are `string`, and their byte length is computed from UTF-8 widths.
- Turning a build failure into an error response is left to the transport and is not part of the core.

## Findings

| source | as written | input that shows it | evidently intended | confidence | as-written member | corrected member |
|---|---|---|---|---|---|---|
| src/bobby.rs:110-133 | `with_header` inserts the key as spelled, so case variants of one header coexist in the `HashMap`. `build` visits them in `HashMap` order, which is randomised per process, and the last one visited wins | `Response::html(b).with_header("content-type", "application/json").build()` | header keys are case-insensitive, so the value set last is the one sent | medium, not executed | `Responses.CaseVariantOverrideAmbiguous` | `Responses.CaselessOverrideRenders` |
