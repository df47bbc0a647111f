/**
 * Pattern matching and parameter extraction: `Bobby::uri_matches_path` and
 * `Bobby::extract_params`. Both split the pattern and the URI path into
 * segments (module Paths) and walk the pattern segment by segment.
 */
module Matcher {
  import opened Wrappers
  import opened Paths

  /** A parameter segment, required `{name}` or optional `{name?}`: starts with '{' and ends with '}'. */
  predicate IsParam(seg: string) {
    |seg| > 0 && seg[0] == '{' && seg[|seg| - 1] == '}'
  }

  /** An optional parameter segment: a parameter that ends with "?}". */
  predicate IsOptional(seg: string) {
    IsParam(seg) && |seg| >= 2 && seg[|seg| - 2] == '?'
  }

  /**
   * The name of a parameter segment: the braces stripped, and for an optional
   * one the '?' before the closing brace too. The slice bounds are always in
   * range.
   */
  function ParamName(seg: string): string
    requires IsParam(seg)
  {
    if IsOptional(seg) then seg[1..|seg| - 2] else seg[1..|seg| - 1]
  }

  /** Wrapping a parameter's name back in its delimiters gives the segment. */
  lemma ParamNameRoundTrip(seg: string)
    requires IsParam(seg)
    ensures seg == if IsOptional(seg) then "{" + ParamName(seg) + "?}" else "{" + ParamName(seg) + "}"
  {
  }

  /**
   * When the segments `uri` of a request path match the segments `pat` of a pattern:
   * the URI has no more segments than the pattern, every literal pattern segment
   * aligned with a URI segment equals it, and when the URI is shorter the first
   * pattern segment without a partner is an optional parameter. Pattern segments
   * past that one play no part.
   */
  predicate Matches(pat: seq<string>, uri: seq<string>) {
    && |uri| <= |pat|
    && (forall i :: 0 <= i < |uri| ==> IsParam(pat[i]) || pat[i] == uri[i])
    && (|uri| < |pat| ==> IsOptional(pat[|uri|]))
  }

  /** Whether the request path `uri` matches the route pattern `path`. */
  method UriMatchesPath(uri: string, path: string) returns (matched: bool)
    ensures matched == Matches(Segments(path), Segments(uri))
  {
    var pathParts := Segments(path);
    var uriParts := Segments(uri);

    if |uriParts| > |pathParts| {
      return false;
    }

    for i := 0 to |pathParts|
      invariant i <= |uriParts|
      invariant forall j :: 0 <= j < i ==> IsParam(pathParts[j]) || pathParts[j] == uriParts[j]
    {
      var pathPart := pathParts[i];
      var isParam := IsParam(pathPart);
      var isOptionalParam := isParam && IsOptional(pathPart);

      if i >= |uriParts| {
        return isOptionalParam;
      }

      if !isParam && uriParts[i] != pathPart {
        return false;
      }

      if isParam && !isOptionalParam && uriParts[i] == "" {
        // Dead: segments are never empty after the split-and-filter.
        assert false;
      }
    }

    return |uriParts| <= |pathParts|;
  }

  /**
   * True when no parameter segment after position `i` (and before `n`, within
   * the URI) carries the same name as the one at `i`: the binding made at `i`
   * is the last one for that name.
   */
  predicate LastBinding(pat: seq<string>, uri: seq<string>, n: nat, i: nat)
    requires i < n <= |pat| && IsParam(pat[i])
  {
    forall j :: i < j < n && j < |uri| && IsParam(pat[j]) ==> ParamName(pat[j]) != ParamName(pat[i])
  }

  /** The parameter map after the first `n` pattern segments have been visited. */
  function ParamsUpTo(pat: seq<string>, uri: seq<string>, n: nat): map<string, string>
    requires n <= |pat|
  {
    if n == 0 then map[]
    else
      var params := ParamsUpTo(pat, uri, n - 1);
      if IsParam(pat[n - 1]) && n - 1 < |uri| then params[ParamName(pat[n - 1]) := uri[n - 1]]
      else params
  }

  /**
   * After `n` segments a name is bound exactly when a parameter segment
   * carrying it sits at a position below `n` that the URI reaches, and it
   * holds the URI segment at the last such position.
   */
  lemma {:induction false} ParamsUpToSpec(pat: seq<string>, uri: seq<string>, n: nat)
    requires n <= |pat|
    ensures forall k :: k in ParamsUpTo(pat, uri, n) <==>
      exists i :: 0 <= i < n && i < |uri| && IsParam(pat[i]) && ParamName(pat[i]) == k
    ensures forall i :: 0 <= i < n && i < |uri| && IsParam(pat[i]) && LastBinding(pat, uri, n, i) ==>
      ParamName(pat[i]) in ParamsUpTo(pat, uri, n) && ParamsUpTo(pat, uri, n)[ParamName(pat[i])] == uri[i]
  {
    if n > 0 {
      ParamsUpToSpec(pat, uri, n - 1);
      forall i | 0 <= i < n && i < |uri| && IsParam(pat[i]) && LastBinding(pat, uri, n, i)
        ensures ParamName(pat[i]) in ParamsUpTo(pat, uri, n) && ParamsUpTo(pat, uri, n)[ParamName(pat[i])] == uri[i]
      {
        if i < n - 1 {
          assert LastBinding(pat, uri, n - 1, i);
        }
      }
    }
  }

  /** The parameter map of a whole pattern against a URI. */
  function Params(pat: seq<string>, uri: seq<string>): map<string, string> {
    ParamsUpTo(pat, uri, |pat|)
  }

  /** The parameters of the route pattern `path` bound by the request path `uri`; never None. */
  method ExtractParams(uri: string, path: string) returns (result: Option<map<string, string>>)
    ensures result == Some(Params(Segments(path), Segments(uri)))
  {
    var pathParts := Segments(path);
    var uriParts := Segments(uri);
    var params: map<string, string> := map[];

    for i := 0 to |pathParts|
      invariant params == ParamsUpTo(pathParts, uriParts, i)
    {
      var pathPart := pathParts[i];
      if IsParam(pathPart) {
        var paramName := ParamName(pathPart);
        if i < |uriParts| {
          params := params[paramName := uriParts[i]];
        }
      }
    }

    return Some(params);
  }

  /** A pattern made of literals only matches exactly the URI with the same segments. */
  lemma LiteralPatternMatchesOnlyItself(pat: seq<string>, uri: seq<string>)
    requires forall i :: 0 <= i < |pat| ==> !IsParam(pat[i])
    ensures Matches(pat, uri) <==> pat == uri
  {
    if Matches(pat, uri) {
      assert |uri| == |pat|;
      assert forall i :: 0 <= i < |pat| ==> pat[i] == uri[i];
    }
  }

  /** Once the URI runs out, the pattern segments after the first unpaired one are never examined. */
  lemma MatchIgnoresTail(pat: seq<string>, uri: seq<string>, tail: seq<string>)
    requires |uri| < |pat|
    ensures Matches(pat[..|uri| + 1] + tail, uri) <==> Matches(pat, uri)
  {
    var cut := pat[..|uri| + 1] + tail;
    assert forall i :: 0 <= i <= |uri| ==> cut[i] == pat[i];
  }

  /**
   * A pattern in which an optional parameter is followed only by optional
   * parameters: every pattern segment after an optional one is optional too.
   */
  predicate OptionalsTrail(pat: seq<string>) {
    forall i, j :: 0 <= i < j < |pat| && IsOptional(pat[i]) ==> IsOptional(pat[j])
  }

  /**
   * On a pattern whose optional parameters all trail, a match binds the name
   * of every required parameter.
   */
  lemma MatchBindsRequired(pat: seq<string>, uri: seq<string>, i: nat)
    requires Matches(pat, uri) && OptionalsTrail(pat)
    requires i < |pat| && IsParam(pat[i]) && !IsOptional(pat[i])
    ensures ParamName(pat[i]) in Params(pat, uri)
  {
    assert i < |uri|;
    ParamsUpToSpec(pat, uri, |pat|);
  }

  /**
   * Without that discipline a match can leave a required parameter unbound:
   * `/a/{x?}/{y}` matches `/a`, and neither `x` nor `y` is bound.
   */
  lemma OptionalBeforeRequired()
    ensures Matches(["a", "{x?}", "{y}"], ["a"])
    ensures Params(["a", "{x?}", "{y}"], ["a"]) == map[]
  {
    var pat := ["a", "{x?}", "{y}"];
    assert IsOptional(pat[1]);
    assert !IsParam(pat[0]);
    assert ParamsUpTo(pat, ["a"], 1) == map[];
    assert ParamsUpTo(pat, ["a"], 2) == map[];
  }

  /** `/users/{id}` matches `/users/42` and binds `id` to "42"; it matches neither `/users` nor `/users/42/extra`. */
  lemma RequiredParamExample()
    ensures Matches(Segments("/users/{id}"), Segments("/users/42"))
    ensures Params(Segments("/users/{id}"), Segments("/users/42")) == map["id" := "42"]
    ensures !Matches(Segments("/users/{id}"), Segments("/users"))
    ensures !Matches(Segments("/users/{id}"), Segments("/users/42/extra"))
  {
    UsersSegments();
    RequiredParamBinds();
  }

  lemma RequiredParamBinds()
    ensures Params(["users", "{id}"], ["users", "42"]) == map["id" := "42"]
  {
    var pat := ["users", "{id}"];
    assert !IsParam(pat[0]) && IsParam(pat[1]) && !IsOptional(pat[1]);
    assert ParamName(pat[1]) == "id";
    assert ParamsUpTo(pat, ["users", "42"], 1) == map[];
  }

  /** `/users/{id?}` matches `/users` with no binding, and `/users/42` with `id` bound to "42". */
  lemma OptionalParamExample()
    ensures Matches(Segments("/users/{id?}"), Segments("/users"))
    ensures Params(Segments("/users/{id?}"), Segments("/users")) == map[]
    ensures Matches(Segments("/users/{id?}"), Segments("/users/42"))
    ensures Params(Segments("/users/{id?}"), Segments("/users/42")) == map["id" := "42"]
  {
    UsersSegments();
    OptionalParamBinds();
  }

  lemma OptionalParamBinds()
    ensures Matches(["users", "{id?}"], ["users"])
    ensures Params(["users", "{id?}"], ["users"]) == map[]
    ensures Params(["users", "{id?}"], ["users", "42"]) == map["id" := "42"]
  {
    var pat := ["users", "{id?}"];
    assert !IsParam(pat[0]) && IsOptional(pat[1]);
    assert ParamName(pat[1]) == "id";
    assert ParamsUpTo(pat, ["users"], 1) == map[];
    assert ParamsUpTo(pat, ["users", "42"], 1) == map[];
  }

  /** `/a/b` matches neither the longer `/a/b/c` nor the shorter `/a`. */
  lemma LiteralPatternExample()
    ensures !Matches(Segments("/a/b"), Segments("/a/b/c"))
    ensures !Matches(Segments("/a/b"), Segments("/a"))
  {
    SegmentsOf(["a", "b"], "a/b");
    SegmentsOf(["a", "b", "c"], "a/b/c");
    SegmentsOf(["a"], "a");
    assert !IsParam("b");
  }

  /** The segments of the concrete paths used by the examples above. */
  lemma UsersSegments()
    ensures Segments("/users/{id}") == ["users", "{id}"]
    ensures Segments("/users/{id?}") == ["users", "{id?}"]
    ensures Segments("/users") == ["users"]
    ensures Segments("/users/42") == ["users", "42"]
    ensures Segments("/users/42/extra") == ["users", "42", "extra"]
  {
    SegmentsOf(["users", "{id}"], "users/{id}");
    SegmentsOf(["users", "{id?}"], "users/{id?}");
    SegmentsOf(["users"], "users");
    SegmentsOf(["users", "42"], "users/42");
    SegmentsOf(["users", "42", "extra"], "users/42/extra");
  }

  /** The segments of "/" followed by `joined`, the segments `segs` joined with '/'. */
  lemma SegmentsOf(segs: seq<string>, joined: string)
    requires segs != [] && forall i :: 0 <= i < |segs| ==> segs[i] != "" && NoSlash(segs[i])
    requires Join(segs) == joined
    ensures Segments("/" + joined) == segs
  {
    SegmentsOfPath(segs);
  }
}
