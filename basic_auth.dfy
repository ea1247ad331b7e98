/** The base `Auth` class of the basic-authentication API: which paths need
    authentication, and how the `Authorization` header is read.
    Nothing here changes state, so everything is a function. */
module BasicAuth {
  import opened Wrappers
  import opened Web

  /** Python's `p[:-1]`: the pattern without its last character, whatever
      that character is (and the empty string stays empty). */
  function DropLast(p: string): (r: string)
    ensures |p| > 0 ==> |r| == |p| - 1
    ensures r <= p
  {
    if |p| == 0 then p else p[..|p| - 1]
  }

  /** The test made for one pattern of the exclusion list. */
  predicate ExcludedBy(path: string, pattern: string)
  {
    path == pattern || DropLast(pattern) <= path
  }

  /** The search loop over the exclusion list, with its early exit:
      true exactly when some pattern excludes the path. */
  function AnyExcludes(path: string, patterns: seq<string>): (r: bool)
    ensures r <==> exists i :: 0 <= i < |patterns| && ExcludedBy(path, patterns[i])
  {
    if patterns == [] then false
    else if ExcludedBy(path, patterns[0]) then true
    else
      var rest := AnyExcludes(path, patterns[1..]);
      assert forall i :: 1 <= i < |patterns| ==> patterns[i] == patterns[1..][i - 1];
      rest
  }

  /** Whether a request to `path` must be authenticated. */
  function RequireAuth(path: Option<string>, excludedPaths: Option<seq<string>>): (r: bool)
    ensures path.None? ==> r
    ensures excludedPaths.None? || excludedPaths == Some([]) ==> r
    ensures !r <==> path.Some? && excludedPaths.Some? &&
                    exists i :: 0 <= i < |excludedPaths.value| && ExcludedBy(path.value, excludedPaths.value[i])
  {
    if path.None? then true
    else if excludedPaths.None? || |excludedPaths.value| == 0 then true
    else !AnyExcludes(path.value, excludedPaths.value)
  }

  /** The `path == pattern` test adds nothing: a pattern always starts with
      itself minus its last character, so only the prefix test decides. */
  lemma ExclusionIsPrefixTest(path: string, pattern: string)
    ensures ExcludedBy(path, pattern) <==> DropLast(pattern) <= path
  {
    if path == pattern {
      assert DropLast(pattern) <= pattern;
    }
  }

  /** A path is excluded by a pattern exactly when it starts with the
      pattern minus its last character, so an exclusion list excludes
      every path that extends any of its stripped patterns. */
  lemma ExcludedPathsStayExcluded(path: string, suffix: string, patterns: seq<string>)
    requires !RequireAuth(Some(path), Some(patterns))
    ensures !RequireAuth(Some(path + suffix), Some(patterns))
  {
    var i :| 0 <= i < |patterns| && ExcludedBy(path, patterns[i]);
    ExclusionIsPrefixTest(path, patterns[i]);
    assert DropLast(patterns[i]) <= path + suffix;
  }

  /** The empty pattern drops to the empty prefix, so it excludes every path. */
  lemma EmptyPatternExcludesAll(path: string, patterns: seq<string>)
    requires "" in patterns
    ensures !RequireAuth(Some(path), Some(patterns))
  {
    var i :| 0 <= i < |patterns| && patterns[i] == "";
    assert ExcludedBy(path, patterns[i]);
  }

  /** `/api/v1/status` is excluded by the slash form and by a wildcard form,
      and so is any path that extends the stripped pattern. */
  lemma StatusExamples()
    ensures !RequireAuth(Some("/api/v1/status"), Some(["/api/v1/status/"]))
    ensures !RequireAuth(Some("/api/v1/status/"), Some(["/api/v1/status/"]))
    ensures !RequireAuth(Some("/api/v1/status"), Some(["/api/v1/status*"]))
    ensures !RequireAuth(Some("/api/v1/status"), Some(["/api/v1/stat*"]))
    ensures !RequireAuth(Some("/api/v1/statuses"), Some(["/api/v1/status/"]))
    ensures RequireAuth(Some("/api/v1/users"), Some(["/api/v1/status*"]))
    ensures RequireAuth(Some("/x"), Some([]))
  {
    assert ExcludedBy("/api/v1/status", "/api/v1/status/");
    assert ExcludedBy("/api/v1/status/", "/api/v1/status/");
    assert ExcludedBy("/api/v1/status", "/api/v1/status*");
    assert ExcludedBy("/api/v1/status", "/api/v1/stat*");
    assert ExcludedBy("/api/v1/statuses", "/api/v1/status/");
    assert "/api/v1/users"[8] != "/api/v1/status"[8];
    assert !ExcludedBy("/api/v1/users", "/api/v1/status*");
  }

  /** The header value, when the request carries an `Authorization` header. */
  function AuthorizationHeader(request: Option<Request>): (r: Option<string>)
    ensures r.Some? <==> request.Some? && "Authorization" in request.value.headers
    ensures r.Some? ==> r.value == request.value.headers["Authorization"]
  {
    if request.None? then None
    else if "Authorization" !in request.value.headers then None
    else Some(request.value.headers["Authorization"])
  }

  /** Whatever value is put in the `Authorization` header is read back
      unchanged, and the other headers do not matter. */
  lemma AuthorizationHeaderRoundTrip(request: Request, token: string)
    ensures AuthorizationHeader(Some(request.(headers := request.headers["Authorization" := token]))) == Some(token)
    ensures AuthorizationHeader(Some(request.(headers := request.headers - {"Authorization"}))) == None
  {
  }

  /** The base strategy resolves no user: every request is anonymous. */
  function CurrentUser(request: Option<Request>): (r: Option<string>)
    ensures r.None?
  {
    None
  }
}
