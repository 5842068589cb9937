/** Request routing of the Deno HTTP server (server/deno-http-server.ts):
    the request-handler prefix table, content-file and content-directory
    rewriting, the order in which `serveRequest` consults them, and the
    response that `serveHandlerRequest` builds from a handler's outcome.

    URL decoding, body parsing and file serving are I/O and are left out:
    the decoded request path is a parameter, handlers are opaque values. */
module HttpServer {
  import opened Wrappers
  import Text
  import Lists

  /** A configuration object such as `requestHandlerPaths`, `contentfiles` or
      `contentdirs`: its own properties in `Object.keys` order, or `None`
      when the configuration leaves it out. */
  type Table<V> = Option<seq<(string, V)>>

  /** The errors the routing code throws. */
  datatype ServerError =
    | HandlerPrefixNoSlash(prefix: string)
    | DotDotInPath(path: string)
    | ContentDirNoSlash(prefix: string)
    | ReplacementNoSlash(replacement: string)

  datatype Config<H> = Config(
    requestHandlerPaths: Table<H>,
    contentfiles: Table<string>,
    contentdirs: Table<string>)

  // ---------------------------------------------------------------------------
  // Prefix search, shared by both tables
  // ---------------------------------------------------------------------------

  /** Entry `i` is the first one, in key order, whose key starts `path`. */
  predicate IsFirstPrefix<V>(es: seq<(string, V)>, path: string, i: int) {
    0 <= i < |es| && Text.StartsWith(path, es[i].0)
    && forall j :: 0 <= j < i ==> !Text.StartsWith(path, es[j].0)
  }

  predicate NoPrefix<V>(es: seq<(string, V)>, path: string) {
    forall i :: 0 <= i < |es| ==> !Text.StartsWith(path, es[i].0)
  }

  /** The linear search of the `for ... of Object.keys(...)` loops. */
  function FirstPrefix<V>(es: seq<(string, V)>, path: string): (r: Option<nat>)
    ensures r.None? <==> NoPrefix(es, path)
    ensures r.Some? ==> IsFirstPrefix(es, path, r.value)
  {
    if |es| == 0 then None
    else if Text.StartsWith(path, es[0].0) then Some(0)
    else match FirstPrefix(es[1..], path)
      case None => None
      case Some(i) => Some(i + 1)
  }

  /** At most one entry is the first match. */
  lemma FirstPrefixUnique<V>(es: seq<(string, V)>, path: string, i: int, j: int)
    requires IsFirstPrefix(es, path, i) && IsFirstPrefix(es, path, j)
    ensures i == j
  {
  }

  // ---------------------------------------------------------------------------
  // matchRequestHandlerPath
  // ---------------------------------------------------------------------------

  /** The handler of the first handler prefix that starts `path`; a matched
      prefix that does not end in `/` is a configuration error. */
  function MatchRequestHandlerPath<H>(handlers: Table<H>, path: string): (r: Result<Option<H>, ServerError>)
    ensures handlers.None? ==> r.Success? && r.value.None?
    ensures handlers.Some? ==>
      (r.Success? && r.value.None? <==> NoPrefix(handlers.value, path))
    ensures handlers.Some? ==> forall i :: IsFirstPrefix(handlers.value, path, i) ==>
      var prefix := handlers.value[i].0;
      if Text.EndsWith(prefix, "/") then r.Success? && r.value == Some(handlers.value[i].1)
      else r == Failure(HandlerPrefixNoSlash(prefix))
  {
    match handlers
    case None => Success(None)
    case Some(es) =>
      match FirstPrefix(es, path)
      case None => Success(None)
      case Some(i) =>
        FirstPrefixAll(es, path, i);
        if !Text.EndsWith(es[i].0, "/") then Failure(HandlerPrefixNoSlash(es[i].0))
        else Success(Some(es[i].1))
  }

  lemma FirstPrefixAll<V>(es: seq<(string, V)>, path: string, i: int)
    requires IsFirstPrefix(es, path, i)
    ensures forall j :: IsFirstPrefix(es, path, j) ==> j == i
  {
    forall j | IsFirstPrefix(es, path, j)
      ensures j == i
    {
      FirstPrefixUnique(es, path, i, j);
    }
  }

  // ---------------------------------------------------------------------------
  // matchContentFilePath
  // ---------------------------------------------------------------------------

  /** `contentfiles[path]`, with `""` standing for both `undefined` and the
      empty string, which the `if(mappedPath)` test treats alike. */
  function MappedFile(files: Table<string>, path: string): (m: string)
    ensures files.Some? ==> forall i ::
      (0 <= i < |files.value| && files.value[i].0 == path
       && forall j :: 0 <= j < i ==> files.value[j].0 != path) ==> m == files.value[i].1
    ensures files.None? || (forall i :: 0 <= i < |files.value| ==> files.value[i].0 != path)
      ==> m == ""
  {
    match files
    case None => ""
    case Some(es) =>
      match Lists.KeyIndex(es, path)
      case None => ""
      case Some(i) => es[i].1
  }

  /** The rewrite under the content directory `prefix -> replacement`,
      with the guards checked in the order the source checks them. */
  function RewriteUnder(prefix: string, replacement: string, path: string): (r: Result<Option<string>, ServerError>)
    requires Text.StartsWith(path, prefix)
    ensures r.Success? ==>
      (r.value.Some?
       && !Text.Includes(path, "..")
       && Text.EndsWith(prefix, "/") && Text.EndsWith(replacement, "/")
       && Text.StartsWith(r.value.value, replacement)
       && prefix + r.value.value[|replacement|..] == path)
    ensures r.Failure? ==>
      r.error == if Text.Includes(path, "..") then DotDotInPath(path)
        else if !Text.EndsWith(prefix, "/") then ContentDirNoSlash(prefix)
        else ReplacementNoSlash(replacement)
    ensures !Text.Includes(path, "..") && Text.EndsWith(prefix, "/") && Text.EndsWith(replacement, "/")
      ==> r.Success?
  {
    if Text.Includes(path, "..") then Failure(DotDotInPath(path))
    else if !Text.EndsWith(prefix, "/") then Failure(ContentDirNoSlash(prefix))
    else if !Text.EndsWith(replacement, "/") then Failure(ReplacementNoSlash(replacement))
    else
      var rest := path[|prefix|..];
      assert path == prefix + rest;
      Text.ConcatParts(replacement, rest);
      assert (replacement + rest)[|replacement|..] == rest;
      Success(Some(replacement + rest))
  }

  /** An exact `contentfiles` entry wins; otherwise the first matching
      content directory rewrites the path; otherwise nothing matches. */
  function MatchContentFilePath(files: Table<string>, dirs: Table<string>, path: string): (r: Result<Option<string>, ServerError>)
    ensures MappedFile(files, path) != "" ==> r == Success(Some(MappedFile(files, path)))
    ensures MappedFile(files, path) == "" && (dirs.None? || NoPrefix(dirs.value, path))
      ==> r == Success(None)
    ensures MappedFile(files, path) == "" && dirs.Some? ==>
      forall i :: IsFirstPrefix(dirs.value, path, i) ==>
        r == RewriteUnder(dirs.value[i].0, dirs.value[i].1, path)
    ensures r.Success? && r.value.Some? ==> r.value.value != ""
  {
    var mapped := MappedFile(files, path);
    if mapped != "" then Success(Some(mapped))
    else match dirs
      case None => Success(None)
      case Some(es) =>
        match FirstPrefix(es, path)
        case None => Success(None)
        case Some(i) =>
          FirstPrefixAll(es, path, i);
          RewriteUnder(es[i].0, es[i].1, path)
  }

  /** A content-directory rewrite is reversible: putting the matched prefix
      back in place of the replacement gives the request path, and the part
      taken over from the request never contains `..`. */
  lemma ContentRewriteInverse(files: Table<string>, dirs: Table<string>, path: string)
    requires MappedFile(files, path) == ""
    requires MatchContentFilePath(files, dirs, path).Success?
    requires MatchContentFilePath(files, dirs, path).value.Some?
    ensures dirs.Some?
    ensures var file := MatchContentFilePath(files, dirs, path).value.value;
      exists i :: IsFirstPrefix(dirs.value, path, i)
        && Text.StartsWith(file, dirs.value[i].1)
        && dirs.value[i].0 + file[|dirs.value[i].1|..] == path
        && !Text.Includes(file[|dirs.value[i].1|..], "..")
  {
    var file := MatchContentFilePath(files, dirs, path).value.value;
    var es := dirs.value;
    var i := FirstPrefix(es, path).value;
    var (prefix, replacement) := es[i];
    assert file == RewriteUnder(prefix, replacement, path).value.value;
    var rest := file[|replacement|..];
    assert path == prefix + rest;
    assert path[|prefix|..] == rest;
    Text.IncludesSuffix(path, "..", |prefix|);
  }

  // ---------------------------------------------------------------------------
  // serveRequest
  // ---------------------------------------------------------------------------

  /** What `serveRequest` does with a request path. `NoHandler` is the
      plain response with the default status that the source returns when
      nothing matches. */
  datatype Dispatch<H> = ToHandler(handler: H) | ToFile(file: string) | NoHandler(body: string)

  const NoHandlerText := "No handler for path: "

  function ServeRequest<H>(c: Config<H>, path: string): (r: Result<Dispatch<H>, ServerError>)
    ensures r.Success? && r.value.ToFile? ==>
      (c.requestHandlerPaths.None? || NoPrefix(c.requestHandlerPaths.value, path))
      && MatchContentFilePath(c.contentfiles, c.contentdirs, path) == Success(Some(r.value.file))
    ensures r.Success? && r.value.NoHandler? <==>
      (c.requestHandlerPaths.None? || NoPrefix(c.requestHandlerPaths.value, path))
      && MatchContentFilePath(c.contentfiles, c.contentdirs, path) == Success(None)
    ensures r.Success? && r.value.NoHandler? ==> r.value.body == NoHandlerText + path
    ensures var h := MatchRequestHandlerPath(c.requestHandlerPaths, path);
      && (h.Failure? ==> r == Failure(h.error))
      && (h.Success? && h.value.Some? ==> r == Success(ToHandler(h.value.value)))
    ensures var h := MatchRequestHandlerPath(c.requestHandlerPaths, path);
      var m := MatchContentFilePath(c.contentfiles, c.contentdirs, path);
      h.Success? && h.value.None? ==>
        && (m.Failure? ==> r == Failure(m.error))
        && (m.Success? && m.value.Some? ==> r == Success(ToFile(m.value.value)))
  {
    var handler :- MatchRequestHandlerPath(c.requestHandlerPaths, path);
    if handler.Some? then Success(ToHandler(handler.value))
    else
      var file :- MatchContentFilePath(c.contentfiles, c.contentdirs, path);
      if file.Some? then Success(ToFile(file.value))
      else Success(NoHandler(NoHandlerText + path))
  }

  /** A request-handler prefix takes precedence: once one matches, the
      content tables play no part in the outcome. */
  lemma HandlerPrecedence<H>(c: Config<H>, d: Config<H>, path: string)
    requires c.requestHandlerPaths == d.requestHandlerPaths
    requires c.requestHandlerPaths.Some? && !NoPrefix(c.requestHandlerPaths.value, path)
    ensures ServeRequest(c, path) == ServeRequest(d, path)
    ensures ServeRequest(c, path).Success? ==> ServeRequest(c, path).value.ToHandler?
  {
    var es := c.requestHandlerPaths.value;
    var i := FirstPrefix(es, path).value;
    assert IsFirstPrefix(es, path, i);
  }

  // ---------------------------------------------------------------------------
  // serveHandlerRequest
  // ---------------------------------------------------------------------------

  /** A handler's response; header order plays no part in HTTP, so headers
      are a map. */
  datatype Response = Response(status: int, headers: map<string, string>, body: string)

  /** What awaiting the handler gives: its response, or the message of the
      exception it threw. */
  datatype Outcome = Returned(response: Response) | Threw(message: string)

  const ContentType := "content-type"
  const DefaultContentType := "text/html; charset=utf-8"
  const HandlerErrorStatus := 400
  const HandlerErrorText := "ERROR: "

  /** `responseHeaders["content-type"] ??= ...` on a copy of the headers. */
  function WithContentType(h: map<string, string>): (r: map<string, string>)
    ensures ContentType in r
    ensures r[ContentType] == if ContentType in h then h[ContentType] else DefaultContentType
    ensures forall k :: k != ContentType ==> (k in r <==> k in h)
    ensures forall k :: k != ContentType && k in h ==> r[k] == h[k]
  {
    if ContentType in h then h else h[ContentType := DefaultContentType]
  }

  /** Defaulting the content type a second time changes nothing. */
  lemma WithContentTypeIdempotent(h: map<string, string>)
    ensures WithContentType(WithContentType(h)) == WithContentType(h)
  {
  }

  /** The response sent for a handler request. `htmlHeaders` are the
      headers of the source's `htmlResponse` helper, which is not part of
      this model. */
  function ServeHandlerRequest(outcome: Outcome, htmlHeaders: map<string, string>): (r: Response)
    ensures ContentType in r.headers
    ensures outcome.Threw? ==> r.status == HandlerErrorStatus && r.body == HandlerErrorText + outcome.message
    ensures outcome.Returned? ==>
      r.status == outcome.response.status && r.body == outcome.response.body
      && (ContentType in outcome.response.headers ==>
            r.headers[ContentType] == outcome.response.headers[ContentType])
      && (ContentType !in outcome.response.headers ==> r.headers[ContentType] == DefaultContentType)
      && forall k :: k != ContentType ==>
           (k in r.headers <==> k in outcome.response.headers)
           && (k in r.headers ==> r.headers[k] == outcome.response.headers[k])
  {
    match outcome
    case Returned(resp) => Response(resp.status, WithContentType(resp.headers), resp.body)
    case Threw(message) =>
      Response(HandlerErrorStatus, WithContentType(htmlHeaders), HandlerErrorText + message)
  }
}
