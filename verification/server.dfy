/** The request handler of server.js: the dispatch on the URL prefix to the
    API, the list of versions, or the static files, and the reply each
    sends. The environment of one request is a parameter. */
module Server {
  import opened Wrappers
  import opened Strings
  import opened Readings
  import opened Http
  import OutsideCache
  import Api
  import StaticFiles

  const ApiPrefix := "/api/v1"
  const VersionsPrefix := "/api"
  const VersionsBody := "available versions:\n/v1"
  const PageNotFound := "Page Not Found"

  /** Where a URL goes. */
  datatype Route = ApiRoute(endpoint: string) | VersionsRoute | StaticRoute(url: string)

  /** The dispatch on the URL prefix; the API gets the URL after `/api/v1`. */
  function RouteOf(url: string): (r: Route)
    ensures r.ApiRoute? <==> StartsWith(url, ApiPrefix)
    ensures r.ApiRoute? ==> url == ApiPrefix + r.endpoint
    ensures r.VersionsRoute? <==> StartsWith(url, VersionsPrefix) && !StartsWith(url, ApiPrefix)
    ensures r.StaticRoute? ==> r.url == url
  {
    if StartsWith(url, ApiPrefix) then ApiRoute(url[|ApiPrefix|..])
    else if StartsWith(url, VersionsPrefix) then VersionsRoute
    else StaticRoute(url)
  }

  /** Every endpoint name is reached by the URL that prefixes it with
      `/api/v1`. */
  lemma ApiRouteRoundTrip(endpoint: string)
    ensures RouteOf(ApiPrefix + endpoint) == ApiRoute(endpoint)
  {
    var url := ApiPrefix + endpoint;
    assert url[..|ApiPrefix|] == ApiPrefix;
    assert url[|ApiPrefix|..] == endpoint;
  }

  /** What the server knows of the world while it handles one request. */
  datatype Env = Env(
    now: int,
    accessible: string -> bool,
    db: Api.Query -> Option<Reading>,
    fetched: Option<Reading>,
    refreshedAt: int)

  /** The reply to `url` and the cache after it. */
  function Handle(url: string, cache: OutsideCache.Cache, env: Env): (r: (Response, OutsideCache.Cache))
    ensures RouteOf(url).ApiRoute? ==>
              r == Api.ApiCall(RouteOf(url).endpoint, cache, env.now, env.db, env.fetched, env.refreshedAt)
    ensures RouteOf(url).VersionsRoute? ==> r == (Reply(200, TextPlain, Text(VersionsBody)), cache)
    ensures RouteOf(url).StaticRoute? ==> r.1 == cache && r.0.Reply?
    ensures RouteOf(url).StaticRoute? && StaticFiles.StreamFile(url, env.accessible).Found? ==>
              r.0 == Reply(200, StaticFiles.StreamFile(url, env.accessible).mimeType, File(StaticFiles.FilePath(url)))
    ensures RouteOf(url).StaticRoute? && StaticFiles.StreamFile(url, env.accessible).NotFound? ==>
              r.0 == Reply(404, TextPlain, Text(PageNotFound))
    ensures r.0.Reply? && r.0.body.File? ==> RouteOf(url).StaticRoute? && r.0.status == 200
    ensures RouteOf(url).StaticRoute? && r.0.status == 404 ==> r.0 == Reply(404, TextPlain, Text(PageNotFound))
  {
    match RouteOf(url)
    case ApiRoute(endpoint) => Api.ApiCall(endpoint, cache, env.now, env.db, env.fetched, env.refreshedAt)
    case VersionsRoute => (Reply(200, TextPlain, Text(VersionsBody)), cache)
    case StaticRoute(u) =>
      match StaticFiles.StreamFile(u, env.accessible)
      case NotFound => (Reply(404, TextPlain, Text(PageNotFound)), cache)
      case Found(path, mime) => (Reply(200, mime, File(path)), cache)
  }

  /** Only `/api/v1/outside` can change the cache. */
  lemma OnlyOutsideTouchesCache(url: string, cache: OutsideCache.Cache, env: Env)
    requires Handle(url, cache, env).1 != cache
    ensures url == ApiPrefix + Api.Endpoint.Outside.Key()
  {
  }

  /** A file the server streams lies inside the public directory, and its
      content type is the one for its extension. */
  lemma StreamedFilesArePublic(url: string, cache: OutsideCache.Cache, env: Env)
    requires Handle(url, cache, env).0.Reply? && Handle(url, cache, env).0.body.File?
    ensures var path := Handle(url, cache, env).0.body.path;
            && Split(path, '/')[0] == "public"
            && ".." !in Split(path, '/')
            && Handle(url, cache, env).0.contentType == StaticFiles.MimeFor(StaticFiles.ExtensionKey(path))
  {
    StaticFiles.ServedFilesStayInPublic(url, env.accessible);
  }

  /** A directory URL that is served is served as HTML. */
  lemma DirectoryUrlServedAsHtml(url: string, cache: OutsideCache.Cache, env: Env)
    requires EndsWith(url, "/") && !StartsWith(url, VersionsPrefix)
    requires Handle(url, cache, env).0.status == 200
    ensures Handle(url, cache, env).0.contentType == StaticFiles.HtmlMime
  {
    StaticRouteOf(url);
    StaticFiles.DirectoryUrlFoundAsHtml(url, env.accessible);
  }

  /** A URL outside `/api` is static. */
  lemma StaticRouteOf(url: string)
    requires !StartsWith(url, VersionsPrefix)
    ensures RouteOf(url) == StaticRoute(url)
  {
    assert !StartsWith(url, ApiPrefix) by {
      assert ApiPrefix[..|VersionsPrefix|] == VersionsPrefix;
    }
  }

  // ----- The code as written -----

  /** The header `res.setHeader("Content-Type", file.mime_type)` sets as
      written: the table string, or the text of an inherited member, which
      `memberText` gives. */
  function HeaderAsWritten(v: StaticFiles.MimeValue, memberText: string -> string): string
  {
    match v
    case MimeString(m) => m
    case PrototypeMember(name) => memberText(name)
  }

  /** The reply to `url` exactly as written: the API as written and the
      static server as written. */
  function HandleAsWritten(url: string, cache: OutsideCache.Cache, env: Env, memberText: string -> string)
    : (r: (Response, OutsideCache.Cache))
    ensures RouteOf(url).ApiRoute? ==>
              r == Api.ApiCallAsWritten(RouteOf(url).endpoint, cache, env.now, env.db, env.fetched, env.refreshedAt)
    ensures RouteOf(url).VersionsRoute? ==> r == Handle(url, cache, env)
    ensures RouteOf(url).StaticRoute? ==> r.1 == cache && r.0.Reply?
    ensures RouteOf(url).StaticRoute? && StaticFiles.StreamFileAsWritten(url, env.accessible).FoundAsWritten? ==>
              var found := StaticFiles.StreamFileAsWritten(url, env.accessible);
              r.0 == Reply(200, HeaderAsWritten(found.mime, memberText), File(StaticFiles.FilePath(url)))
    ensures RouteOf(url).StaticRoute? && StaticFiles.StreamFileAsWritten(url, env.accessible).NotFoundAsWritten? ==>
              r.0 == Reply(404, TextPlain, Text(PageNotFound))
    ensures r.0.Reply? && r.0.body.File? ==>
              RouteOf(url).StaticRoute? && r.0.status == 200
              && StaticFiles.PublicPrefixAsWritten(r.0.body.path) && env.accessible(r.0.body.path)
  {
    match RouteOf(url)
    case ApiRoute(endpoint) =>
      Api.ApiCallAsWritten(endpoint, cache, env.now, env.db, env.fetched, env.refreshedAt)
    case VersionsRoute => (Reply(200, TextPlain, Text(VersionsBody)), cache)
    case StaticRoute(u) =>
      match StaticFiles.StreamFileAsWritten(u, env.accessible)
      case NotFoundAsWritten => (Reply(404, TextPlain, Text(PageNotFound)), cache)
      case FoundAsWritten(path, mime) => (Reply(200, HeaderAsWritten(mime, memberText), File(path)), cache)
  }

  /** The handler as written and the corrected one differ on an API URL
      only when its endpoint is an inherited member name. */
  lemma ApiAsWrittenAgrees(endpoint: string, cache: OutsideCache.Cache, env: Env, memberText: string -> string)
    requires !Api.ClassifyAsWritten(endpoint).InheritedMember?
    ensures HandleAsWritten(ApiPrefix + endpoint, cache, env, memberText) == Handle(ApiPrefix + endpoint, cache, env)
  {
    ApiRouteRoundTrip(endpoint);
  }

  /** Even as written, a streamed file lies under the working directory: its
      first component begins with `public` and no `..` survives. */
  lemma StreamedFilesAsWrittenStayUnderRoot(url: string, cache: OutsideCache.Cache, env: Env,
                                            memberText: string -> string)
    requires HandleAsWritten(url, cache, env, memberText).0.Reply?
    requires HandleAsWritten(url, cache, env, memberText).0.body.File?
    ensures var path := HandleAsWritten(url, cache, env, memberText).0.body.path;
            && path == StaticFiles.FilePath(url)
            && StartsWith(StaticFiles.Segments(url)[0], "public")
            && ".." !in StaticFiles.Segments(url)
  {
    StaticFiles.PrefixGuardAsWrittenStaysUnderRoot(url);
  }

  /** `/api/v1toString` is answered with 200 and JSON as written, and with
      the 404 reply once corrected. */
  lemma ToStringHandledAsWritten(cache: OutsideCache.Cache, env: Env, memberText: string -> string)
    ensures HandleAsWritten("/api/v1toString", cache, env, memberText).0
            == Reply(200, ApplicationJson, MemberResult("toString"))
    ensures Handle("/api/v1toString", cache, env).0
            == Reply(404, TextPlain, Text(Api.NotFoundBody("toString")))
  {
    var name: string := "toString";
    ApiRouteRoundTrip(name);
    assert ApiPrefix + name == "/api/v1toString";
    Api.ToStringExample();
  }

  /** `/api/v1constructor` and the other URLs of a throwing member get no
      reply as written, and the 404 reply once corrected. */
  lemma ThrowingMemberUnansweredAsWritten(name: string, cache: OutsideCache.Cache, env: Env,
                                          memberText: string -> string)
    requires name in Api.ThrowingMembers
    ensures HandleAsWritten(ApiPrefix + name, cache, env, memberText) == (NoReply, cache)
    ensures Handle(ApiPrefix + name, cache, env).0 == Reply(404, TextPlain, Text(Api.NotFoundBody(name)))
  {
    ApiRouteRoundTrip(name);
    Api.ThrowingMemberIsUnknown(name);
  }

  /** A file in a sibling directory whose name begins with `public` is
      streamed as written, and refused with "Page Not Found" once
      corrected. */
  lemma SiblingServedAsWritten(dir: string, file: string, cache: OutsideCache.Cache, env: Env,
                               memberText: string -> string)
    requires StaticFiles.PlainComponent(dir) && StaticFiles.PlainComponent(file)
    requires StartsWith(dir, "public") && dir != "public"
    requires env.accessible(dir + "/" + file)
    ensures var r := HandleAsWritten(StaticFiles.SiblingUrl(dir, file), cache, env, memberText).0;
            r.Reply? && r.status == 200 && r.body == File(dir + "/" + file)
    ensures Handle(StaticFiles.SiblingUrl(dir, file), cache, env).0 == Reply(404, TextPlain, Text(PageNotFound))
  {
    var url := StaticFiles.SiblingUrl(dir, file);
    assert url[1] == '.';
    assert RouteOf(url) == StaticRoute(url);
    StaticFiles.SiblingDirectoryPassesPrefixGuard(dir, file, env.accessible);
  }

  /** A file `<file>` of the public directory is served for `/<file>`,
      with the content type of its extension. */
  lemma PublicFileHandled(file: string, cache: OutsideCache.Cache, env: Env)
    requires StaticFiles.PlainComponent(file) && !StartsWith(file, "api")
    requires env.accessible("public/" + file)
    ensures Handle("/" + file, cache, env).0
            == Reply(200, StaticFiles.MimeFor(StaticFiles.ExtensionKey("public/" + file)), File("public/" + file))
  {
    StaticUrl("/" + file, file);
    StaticFiles.PublicFileFound(file, env.accessible);
  }

  /** ... and so it is as written, with the content type as written. */
  lemma PublicFileHandledAsWritten(file: string, cache: OutsideCache.Cache, env: Env, memberText: string -> string)
    requires StaticFiles.PlainComponent(file) && !StartsWith(file, "api")
    requires env.accessible("public/" + file)
    ensures HandleAsWritten("/" + file, cache, env, memberText).0
            == Reply(200, HeaderAsWritten(StaticFiles.MimeAsWritten(StaticFiles.ExtensionKey("public/" + file)), memberText),
                     File("public/" + file))
  {
    StaticUrl("/" + file, file);
    StaticFiles.PublicFileFound(file, env.accessible);
  }

  /** A URL `/<file>` whose file name does not begin with `api` is static. */
  lemma StaticUrl(url: string, file: string)
    requires url == "/" + file && !StartsWith(file, "api")
    ensures RouteOf(url) == StaticRoute(url)
  {
    assert url[1..] == file;
    assert !StartsWith(url, VersionsPrefix);
    assert !StartsWith(url, ApiPrefix) by {
      assert ApiPrefix[..|VersionsPrefix|] == VersionsPrefix;
    }
  }

  /** `/x.constructor` is sent with the text of the inherited `constructor`
      member as its content type as written, and as
      `application/octet-stream` once corrected. */
  lemma ConstructorHandledAsWritten(cache: OutsideCache.Cache, env: Env, memberText: string -> string)
    requires env.accessible("public/x.constructor")
    ensures HandleAsWritten("/x.constructor", cache, env, memberText).0
            == Reply(200, memberText("constructor"), File("public/x.constructor"))
    ensures Handle("/x.constructor", cache, env).0
            == Reply(200, StaticFiles.DefaultMime, File("public/x.constructor"))
  {
    var file: string := "x.constructor";
    ConstructorFile(file);
    PublicFileHandled(file, cache, env);
    PublicFileHandledAsWritten(file, cache, env, memberText);
    StaticFiles.ConstructorExample();
  }

  /** The name `x.constructor` is a plain file name outside the API. */
  lemma ConstructorFile(file: string)
    requires file == "x.constructor"
    ensures StaticFiles.PlainComponent(file) && !StartsWith(file, "api")
    ensures "/" + file == "/x.constructor" && "public/" + file == "public/x.constructor"
  {
    assert file[0] == 'x';
  }
}
