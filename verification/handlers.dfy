/** The request router of the HTTP server: a pure mapping from a request
    path to a status, reason, content type and body. The clock is a
    timestamp parameter and the file system a map from joined path strings
    to what opening that path yields. */
module Handlers {
  import opened Text

  /** The tuple `route_request` returns. */
  datatype Response = Response(status: int, reason: string, contentType: string, body: seq<byte>)

  /** Opening a file either yields its bytes or raises something other than
      "file not found" (a directory, a permission error). A path missing
      from the map is "file not found". */
  datatype FileEntry = Contents(data: seq<byte>) | Unreadable

  type FileSystem = map<string, FileEntry>

  /** `route_request` either returns a response or lets an exception escape. */
  datatype Routed = Served(response: Response) | Raised

  // ---------------------------------------------------------------------------
  // Content types

  /** The parameter every text type carries. */
  const Utf8Param: string := "; charset=utf-8"

  const HtmlType: string := "text/html" + Utf8Param
  const CssType: string := "text/css" + Utf8Param
  const JsType: string := "application/javascript" + Utf8Param
  const PlainType: string := "text/plain" + Utf8Param
  const JsonType: string := "application/json" + Utf8Param

  /** The extension table, keys lower-case with the leading dot. */
  const ContentTypes: map<string, string> := map[
    ".html" := HtmlType,
    ".css" := CssType,
    ".js" := JsType,
    ".txt" := PlainType,
    ".json" := JsonType,
    ".png" := "image/png",
    ".jpg" := "image/jpeg",
    ".jpeg" := "image/jpeg",
    ".svg" := "image/svg+xml"
  ]

  const DefaultContentType: string := "application/octet-stream"

  /** `CONTENT_TYPES.get(ext, "application/octet-stream")`. */
  function ContentTypeFor(ext: string): string {
    if ext in ContentTypes then ContentTypes[ext] else DefaultContentType
  }

  /** A header value that serialises cleanly: ASCII, no CR or LF, no
      surrounding whitespace. */
  predicate CleanValue(s: string) {
    IsAscii(s) && '\r' !in s && '\n' !in s && NoSurroundingSpace(s)
  }

  /** Every content type the router can choose, the default included, is a
      clean header value, so `build_response` never fails on it. */
  lemma ContentTypesAreClean(ext: string)
    ensures CleanValue(ContentTypeFor(ext))
  {
    HtmlTypeIsClean();
    CssTypeIsClean();
    JsTypeIsClean();
    TxtTypeIsClean();
    JsonTypeIsClean();
    PngTypeIsClean();
    JpegTypeIsClean();
    SvgTypeIsClean();
    DefaultTypeIsClean();
  }

  lemma CleanConcat(a: string, b: string)
    requires CleanValue(a) && CleanValue(b) && a != [] && b != []
    ensures CleanValue(a + b)
  {
    AsciiConcat(a, b);
    assert (a + b)[0] == a[0] && (a + b)[|a + b| - 1] == b[|b| - 1];
  }

  lemma Utf8ParamIsClean()
    ensures CleanValue(Utf8Param)
  {
  }

  /** A clean media type with the charset parameter is clean. */
  lemma WithParamIsClean(base: string)
    requires CleanValue(base) && base != []
    ensures CleanValue(base + Utf8Param)
  {
    Utf8ParamIsClean();
    CleanConcat(base, Utf8Param);
  }

  lemma HtmlTypeIsClean()
    ensures CleanValue(HtmlType)
  {
    WithParamIsClean("text/html");
  }

  lemma CssTypeIsClean()
    ensures CleanValue(CssType)
  {
    WithParamIsClean("text/css");
  }

  lemma JsTypeIsClean()
    ensures CleanValue(JsType)
  {
    CleanConcat("application/", "javascript");
    WithParamIsClean("application/javascript");
  }

  lemma TxtTypeIsClean()
    ensures CleanValue(PlainType)
  {
    WithParamIsClean("text/plain");
  }

  lemma JsonTypeIsClean()
    ensures CleanValue(JsonType)
  {
    WithParamIsClean("application/json");
  }

  lemma PngTypeIsClean()
    ensures CleanValue("image/png")
  {
  }

  lemma JpegTypeIsClean()
    ensures CleanValue("image/jpeg")
  {
  }

  lemma SvgTypeIsClean()
    ensures CleanValue("image/svg+xml")
  {
  }

  lemma DefaultTypeIsClean()
    ensures CleanValue("application/octet-stream")
  {
  }

  // ---------------------------------------------------------------------------
  // posixpath

  /** `os.path.join(a, b)` for two POSIX path strings: an absolute `b`
      replaces `a`; otherwise `b` is appended after a `/` unless `a` is
      empty or already ends in one. */
  function Join(a: string, b: string): (r: string)
    ensures |b| <= |r| && r[|r| - |b|..] == b
    ensures |b| > 0 && b[0] == '/' ==> r == b
    ensures !(|b| > 0 && b[0] == '/') ==>
      && a <= r
      && (|r| == |a| + |b| <==> a == [] || a[|a| - 1] == '/')
      && (|r| != |a| + |b| ==> |r| == |a| + 1 + |b| && r[|a|] == '/')
  {
    if |b| > 0 && b[0] == '/' then b
    else if a == [] || a[|a| - 1] == '/' then a + b
    else a + "/" + b
  }

  /** Every character is a dot. */
  predicate AllDots(s: string) {
    forall i :: 0 <= i < |s| ==> s[i] == '.'
  }

  /** `os.path.splitext(p)[1]`: from the last dot of the last path component
      to the end, unless that dot only follows other dots from the start of
      the component (a dot file has no extension). */
  function Ext(p: string): string {
    var sep := LastIndexOf(p, '/');
    var dot := LastIndexOf(p, '.');
    if dot > sep && !AllDots(p[sep + 1..dot]) then p[dot..] else []
  }

  /** An extension is a suffix of the path: a dot followed by neither a
      slash nor another dot. */
  lemma ExtShape(p: string)
    ensures var e := Ext(p); |e| <= |p| && e == p[|p| - |e|..]
    ensures var e := Ext(p); e != [] ==> e[0] == '.' && '/' !in e && '.' !in e[1..]
  {
    var sep := LastIndexOf(p, '/');
    var dot := LastIndexOf(p, '.');
    if dot > sep && !AllDots(p[sep + 1..dot]) {
      assert Ext(p) == p[dot..];
      TailFromLastDot(p, sep, dot);
    } else {
      assert Ext(p) == [];
    }
  }

  lemma TailFromLastDot(p: string, sep: int, dot: nat)
    requires -1 <= sep < dot < |p| && p[dot] == '.'
    requires forall k :: dot < k < |p| ==> p[k] != '.'
    requires forall k :: sep < k < |p| ==> p[k] != '/'
    ensures var e := p[dot..]; e[0] == '.' && '/' !in e && '.' !in e[1..]
  {
    var e := p[dot..];
    assert forall k :: 0 <= k < |e| ==> e[k] == p[dot + k];
    assert forall k :: 0 <= k < |e| - 1 ==> e[1..][k] == p[dot + 1 + k];
  }

  /** A file name with a stem that is not all dots gets the text after its
      last dot as its extension. */
  lemma ExtOfFileName(dir: string, stem: string, suffix: string)
    requires '/' !in stem && !AllDots(stem)
    requires '/' !in suffix && '.' !in suffix
    ensures Ext(dir + "/" + stem + "." + suffix) == "." + suffix
  {
    var p := dir + "/" + stem + "." + suffix;
    var dot := |dir| + 1 + |stem|;
    var sep := LastIndexOf(p, '/');
    assert p[dot] == '.' && p[|dir|] == '/';
    assert forall k :: dot < k < |p| ==> p[k] == suffix[k - dot - 1];
    assert LastIndexOf(p, '.') == dot;
    assert forall k :: |dir| < k <= dot ==> p[k] != '/' by {
      assert forall k :: |dir| < k < dot ==> p[k] == stem[k - |dir| - 1];
    }
    assert sep == |dir|;
    assert p[sep + 1..dot] == stem;
    assert p[dot..] == "." + suffix;
  }

  /** A dot file (`.hidden`, no further dot) has no extension. */
  lemma ExtOfDotFile(dir: string, name: string)
    requires '/' !in name && '.' !in name
    ensures Ext(dir + "/." + name) == ""
  {
    var p := dir + "/." + name;
    var dot := |dir| + 1;
    assert p[dot] == '.' && p[|dir|] == '/';
    assert forall k :: dot < k < |p| ==> p[k] == name[k - dot - 1];
    assert LastIndexOf(p, '.') == dot;
    assert LastIndexOf(p, '/') == |dir|;
    assert AllDots(p[|dir| + 1..dot]);
  }

  // ---------------------------------------------------------------------------
  // The router

  /** `rel.replace("..", "")`. */
  function SafeRel(rel: string): string {
    Replace(rel, "..", "")
  }

  /** The sanitised path holds no `..`, and every character other than a dot
      survives, in order. */
  lemma SafeRelSpec(rel: string)
    ensures !HasDoubleDot(SafeRel(rel))
    ensures NonDots(SafeRel(rel)) == NonDots(rel)
  {
    ReplaceRemovesDoubleDots(rel);
    ReplaceKeepsNonDots(rel);
  }

  const StaticPrefix: string := "/static/"

  /** The file a `/static/` path is read from. */
  function StaticFilePath(staticDir: string, path: string): string
    requires StaticPrefix <= path
  {
    Join(staticDir, SafeRel(path[|StaticPrefix|..]))
  }

  /** The query string is dropped and `/` stands for the static index page. */
  function Normalise(path: string): (p: string)
    ensures '?' !in p
  {
    var p := BeforeFirst(path, '?');
    if p == "/" then "/static/index.html" else p
  }

  /** `json.dumps({"status": "ok", "time": now})`; a timestamp needs no escaping. */
  function HealthJson(now: Timestamp): (j: string)
    ensures IsAscii(j)
  {
    TimestampIsAscii(now);
    "{\"status\": \"ok\", \"time\": \"" + now + "\"}"
  }

  function HealthBody(now: Timestamp): seq<byte> {
    Latin1Encode(HealthJson(now))
  }

  const NotFoundBody: seq<byte> := Latin1Encode("Not Found")

  const NotFound: Response := Response(404, "Not Found", PlainType, NotFoundBody)

  /** `route_request`: the method is not consulted. */
  function Route(path: string, staticDir: string, fs: FileSystem, now: Timestamp): (r: Routed)
    ensures r.Served? ==> r.response.status == 200 || r.response.status == 404
    ensures r.Served? && r.response.status == 404 ==> r.response == NotFound
    ensures r.Served? && r.response.status == 200 ==> r.response.reason == "OK"
    ensures r.Raised? <==> StaticPrefix <= Normalise(path)
                           && StaticFilePath(staticDir, Normalise(path)) in fs
                           && fs[StaticFilePath(staticDir, Normalise(path))].Unreadable?
  {
    var p := Normalise(path);
    if p == "/health" then
      Served(Response(200, "OK", JsonType, HealthBody(now)))
    else if StaticPrefix <= p then
      var filePath := StaticFilePath(staticDir, p);
      if filePath !in fs then Served(NotFound)
      else match fs[filePath]
        case Unreadable => Raised
        case Contents(data) => Served(Response(200, "OK", ContentTypeFor(Lower(Ext(filePath))), data))
    else Served(NotFound)
  }

  /** Whatever the router serves carries a clean reason and content type. */
  lemma RouteValuesAreClean(path: string, staticDir: string, fs: FileSystem, now: Timestamp)
    requires Route(path, staticDir, fs, now).Served?
    ensures CleanValue(Route(path, staticDir, fs, now).response.reason)
    ensures CleanValue(Route(path, staticDir, fs, now).response.contentType)
  {
    var r := Route(path, staticDir, fs, now).response;
    var p := Normalise(path);
    if r.status == 404 {
      NotFoundIsClean();
    } else {
      OkIsClean();
      if p == "/health" {
        JsonTypeIsClean();
      } else {
        var filePath := StaticFilePath(staticDir, p);
        assert r.contentType == ContentTypeFor(Lower(Ext(filePath)));
        ContentTypesAreClean(Lower(Ext(filePath)));
      }
    }
  }

  lemma OkIsClean()
    ensures CleanValue("OK")
  {
  }

  lemma NotFoundIsClean()
    ensures CleanValue(NotFound.reason) && CleanValue(NotFound.contentType)
  {
    TxtTypeIsClean();
    assert CleanValue("Not Found");
  }

  /** `headify`: status, reason and content type kept, body dropped. */
  function Headify(r: Response): (h: Response)
    ensures h.status == r.status && h.reason == r.reason && h.contentType == r.contentType
    ensures h.body == []
  {
    Response(r.status, r.reason, r.contentType, [])
  }

  lemma HeadifyIdempotent(r: Response)
    ensures Headify(Headify(r)) == Headify(r)
  {
  }

  // ---------------------------------------------------------------------------
  // Properties of the router

  /** Everything from the first `?` on is ignored. */
  lemma RouteIgnoresQuery(path: string, query: string, staticDir: string, fs: FileSystem, now: Timestamp)
    requires '?' !in path
    ensures Route(path + "?" + query, staticDir, fs, now) == Route(path, staticDir, fs, now)
  {
    BeforeFirstAt(path, '?', query);
    assert path + "?" + query == path + ['?'] + query;
    assert BeforeFirst(path, '?') == path;
  }

  /** `/` is served as `/static/index.html`. */
  lemma RootServesIndex(staticDir: string, fs: FileSystem, now: Timestamp)
    ensures Route("/", staticDir, fs, now) == Route("/static/index.html", staticDir, fs, now)
  {
    assert BeforeFirst("/", '?') == "/";
    assert '?' !in "/static/index.html";
  }

  /** `/health` answers 200 with the JSON status document holding the time. */
  lemma HealthRoute(path: string, staticDir: string, fs: FileSystem, now: Timestamp)
    requires Normalise(path) == "/health"
    ensures var r := Route(path, staticDir, fs, now);
      && r.Served?
      && r.response.status == 200 && r.response.reason == "OK"
      && r.response.contentType == JsonType
      && Latin1Decode(r.response.body) == "{\"status\": \"ok\", \"time\": \"" + now + "\"}"
  {
    Latin1RoundTrip(HealthJson(now));
  }

  /** Under `/static/` the router reads the joined file path: a missing file
      is 404, an unreadable one raises, and a present one is served verbatim
      with the type of its lower-cased extension. */
  lemma StaticRoute(path: string, staticDir: string, fs: FileSystem, now: Timestamp)
    requires StaticPrefix <= Normalise(path)
    ensures var filePath := StaticFilePath(staticDir, Normalise(path));
            var r := Route(path, staticDir, fs, now);
      && (filePath !in fs ==> r == Served(NotFound))
      && (filePath in fs && fs[filePath].Unreadable? ==> r == Raised)
      && (filePath in fs && fs[filePath].Contents? ==>
            r == Served(Response(200, "OK", ContentTypeFor(Lower(Ext(filePath))), fs[filePath].data)))
  {
    var p := Normalise(path);
    assert p != "/health" by {
      assert p[1] == 's';
    }
  }

  /** Any other path is 404. */
  lemma OtherRoute(path: string, staticDir: string, fs: FileSystem, now: Timestamp)
    requires Normalise(path) != "/health" && !(StaticPrefix <= Normalise(path))
    ensures Route(path, staticDir, fs, now) == Served(NotFound)
  {
  }

  /** The sanitiser does not keep the file under the static directory: four
      dots collapse to nothing, the remaining `//etc/passwd` is absolute, and
      the join discards the directory. */
  lemma TraversalEscapesRoot(data: seq<byte>, now: Timestamp)
    ensures StaticFilePath("static", "/static/....//etc/passwd") == "//etc/passwd"
    ensures Route("/static/....//etc/passwd", "static", map["//etc/passwd" := Contents(data)], now)
         == Served(Response(200, "OK", DefaultContentType, data))
  {
    var path := "/static/....//etc/passwd";
    var fs := map["//etc/passwd" := Contents(data)];
    TraversalFilePath();
    NoQuery();
    StaticRoute(path, "static", fs, now);
    NoExtension();
  }

  lemma TraversalFilePath()
    ensures StaticPrefix <= "/static/....//etc/passwd"
    ensures StaticFilePath("static", "/static/....//etc/passwd") == "//etc/passwd"
  {
    TraversalPrefix();
    FourDotsVanish();
    assert Join("static", "//etc/passwd") == "//etc/passwd";
  }

  lemma TraversalPrefix()
    ensures StaticPrefix <= "/static/....//etc/passwd"
    ensures "/static/....//etc/passwd"[|StaticPrefix|..] == "....//etc/passwd"
  {
    assert "/static/....//etc/passwd" == StaticPrefix + "....//etc/passwd";
  }

  lemma NoQuery()
    ensures Normalise("/static/....//etc/passwd") == "/static/....//etc/passwd"
  {
    var path := "/static/....//etc/passwd";
    assert '?' !in path;
    assert BeforeFirst(path, '?') == path;
    assert path != "/" by { assert |path| != 1; }
  }

  lemma FourDotsVanish()
    ensures SafeRel("....//etc/passwd") == "//etc/passwd"
  {
    FourDotsThen("//etc/passwd");
    assert "...." + "//etc/passwd" == "....//etc/passwd";
  }

  lemma FourDotsThen(t: string)
    requires '.' !in t
    ensures SafeRel("...." + t) == t
  {
    var rel := "...." + t;
    DoubleDotDropped(rel);
    DoubleDotDropped(rel[2..]);
    assert rel[2..][2..] == t;
    ReplaceWithoutDots(t);
  }

  lemma DoubleDotDropped(s: string)
    requires |s| >= 2 && s[0] == '.' && s[1] == '.'
    ensures Replace(s, "..", "") == Replace(s[2..], "..", "")
  {
    assert s[..2] == "..";
  }


  lemma NoExtension()
    ensures ContentTypeFor(Lower(Ext("//etc/passwd"))) == DefaultContentType
  {
    var p := "//etc/passwd";
    assert '.' !in p;
    assert LastIndexOf(p, '.') == -1;
    assert Ext(p) == "";
    assert Lower("") == "";
  }
}
