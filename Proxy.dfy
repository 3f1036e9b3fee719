/** The reverse proxy's request handler: from the request path to a project
    slug and a storage key, the fetch and its not-found classification, the
    single-page fallback to `index.html`, and the HTML and CSS rewriting of
    what is served. */
module Proxy {
  import opened Wrappers
  import opened Strings
  import opened Storage
  import ContentType
  import BaseTag
  import Rewrite

  // ---------------------------------------------------------------------
  // The request path
  // ---------------------------------------------------------------------

  /** `s.split('?')[0]`: everything before the first `?`. */
  function BeforeQuery(s: string): (r: string)
    ensures StartsWith(s, r) && '?' !in r
    ensures |r| < |s| ==> s[|r|] == '?'
  {
    if '?' in s then s[..FirstIndex(s, '?')] else s
  }

  /** `filter(Boolean)` on a list of strings: the non-empty ones, in order. */
  function NonEmpty(parts: seq<string>): (r: seq<string>)
    ensures forall k :: 0 <= k < |r| ==> r[k] != [] && r[k] in parts
  {
    if parts == [] then []
    else if parts[0] == [] then NonEmpty(parts[1..])
    else [parts[0]] + NonEmpty(parts[1..])
  }

  /** `path.split('/').filter(Boolean)`. */
  function Segments(path: string): (r: seq<string>)
  {
    NonEmpty(SplitOn(path, '/'))
  }

  /** The handler's normalisation of `req.path`, one reassignment at a
      time: drop the query, add a leading `/`, drop one trailing `/`. Only
      the segments of the result are used afterwards, and those are the
      segments of the path before the query. */
  method NormalizePath(reqPath: string) returns (path: string)
    ensures Segments(path) == Segments(BeforeQuery(reqPath))
    ensures StartsWith(path, "/") && '?' !in path
  {
    path := BeforeQuery(reqPath);
    if !StartsWith(path, "/") {
      LeadingSlash(path);
      path := "/" + path;
    }
    if |path| > 1 && EndsWith(path, "/") {
      var shorter := path[..|path| - 1];
      assert path == shorter + "/";
      TrailingSlash(shorter);
      path := shorter;
    }
  }

  // ---------------------------------------------------------------------
  // Route and storage key
  // ---------------------------------------------------------------------

  /** First segments that name a common asset folder rather than a project. */
  const KnownAssetPaths: seq<string> :=
    ["assets", "static", "_next", "dist", "build", "public", "images", "img", "css", "js", "fonts"]

  const IndexPath := "/index.html"

  datatype Route =
    | NoProject
    | AssetPath(first: string)
    | Target(slug: string, filePath: string, key: string)

  /** `'/' + rest.join('/')`, or `/index.html` when there is no rest. */
  function FilePathOf(segs: seq<string>): string
    requires segs != []
  {
    if |segs| > 1 then "/" + Join(segs[1..], "/") else IndexPath
  }

  /** `cleanFilePath`: `/` becomes `/index.html`, and the query is dropped. */
  function CleanFilePath(filePath: string): string
  {
    if filePath == "/" then IndexPath else BeforeQuery(filePath)
  }

  /** `s.replace(/\/+/g, '/')`: every run of `/` becomes one `/`. */
  function CollapseSlashes(s: string): (r: string)
    ensures NoDoubleSlash(r)
    ensures |r| <= |s|
    ensures s != [] ==> r != [] && r[0] == s[0]
  {
    if |s| >= 2 && s[0] == '/' && s[1] == '/' then CollapseSlashes(s[1..])
    else if s == [] then []
    else [s[0]] + CollapseSlashes(s[1..])
  }

  predicate NoDoubleSlash(s: string)
  {
    forall i :: 0 <= i < |s| - 1 ==> !(s[i] == '/' && s[i + 1] == '/')
  }

  /** The object name `__outputs/<slug><cleanFilePath>`, slashes collapsed. */
  function ObjectName(slug: string, clean: string): string
  {
    CollapseSlashes(OutputsRoot + slug + clean)
  }

  /** What the handler makes of the segments of the request path. */
  function RouteOf(segs: seq<string>): Route
  {
    if segs == [] then NoProject
    else if LowerStr(segs[0]) in KnownAssetPaths then AssetPath(segs[0])
    else
      var clean := CleanFilePath(FilePathOf(segs));
      Target(segs[0], clean, ObjectName(segs[0], clean))
  }

  function Resolve(reqPath: string): Route
  {
    RouteOf(Segments(BeforeQuery(reqPath)))
  }

  // ---------------------------------------------------------------------
  // Fetching from the store
  // ---------------------------------------------------------------------

  datatype StoreError = StoreError(code: string, message: string)

  /** What the store answers for one object: its body and the metadata of
      its `stat` (absent when `stat` fails), or an error. */
  datatype StoreReply =
    | Stored(body: string, meta: Option<map<string, string>>)
    | Failed(error: StoreError)

  /** `getFileFromMinIO`'s outcome: `null`, a file, or a thrown error. */
  datatype Fetched =
    | Absent
    | File(body: string, contentType: string)
    | Fault(error: StoreError)

  /** The errors `getFileFromMinIO` turns into `null`. */
  predicate IsNotFound(e: StoreError)
  {
    e.code == "NotFound" || Contains(e.message, "does not exist")
  }

  /** The stored `content-type`, else `Content-Type` (an empty value counts
      as missing), else the extension table. */
  function ContentTypeOf(key: string, meta: Option<map<string, string>>): string
  {
    if meta.Some? && "content-type" in meta.value && meta.value["content-type"] != "" then meta.value["content-type"]
    else if meta.Some? && "Content-Type" in meta.value && meta.value["Content-Type"] != "" then meta.value["Content-Type"]
    else ContentType.GetContentType(key)
  }

  function Fetch(key: string, reply: StoreReply): (r: Fetched)
    ensures r.Absent? <==> reply.Failed? && IsNotFound(reply.error)
    ensures r.Fault? <==> reply.Failed? && !IsNotFound(reply.error)
    ensures r.File? <==> reply.Stored?
    ensures r.File? ==> r.body == reply.body
  {
    match reply
    case Stored(body, meta) => File(body, ContentTypeOf(key, meta))
    case Failed(e) => if IsNotFound(e) then Absent else Fault(e)
  }

  // ---------------------------------------------------------------------
  // The response
  // ---------------------------------------------------------------------

  /** Status, the `Content-Type` and `Cache-Control` headers the handler
      sets itself, and the body. */
  datatype Response = Response(status: int, contentType: Option<string>, cacheControl: Option<string>, body: string)

  const ImmutableCache := "public, max-age=31536000, immutable"
  const RevalidateCache := "public, max-age=0, must-revalidate"
  const ProjectNotFound := "Project not found"
  const AssetNotFound := "Asset not found. Please ensure the project slug is in the URL path."
  const InternalError := "Internal server error"

  function NotFound(message: string): Response
  {
    Response(404, None, None, message)
  }

  /** A page as served: base tag first, then the rewrite passes. */
  function Page(slug: string, html: string): string
  {
    Rewrite.ApplyRules(Rewrite.HtmlRules(), slug, BaseTag.WithBase(html, slug))
  }

  /** The test that sends a file through the CSS rewriter. */
  predicate IsCss(contentType: string, clean: string)
  {
    contentType == "text/css" || Contains(contentType, "css") || EndsWith(clean, ".css")
  }

  /** The body of a file found under its own key. */
  function Served(slug: string, clean: string, body: string, contentType: string): string
  {
    if contentType == "text/html" then Page(slug, body)
    else if IsCss(contentType, clean) then Rewrite.RewriteCss(slug, body)
    else body
  }

  /** `__outputs/<slug>/index.html`, the single-page fallback. */
  function IndexKey(slug: string): string
  {
    OutputPrefix(slug) + "index.html"
  }

  /** The response to a request for `reqPath` from a store answering `store`. */
  function Respond(reqPath: string, store: string -> StoreReply): Response
  {
    match Resolve(reqPath)
    case NoProject => NotFound(ProjectNotFound)
    case AssetPath(_) => NotFound(AssetNotFound)
    case Target(slug, clean, key) =>
      match Fetch(key, store(key))
      case Fault(_) => Response(500, None, None, InternalError)
      case File(body, ct) => Response(200, Some(ct), Some(ImmutableCache), Served(slug, clean, body, ct))
      case Absent =>
        if clean == IndexPath then NotFound(ProjectNotFound)
        else
          match Fetch(IndexKey(slug), store(IndexKey(slug)))
          case Fault(_) => Response(500, None, None, InternalError)
          case File(body, ct) => Response(200, Some(ct), Some(RevalidateCache), Page(slug, body))
          case Absent => NotFound(ProjectNotFound)
  }

  /** The handler, its path and page reassigned step by step. */
  method Handle(reqPath: string, store: string -> StoreReply) returns (res: Response)
    ensures res == Respond(reqPath, store)
  {
    var path := NormalizePath(reqPath);
    var route := RouteOf(Segments(path));
    match route {
      case NoProject =>
        res := NotFound(ProjectNotFound);
      case AssetPath(_) =>
        res := NotFound(AssetNotFound);
      case Target(slug, clean, key) =>
        var file := Fetch(key, store(key));
        match file {
          case Fault(_) =>
            res := Response(500, None, None, InternalError);
          case File(body, ct) =>
            var content := body;
            if ct == "text/html" {
              content := BaseTag.InjectBaseTag(content, slug);
              content := Rewrite.RewriteHtml(content, slug);
            } else if IsCss(ct, clean) {
              content := Rewrite.RewriteCss(slug, content);
            }
            res := Response(200, Some(ct), Some(ImmutableCache), content);
          case Absent =>
            res := NotFound(ProjectNotFound);
            if clean != IndexPath {
              var index := Fetch(IndexKey(slug), store(IndexKey(slug)));
              match index {
                case Fault(_) =>
                  res := Response(500, None, None, InternalError);
                case File(body, ct) =>
                  var content := BaseTag.InjectBaseTag(body, slug);
                  content := Rewrite.RewriteHtml(content, slug);
                  res := Response(200, Some(ct), Some(RevalidateCache), content);
                case Absent =>
              }
            }
        }
    }
  }

  // ---------------------------------------------------------------------
  // Lemmas: segments
  // ---------------------------------------------------------------------

  /** The query split is JavaScript's `split('?')[0]`. */
  lemma BeforeQueryIsSplit(s: string)
    ensures BeforeQuery(s) == SplitOn(s, '?')[0]
  {
  }

  /** A leading `/` adds only an empty piece, which the filter drops. */
  lemma LeadingSlash(s: string)
    ensures Segments("/" + s) == Segments(s)
  {
    var t := "/" + s;
    assert FirstIndex(t, '/') == 0;
    assert t[1..] == s;
    assert SplitOn(t, '/') == [[]] + SplitOn(s, '/');
    assert ([[]] + SplitOn(s, '/'))[1..] == SplitOn(s, '/');
  }

  /** `(s + c).split(c)` is `s.split(c)` with an empty piece after it. */
  lemma {:induction false} SplitTrailing(s: string, c: char)
    ensures SplitOn(s + [c], c) == SplitOn(s, c) + [[]]
    decreases |s|
  {
    if c !in s {
      SplitLast(s, c);
    } else {
      var i := FirstIndex(s, c);
      SplitTrailing(s[i + 1..], c);
      SplitTrailingStep(s, c, i);
    }
  }

  /** Without `c` in `s`, `(s + c).split(c)` is `[s, ""]`. */
  lemma SplitLast(s: string, c: char)
    requires c !in s
    ensures SplitOn(s + [c], c) == [s, []]
  {
    var t := s + [c];
    assert t[..|s|] == s;
    SplitAt(t, c, |s|);
    assert t[|s| + 1..] == [];
  }

  /** The first piece is split off before and after appending `c`. */
  lemma SplitTrailingStep(s: string, c: char, i: nat)
    requires i < |s| && s[i] == c && c !in s[..i]
    requires SplitOn(s[i + 1..] + [c], c) == SplitOn(s[i + 1..], c) + [[]]
    ensures SplitOn(s + [c], c) == SplitOn(s, c) + [[]]
  {
    var t := s + [c];
    var rest := s[i + 1..];
    assert t[..i] == s[..i];
    assert t[i + 1..] == rest + [c];
    SplitAt(t, c, i);
    SplitAt(s, c, i);
    PiecesAssoc([s[..i]], SplitOn(rest, c), [[]]);
  }

  lemma PiecesAssoc(a: seq<string>, b: seq<string>, c: seq<string>)
    ensures a + (b + c) == (a + b) + c
  {
  }

  /** An empty piece at the end is dropped by the filter. */
  lemma {:induction false} NonEmptyTrailing(parts: seq<string>)
    ensures NonEmpty(parts + [[]]) == NonEmpty(parts)
    decreases |parts|
  {
    if parts != [] {
      assert (parts + [[]])[1..] == parts[1..] + [[]];
      NonEmptyTrailing(parts[1..]);
    }
  }

  /** A trailing `/` does not change the segments. */
  lemma TrailingSlash(s: string)
    ensures Segments(s + "/") == Segments(s)
  {
    SplitTrailing(s, '/');
    NonEmptyTrailing(SplitOn(s, '/'));
  }

  /** `/<slug>` and `/<slug>/` reach the same route. */
  lemma TrailingSlashSameRoute(reqPath: string)
    requires '?' !in reqPath
    ensures Resolve(reqPath + "/") == Resolve(reqPath)
  {
    assert '?' !in reqPath + "/";
    TrailingSlash(reqPath);
  }

  /** A character in a piece of `s.split(c)` is a character of `s`. */
  lemma {:induction false} PieceChars(s: string, c: char, k: nat, x: char)
    requires k < |SplitOn(s, c)| && x in SplitOn(s, c)[k]
    ensures x in s
    decreases |s|
  {
    if c in s {
      var i := FirstIndex(s, c);
      if k == 0 {
        assert x in s[..i];
      } else {
        PieceChars(s[i + 1..], c, k - 1, x);
      }
    }
  }

  /** Segments are non-empty, have no `/`, and have only characters of the
      path. */
  lemma SegmentChars(path: string)
    ensures forall k :: 0 <= k < |Segments(path)| ==> Segments(path)[k] != [] && '/' !in Segments(path)[k]
    ensures forall k, x :: 0 <= k < |Segments(path)| && x in Segments(path)[k] ==> x in path
  {
    var parts := SplitOn(path, '/');
    forall k, x | 0 <= k < |Segments(path)| && x in Segments(path)[k] ensures x in path {
      var j :| 0 <= j < |parts| && parts[j] == Segments(path)[k];
      PieceChars(path, '/', j, x);
    }
  }

  // ---------------------------------------------------------------------
  // Lemmas: file path and key
  // ---------------------------------------------------------------------

  /** `/a/b/c` from the segments `a`, `b`, `c`. */
  function Slashed(parts: seq<string>): string
  {
    if parts == [] then [] else "/" + (parts[0] + Slashed(parts[1..]))
  }

  lemma {:induction false} JoinSlashed(parts: seq<string>)
    requires parts != []
    ensures "/" + Join(parts, "/") == Slashed(parts)
    decreases |parts|
  {
    if |parts| > 1 {
      JoinSlashed(parts[1..]);
      assert Join(parts, "/") == parts[0] + "/" + Join(parts[1..], "/");
    }
  }

  predicate Segmentlike(parts: seq<string>)
  {
    forall k :: 0 <= k < |parts| ==> parts[k] != [] && '/' !in parts[k] && '?' !in parts[k]
  }

  lemma {:induction false} SlashedShape(parts: seq<string>)
    requires Segmentlike(parts)
    ensures NoDoubleSlash(Slashed(parts)) && '?' !in Slashed(parts)
    ensures parts != [] ==> |Slashed(parts)| > 1 && Slashed(parts)[0] == '/' && Slashed(parts)[|Slashed(parts)| - 1] != '/'
    decreases |parts|
  {
    if parts != [] {
      var p := parts[0];
      var rest := Slashed(parts[1..]);
      assert Segmentlike(parts[1..]) by {
        forall k | 0 <= k < |parts[1..]| ensures parts[1..][k] == parts[k + 1] {}
      }
      SlashedShape(parts[1..]);
      NoDoubleSlashJoin(p, rest);
      NoDoubleSlashJoin("/", p + rest);
    }
  }

  /** Joining two texts without `//` gives none unless the seam makes one. */
  lemma NoDoubleSlashJoin(a: string, b: string)
    requires NoDoubleSlash(a) && NoDoubleSlash(b)
    requires a == [] || b == [] || a[|a| - 1] != '/' || b[0] != '/'
    ensures NoDoubleSlash(a + b)
  {
    var s := a + b;
    forall i | 0 <= i < |s| - 1 ensures !(s[i] == '/' && s[i + 1] == '/') {
      if i + 1 < |a| {
        assert s[i] == a[i] && s[i + 1] == a[i + 1];
      } else if i >= |a| {
        assert s[i] == b[i - |a|] && s[i + 1] == b[i - |a| + 1];
      }
    }
  }

  /** Collapsing changes nothing in a text without `//`. */
  lemma {:induction false} CollapseNoop(s: string)
    requires NoDoubleSlash(s)
    ensures CollapseSlashes(s) == s
    decreases |s|
  {
    if s != [] {
      assert NoDoubleSlash(s[1..]) by {
        forall i | 0 <= i < |s[1..]| - 1 ensures !(s[1..][i] == '/' && s[1..][i + 1] == '/') {
          assert s[1..][i] == s[i + 1] && s[1..][i + 1] == s[i + 2];
        }
      }
      CollapseNoop(s[1..]);
    }
  }

  lemma IndexPathShape()
    ensures NoDoubleSlash(IndexPath) && '?' !in IndexPath && IndexPath[0] == '/' && |IndexPath| > 1
  {
  }

  lemma RootShape()
    ensures NoDoubleSlash(OutputsRoot)
  {
  }

  /** The file path of a project request is `/index.html` or the remaining
      segments, each after a `/`; it starts with `/`, has no `//` and no
      `?`, so the clean-up of `cleanFilePath` leaves it as it is. */
  lemma FilePathShape(segs: seq<string>)
    requires segs != [] && Segmentlike(segs)
    ensures FilePathOf(segs) == if |segs| > 1 then Slashed(segs[1..]) else IndexPath
    ensures CleanFilePath(FilePathOf(segs)) == FilePathOf(segs)
    ensures NoDoubleSlash(FilePathOf(segs)) && FilePathOf(segs)[0] == '/'
  {
    if |segs| > 1 {
      JoinSlashed(segs[1..]);
      assert Segmentlike(segs[1..]) by {
        forall k | 0 <= k < |segs[1..]| ensures segs[1..][k] == segs[k + 1] {}
      }
      SlashedShape(segs[1..]);
    } else {
      IndexPathShape();
    }
  }

  /** The storage key is `__outputs/<slug>/` followed by the file path
      without its leading `/`: the `/+` collapse never changes it. */
  lemma KeyShape(slug: string, clean: string)
    requires slug != [] && '/' !in slug
    requires clean != [] && clean[0] == '/' && NoDoubleSlash(clean)
    ensures ObjectName(slug, clean) == OutputPrefix(slug) + clean[1..]
  {
    RootShape();
    assert NoDoubleSlash(slug) by {
      forall i | 0 <= i < |slug| ensures slug[i] != '/' {
        assert slug[i] in slug;
      }
    }
    assert slug[0] in slug && slug[|slug| - 1] in slug;
    NoDoubleSlashJoin(OutputsRoot, slug);
    var head := OutputsRoot + slug;
    assert head[|head| - 1] == slug[|slug| - 1];
    NoDoubleSlashJoin(head, clean);
    CollapseNoop(head + clean);
    assert clean == "/" + clean[1..];
    Assoc(head, "/", clean[1..]);
  }

  /** What a request path resolves to: no project when it has no segment,
      an asset-folder miss when the first segment is a known asset folder
      in any case, else the first segment as slug, the rest (or
      `/index.html`) as file path, and the key under that slug's prefix. */
  lemma ResolveCases(reqPath: string)
    ensures var segs := Segments(BeforeQuery(reqPath));
      match Resolve(reqPath)
      case NoProject => segs == []
      case AssetPath(first) => segs != [] && first == segs[0] && LowerStr(first) in KnownAssetPaths
      case Target(slug, clean, key) =>
        segs != [] && slug == segs[0] && LowerStr(slug) !in KnownAssetPaths
        && clean == (if |segs| > 1 then Slashed(segs[1..]) else IndexPath)
        && key == OutputPrefix(slug) + clean[1..]
  {
    var q := BeforeQuery(reqPath);
    var segs := Segments(q);
    SegmentChars(q);
    if segs != [] {
      assert Segmentlike(segs);
      FilePathShape(segs);
      KeyShape(segs[0], FilePathOf(segs));
    }
  }

  /** Every key the proxy reads for a project lies under that project's
      output prefix, the prefix the expiry sweep deletes. */
  lemma KeyUnderPrefix(reqPath: string)
    requires Resolve(reqPath).Target?
    ensures StartsWith(Resolve(reqPath).key, OutputPrefix(Resolve(reqPath).slug))
    ensures StartsWith(IndexKey(Resolve(reqPath).slug), OutputPrefix(Resolve(reqPath).slug))
  {
    ResolveCases(reqPath);
    var r := Resolve(reqPath);
    assert (OutputPrefix(r.slug) + r.filePath[1..])[..|OutputPrefix(r.slug)|] == OutputPrefix(r.slug);
    assert IndexKey(r.slug)[..|OutputPrefix(r.slug)|] == OutputPrefix(r.slug);
  }

  // ---------------------------------------------------------------------
  // Lemmas: the response
  // ---------------------------------------------------------------------

  /** Only 200, 404 and 500 are ever answered; 200 always carries the
      stored content type and a cache policy. */
  lemma StatusCodes(reqPath: string, store: string -> StoreReply)
    ensures var r := Respond(reqPath, store);
      (r.status == 200 || r.status == 404 || r.status == 500)
      && (r.status == 200 <==> r.contentType.Some? && r.cacheControl.Some?)
  {
  }

  /** A 500 comes from a store error other than not-found, on the file or
      on the fallback page; nothing else fails. */
  lemma ServerErrorIff(reqPath: string, store: string -> StoreReply)
    requires Resolve(reqPath).Target?
    ensures var route := Resolve(reqPath);
      var first := Fetch(route.key, store(route.key));
      var index := Fetch(IndexKey(route.slug), store(IndexKey(route.slug)));
      Respond(reqPath, store).status == 500
      <==> first.Fault? || (first.Absent? && route.filePath != IndexPath && index.Fault?)
  {
  }

  /** The fallback page is fetched only for a missing file other than
      `/index.html`; it is always treated as a page, whatever its content
      type, and is never cached for long. */
  lemma FallbackPage(reqPath: string, store: string -> StoreReply)
    requires Resolve(reqPath).Target?
    ensures var route := Resolve(reqPath);
      var r := Respond(reqPath, store);
      r.cacheControl == Some(RevalidateCache)
      <==> Fetch(route.key, store(route.key)).Absent? && route.filePath != IndexPath
           && Fetch(IndexKey(route.slug), store(IndexKey(route.slug))).File?
    ensures var route := Resolve(reqPath);
      var r := Respond(reqPath, store);
      r.cacheControl == Some(RevalidateCache)
      ==> r.body == Page(route.slug, store(IndexKey(route.slug)).body)
  {
  }

  /** A file found under its own key is served with the immutable policy:
      pages get the base tag and the rewrites, style sheets the `url()`
      rewrite, and anything else goes out byte for byte. */
  lemma DirectFile(reqPath: string, store: string -> StoreReply)
    requires Resolve(reqPath).Target? && store(Resolve(reqPath).key).Stored?
    ensures var route := Resolve(reqPath);
      var f := Fetch(route.key, store(route.key));
      var r := Respond(reqPath, store);
      r.status == 200 && r.cacheControl == Some(ImmutableCache) && r.contentType == Some(f.contentType)
      && (f.contentType == "text/html" ==> r.body == Page(route.slug, f.body))
      && (f.contentType != "text/html" && IsCss(f.contentType, route.filePath)
          ==> r.body == Rewrite.RewriteCss(route.slug, f.body))
      && (f.contentType != "text/html" && !IsCss(f.contentType, route.filePath) ==> r.body == f.body)
  {
  }

  /** A stored object without metadata is typed by its name's extension. */
  lemma TypeFromName(key: string, body: string)
    ensures Fetch(key, Stored(body, None)) == File(body, ContentType.GetContentType(key))
  {
  }
}
