/** The proxy's fallback MIME table (`getContentType`): the text after the
    last `.` of the object name, lower-cased, looked up in a fixed table. */
module ContentType {
  import opened Strings

  const Default := "application/octet-stream"

  const Types: map<string, string> := map[
    "html" := "text/html",
    "css" := "text/css",
    "js" := "application/javascript",
    "json" := "application/json",
    "png" := "image/png",
    "jpg" := "image/jpeg",
    "jpeg" := "image/jpeg",
    "gif" := "image/gif",
    "svg" := "image/svg+xml",
    "ico" := "image/x-icon",
    "woff" := "font/woff",
    "woff2" := "font/woff2",
    "ttf" := "font/ttf",
    "eot" := "application/vnd.ms-fontobject",
    "map" := "application/json",
    "webp" := "image/webp"
  ]

  /** `path.split('.').pop()`: the longest suffix without a `.`, which is
      the whole path when it has no `.` at all. */
  function Extension(path: string): (r: string)
    ensures '.' !in r
    ensures EndsWith(path, r)
    ensures |r| < |path| ==> path[|path| - |r| - 1] == '.'
  {
    if path == [] || path[|path| - 1] == '.' then []
    else
      var n := |path| - 1;
      var r := Extension(path[..n]);
      assert path[..n][n - |r|..] == path[n - |r|..n];
      r + [path[n]]
  }

  /** `getContentType`. */
  function GetContentType(path: string): (r: string)
  {
    var ext := LowerStr(Extension(path));
    if ext in Types then Types[ext] else Default
  }

  /** The extension of `<base>.<ext>` is `ext` when `ext` has no `.`. */
  lemma {:induction false} ExtensionOf(base: string, ext: string)
    requires '.' !in ext
    ensures Extension(base + "." + ext) == ext
    decreases |ext|
  {
    var p := base + "." + ext;
    if ext == [] {
      assert p[|p| - 1] == '.';
    } else {
      var n := |p| - 1;
      assert p[..n] == base + "." + ext[..|ext| - 1];
      assert p[n] == ext[|ext| - 1] != '.';
      ExtensionOf(base, ext[..|ext| - 1]);
    }
  }

  /** A path without `.` is its own extension, so `README` is looked up as
      `readme` and gets the default. */
  lemma {:induction false} ExtensionNoDot(path: string)
    requires '.' !in path
    ensures Extension(path) == path
  {
    if path != [] {
      var n := |path| - 1;
      assert path[n] in path;
      assert forall c :: c in path[..n] ==> c in path;
      ExtensionNoDot(path[..n]);
    }
  }

  /** The type of `<base>.<ext>` is the table entry for the lower-cased
      `ext`, whatever `base` holds (dots included). */
  lemma TypeOf(base: string, ext: string)
    requires '.' !in ext
    ensures GetContentType(base + "." + ext)
         == if LowerStr(ext) in Types then Types[LowerStr(ext)] else Default
  {
    ExtensionOf(base, ext);
  }

  /** Lower-casing only changes ASCII letters, so a `.` stays a `.`. */
  lemma LowerKeepsDots(s: string)
    ensures ('.' in LowerStr(s)) == ('.' in s)
  {
    if '.' in s {
      var i :| 0 <= i < |s| && s[i] == '.';
      assert LowerStr(s)[i] == '.';
    }
    if '.' in LowerStr(s) {
      var i :| 0 <= i < |s| && LowerStr(s)[i] == '.';
      assert s[i] == '.';
    }
  }

  lemma LowerTwice(s: string)
    ensures LowerStr(LowerStr(s)) == LowerStr(s)
  {
  }

  /** The lookup ignores case: `APP.CSS` and `app.css` get the same type. */
  lemma CaseInsensitive(base: string, ext: string)
    requires '.' !in ext
    ensures GetContentType(base + "." + ext) == GetContentType(base + "." + LowerStr(ext))
  {
    LowerKeepsDots(ext);
    TypeOf(base, ext);
    TypeOf(base, LowerStr(ext));
    LowerTwice(ext);
  }

  /** Only the `html` key maps to `text/html`. */
  lemma HtmlKey(e: string)
    requires e in Types && Types[e] == "text/html"
    ensures e == "html"
  {
  }

  lemma HtmlEntry()
    ensures "html" in Types && Types["html"] == "text/html"
  {
  }

  /** Only the `html` extension yields `text/html`, the one type the proxy
      rewrites as a page. */
  lemma HtmlOnly(path: string)
    ensures GetContentType(path) == "text/html" <==> LowerStr(Extension(path)) == "html"
  {
    var e := LowerStr(Extension(path));
    HtmlEntry();
    if e !in Types {
      assert GetContentType(path) == Default;
    } else if Types[e] == "text/html" {
      HtmlKey(e);
    }
  }

  /** Only the `css` key maps to `text/css`. */
  lemma CssKey(e: string)
    requires e in Types && Types[e] == "text/css"
    ensures e == "css"
  {
  }

  lemma CssEntry()
    ensures "css" in Types && Types["css"] == "text/css"
  {
  }

  /** Only the `css` extension yields `text/css`. */
  lemma CssOnly(path: string)
    ensures GetContentType(path) == "text/css" <==> LowerStr(Extension(path)) == "css"
  {
    var e := LowerStr(Extension(path));
    CssEntry();
    if e !in Types {
      assert GetContentType(path) == Default;
    } else if Types[e] == "text/css" {
      CssKey(e);
    }
  }

  /** The page every project falls back to is served as `text/html`. */
  lemma IndexIsHtml()
    ensures GetContentType("/index.html") == "text/html"
  {
    assert "/index" + "." + "html" == "/index.html";
    TypeOf("/index", "html");
    LowerHtml();
    HtmlEntry();
  }

  lemma LowerHtml()
    ensures LowerStr("html") == "html"
  {
    assert LowerStr("html")[0] == 'h';
    assert LowerStr("html")[1] == 't';
    assert LowerStr("html")[2] == 'm';
    assert LowerStr("html")[3] == 'l';
  }
}
