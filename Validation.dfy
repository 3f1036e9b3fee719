/** The repository-URL check of the deploy form (`isValidURL`): a guard
    against the empty string and one anchored regular expression,
    `^(?:https?://)?(?:www\.)?github\.com/([^/]+)/([^/]+)(?:/)?$`. */
module Validation {
  import opened Wrappers
  import opened Strings

  datatype Scheme = NoScheme | Http | Https

  /** The pieces an accepted URL is made of. */
  datatype GithubUrl = GithubUrl(scheme: Scheme, www: bool, owner: string, repo: string, trailingSlash: bool)

  function SchemeText(s: Scheme): string
  {
    match s
    case NoScheme => ""
    case Http => "http://"
    case Https => "https://"
  }

  /** `[^/]+`: a non-empty path segment. */
  predicate IsSegment(s: string)
  {
    s != [] && '/' !in s
  }

  predicate WellFormed(u: GithubUrl)
  {
    IsSegment(u.owner) && IsSegment(u.repo)
  }

  function WwwText(www: bool): string
  {
    if www then "www." else ""
  }

  function SlashText(slash: bool): string
  {
    if slash then "/" else ""
  }

  /** The text of a URL with these pieces. */
  function Render(u: GithubUrl): string
  {
    SchemeText(u.scheme) + (WwwText(u.www) + ("github.com/" + PathText(PathOf(u))))
  }

  function PathOf(u: GithubUrl): RepoPath
  {
    RepoPath(u.owner, u.repo, u.trailingSlash)
  }

  /** `(?:https?://)?`: the optional scheme. The regex cannot skip a scheme
      that is present, since `github.com` does not start with `h`. */
  function SchemeOf(s: string): (r: Scheme)
    ensures StartsWith(s, SchemeText(r))
  {
    if StartsWith(s, "https://") then Https
    else if StartsWith(s, "http://") then Http
    else NoScheme
  }

  /** Length of the longest prefix without `/` (`[^/]*`). */
  function SegRun(s: string): (n: nat)
    ensures n <= |s|
    ensures forall i :: 0 <= i < n ==> s[i] != '/'
    ensures n < |s| ==> s[n] == '/'
  {
    if s != [] && s[0] != '/' then 1 + SegRun(s[1..]) else 0
  }

  /** The path part after `github.com/`: owner, repository, optional `/`. */
  datatype RepoPath = RepoPath(owner: string, repo: string, trailingSlash: bool)

  /** `([^/]+)/([^/]+)(?:/)?$`: both runs are maximal, so the regex cannot
      backtrack into them. */
  function ParsePath(c: string): (r: Option<RepoPath>)
    ensures r.Some? ==> IsSegment(r.value.owner) && IsSegment(r.value.repo)
  {
    var i := SegRun(c);
    if i == |c| then None
    else
      var d := c[i + 1..];
      var j := SegRun(d);
      var rest := d[j..];
      if 0 < i && 0 < j && (rest == [] || rest == "/") then
        Some(RepoPath(c[..i], d[..j], rest == "/"))
      else None
  }

  /** The text after the optional scheme. */
  function AfterScheme(s: string): string
  {
    s[|SchemeText(SchemeOf(s))|..]
  }

  /** The text after the optional scheme and the optional `www.`. */
  function Host(s: string): string
  {
    var a := AfterScheme(s);
    if StartsWith(a, "www.") then a[4..] else a
  }

  /** The scanner for the regex: each optional group is taken when present,
      then `github.com/` and the path. */
  function Parse(s: string): (r: Option<GithubUrl>)
    ensures r.Some? ==> WellFormed(r.value)
  {
    var b := Host(s);
    if !StartsWith(b, "github.com/") then None
    else
      match ParsePath(b[11..])
      case None => None
      case Some(p) => Some(GithubUrl(SchemeOf(s), StartsWith(AfterScheme(s), "www."), p.owner, p.repo, p.trailingSlash))
  }

  /** `isValidURL`. */
  function IsValidURL(s: string): bool
  {
    if s == [] then false else Parse(s).Some?
  }

  function PathText(p: RepoPath): string
  {
    p.owner + ("/" + (p.repo + SlashText(p.trailingSlash)))
  }

  lemma SegRunAt(t: string, u: nat, n: nat)
    requires u + n <= |t| && (u + n == |t| || t[u + n] == '/')
    requires forall i :: u <= i < u + n ==> t[i] != '/'
    ensures SegRun(t[u..]) == n
  {
  }

  lemma ParsePathText(p: RepoPath)
    requires IsSegment(p.owner) && IsSegment(p.repo)
    ensures ParsePath(PathText(p)) == Some(p)
  {
    var c := PathText(p);
    var n := |p.owner|;
    var slash := SlashText(p.trailingSlash);
    var d := p.repo + slash;
    assert c == p.owner + ("/" + d);
    assert forall i :: 0 <= i < n ==> c[i] == p.owner[i];
    SegRunAt(c, 0, n);
    assert c[n + 1..] == d;
    assert c[..n] == p.owner;
    assert forall i :: 0 <= i < |p.repo| ==> d[i] == p.repo[i];
    SegRunAt(d, 0, |p.repo|);
    assert d[..|p.repo|] == p.repo;
    assert d[|p.repo|..] == slash;
  }

  lemma PathTextParse(c: string)
    requires ParsePath(c).Some?
    ensures PathText(ParsePath(c).value) == c
  {
    var i := SegRun(c);
    var d := c[i + 1..];
    var j := SegRun(d);
    assert d == d[..j] + SlashText(d[j..] == "/");
    assert c == c[..i] + ("/" + d);
  }

  lemma NotPrefixAt(s: string, p: string, i: nat)
    requires i < |p| && i < |s| && s[i] != p[i]
    ensures !StartsWith(s, p)
  {
  }

  lemma PrefixOf(p: string, tail: string)
    ensures StartsWith(p + tail, p) && (p + tail)[|p|..] == tail
  {
    assert (p + tail)[..|p|] == p;
  }

  /** The scheme is recognised when the text after it starts with `w` or `g`. */
  lemma SchemeOfText(sc: Scheme, tail: string)
    requires tail != [] && (tail[0] == 'w' || tail[0] == 'g')
    ensures SchemeOf(SchemeText(sc) + tail) == sc
    ensures AfterScheme(SchemeText(sc) + tail) == tail
  {
    var s := SchemeText(sc) + tail;
    PrefixOf(SchemeText(sc), tail);
    match sc
    case NoScheme =>
      assert s == tail;
      NotPrefixAt(s, "https://", 0);
      NotPrefixAt(s, "http://", 0);
    case Http =>
      assert s[4] == ':';
      NotPrefixAt(s, "https://", 4);
    case Https =>
  }

  /** The optional `www.` is recognised when the text after it starts with `g`. */
  lemma WwwOf(www: bool, b: string)
    requires b != [] && b[0] == 'g'
    ensures StartsWith(WwwText(www) + b, "www.") == www
    ensures (if www then (WwwText(www) + b)[4..] else WwwText(www) + b) == b
  {
    if www {
      PrefixOf("www.", b);
    } else {
      assert WwwText(www) + b == b;
      NotPrefixAt(b, "www.", 0);
    }
  }

  /** The host part of a rendered URL. */
  lemma HostOfRender(u: GithubUrl)
    ensures StartsWith(AfterScheme(Render(u)), "www.") == u.www
    ensures Host(Render(u)) == "github.com/" + PathText(PathOf(u))
    ensures SchemeOf(Render(u)) == u.scheme
  {
    var b := "github.com/" + PathText(PathOf(u));
    var a := WwwText(u.www) + b;
    WwwOf(u.www, b);
    SchemeOfText(u.scheme, a);
  }

  /** Parsing an accepted URL gives back its pieces. */
  lemma ParseRender(u: GithubUrl)
    requires WellFormed(u)
    ensures Parse(Render(u)) == Some(u)
  {
    HostOfRender(u);
    PrefixOf("github.com/", PathText(PathOf(u)));
    ParsePathText(PathOf(u));
  }

  /** What an accepted parse is made of. */
  lemma ParseFields(s: string)
    requires Parse(s).Some?
    ensures var u := Parse(s).value;
      u.scheme == SchemeOf(s) && u.www == StartsWith(AfterScheme(s), "www.")
      && StartsWith(Host(s), "github.com/") && ParsePath(Host(s)[11..]) == Some(PathOf(u))
  {
  }

  /** The text splits at the end of the optional scheme. */
  lemma SplitScheme(s: string)
    ensures s == SchemeText(SchemeOf(s)) + AfterScheme(s)
  {
  }

  /** The text after the scheme splits at the end of the optional `www.`. */
  lemma SplitWww(s: string)
    ensures AfterScheme(s) == WwwText(StartsWith(AfterScheme(s), "www.")) + Host(s)
  {
  }

  lemma SplitGithub(b: string)
    requires StartsWith(b, "github.com/")
    ensures b == "github.com/" + b[11..]
  {
  }

  /** Whatever the scanner accepts is exactly the rendering of what it returns. */
  lemma RenderParse(s: string)
    requires Parse(s).Some?
    ensures Render(Parse(s).value) == s
  {
    ParseFields(s);
    SplitScheme(s);
    SplitWww(s);
    SplitGithub(Host(s));
    PathTextParse(Host(s)[11..]);
  }

  /** The regex's language: `isValidURL(s)` holds exactly when `s` is some
      well-formed `[http(s)://][www.]github.com/<owner>/<repo>[/]`. */
  lemma ValidIff(s: string)
    ensures IsValidURL(s) <==> exists u :: WellFormed(u) && Render(u) == s
  {
    if IsValidURL(s) {
      RenderParse(s);
    }
    if u :| WellFormed(u) && Render(u) == s {
      ParseRender(u);
    }
  }

  /** The empty-string guard never changes the answer: the regex rejects
      the empty string on its own. */
  lemma GuardRedundant(s: string)
    ensures IsValidURL(s) == Parse(s).Some?
  {
    if s == [] {
      assert SchemeOf(s) == NoScheme;
      assert !StartsWith(Host(s), "github.com/");
    }
  }

  lemma WwwGithub(r: string)
    ensures "www." + ("github.com/" + r) == "www.github.com/" + r
  {
  }

  /** Only `github.com` and `www.github.com` are accepted as hosts. */
  lemma HostIsGithub(s: string)
    requires IsValidURL(s)
    ensures StartsWith(AfterScheme(s), "github.com/") || StartsWith(AfterScheme(s), "www.github.com/")
  {
    ParseFields(s);
    SplitWww(s);
    var b := Host(s);
    SplitGithub(b);
    if StartsWith(AfterScheme(s), "www.") {
      WwwGithub(b[11..]);
      PrefixOf("www.github.com/", b[11..]);
    }
  }

  lemma Accepts(u: GithubUrl)
    requires WellFormed(u)
    ensures IsValidURL(Render(u))
  {
    ParseRender(u);
  }

  /** `https://github.com/user/repo` is accepted. */
  lemma AcceptsHttps()
    ensures IsValidURL("https://github.com/user/repo")
  {
    var u := GithubUrl(Https, false, "user", "repo", false);
    assert Render(u) == "https://github.com/user/repo";
    Accepts(u);
  }

  /** `https://www.github.com/user/repo` is accepted. */
  lemma AcceptsWww()
    ensures IsValidURL("https://www.github.com/user/repo")
  {
    var u := GithubUrl(Https, true, "user", "repo", false);
    assert Render(u) == "https://www.github.com/user/repo";
    Accepts(u);
  }

  /** `https://github.com/user/repo/` is accepted. */
  lemma AcceptsTrailingSlash()
    ensures IsValidURL("https://github.com/user/repo/")
  {
    var u := GithubUrl(Https, false, "user", "repo", true);
    assert Render(u) == "https://github.com/user/repo/";
    Accepts(u);
  }

  /** Any owner and repository name without `/` is accepted, hyphens
      and other punctuation included. */
  lemma AcceptsAnyNames(owner: string, repo: string)
    requires IsSegment(owner) && IsSegment(repo)
    ensures IsValidURL("https://" + ("github.com/" + (owner + ("/" + repo))))
  {
    var c := owner + ("/" + repo);
    var p := RepoPath(owner, repo, false);
    assert repo + SlashText(false) == repo;
    assert PathText(p) == c;
    ParsePathText(p);
    ValidText(Https, false, c);
    assert WwwText(false) + ("github.com/" + c) == "github.com/" + c;
  }

  /** A URL without a scheme is accepted, as the regex makes the scheme
      optional (the test file expects the opposite). */
  lemma SchemelessAccepted()
    ensures IsValidURL("github.com/user/repo")
  {
    var u := GithubUrl(NoScheme, false, "user", "repo", false);
    assert Render(u) == "github.com/user/repo";
    Accepts(u);
  }

  /** The empty string is rejected. */
  lemma RejectsEmpty()
    ensures !IsValidURL("")
  {
  }

  /** Without a scheme, text that is not `github.com/` or `www.` plus it is
      rejected: `github.com` alone. */
  lemma RejectsBareHost()
    ensures !IsValidURL("github.com")
  {
    var s := "github.com";
    NotPrefixAt(s, "https://", 0);
    NotPrefixAt(s, "http://", 0);
    NotPrefixAt(s, "www.", 0);
  }

  /** `https://github.com` has no path and is rejected. */
  lemma RejectsHostOnly()
    ensures !IsValidURL("https://github.com")
  {
    var s := "https://github.com";
    PrefixOf("https://", "github.com");
    assert AfterScheme(s) == "github.com";
    NotPrefixAt("github.com", "www.", 0);
  }

  /** Whatever the scheme and `www.`, the host part is what follows them. */
  lemma HostOfText(sc: Scheme, www: bool, b: string)
    requires b != [] && b[0] == 'g'
    ensures Host(SchemeText(sc) + (WwwText(www) + b)) == b
  {
    WwwOf(www, b);
    SchemeOfText(sc, WwwText(www) + b);
  }

  /** Whatever the scheme and `www.`, the verdict is the path scanner's. */
  lemma ValidText(sc: Scheme, www: bool, c: string)
    ensures IsValidURL(SchemeText(sc) + (WwwText(www) + ("github.com/" + c))) == ParsePath(c).Some?
  {
    var b := "github.com/" + c;
    HostOfText(sc, www, b);
    PrefixOf("github.com/", c);
  }

  /** A single path segment (a missing owner, as in
      `https://github.com/repo`) is rejected, with or without a trailing `/`. */
  lemma RejectsOneSegment(sc: Scheme, www: bool, seg: string, slash: bool)
    requires IsSegment(seg)
    ensures !IsValidURL(SchemeText(sc) + (WwwText(www) + ("github.com/" + (seg + SlashText(slash)))))
  {
    var c := seg + SlashText(slash);
    ValidText(sc, www, c);
    SegRunAt(c, 0, |seg|);
    if slash {
      assert c[|seg| + 1..] == [];
    }
  }

  /** A third path segment (`https://github.com/user/repo/invalid`) is
      rejected. */
  lemma RejectsExtraSegment(sc: Scheme, www: bool, owner: string, repo: string, extra: string)
    requires IsSegment(owner) && IsSegment(repo) && extra != []
    ensures !IsValidURL(SchemeText(sc) + (WwwText(www) + ("github.com/" + (owner + ("/" + (repo + ("/" + extra)))))))
  {
    ValidText(sc, www, owner + ("/" + (repo + ("/" + extra))));
    ExtraSegmentPath(owner, repo, extra);
  }

  lemma ExtraSegmentPath(owner: string, repo: string, extra: string)
    requires IsSegment(owner) && IsSegment(repo) && extra != []
    ensures ParsePath(owner + ("/" + (repo + ("/" + extra)))) == None
  {
    var d := repo + ("/" + extra);
    var c := owner + ("/" + d);
    assert forall i :: 0 <= i < |owner| ==> c[i] == owner[i];
    SegRunAt(c, 0, |owner|);
    assert c[|owner| + 1..] == d;
    assert forall i :: 0 <= i < |repo| ==> d[i] == repo[i];
    SegRunAt(d, 0, |repo|);
    assert d[|repo|..] == "/" + extra;
  }
}
