/** The rewrite engine of the reverse proxy: every `replace(/…/g, callback)`
    pass of `replaceAbsoluteUrls` and `replaceAbsoluteUrlsInCSS`, each regex
    written out as a scanner over the characters of the document.

    A global `replace` tries its regex at position 0; on a match it emits the
    callback's result and resumes after the match, otherwise it copies one
    character and tries again at the next position (ReplaceAll). Each rule's
    anchored matcher is Step. All the regexes here are deterministic once
    analysed: every character class stops at a character the next token
    needs, so backtracking into a shorter run never yields another match, and
    the alternatives of each `(a|b)` group start with different letters. */
module Rewrite {
  import opened Wrappers
  import opened Strings

  /** What a regex captured and hands to its callback. */
  datatype Call =
      /** the attribute name as written, the quote before the path, the path
          after the leading `/`, the quote after it */
    | RootCall(attr: string, open: char, url: string, close: char)
      /** the quotes around a `srcset` value and the value */
    | SrcsetCall(open: char, value: string, close: char)
      /** an `assets/` or common-folder reference; `folderRule` tells the two apart */
    | FolderCall(attr: string, open: char, url: string, close: char, folderRule: bool)
      /** the optional quote of a `url()` reference and its path after `/` */
    | UrlCall(q: string, url: string)

  /** One match: how many characters it covered and what it captured. */
  datatype Hit = Hit(len: nat, call: Call)

  /** The rewrite rules, in the words of their regexes. */
  datatype Rule =
      /** `(href|src)\s*=\s*(["'])\/([^"']*)(["'])` and the same for `data-src|data-href` */
    | RootQuoted(names: seq<string>)
      /** `(href|src)\s*=\s*\/([^\s>]*)` */
    | RootUnquoted
      /** `srcset\s*=\s*(["'])([^"']*)(["'])` */
    | Srcset
      /** `url\((["']?)\/([^"')]*)\1\)`, or with the `i` flag and `\s*` inside the parentheses when `inHtml` */
    | CssUrl(inHtml: bool)
      /** `(href|src|data-src)\s*=\s*(["'])(assets\/[^"']*)(["'])` */
    | AssetsRef
      /** `(href|src|data-src)\s*=\s*(["'])(<folder>\/[^"']*)\2` */
    | FolderRef(folder: string)

  const HrefSrc: seq<string> := ["href", "src"]
  const DataAttrs: seq<string> := ["data-src", "data-href"]
  const RefAttrs: seq<string> := ["href", "src", "data-src"]
  const CommonFolders: seq<string> :=
    ["dist", "build", "public", "static", "images", "img", "css", "js", "fonts", "media"]

  /** The `/^(https?|mailto|tel|data):/` test of the callbacks. */
  predicate HasScheme(url: string)
  {
    StartsWith(url, "http:") || StartsWith(url, "https:") || StartsWith(url, "mailto:")
    || StartsWith(url, "tel:") || StartsWith(url, "data:")
  }

  /** The callbacks' reason to return a root-relative match unchanged: the
      path after the leading `/` is already under `<slug>/`, or is a scheme. */
  predicate KeepsRoot(slug: string, url: string)
  {
    StartsWith(url, slug + "/") || HasScheme(url)
  }

  /** Length of the longest prefix without `"` or `'` (`[^"']*`). */
  function NoQuoteRun(s: string): (n: nat)
    ensures n <= |s|
    ensures forall i :: 0 <= i < n ==> !IsQuote(s[i])
    ensures n < |s| ==> IsQuote(s[n])
  {
    if s != [] && !IsQuote(s[0]) then 1 + NoQuoteRun(s[1..]) else 0
  }

  predicate IsCssStop(c: char)
  {
    IsQuote(c) || c == ')'
  }

  /** Length of the longest prefix without `"`, `'` or `)` (`[^"')]*`). */
  function CssRun(s: string): (n: nat)
    ensures n <= |s|
    ensures forall i :: 0 <= i < n ==> !IsCssStop(s[i])
    ensures n < |s| ==> IsCssStop(s[n])
  {
    if s != [] && !IsCssStop(s[0]) then 1 + CssRun(s[1..]) else 0
  }

  predicate IsBareStop(c: char)
  {
    IsSpace(c) || c == '>'
  }

  /** Length of the longest prefix without white space or `>` (`[^\s>]*`). */
  function BareRun(s: string): (n: nat)
    ensures n <= |s|
    ensures forall i :: 0 <= i < n ==> !IsBareStop(s[i])
    ensures n < |s| ==> IsBareStop(s[n])
  {
    if s != [] && !IsBareStop(s[0]) then 1 + BareRun(s[1..]) else 0
  }

  /** The position just after `name\s*=\s*` at the start of `t`, the name
      compared case-insensitively. */
  function Assign(name: string, t: string): (r: Option<nat>)
    ensures r.Some? ==> |name| < r.value <= |t| && StartsWithCI(t, name)
  {
    if !StartsWithCI(t, name) then None
    else
      var a := |name| + SpaceRun(t[|name|..]);
      if a < |t| && t[a] == '=' then Some(a + 1 + SpaceRun(t[a + 1..])) else None
  }

  /** The attribute names a rule's `(…|…)` group tries, in order. */
  function Names(rule: Rule): seq<string>
  {
    match rule
    case RootQuoted(names) => names
    case RootUnquoted => HrefSrc
    case Srcset => ["srcset"]
    case CssUrl(_) => []
    case AssetsRef => RefAttrs
    case FolderRef(_) => RefAttrs
  }

  /** The rule's anchored match at the start of `t`. */
  function Step(rule: Rule, t: string): (r: Option<Hit>)
    ensures r.Some? ==> 0 < r.value.len <= |t|
  {
    if rule.CssUrl? then CssStep(rule.inHtml, t)
    else AttrStep(rule, Names(rule), t)
  }

  /** The alternation over attribute names: the first name with which the
      whole regex matches. */
  function AttrStep(rule: Rule, names: seq<string>, t: string): (r: Option<Hit>)
    requires !rule.CssUrl?
    ensures r.Some? ==> 0 < r.value.len <= |t|
  {
    if names == [] then None
    else
      match Assign(names[0], t)
      case None => AttrStep(rule, names[1..], t)
      case Some(v) =>
        match ValueStep(rule, t[..|names[0]|], t, v)
        case None => AttrStep(rule, names[1..], t)
        case Some(h) => Some(h)
  }

  /** The part of an attribute rule after `attr\s*=\s*`, which ends at `v`;
      `attr` is the attribute name as written in the document. */
  function ValueStep(rule: Rule, attr: string, t: string, v: nat): (r: Option<Hit>)
    requires !rule.CssUrl? && |attr| < v <= |t|
    ensures r.Some? ==> v < r.value.len <= |t|
  {
    match rule
    case RootQuoted(_) => RootQuotedValue(attr, t, v)
    case RootUnquoted => RootUnquotedValue(attr, t, v)
    case Srcset => SrcsetValueStep(t, v)
    case AssetsRef => FolderValue(attr, t, v, "assets/", false)
    case FolderRef(folder) => FolderValue(attr, t, v, folder + "/", true)
  }

  /** `(["'])\/([^"']*)(["'])`: a quote, `/`, the path, any quote. */
  function RootQuotedValue(attr: string, t: string, v: nat): (r: Option<Hit>)
    requires v <= |t|
    ensures r.Some? ==> v < r.value.len <= |t|
  {
    if v + 1 < |t| && IsQuote(t[v]) && t[v + 1] == '/' then
      var u := v + 2;
      var k := u + NoQuoteRun(t[u..]);
      if k < |t| then Some(Hit(k + 1, RootCall(attr, t[v], t[u..k], t[k]))) else None
    else None
  }

  /** `\/([^\s>]*)`: `/` and the path up to white space or `>`; the callback
      writes it back double-quoted. */
  function RootUnquotedValue(attr: string, t: string, v: nat): (r: Option<Hit>)
    requires v <= |t|
    ensures r.Some? ==> v < r.value.len <= |t|
  {
    if v < |t| && t[v] == '/' then
      var u := v + 1;
      var k := u + BareRun(t[u..]);
      Some(Hit(k, RootCall(attr, '"', t[u..k], '"')))
    else None
  }

  /** `(["'])([^"']*)(["'])` after `srcset`. */
  function SrcsetValueStep(t: string, v: nat): (r: Option<Hit>)
    requires v <= |t|
    ensures r.Some? ==> v < r.value.len <= |t|
  {
    if v < |t| && IsQuote(t[v]) then
      var u := v + 1;
      var k := u + NoQuoteRun(t[u..]);
      if k < |t| then Some(Hit(k + 1, SrcsetCall(t[v], t[u..k], t[k]))) else None
    else None
  }

  /** `(["'])(<lead>[^"']*)(["'])` for `assets/`, and `(["'])(<folder>/[^"']*)\2`
      (closing quote the opening one) for the common folders. */
  function FolderValue(attr: string, t: string, v: nat, lead: string, folderRule: bool): (r: Option<Hit>)
    requires v <= |t|
    ensures r.Some? ==> v < r.value.len <= |t|
  {
    if v < |t| && IsQuote(t[v]) && StartsWithCI(t[v + 1..], lead) then
      var u := v + 1;
      var k := u + NoQuoteRun(t[u..]);
      if k < |t| && (!folderRule || t[k] == t[v]) then
        Some(Hit(k + 1, FolderCall(attr, t[v], t[u..k], if folderRule then t[v] else t[k], folderRule)))
      else None
    else None
  }

  /** The white space the HTML form of the `url()` rule allows (`\s*`). */
  function Gap(inHtml: bool, s: string): (n: nat)
    ensures n <= |s|
  {
    if inHtml then SpaceRun(s) else 0
  }

  /** `url(` … `)` with an optional quote that must close the reference too. */
  function CssStep(inHtml: bool, t: string): (r: Option<Hit>)
    ensures r.Some? ==> 0 < r.value.len <= |t|
  {
    if !(if inHtml then StartsWithCI(t, "url(") else StartsWith(t, "url(")) then None
    else
      var w := 4 + Gap(inHtml, t[4..]);
      if w < |t| && IsQuote(t[w]) then CssQuoted(inHtml, t, w) else CssBare(t, w)
  }

  /** `(["'])\/([^"')]*)\1\s*\)` once the optional quote is present. */
  function CssQuoted(inHtml: bool, t: string, w: nat): (r: Option<Hit>)
    requires w < |t|
    ensures r.Some? ==> w < r.value.len <= |t|
  {
    if w + 1 < |t| && t[w + 1] == '/' then
      var u := w + 2;
      var k := u + CssRun(t[u..]);
      if k < |t| && t[k] == t[w] then
        var e := k + 1 + Gap(inHtml, t[k + 1..]);
        if e < |t| && t[e] == ')' then Some(Hit(e + 1, UrlCall([t[w]], t[u..k]))) else None
      else None
    else None
  }

  /** `\/([^"')]*)\)` when no quote opens the reference. */
  function CssBare(t: string, w: nat): (r: Option<Hit>)
    requires w <= |t|
    ensures r.Some? ==> w < r.value.len <= |t|
  {
    if w < |t| && t[w] == '/' then
      var u := w + 1;
      var k := u + CssRun(t[u..]);
      if k < |t| && t[k] == ')' then Some(Hit(k + 1, UrlCall([], t[u..k]))) else None
    else None
  }

  /** The callback of the root-relative attribute rules: `attr=<open>/<slug>/<url><close>`. */
  function AttrOut(attr: string, slug: string, open: char, url: string, close: char): string
  {
    attr + "=" + [open] + "/" + slug + "/" + url + [close]
  }

  /** The folder callbacks keep a URL that starts with `http` or `//`, and
      the common-folder ones also one already under `<slug>/`. */
  predicate FolderKeeps(slug: string, url: string, folderRule: bool)
  {
    StartsWith(url, "http") || StartsWith(url, "//") || (folderRule && StartsWith(url, slug + "/"))
  }

  /** The callback of the `url()` rules: `url(<q>/<slug>/<url><q>)`. */
  function UrlOut(slug: string, q: string, url: string): string
  {
    "url(" + q + "/" + slug + "/" + url + q + ")"
  }

  /** What each callback returns for the text `matched` of a match: the match
      itself when it is kept, otherwise the reference rewritten under `/<slug>/`. */
  function Callback(slug: string, call: Call, matched: string): string
  {
    match call
    case RootCall(attr, open, url, close) =>
      if KeepsRoot(slug, url) then matched else AttrOut(attr, slug, open, url, close)
    case SrcsetCall(open, value, close) => "srcset=" + [open] + SrcsetValue(slug, value) + [close]
    case FolderCall(attr, open, url, close, folderRule) =>
      if FolderKeeps(slug, url, folderRule) then matched else AttrOut(attr, slug, open, url, close)
    case UrlCall(q, url) => if KeepsRoot(slug, url) then matched else UrlOut(slug, q, url)
  }

  /** `text.replace(regex, callback)` with the `g` flag. */
  function ReplaceAll(rule: Rule, slug: string, t: string): string
    decreases |t|
  {
    if t == [] then []
    else
      match Step(rule, t)
      case Some(h) => Callback(slug, h.call, t[..h.len]) + ReplaceAll(rule, slug, t[h.len..])
      case None => [t[0]] + ReplaceAll(rule, slug, t[1..])
  }

  /** The callback of the `srcset` rule on one comma-separated candidate. */
  function RewriteCandidate(slug: string, piece: string): string
  {
    var trimmed := Trim(piece);
    var parts := SplitSpaces(trimmed);
    var url := parts[0];
    if StartsWith(url, "/") && !StartsWith(url, "/" + slug + "/") then
      if HasScheme(url) then trimmed
      else
        var newUrl := "/" + slug + "/" + url[1..];
        if |parts| > 1 then newUrl + " " + Join(parts[1..], " ") else newUrl
    else trimmed
  }

  function RewriteCandidates(slug: string, pieces: seq<string>): (r: seq<string>)
    ensures |r| == |pieces|
    ensures forall i :: 0 <= i < |r| ==> r[i] == RewriteCandidate(slug, pieces[i])
  {
    if pieces == [] then [] else [RewriteCandidate(slug, pieces[0])] + RewriteCandidates(slug, pieces[1..])
  }

  /** The new value of a `srcset` attribute. */
  function SrcsetValue(slug: string, value: string): string
  {
    Join(RewriteCandidates(slug, SplitOn(value, ',')), ", ")
  }

  /** The passes of `replaceAbsoluteUrls` in order: six fixed rules, then one
      per common folder. */
  function HtmlRules(): (r: seq<Rule>)
    ensures |r| == 6 + |CommonFolders|
  {
    [RootQuoted(HrefSrc), RootUnquoted, Srcset, CssUrl(true), RootQuoted(DataAttrs), AssetsRef]
    + seq(|CommonFolders|, i requires 0 <= i < |CommonFolders| => FolderRef(CommonFolders[i]))
  }

  /** The document after the passes `rules`, the last one applied last. */
  function ApplyRules(rules: seq<Rule>, slug: string, t: string): string
  {
    if rules == [] then t
    else ReplaceAll(rules[|rules| - 1], slug, ApplyRules(rules[..|rules| - 1], slug, t))
  }

  /** `replaceAbsoluteUrlsInCSS`: one pass of the CSS `url()` rule. */
  function RewriteCss(slug: string, css: string): string
  {
    ReplaceAll(CssUrl(false), slug, css)
  }

  lemma ApplyRulesStep(rules: seq<Rule>, n: nat, slug: string, t: string)
    requires n < |rules|
    ensures ApplyRules(rules[..n + 1], slug, t) == ReplaceAll(rules[n], slug, ApplyRules(rules[..n], slug, t))
  {
    assert rules[..n + 1][..n] == rules[..n];
  }

  /** `replaceAbsoluteUrls`: the document reassigned pass after pass, the
      folder passes in a loop. */
  method RewriteHtml(html: string, slug: string) returns (out: string)
    ensures out == ApplyRules(HtmlRules(), slug, html)
  {
    var rules := HtmlRules();
    assert rules[..0] == [];
    out := html;
    out := ReplaceAll(RootQuoted(HrefSrc), slug, out);
    ApplyRulesStep(rules, 0, slug, html);
    out := ReplaceAll(RootUnquoted, slug, out);
    ApplyRulesStep(rules, 1, slug, html);
    out := ReplaceAll(Srcset, slug, out);
    ApplyRulesStep(rules, 2, slug, html);
    out := ReplaceAll(CssUrl(true), slug, out);
    ApplyRulesStep(rules, 3, slug, html);
    out := ReplaceAll(RootQuoted(DataAttrs), slug, out);
    ApplyRulesStep(rules, 4, slug, html);
    out := ReplaceAll(AssetsRef, slug, out);
    ApplyRulesStep(rules, 5, slug, html);
    for i := 0 to |CommonFolders|
      invariant out == ApplyRules(rules[..6 + i], slug, html)
    {
      out := ReplaceAll(FolderRef(CommonFolders[i]), slug, out);
      ApplyRulesStep(rules, 6 + i, slug, html);
    }
    assert rules[..6 + |CommonFolders|] == rules;
  }
}
