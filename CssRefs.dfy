/** What the `url(...)` rule does to one reference, in a stylesheet
    (`replaceAbsoluteUrlsInCSS`) and inside HTML (the fourth pass of
    `replaceAbsoluteUrls`). */
module CssRefs {
  import opened Wrappers
  import opened Strings
  import opened Rewrite
  import opened Scan

  /** An optional quote: nothing, `"` or `'`. */
  predicate OptQuote(q: string)
  {
    q == [] || (|q| == 1 && IsQuote(q[0]))
  }

  /** `url(<q>/<x><q>)` as the CSS rule writes it. */
  function CssRef(q: string, x: string): string
  {
    "url(" + q + "/" + x + q + ")"
  }

  lemma UrlOutIsRef(slug: string, q: string, x: string)
    ensures UrlOut(slug, q, x) == CssRef(q, slug + "/" + x)
  {
  }

  /** `url(<q>/<x><q>)` as it may appear in HTML: any case for `url(`, white
      space after `(` and, after a closing quote, before `)`. */
  function LooseCssRef(u: string, ws1: string, q: string, x: string, ws2: string): string
  {
    u + ws1 + q + "/" + x + q + ws2 + ")"
  }

  /** A match of length `|r|` at the start of `r + rest` is replaced by
      the callback's result and the search resumes on `rest`. */
  lemma UrlRewritten(inHtml: bool, slug: string, r: string, rest: string, q: string, x: string)
    requires Step(CssUrl(inHtml), r + rest) == Some(Hit(|r|, UrlCall(q, x)))
    ensures ReplaceAll(CssUrl(inHtml), slug, r + rest)
         == (if KeepsRoot(slug, x) then r else CssRef(q, slug + "/" + x)) + ReplaceAll(CssUrl(inHtml), slug, rest)
  {
    assert (r + rest)[..|r|] == r;
    assert (r + rest)[|r|..] == rest;
    UrlOutIsRef(slug, q, x);
  }

  /** `url(` and the white space after it end where the reference body starts. */
  lemma OpenAt(inHtml: bool, u: string, ws1: string, s: string)
    requires LowerStr(u) == "url(" && AllSpace(ws1) && (s == [] || !IsSpace(s[0]))
    requires !inHtml ==> u == "url(" && ws1 == []
    ensures var t := u + ws1 + s;
      (if inHtml then StartsWithCI(t, "url(") else StartsWith(t, "url("))
      && 4 + Gap(inHtml, t[4..]) == |u + ws1|
  {
    var t := u + ws1 + s;
    assert t == u + (ws1 + s);
    assert t[4..] == ws1 + s;
    if inHtml {
      LowerMatches(u, "url(", ws1 + s);
      SpaceRunStops(ws1, s);
    } else {
      assert t[..4] == "url(";
    }
  }

  /** The unquoted body `/<x>)` at `w`. */
  lemma BareBodyAt(t: string, w: nat, x: string)
    requires w <= |t| && StartsWith(t[w..], "/" + x + ")") && NoCssStop(x)
    ensures w + 1 + |x| < |t| && t[w] == '/' && t[w + 1 + |x|] == ')'
    ensures CssRun(t[w + 1..]) == |x| && t[w + 1..w + 1 + |x|] == x
  {
    var b := "/" + x + ")";
    assert forall i :: 0 <= i < |b| ==> t[w + i] == b[i] by {
      forall i | 0 <= i < |b| ensures t[w + i] == b[i] {
        assert t[w..][i] == t[w + i];
      }
    }
    assert t[w + 1..w + 1 + |x|] == x by {
      forall i | 0 <= i < |x| ensures t[w + 1..w + 1 + |x|][i] == x[i] {
        assert b[1 + i] == x[i];
      }
    }
    forall i | w + 1 <= i < w + 1 + |x| ensures !IsCssStop(t[i]) {
      assert b[i - w] == x[i - w - 1];
    }
    assert t[w] == b[0];
    assert t[w + 1 + |x|] == b[1 + |x|];
    CssRunAt(t, w + 1, |x|);
  }

  /** The quoted body `<c>/<x><c><ws2>)` at `w`. */
  lemma QuotedBodyAt(inHtml: bool, t: string, w: nat, c: char, x: string, ws2: string)
    requires w <= |t| && StartsWith(t[w..], [c] + "/" + x + [c] + ws2 + ")")
    requires IsQuote(c) && NoCssStop(x) && AllSpace(ws2) && (!inHtml ==> ws2 == [])
    ensures w + 3 + |x| + |ws2| < |t| && t[w] == c && t[w + 1] == '/' && t[w + 2 + |x|] == c
    ensures CssRun(t[w + 2..]) == |x| && t[w + 2..w + 2 + |x|] == x
    ensures |ws2| == Gap(inHtml, t[w + 3 + |x|..]) && t[w + 3 + |x| + |ws2|] == ')'
  {
    var b := [c] + "/" + x + [c] + ws2 + ")";
    assert forall i :: 0 <= i < |b| ==> t[w + i] == b[i] by {
      forall i | 0 <= i < |b| ensures t[w + i] == b[i] {
        assert t[w..][i] == t[w + i];
      }
    }
    assert t[w + 2..w + 2 + |x|] == x by {
      forall i | 0 <= i < |x| ensures t[w + 2..w + 2 + |x|][i] == x[i] {
        assert b[2 + i] == x[i];
      }
    }
    forall i | w + 2 <= i < w + 2 + |x| ensures !IsCssStop(t[i]) {
      assert b[i - w] == x[i - w - 2];
    }
    assert t[w] == b[0] && t[w + 1] == b[1] && t[w + 2 + |x|] == b[2 + |x|];
    assert t[w + 3 + |x| + |ws2|] == b[3 + |x| + |ws2|];
    CssRunAt(t, w + 2, |x|);
    if inHtml {
      forall i | w + 3 + |x| <= i < w + 3 + |x| + |ws2| ensures IsSpace(t[i]) {
        assert b[i - w] == ws2[i - w - 3 - |x|];
      }
      SpaceRunAt(t, w + 3 + |x|, |ws2|);
    }
  }

  /** After `url(` and its white space, the optional quote decides which
      form of the rule applies. */
  lemma StepForm(inHtml: bool, t: string, w: nat)
    requires (if inHtml then StartsWithCI(t, "url(") else StartsWith(t, "url("))
    requires 4 + Gap(inHtml, t[4..]) == w && w < |t|
    ensures IsQuote(t[w]) ==> Step(CssUrl(inHtml), t) == CssQuoted(inHtml, t, w)
    ensures !IsQuote(t[w]) ==> Step(CssUrl(inHtml), t) == CssBare(t, w)
  {
  }

  /** The unquoted form's hit on a reference `r` whose path is `x`. */
  lemma BareHit(t: string, w: nat, x: string, r: string)
    requires w + 1 + |x| < |t| && t[w] == '/' && t[w + 1 + |x|] == ')'
    requires CssRun(t[w + 1..]) == |x| && t[w + 1..w + 1 + |x|] == x
    requires t[..w + 2 + |x|] == r
    ensures CssBare(t, w) == Some(Hit(|r|, UrlCall([], x)))
  {
  }

  /** The quoted form's hit on a reference `r` whose path is `x`. */
  lemma QuotedHit(inHtml: bool, t: string, w: nat, c: char, x: string, g: nat, r: string)
    requires w + 3 + |x| + g < |t| && t[w] == c && IsQuote(c) && t[w + 1] == '/' && t[w + 2 + |x|] == c
    requires CssRun(t[w + 2..]) == |x| && t[w + 2..w + 2 + |x|] == x
    requires g == Gap(inHtml, t[w + 3 + |x|..]) && t[w + 3 + |x| + g] == ')'
    requires t[..w + 4 + |x| + g] == r
    ensures CssQuoted(inHtml, t, w) == Some(Hit(|r|, UrlCall([c], x)))
  {
  }

  /** One loose reference, unquoted, at the start of `t`. */
  lemma LooseBareStep(inHtml: bool, u: string, ws1: string, x: string, rest: string)
    requires LowerStr(u) == "url(" && AllSpace(ws1) && NoCssStop(x)
    requires !inHtml ==> u == "url(" && ws1 == []
    ensures var r := LooseCssRef(u, ws1, [], x, []);
      Step(CssUrl(inHtml), r + rest) == Some(Hit(|r|, UrlCall([], x)))
  {
    var r := LooseCssRef(u, ws1, [], x, []);
    var body := "/" + x + ")";
    var t := r + rest;
    var w := |u + ws1|;
    assert r == u + ws1 + body;
    assert t == u + ws1 + (body + rest);
    OpenAt(inHtml, u, ws1, body + rest);
    assert t[w..] == body + rest;
    BareBodyAt(t, w, x);
    assert t[..w + 2 + |x|] == r;
    StepForm(inHtml, t, w);
    BareHit(t, w, x, r);
  }

  /** One loose reference, quoted, at the start of `t`. */
  lemma LooseQuotedStep(inHtml: bool, u: string, ws1: string, c: char, x: string, ws2: string, rest: string)
    requires LowerStr(u) == "url(" && AllSpace(ws1) && AllSpace(ws2) && IsQuote(c) && NoCssStop(x)
    requires !inHtml ==> u == "url(" && ws1 == [] && ws2 == []
    ensures var r := LooseCssRef(u, ws1, [c], x, ws2);
      Step(CssUrl(inHtml), r + rest) == Some(Hit(|r|, UrlCall([c], x)))
  {
    var r := LooseCssRef(u, ws1, [c], x, ws2);
    var body := [c] + "/" + x + [c] + ws2 + ")";
    var t := r + rest;
    var w := |u + ws1|;
    assert r == u + ws1 + body;
    assert t == u + ws1 + (body + rest);
    OpenAt(inHtml, u, ws1, body + rest);
    assert t[w..] == body + rest;
    QuotedBodyAt(inHtml, t, w, c, x, ws2);
    assert t[..w + 4 + |x| + |ws2|] == r;
    StepForm(inHtml, t, w);
    QuotedHit(inHtml, t, w, c, x, |ws2|, r);
  }

  /** A root-relative `url()` in a stylesheet gains `/<slug>/` and keeps its
      quote, unless its path is already under `<slug>/` or is a scheme; the
      text after it is rewritten independently. */
  lemma CssRefRewritten(slug: string, q: string, x: string, rest: string)
    requires OptQuote(q) && NoCssStop(x)
    ensures RewriteCss(slug, CssRef(q, x) + rest)
         == (if KeepsRoot(slug, x) then CssRef(q, x) else CssRef(q, slug + "/" + x)) + RewriteCss(slug, rest)
  {
    var r := CssRef(q, x);
    assert r == LooseCssRef("url(", [], q, x, []);
    if q == [] {
      LooseBareStep(false, "url(", [], x, rest);
    } else {
      assert q == [q[0]];
      LooseQuotedStep(false, "url(", [], q[0], x, [], rest);
    }
    UrlRewritten(false, slug, r, rest, q, x);
  }

  /** The same inside HTML: any case for `url(`, white space allowed after
      `(` and after a closing quote; a rewritten reference is written back
      as lower-case `url(` without the white space. */
  lemma LooseCssRefRewritten(slug: string, u: string, ws1: string, q: string, x: string, ws2: string, rest: string)
    requires LowerStr(u) == "url(" && AllSpace(ws1) && AllSpace(ws2)
    requires OptQuote(q) && NoCssStop(x) && (q == [] ==> ws2 == [])
    ensures var r := LooseCssRef(u, ws1, q, x, ws2);
      ReplaceAll(CssUrl(true), slug, r + rest)
      == (if KeepsRoot(slug, x) then r else CssRef(q, slug + "/" + x)) + ReplaceAll(CssUrl(true), slug, rest)
  {
    var r := LooseCssRef(u, ws1, q, x, ws2);
    if q == [] {
      LooseBareStep(true, u, ws1, x, rest);
    } else {
      assert q == [q[0]];
      LooseQuotedStep(true, u, ws1, q[0], x, ws2, rest);
    }
    UrlRewritten(true, slug, r, rest, q, x);
  }

  // ---------------------------------------------------------------------
  // A second pass
  // ---------------------------------------------------------------------

  lemma UnderSlugCss(slug: string, x: string)
    requires NoCssStop(slug) && NoCssStop(x)
    ensures NoCssStop(slug + "/" + x) && StartsWith(slug + "/" + x, slug + "/")
  {
    var y := slug + "/" + x;
    forall i | 0 <= i < |y| ensures !IsCssStop(y[i]) {
      if i < |slug| { assert y[i] == slug[i]; } else if i > |slug| { assert y[i] == x[i - |slug| - 1]; }
    }
    assert y[..|slug| + 1] == slug + "/";
  }

  /** A `url()` reference the stylesheet pass wrote is left alone when the
      pass runs again, for a slug without quotes or `)`. */
  lemma CssRefStable(slug: string, q: string, x: string, rest: string)
    requires OptQuote(q) && NoCssStop(x) && NoCssStop(slug)
    ensures var r := CssRef(q, slug + "/" + x);
      RewriteCss(slug, r + rest) == r + RewriteCss(slug, rest)
  {
    UnderSlugCss(slug, x);
    CssRefRewritten(slug, q, slug + "/" + x, rest);
  }

  /** The same for the `url()` pass inside HTML, whose output is the
      lower-case, white-space-free form. */
  lemma LooseCssRefStable(slug: string, q: string, x: string, rest: string)
    requires OptQuote(q) && NoCssStop(x) && NoCssStop(slug)
    ensures var r := CssRef(q, slug + "/" + x);
      ReplaceAll(CssUrl(true), slug, r + rest) == r + ReplaceAll(CssUrl(true), slug, rest)
  {
    var y := slug + "/" + x;
    UnderSlugCss(slug, x);
    assert LowerStr("url(") == "url(";
    assert CssRef(q, y) == LooseCssRef("url(", [], q, y, []);
    LooseCssRefRewritten(slug, "url(", [], q, y, [], rest);
  }
}
