/** The `<base href="/<slug>/">` injection the proxy applies to every page
    it serves: replace the first existing base tag, else insert after the
    first `<head...>`, else before `</head>`, else prepend. */
module BaseTag {
  import opened Wrappers
  import opened Strings

  /** `<base href="/<slug>/">`. */
  function Tag(slug: string): string
  {
    "<base href=\"/" + slug + "/\">"
  }

  /** `<base` occurs at `i`, compared case-insensitively. */
  predicate BaseWordAt(t: string, i: nat)
  {
    i + 5 <= |t| && t[i] == '<' && Lower(t[i + 1]) == 'b' && Lower(t[i + 2]) == 'a'
    && Lower(t[i + 3]) == 's' && Lower(t[i + 4]) == 'e'
  }

  /** `<head` occurs at `i`, compared case-insensitively. */
  predicate HeadWordAt(t: string, i: nat)
  {
    i + 5 <= |t| && t[i] == '<' && Lower(t[i + 1]) == 'h' && Lower(t[i + 2]) == 'e'
    && Lower(t[i + 3]) == 'a' && Lower(t[i + 4]) == 'd'
  }

  /** `href` occurs at `i`, compared case-insensitively. */
  predicate HrefWordAt(t: string, i: nat)
  {
    i + 4 <= |t| && Lower(t[i]) == 'h' && Lower(t[i + 1]) == 'r' && Lower(t[i + 2]) == 'e'
    && Lower(t[i + 3]) == 'f'
  }

  /** The first position from `i` on that does not hold white space (`\s*`). */
  function SkipSpaces(t: string, i: nat): (j: nat)
    requires i <= |t|
    ensures i <= j <= |t| && (j < |t| ==> !IsSpace(t[j]))
    decreases |t| - i
  {
    if i < |t| && IsSpace(t[i]) then SkipSpaces(t, i + 1) else i
  }

  /** Everything `SkipSpaces` passes over is white space. */
  lemma {:induction false} SkippedSpaces(t: string, i: nat)
    requires i <= |t|
    ensures forall k :: i <= k < SkipSpaces(t, i) ==> IsSpace(t[k])
    decreases |t| - i
  {
    if i < |t| && IsSpace(t[i]) {
      SkippedSpaces(t, i + 1);
    }
  }

  /** The first position from `i` on that holds a quote (`[^"']*`), or `|t|`. */
  function SkipToQuote(t: string, i: nat): (j: nat)
    requires i <= |t|
    ensures i <= j <= |t| && (j < |t| ==> IsQuote(t[j]))
    decreases |t| - i
  {
    if i < |t| && !IsQuote(t[i]) then SkipToQuote(t, i + 1) else i
  }

  /** `SkipToQuote` passes over no quote. */
  lemma {:induction false} SkippedToQuote(t: string, i: nat)
    requires i <= |t|
    ensures forall k :: i <= k < SkipToQuote(t, i) ==> !IsQuote(t[k])
    decreases |t| - i
  {
    if i < |t| && !IsQuote(t[i]) {
      SkippedToQuote(t, i + 1);
    }
  }

  /** The first position from `i` on that holds `>` (`[^>]*`), or `|t|`. */
  function SkipToGt(t: string, i: nat): (j: nat)
    requires i <= |t|
    ensures i <= j <= |t| && (j < |t| ==> t[j] == '>')
    decreases |t| - i
  {
    if i < |t| && t[i] != '>' then SkipToGt(t, i + 1) else i
  }

  /** `SkipToGt` passes over no `>`. */
  lemma {:induction false} SkippedToGt(t: string, i: nat)
    requires i <= |t|
    ensures forall k :: i <= k < SkipToGt(t, i) ==> t[k] != '>'
    decreases |t| - i
  {
    if i < |t| && t[i] != '>' {
      SkippedToGt(t, i + 1);
    }
  }

  /** A regex search as `String.prototype.replace` makes it: the match
      function `m` is tried at `p`, `p + 1`, ... up to `n`, and the first
      position where it succeeds is the match, with what it matched. */
  function Search<T>(m: nat -> Option<T>, p: nat, n: nat): (r: Option<(nat, T)>)
    requires p <= n
    ensures r.Some? ==> p <= r.value.0 <= n && m(r.value.0) == Some(r.value.1)
    decreases n - p
  {
    if m(p).Some? then Some((p, m(p).value))
    else if p == n then None
    else Search(m, p + 1, n)
  }

  /** No position before the one `Search` returns matches. */
  lemma {:induction false} SearchLeftmost<T>(m: nat -> Option<T>, p: nat, n: nat)
    requires p <= n && Search(m, p, n).Some?
    ensures forall q: nat :: p <= q < Search(m, p, n).value.0 ==> m(q).None?
    decreases n - p
  {
    if m(p).None? {
      SearchLeftmost(m, p + 1, n);
    }
  }

  /** When `Search` finds nothing, no position from `p` to `n` matches. */
  lemma {:induction false} SearchNone<T>(m: nat -> Option<T>, p: nat, n: nat)
    requires p <= n && Search(m, p, n).None?
    ensures forall q: nat :: p <= q <= n ==> m(q).None?
    decreases n - p
  {
    if p < n {
      SearchNone(m, p + 1, n);
    }
  }

  // ---------------------------------------------------------------------
  // `/<base\s+[^>]*href\s*=\s*["'][^"']*["'][^>]*>/i`
  // ---------------------------------------------------------------------

  /** `<base` followed by white space starts at `p`. */
  predicate BaseOpen(t: string, p: nat)
  {
    p + 6 <= |t| && BaseWordAt(t, p) && IsSpace(t[p + 5])
  }

  /** The part of the base regex from `href` on, tried at `h`: every piece
      of it is a maximal run followed by a fixed character, so it matches in
      at most one way; the result is the end of the match. The closing quote
      may differ from the opening one, as the regex does not tie them. */
  function HrefTail(t: string, h: nat): (r: Option<nat>)
    requires h <= |t|
    ensures r.Some? ==> h < r.value <= |t| && t[r.value - 1] == '>'
  {
    if !HrefWordAt(t, h) then None
    else
      var a := SkipSpaces(t, h + 4);
      if !(a < |t| && t[a] == '=') then None
      else
        var b := SkipSpaces(t, a + 1);
        if !(b < |t| && IsQuote(t[b])) then None
        else
          var c := SkipToQuote(t, b + 1);
          if c == |t| then None
          else
            var d := SkipToGt(t, c + 1);
            if d == |t| then None else Some(d + 1)
  }

  /** The regex matches at `p` with its `[^>]*` before `href` ending at `h`:
      `\s+[^>]*` covers `t[p + 5..h]`, which has no `>` and starts with
      white space. */
  predicate Viable(t: string, p: nat, h: nat)
  {
    BaseOpen(t, p) && p + 6 <= h <= |t|
    && (forall i :: p + 5 <= i < h ==> t[i] != '>')
    && HrefTail(t, h).Some?
  }

  /** Backtracking tries the greedy `[^>]*` longest first: the largest
      `h` in `p + 6..h0` where the rest of the regex matches. */
  function LastTail(t: string, p: nat, h0: nat): (r: Option<nat>)
    requires h0 <= |t|
    ensures r.Some? ==> p + 6 <= r.value <= h0 && HrefTail(t, r.value).Some?
    decreases h0
  {
    if h0 < p + 6 then None
    else if HrefTail(t, h0).Some? then Some(h0)
    else LastTail(t, p, h0 - 1)
  }

  /** No position the rest of the regex matches at is passed over. */
  lemma {:induction false} LastTailLargest(t: string, p: nat, h0: nat, h: nat)
    requires h0 <= |t| && p + 6 <= h <= h0 && HrefTail(t, h).Some?
    ensures LastTail(t, p, h0).Some? && h <= LastTail(t, p, h0).value
    decreases h0
  {
    if h < h0 {
      LastTailLargest(t, p, h0 - 1, h);
    }
  }

  /** A viable `h` lies before the first `>` after `<base`. */
  lemma ViableBound(t: string, p: nat, h: nat)
    requires Viable(t, p, h)
    ensures h <= SkipToGt(t, p + 5)
  {
  }

  /** The `href` position backtracking settles on at `p`, if any. */
  function HrefAt(t: string, p: nat): (r: Option<nat>)
    ensures r.Some? ==> p + 6 <= r.value <= |t|
  {
    if !BaseOpen(t, p) then None else LastTail(t, p, SkipToGt(t, p + 5))
  }

  /** The match of the base regex at `p`, as (its `href` position, its end). */
  function BaseAt(t: string, p: nat): (r: Option<(nat, nat)>)
    ensures r.Some? ==> p + 6 <= r.value.0 < r.value.1 <= |t|
  {
    match HrefAt(t, p)
    case None => None
    case Some(h) => match HrefTail(t, h)
      case None => None
      case Some(e) => Some((h, e))
  }

  /** A match found at `p` is one the regex can make. */
  lemma BaseAtViable(t: string, p: nat)
    requires BaseAt(t, p).Some?
    ensures Viable(t, p, BaseAt(t, p).value.0)
    ensures HrefTail(t, BaseAt(t, p).value.0) == Some(BaseAt(t, p).value.1)
  {
    var m := SkipToGt(t, p + 5);
    var h := BaseAt(t, p).value.0;
    assert BaseOpen(t, p) && LastTail(t, p, m) == Some(h);
    SkippedToGt(t, p + 5);
  }

  /** A match at `p` sits at the `href` position backtracking settles on. */
  lemma BaseAtHref(t: string, p: nat)
    requires BaseAt(t, p).Some?
    ensures BaseOpen(t, p) && LastTail(t, p, SkipToGt(t, p + 5)) == Some(BaseAt(t, p).value.0)
  {
    assert HrefAt(t, p) == Some(BaseAt(t, p).value.0);
  }

  /** Without a match at `p` there is no `href` position to settle on. */
  lemma NoHref(t: string, p: nat)
    requires BaseAt(t, p).None? && BaseOpen(t, p)
    ensures LastTail(t, p, SkipToGt(t, p + 5)).None?
  {
    assert HrefAt(t, p).None?;
  }

  /** When the regex matches at `p`, backtracking has picked the largest
      viable `href` position. */
  lemma BaseAtLargest(t: string, p: nat, h: nat)
    requires BaseAt(t, p).Some? && BaseAt(t, p).value.0 < h
    ensures !Viable(t, p, h)
  {
    var m := SkipToGt(t, p + 5);
    var hr := BaseAt(t, p).value.0;
    BaseAtHref(t, p);
    if Viable(t, p, h) {
      ViableBound(t, p, h);
      LastTailLargest(t, p, m, h);
    }
  }

  /** When the regex does not match at `p`, no `href` position is viable. */
  lemma BaseAtNone(t: string, p: nat, h: nat)
    requires BaseAt(t, p).None?
    ensures !Viable(t, p, h)
  {
    if BaseOpen(t, p) && p + 6 <= h {
      var m := SkipToGt(t, p + 5);
      NoHref(t, p);
      if Viable(t, p, h) {
        ViableBound(t, p, h);
        LastTailLargest(t, p, m, h);
      }
    }
  }

  /** The base regex tried at each position. */
  function BaseMatcher(t: string): nat -> Option<(nat, nat)>
  {
    q => BaseAt(t, q)
  }

  /** The leftmost match of the base regex at or after `p`, as (start, end). */
  function FindBase(t: string, p: nat): (r: Option<(nat, nat)>)
    requires p <= |t|
    ensures r.Some? ==> p <= r.value.0 && BaseAt(t, r.value.0).Some? && BaseAt(t, r.value.0).value.1 == r.value.1
  {
    match Search(BaseMatcher(t), p, |t|)
    case None => None
    case Some((start, (_, end))) => Some((start, end))
  }

  /** The match `FindBase` returns is the leftmost one. */
  lemma FindBaseLeftmost(t: string, p: nat)
    requires p <= |t| && FindBase(t, p).Some?
    ensures forall q: nat :: p <= q < FindBase(t, p).value.0 ==> BaseAt(t, q).None?
  {
    var m := BaseMatcher(t);
    SearchLeftmost(m, p, |t|);
    var start := Search(m, p, |t|).value.0;
    assert FindBase(t, p).value.0 == start;
    forall q: nat | p <= q < start ensures BaseAt(t, q).None? {
      assert m(q) == BaseAt(t, q);
    }
  }

  /** When `FindBase` finds nothing, the regex matches nowhere from `p` on. */
  lemma FindBaseNone(t: string, p: nat)
    requires p <= |t| && FindBase(t, p).None?
    ensures forall q: nat :: p <= q <= |t| ==> BaseAt(t, q).None?
  {
    var m := BaseMatcher(t);
    SearchNone(m, p, |t|);
    forall q: nat | p <= q <= |t| ensures BaseAt(t, q).None? {
      assert m(q) == BaseAt(t, q);
    }
  }

  // ---------------------------------------------------------------------
  // `/<head[^>]*>/i` (which also matches `<header>`)
  // ---------------------------------------------------------------------

  /** The end of a match of the head regex at `p`. */
  function HeadAt(t: string, p: nat): (r: Option<nat>)
    ensures r.Some? ==> p + 5 < r.value <= |t| && HeadWordAt(t, p) && t[r.value - 1] == '>'
    ensures r.Some? ==> forall i :: p + 5 <= i < r.value - 1 ==> t[i] != '>'
    ensures r.None? ==> !HeadWordAt(t, p) || (forall i :: p + 5 <= i < |t| ==> t[i] != '>')
  {
    if !HeadWordAt(t, p) then None
    else
      var e := SkipToGt(t, p + 5);
      SkippedToGt(t, p + 5);
      if e == |t| then None else Some(e + 1)
  }

  /** The head regex tried at each position. */
  function HeadMatcher(t: string): nat -> Option<nat>
  {
    q => HeadAt(t, q)
  }

  /** The leftmost match of the head regex at or after `p`, as (start, end). */
  function FindHead(t: string, p: nat): (r: Option<(nat, nat)>)
    requires p <= |t|
    ensures r.Some? ==> p <= r.value.0 && HeadAt(t, r.value.0) == Some(r.value.1)
  {
    Search(HeadMatcher(t), p, |t|)
  }

  /** The match `FindHead` returns is the leftmost one. */
  lemma FindHeadLeftmost(t: string, p: nat)
    requires p <= |t| && FindHead(t, p).Some?
    ensures forall q: nat :: p <= q < FindHead(t, p).value.0 ==> HeadAt(t, q).None?
  {
    var m := HeadMatcher(t);
    SearchLeftmost(m, p, |t|);
    var start := Search(m, p, |t|).value.0;
    assert FindHead(t, p).value.0 == start;
    forall q: nat | p <= q < start ensures HeadAt(t, q).None? {
      assert m(q) == HeadAt(t, q);
    }
  }

  /** When `FindHead` finds nothing, the regex matches nowhere from `p` on. */
  lemma FindHeadNone(t: string, p: nat)
    requires p <= |t| && FindHead(t, p).None?
    ensures forall q: nat :: p <= q <= |t| ==> HeadAt(t, q).None?
  {
    var m := HeadMatcher(t);
    SearchNone(m, p, |t|);
    forall q: nat | p <= q <= |t| ensures HeadAt(t, q).None? {
      assert m(q) == HeadAt(t, q);
    }
  }

  /** `</head>`, matched case-sensitively by `includes` and `replace`. */
  const CloseHead := "</head>"

  /** Which of the four branches the injection takes. */
  datatype Placement =
    | ReplaceBase(start: nat, end: nat)
    | AfterHead(end: nat)
    | BeforeClose(at: nat)
    | Prepend

  function PlacementOf(html: string): (r: Placement)
    ensures r.ReplaceBase? ==> FindBase(html, 0) == Some((r.start, r.end))
    ensures r.AfterHead? ==> FindBase(html, 0).None? && FindHead(html, 0).Some? && FindHead(html, 0).value.1 == r.end
    ensures r.BeforeClose? ==> FindBase(html, 0).None? && FindHead(html, 0).None? && r.at == IndexOf(html, CloseHead) && OccursAt(html, CloseHead, r.at)
    ensures r.Prepend? ==> FindBase(html, 0).None? && FindHead(html, 0).None? && !Contains(html, CloseHead)
  {
    match FindBase(html, 0)
    case Some((p, e)) => ReplaceBase(p, e)
    case None =>
      match FindHead(html, 0)
      case Some((p, e)) => AfterHead(e)
      case None =>
        var i := IndexOf(html, CloseHead);
        if i == -1 then Prepend else BeforeClose(i)
  }

  /** The replacement text JavaScript's `replace` inserts for a string
      replacement `rep` (GetSubstitution with no capture groups): `$$` is a
      `$`, `$&` the match, `` $` `` the text before it, `$'` the text after
      it; any other `$` is itself. */
  function Substitute(rep: string, matched: string, before: string, after: string): string
    decreases |rep|
  {
    if rep == [] then []
    else if rep[0] == '$' && |rep| >= 2 && rep[1] == '$' then "$" + Substitute(rep[2..], matched, before, after)
    else if rep[0] == '$' && |rep| >= 2 && rep[1] == '&' then matched + Substitute(rep[2..], matched, before, after)
    else if rep[0] == '$' && |rep| >= 2 && rep[1] == '`' then before + Substitute(rep[2..], matched, before, after)
    else if rep[0] == '$' && |rep| >= 2 && rep[1] == '\'' then after + Substitute(rep[2..], matched, before, after)
    else [rep[0]] + Substitute(rep[1..], matched, before, after)
  }

  /** The replacement string of the `</head>` branch. */
  function BeforeCloseText(slug: string): string
  {
    "    " + (Tag(slug) + ("\n" + CloseHead))
  }

  /** The page with the base tag placed. The base-tag and `</head>`
      branches go through `replace` with a string, so `$` patterns in the
      slug are expanded; the `<head>` branch uses a callback and does not
      expand them. */
  function WithBase(html: string, slug: string): (r: string)
    ensures '$' !in slug ==> Contains(r, Tag(slug))
  {
    match PlacementOf(html)
    case ReplaceBase(p, e) =>
      var placed := Substitute(Tag(slug), html[p..e], html[..p], html[e..]);
      ReplacedContains(slug, html[..p], html[p..e], html[e..]);
      html[..p] + (placed + html[e..])
    case AfterHead(e) =>
      Contained(html[..e] + "\n    ", Tag(slug), html[e..]);
      (html[..e] + "\n    ") + (Tag(slug) + html[e..])
    case BeforeClose(i) =>
      var after := html[i + |CloseHead|..];
      var placed := Substitute(BeforeCloseText(slug), CloseHead, html[..i], after);
      InsertedContains(slug, html[..i], after);
      html[..i] + (placed + after)
    case Prepend =>
      Contained([], Tag(slug), "\n" + html);
      assert [] + (Tag(slug) + ("\n" + html)) == Tag(slug) + ("\n" + html);
      Tag(slug) + ("\n" + html)
  }

  /** The handler's base-tag step, reassigning the page. */
  method InjectBaseTag(html: string, slug: string) returns (out: string)
    ensures out == WithBase(html, slug)
  {
    var tag := Tag(slug);
    out := html;
    match PlacementOf(html) {
      case ReplaceBase(p, e) =>
        out := out[..p] + (Substitute(tag, out[p..e], out[..p], out[e..]) + out[e..]);
      case AfterHead(e) =>
        out := (out[..e] + "\n    ") + (tag + out[e..]);
      case BeforeClose(i) =>
        var after := out[i + |CloseHead|..];
        out := out[..i] + (Substitute(BeforeCloseText(slug), CloseHead, out[..i], after) + after);
      case Prepend =>
        out := tag + ("\n" + out);
    }
  }

  /** A replacement without `$` is inserted literally. */
  lemma {:induction false} Literal(rep: string, matched: string, before: string, after: string)
    requires '$' !in rep
    ensures Substitute(rep, matched, before, after) == rep
    decreases |rep|
  {
    if rep != [] {
      assert rep == [rep[0]] + rep[1..];
      Literal(rep[1..], matched, before, after);
    }
  }

  /** `$$` between `$`-free texts becomes a single `$`. */
  lemma {:induction false} DollarDollar(u: string, v: string, matched: string, before: string, after: string)
    requires '$' !in u && '$' !in v
    ensures Substitute(u + ("$$" + v), matched, before, after) == u + ("$" + v)
    decreases |u|
  {
    if u == [] {
      assert u + ("$$" + v) == "$$" + v;
      assert ("$$" + v)[2..] == v;
      Literal(v, matched, before, after);
    } else {
      assert (u + ("$$" + v))[1..] == u[1..] + ("$$" + v);
      assert u[0] in u;
      DollarDollar(u[1..], v, matched, before, after);
      assert u + ("$" + v) == [u[0]] + (u[1..] + ("$" + v));
    }
  }

  /** A `$`-free slug's tag survives the base-tag branch's `replace`. */
  lemma ReplacedContains(slug: string, before: string, matched: string, after: string)
    ensures '$' !in slug ==> Contains(before + (Substitute(Tag(slug), matched, before, after) + after), Tag(slug))
  {
    if '$' !in slug {
      TagNoDollar(slug);
      Literal(Tag(slug), matched, before, after);
      Contained(before, Tag(slug), after);
    }
  }

  /** A `$`-free slug's tag survives the `</head>` branch's `replace`. */
  lemma InsertedContains(slug: string, before: string, after: string)
    ensures '$' !in slug ==> Contains(before + (Substitute(BeforeCloseText(slug), CloseHead, before, after) + after), Tag(slug))
  {
    if '$' !in slug {
      BeforeCloseNoDollar(slug);
      Literal(BeforeCloseText(slug), CloseHead, before, after);
      var w, x, y := "    ", Tag(slug), "\n" + CloseHead;
      assert BeforeCloseText(slug) == w + (x + y);
      Regroup(before, w, x, y, after);
      Contained(before + w, x, y + after);
    }
  }

  lemma Regroup(b: string, w: string, x: string, y: string, z: string)
    ensures b + ((w + (x + y)) + z) == (b + w) + (x + (y + z))
  {
  }

  lemma TagNoDollar(slug: string)
    requires '$' !in slug
    ensures '$' !in Tag(slug)
  {
  }

  lemma BeforeCloseNoDollar(slug: string)
    requires '$' !in slug
    ensures '$' !in BeforeCloseText(slug)
  {
    TagNoDollar(slug);
  }

  /** Where the first base tag is replaced, a slug `a$$b` is written as
      `a$b`: the page gets `<base href="/a$b/">`, not the tag built from
      the slug. */
  lemma DollarSlug(html: string)
    requires PlacementOf(html).ReplaceBase?
    ensures var p, e := PlacementOf(html).start, PlacementOf(html).end;
      WithBase(html, "a$$b") == html[..p] + (Tag("a$b") + html[e..])
    ensures Tag("a$b") != Tag("a$$b")
  {
    var p, e := PlacementOf(html).start, PlacementOf(html).end;
    DollarTags();
    DollarDollar("<base href=\"/a", "b/\">", html[p..e], html[..p], html[e..]);
  }

  /** The tags of `a$$b` and `a$b`, around their dollar signs. */
  lemma DollarTags()
    ensures Tag("a$$b") == "<base href=\"/a" + ("$$" + "b/\">")
    ensures Tag("a$b") == "<base href=\"/a" + ("$" + "b/\">")
    ensures '$' !in "<base href=\"/a" && '$' !in "b/\">"
    ensures Tag("a$b") != Tag("a$$b")
  {
    assert |Tag("a$b")| != |Tag("a$$b")|;
  }

  lemma Contained(a: string, b: string, c: string)
    ensures Contains(a + (b + c), b)
  {
    assert (a + (b + c))[|a|..|a| + |b|] == b;
    assert OccursAt(a + (b + c), b, |a|);
  }

  /** Nothing before the place the tag goes changes; a prepended tag
      leaves the whole page after it. */
  lemma KeepsPrefix(html: string, slug: string)
    ensures match PlacementOf(html)
      case ReplaceBase(p, e) => StartsWith(WithBase(html, slug), html[..p])
      case AfterHead(e) => StartsWith(WithBase(html, slug), html[..e])
      case BeforeClose(i) => StartsWith(WithBase(html, slug), html[..i])
      case Prepend => EndsWith(WithBase(html, slug), html)
  {
    var r := WithBase(html, slug);
    match PlacementOf(html)
    case ReplaceBase(p, e) => assert r[..p] == html[..p];
    case AfterHead(e) => assert r[..e] == html[..e];
    case BeforeClose(i) => assert r[..i] == html[..i];
    case Prepend => assert r[|r| - |html|..] == html;
  }
}
