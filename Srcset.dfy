/** What the `srcset` pass does to the candidates of one attribute value:
    a root-relative URL gains `/<slug>/`, its descriptor is kept, and a
    candidate already under `/<slug>/` is only trimmed. */
module SrcsetRefs {
  import opened Wrappers
  import opened Strings
  import opened Rewrite
  import opened Scan
  import opened AttrRefs

  lemma NoSpaceTrim(s: string)
    requires s != [] && NoSpace(s)
    ensures Trim(s) == s
  {
    assert !IsSpace(s[0]);
    assert s[SpaceRun(s)..] == s;
    assert !IsSpace(s[|s| - 1]);
  }

  lemma NoSpaceSplit(s: string)
    requires NoSpace(s)
    ensures SplitSpaces(s) == [s]
  {
    assert FirstSpace(s) == |s|;
  }

  /** `<u> <d>` splits into the URL and its descriptor. */
  lemma PairSplit(u: string, d: string)
    requires u != [] && d != [] && NoSpace(u) && NoSpace(d)
    ensures SplitSpaces(u + (" " + d)) == [u, d]
  {
    var s := u + (" " + d);
    assert s[..|u|] == u;
    assert FirstSpace(s) == |u| by {
      assert NoSpace(s[..|u|]);
      assert IsSpace(s[|u|]);
      FirstSpaceAt(s, |u|);
    }
    assert s[|u|..] == " " + d;
    assert SpaceRun(s[|u|..]) == 1 by {
      assert !IsSpace(d[0]);
      assert (" " + d)[1..] == d;
    }
    assert s[|u| + 1..] == d;
    NoSpaceSplit(d);
  }

  lemma {:induction false} FirstSpaceAt(s: string, i: nat)
    requires i < |s| && NoSpace(s[..i]) && IsSpace(s[i])
    ensures FirstSpace(s) == i
  {
    if i > 0 {
      assert !IsSpace(s[0]) by { assert s[..i][0] == s[0]; }
      assert s[1..][..i - 1] == s[..i][1..];
      FirstSpaceAt(s[1..], i - 1);
    }
  }

  /** A candidate `<u> <d>` with no space inside either part is its own
      trimmed form. */
  lemma PairTrim(u: string, d: string)
    requires u != [] && d != [] && NoSpace(u) && NoSpace(d)
    ensures Trim(u + (" " + d)) == u + (" " + d)
  {
    var s := u + (" " + d);
    assert s[0] == u[0] && !IsSpace(s[0]);
    assert s[SpaceRun(s)..] == s;
    assert s[|s| - 1] == d[|d| - 1] && !IsSpace(s[|s| - 1]);
  }

  lemma SlashOpens(url: string, p: string)
    requires StartsWith(url, "/") && StartsWith(url, p) && p != []
    ensures p[0] == '/'
  {
    assert url[..|p|][0] == url[0] == url[..1][0];
  }

  /** A root-relative URL never matches one of the schemes the callback
      tests for, so that test never fires in the `srcset` pass. */
  lemma RootNoScheme(url: string)
    requires StartsWith(url, "/")
    ensures !HasScheme(url)
  {
    if StartsWith(url, "http:") { SlashOpens(url, "http:"); }
    if StartsWith(url, "https:") { SlashOpens(url, "https:"); }
    if StartsWith(url, "mailto:") { SlashOpens(url, "mailto:"); }
    if StartsWith(url, "tel:") { SlashOpens(url, "tel:"); }
    if StartsWith(url, "data:") { SlashOpens(url, "data:"); }
  }

  /** A bare root-relative candidate `/<x>` becomes `/<slug>/<x>` unless it
      is already under `/<slug>/`. */
  lemma BareCandidate(slug: string, x: string)
    requires NoSpace("/" + x)
    ensures RewriteCandidate(slug, "/" + x)
         == if StartsWith("/" + x, "/" + slug + "/") then "/" + x else "/" + slug + "/" + x
  {
    var u := "/" + x;
    NoSpaceTrim(u);
    NoSpaceSplit(u);
    assert StartsWith(u, "/");
    RootNoScheme(u);
    assert u[1..] == x;
  }

  /** `<g0><d0><g1><d1>…`: descriptors, each after a run of white space. */
  function Spaced(gaps: seq<string>, ds: seq<string>): string
    requires |gaps| == |ds|
  {
    if ds == [] then [] else gaps[0] + (ds[0] + Spaced(gaps[1..], ds[1..]))
  }

  /** Every gap is non-empty white space and every descriptor a non-empty
      token without white space. */
  predicate Tokens(gaps: seq<string>, ds: seq<string>)
  {
    |gaps| == |ds|
    && (forall i :: 0 <= i < |gaps| ==> gaps[i] != [] && AllSpace(gaps[i]))
    && (forall i :: 0 <= i < |ds| ==> ds[i] != [] && NoSpace(ds[i]))
  }

  lemma TokensTail(gaps: seq<string>, ds: seq<string>)
    requires Tokens(gaps, ds) && ds != []
    ensures Tokens(gaps[1..], ds[1..])
  {
    assert forall i :: 0 <= i < |gaps| - 1 ==> gaps[1..][i] == gaps[i + 1];
    assert forall i :: 0 <= i < |ds| - 1 ==> ds[1..][i] == ds[i + 1];
  }

  /** `split(/\s+/)` of a token followed by spaced descriptors gives the
      token and the descriptors, whatever the white space between them. */
  lemma {:induction false} SpacedSplit(u: string, gaps: seq<string>, ds: seq<string>)
    requires u != [] && NoSpace(u) && Tokens(gaps, ds)
    ensures SplitSpaces(u + Spaced(gaps, ds)) == [u] + ds
    decreases |ds|
  {
    if ds == [] {
      assert u + Spaced(gaps, ds) == u;
      NoSpaceSplit(u);
    } else {
      TokensTail(gaps, ds);
      SpacedSplit(ds[0], gaps[1..], ds[1..]);
      assert [ds[0]] + ds[1..] == ds;
      SpacedFirst(u, gaps, ds);
    }
  }

  /** The first descriptor and the ones after it, once they are known to
      split back. */
  lemma SpacedFirst(u: string, gaps: seq<string>, ds: seq<string>)
    requires u != [] && NoSpace(u) && Tokens(gaps, ds) && ds != []
    requires SplitSpaces(ds[0] + Spaced(gaps[1..], ds[1..])) == ds
    ensures SplitSpaces(u + Spaced(gaps, ds)) == [u] + ds
  {
    var g, d := gaps[0], ds[0];
    var more := Spaced(gaps[1..], ds[1..]);
    assert Spaced(gaps, ds) == g + (d + more);
    assert g != [] && AllSpace(g) && d != [] && NoSpace(d);
    SpacedStep(u, g, d, more);
  }

  /** A token, a run of white space, then a non-space character: the
      token is the first piece and splitting resumes after the run. */
  lemma SpacedStep(u: string, g: string, d: string, more: string)
    requires u != [] && NoSpace(u) && g != [] && AllSpace(g) && d != [] && NoSpace(d)
    ensures SplitSpaces(u + (g + (d + more))) == [u] + SplitSpaces(d + more)
  {
    assert (d + more)[0] == d[0];
    SplitAfterGap(u, g, d + more);
  }

  lemma SplitAfterGap(u: string, g: string, rest: string)
    requires u != [] && NoSpace(u) && g != [] && AllSpace(g) && rest != [] && !IsSpace(rest[0])
    ensures SplitSpaces(u + (g + rest)) == [u] + SplitSpaces(rest)
  {
    var s := u + (g + rest);
    GapLaid(u, g, rest);
    SplitUnfold(s, u, rest, |u|, |g|);
  }

  /** Where the first white-space run of `u + g + rest` starts and ends. */
  lemma GapLaid(u: string, g: string, rest: string)
    requires NoSpace(u) && g != [] && AllSpace(g) && rest != [] && !IsSpace(rest[0])
    ensures var s := u + (g + rest);
      |u| < |s| && FirstSpace(s) == |u| && s[..|u|] == u
      && SpaceRun(s[|u|..]) == |g| && s[|u| + |g|..] == rest
  {
    var s := u + (g + rest);
    TokenEnds(u, g + rest);
    GapEnds(s, |u|, g, rest);
  }

  /** One unfolding of `split(/\s+/)` at its first white-space run. */
  lemma SplitUnfold(s: string, u: string, rest: string, i: nat, k: nat)
    requires i < |s| && FirstSpace(s) == i && s[..i] == u
    requires SpaceRun(s[i..]) == k && i + k <= |s| && s[i + k..] == rest
    ensures SplitSpaces(s) == [u] + SplitSpaces(rest)
  {
  }

  lemma TokenEnds(u: string, w: string)
    requires NoSpace(u) && w != [] && IsSpace(w[0])
    ensures FirstSpace(u + w) == |u| && (u + w)[..|u|] == u && (u + w)[|u|..] == w
  {
    var s := u + w;
    assert s[..|u|] == u;
    assert s[|u|] == w[0];
    FirstSpaceAt(s, |u|);
  }

  lemma GapEnds(s: string, i: nat, g: string, rest: string)
    requires i <= |s| && s[i..] == g + rest && AllSpace(g) && (rest == [] || !IsSpace(rest[0]))
    ensures SpaceRun(s[i..]) == |g| && s[i + |g|..] == rest
  {
    SpaceRunStops(g, rest);
    assert s[i + |g|..] == s[i..][|g|..];
  }

  /** Spaced descriptors end with the last descriptor's last character. */
  lemma {:induction false} SpacedEnd(gaps: seq<string>, ds: seq<string>)
    requires Tokens(gaps, ds) && ds != []
    ensures var s := Spaced(gaps, ds); s != [] && !IsSpace(s[|s| - 1])
    decreases |ds|
  {
    var s := Spaced(gaps, ds);
    var more := Spaced(gaps[1..], ds[1..]);
    TokensTail(gaps, ds);
    if ds[1..] == [] {
      assert more == [];
      assert s[|s| - 1] == ds[0][|ds[0]| - 1];
    } else {
      SpacedEnd(gaps[1..], ds[1..]);
      assert s[|s| - 1] == more[|more| - 1];
    }
  }

  /** A root-relative candidate `/<x>` followed by descriptors, with any
      white space between them, becomes `/<slug>/<x>` followed by the same
      descriptors joined with single spaces, unless it is already under
      `/<slug>/`, when it is left as it is. */
  lemma DescribedCandidate(slug: string, x: string, gaps: seq<string>, ds: seq<string>)
    requires NoSpace("/" + x) && Tokens(gaps, ds) && ds != []
    ensures var c := "/" + x + Spaced(gaps, ds);
      RewriteCandidate(slug, c)
      == if StartsWith("/" + x, "/" + slug + "/") then c else "/" + slug + "/" + x + " " + Join(ds, " ")
  {
    var u := "/" + x;
    var c := u + Spaced(gaps, ds);
    SpacedEnd(gaps, ds);
    assert c[|c| - 1] == Spaced(gaps, ds)[|Spaced(gaps, ds)| - 1];
    assert c[0] == '/';
    Unpadded(c);
    SpacedSplit(u, gaps, ds);
    assert StartsWith(u, "/");
    RootNoScheme(u);
    assert u[1..] == x;
    assert ([u] + ds)[1..] == ds;
  }

  /** A text with no white space at either end is its own trimmed form. */
  lemma Unpadded(s: string)
    requires s != [] && !IsSpace(s[0]) && !IsSpace(s[|s| - 1])
    ensures Trim(s) == s
  {
    assert s[SpaceRun(s)..] == s;
  }

  /** Surrounding white space is dropped from every candidate, whether or
      not it is rewritten. */
  lemma TrimmedFirst(slug: string, piece: string)
    ensures RewriteCandidate(slug, piece) == RewriteCandidate(slug, Trim(piece))
  {
    TrimTwice(piece);
  }

  lemma TrimTwice(s: string)
    ensures Trim(Trim(s)) == Trim(s)
  {
    var t := Trim(s);
    var m := s[SpaceRun(s)..];
    if t != [] {
      assert t[0] == m[0] && !IsSpace(t[0]);
      assert t[SpaceRun(t)..] == t;
      assert !IsSpace(t[|t| - 1]);
    }
  }

  /** A `srcset` value without a comma is one candidate. */
  lemma SingleCandidate(slug: string, value: string)
    requires ',' !in value
    ensures SrcsetValue(slug, value) == RewriteCandidate(slug, value)
  {
  }

  /** `split(',')` undoes `join(',')` on comma-free pieces. */
  lemma {:induction false} SplitJoin(cs: seq<string>)
    requires cs != [] && forall i :: 0 <= i < |cs| ==> ',' !in cs[i]
    ensures SplitOn(Join(cs, ","), ',') == cs
    decreases |cs|
  {
    if |cs| > 1 {
      var rest := Join(cs[1..], ",");
      var v := cs[0] + "," + rest;
      assert v[..|cs[0]|] == cs[0];
      FirstIndexAt(v, ',', |cs[0]|);
      assert v[|cs[0]| + 1..] == rest;
      assert forall i :: 0 <= i < |cs| - 1 ==> cs[1..][i] == cs[i + 1];
      SplitJoin(cs[1..]);
      assert [cs[0]] + cs[1..] == cs;
    }
  }

  /** Candidates are rewritten one by one and re-joined with `", "`: for
      any number of comma-free candidates `c0,c1,…` the new value is
      `r0, r1, …` where each `ri` is the callback's result on `ci`. */
  lemma Candidates(slug: string, cs: seq<string>)
    requires cs != [] && forall i :: 0 <= i < |cs| ==> ',' !in cs[i]
    ensures var rs := RewriteCandidates(slug, cs);
      SrcsetValue(slug, Join(cs, ",")) == Join(rs, ", ")
      && |rs| == |cs| && forall i :: 0 <= i < |cs| ==> rs[i] == RewriteCandidate(slug, cs[i])
  {
    SplitJoin(cs);
  }

  // ---------------------------------------------------------------------
  // The pass over one `srcset` attribute
  // ---------------------------------------------------------------------

  lemma SrcsetStep(a: string, ws1: string, ws2: string, q1: char, v: string, q2: char, rest: string)
    requires Spelled(a, ["srcset"], ws1, ws2) && IsQuote(q1) && IsQuote(q2) && NoQuote(v)
    ensures var r := RelativeRef(a, ws1, ws2, q1, v, q2);
      Step(Srcset, r + rest) == Some(Hit(|r|, SrcsetCall(q1, v, q2)))
  {
    var lead := Lead(a, ws1, ws2);
    var body := PlainBody(q1, v, q2);
    var t := lead + body + rest;
    SrcsetValueLaid(lead, q1, v, q2, rest);
    Assoc(lead, body, rest);
    assert (body + rest)[0] == q1;
    AssignAt(a, "srcset", ws1, ws2, body + rest);
    LeadLonger(a, ws1, ws2);
    AttrStepAt(Srcset, ["srcset"], t, 0, |lead|);
  }

  lemma SrcsetValueLaid(l: string, q1: char, v: string, q2: char, rest: string)
    requires IsQuote(q1) && IsQuote(q2) && NoQuote(v)
    ensures var r := l + PlainBody(q1, v, q2);
      |l| <= |r + rest|
      && SrcsetValueStep(r + rest, |l|) == Some(Hit(|r|, SrcsetCall(q1, v, q2)))
  {
    var r := l + PlainBody(q1, v, q2);
    PlainLayout(l, q1, v, q2, rest);
    SrcsetAt(r + rest, |l|, q1, v, q2);
  }

  /** The `srcset` value at `w`, read from positions alone. */
  lemma SrcsetAt(t: string, w: nat, q1: char, v: string, q2: char)
    requires w + 1 + |v| < |t| && t[w] == q1 && IsQuote(q1) && t[w + 1 + |v|] == q2
    requires NoQuoteRun(t[w + 1..]) == |v| && t[w + 1..w + 1 + |v|] == v
    ensures SrcsetValueStep(t, w) == Some(Hit(w + 2 + |v|, SrcsetCall(q1, v, q2)))
  {
  }

  /** `srcset = "<v>"`, the name in any case and white space around `=`,
      becomes the lower-case `srcset="<new value>"` with both quotes kept,
      and the text after it is rewritten on its own. */
  lemma SrcsetRewritten(slug: string, a: string, ws1: string, ws2: string, q1: char, v: string, q2: char, rest: string)
    requires Spelled(a, ["srcset"], ws1, ws2) && IsQuote(q1) && IsQuote(q2) && NoQuote(v)
    ensures ReplaceAll(Srcset, slug, RelativeRef(a, ws1, ws2, q1, v, q2) + rest)
         == "srcset=" + [q1] + SrcsetValue(slug, v) + [q2] + ReplaceAll(Srcset, slug, rest)
  {
    var r := RelativeRef(a, ws1, ws2, q1, v, q2);
    SrcsetStep(a, ws1, ws2, q1, v, q2, rest);
    Rewritten(Srcset, slug, r, rest, SrcsetCall(q1, v, q2));
  }

  // ---------------------------------------------------------------------
  // Characters of the new value
  // ---------------------------------------------------------------------

  /** No character of `s` is in `bad`. */
  predicate Avoids(s: string, bad: set<char>)
  {
    forall i :: 0 <= i < |s| ==> s[i] !in bad
  }

  lemma TrimAvoids(p: string, bad: set<char>)
    requires Avoids(p, bad)
    ensures Avoids(Trim(p), bad)
  {
    var m := p[SpaceRun(p)..];
    var r := Trim(p);
    assert r == m[..|r|];
  }

  lemma {:induction false} SplitSpacesAvoids(s: string, bad: set<char>)
    requires Avoids(s, bad)
    ensures forall k :: 0 <= k < |SplitSpaces(s)| ==> Avoids(SplitSpaces(s)[k], bad)
    decreases |s|
  {
    var i := FirstSpace(s);
    if i < |s| {
      var j := i + SpaceRun(s[i..]);
      SplitSpacesAvoids(s[j..], bad);
    }
  }

  lemma {:induction false} JoinAvoids(parts: seq<string>, sep: string, bad: set<char>)
    requires Avoids(sep, bad) && forall k :: 0 <= k < |parts| ==> Avoids(parts[k], bad)
    ensures Avoids(Join(parts, sep), bad)
    decreases |parts|
  {
    if |parts| > 1 {
      JoinAvoids(parts[1..], sep, bad);
    }
  }

  lemma {:induction false} SplitOnAvoids(s: string, c: char, bad: set<char>)
    requires Avoids(s, bad)
    ensures forall k :: 0 <= k < |SplitOn(s, c)| ==> Avoids(SplitOn(s, c)[k], bad)
    decreases |s|
  {
    if c in s {
      var i := FirstIndex(s, c);
      SplitOnAvoids(s[i + 1..], c, bad);
    }
  }

  /** A rewritten candidate is made of the piece's characters, the slug's,
      `/` and the space. */
  lemma CandidateAvoids(slug: string, p: string, bad: set<char>)
    requires Avoids(p, bad) && Avoids(slug, bad) && '/' !in bad && ' ' !in bad
    ensures Avoids(RewriteCandidate(slug, p), bad)
  {
    var t := Trim(p);
    TrimAvoids(p, bad);
    SplitSpacesAvoids(t, bad);
    var parts := SplitSpaces(t);
    var url := parts[0];
    if StartsWith(url, "/") && !StartsWith(url, "/" + slug + "/") && !HasScheme(url) {
      var nu := "/" + slug + "/" + url[1..];
      AvoidsJoin3("/", slug, "/" + url[1..], bad);
      assert nu == "/" + (slug + ("/" + url[1..]));
      if |parts| > 1 {
        JoinAvoids(parts[1..], " ", bad);
        AvoidsJoin3(nu, " ", Join(parts[1..], " "), bad);
      }
    }
  }

  lemma AvoidsJoin3(a: string, b: string, c: string, bad: set<char>)
    requires Avoids(a, bad) && Avoids(b, bad) && Avoids(c, bad)
    ensures Avoids(a + (b + c), bad) && Avoids(a + b + c, bad)
  {
    assert a + b + c == a + (b + c);
  }

  /** The new `srcset` value is made of the old value's characters, the
      slug's, `/`, the space and the comma. */
  lemma ValueAvoids(slug: string, v: string, bad: set<char>)
    requires Avoids(v, bad) && Avoids(slug, bad) && '/' !in bad && ' ' !in bad && ',' !in bad
    ensures Avoids(SrcsetValue(slug, v), bad)
  {
    var cs := SplitOn(v, ',');
    SplitOnAvoids(v, ',', bad);
    var rs := RewriteCandidates(slug, cs);
    forall k | 0 <= k < |rs| ensures Avoids(rs[k], bad) {
      CandidateAvoids(slug, cs[k], bad);
    }
    JoinAvoids(rs, ", ", bad);
  }

  lemma CommaFree(s: string)
    ensures ',' !in s <==> Avoids(s, {','})
  {
    if ',' in s {
      var i :| 0 <= i < |s| && s[i] == ',';
    }
  }

  lemma QuoteFree(s: string)
    ensures NoQuote(s) <==> Avoids(s, {'"', '\''})
  {
  }

  // ---------------------------------------------------------------------
  // A second pass
  // ---------------------------------------------------------------------

  /** Splitting on white space: the last piece of a text that ends with a
      non-space character is not empty. */
  lemma {:induction false} SplitLast(s: string)
    requires s != [] && !IsSpace(s[|s| - 1])
    ensures var ps := SplitSpaces(s); ps[|ps| - 1] != []
    decreases |s|
  {
    var i := FirstSpace(s);
    if i < |s| {
      var j := i + SpaceRun(s[i..]);
      assert s[j..][|s[j..]| - 1] == s[|s| - 1];
      SplitLast(s[j..]);
    }
  }

  lemma {:induction false} JoinLast(parts: seq<string>, sep: string)
    requires parts != [] && parts[|parts| - 1] != []
    ensures var r := Join(parts, sep);
      r != [] && r[|r| - 1] == parts[|parts| - 1][|parts[|parts| - 1]| - 1]
    decreases |parts|
  {
    if |parts| > 1 {
      JoinLast(parts[1..], sep);
    }
  }

  /** A first token without white space, then white space or nothing:
      the token is the first piece. */
  lemma FirstPiece(a: string, b: string)
    requires NoSpace(a) && (b == [] || IsSpace(b[0]))
    ensures SplitSpaces(a + b)[0] == a
  {
    if b == [] {
      assert a + b == a;
      NoSpaceSplit(a);
    } else {
      TokenEnds(a, b);
    }
  }

  /** What the callback writes for a candidate it rewrites. */
  lemma RewrittenShape(slug: string, p: string)
    requires NoSpace(slug)
    ensures var t := Trim(p);
      var parts := SplitSpaces(t);
      var url := parts[0];
      StartsWith(url, "/") && !StartsWith(url, "/" + slug + "/") && !HasScheme(url) ==>
        var r := RewriteCandidate(slug, p);
        Trim(r) == r && SplitSpaces(r)[0] == "/" + slug + "/" + url[1..]
  {
    var t := Trim(p);
    var parts := SplitSpaces(t);
    var url := parts[0];
    if StartsWith(url, "/") && !StartsWith(url, "/" + slug + "/") && !HasScheme(url) {
      var nu := "/" + slug + "/" + url[1..];
      assert NoSpace(url[1..]) by {
        assert NoSpace(url);
      }
      UnderNoSpace(slug, url[1..]);
      if |parts| > 1 {
        assert t != [];
        WithDescriptors(nu, t);
      } else {
        Bare(nu);
      }
    }
  }

  /** `/<slug>/<x>` has no white space when neither part has any. */
  lemma UnderNoSpace(slug: string, x: string)
    requires NoSpace(slug) && NoSpace(x)
    ensures var nu := "/" + slug + "/" + x; nu != [] && nu[0] == '/' && NoSpace(nu)
  {
    var nu := "/" + slug + "/" + x;
    forall i | 0 <= i < |nu| ensures !IsSpace(nu[i]) {
      if i == 0 || i == |slug| + 1 {
      } else if i <= |slug| {
        assert nu[i] == slug[i - 1];
      } else {
        assert nu[i] == x[i - |slug| - 2];
      }
    }
  }

  /** A rewritten URL followed by the descriptors re-joined with single
      spaces is already trimmed, and the URL is its first piece. */
  lemma WithDescriptors(nu: string, t: string)
    requires nu != [] && nu[0] == '/' && NoSpace(nu)
    requires t != [] && !IsSpace(t[|t| - 1]) && |SplitSpaces(t)| > 1
    ensures var r := nu + " " + Join(SplitSpaces(t)[1..], " ");
      Trim(r) == r && SplitSpaces(r)[0] == nu
  {
    JoinedEnd(t);
    SpacedPair(nu, Join(SplitSpaces(t)[1..], " "));
  }

  /** The descriptors re-joined end with a character that is not white
      space. */
  lemma JoinedEnd(t: string)
    requires t != [] && !IsSpace(t[|t| - 1]) && |SplitSpaces(t)| > 1
    ensures var j := Join(SplitSpaces(t)[1..], " "); j != [] && !IsSpace(j[|j| - 1])
  {
    var parts := SplitSpaces(t);
    SplitLast(t);
    JoinLast(parts[1..], " ");
    assert NoSpace(parts[|parts| - 1]);
  }

  /** `<nu> <j>` with `nu` a URL and `j` ending in a non-space character
      is already trimmed, and `nu` is its first piece. */
  lemma SpacedPair(nu: string, j: string)
    requires nu != [] && nu[0] == '/' && NoSpace(nu) && j != [] && !IsSpace(j[|j| - 1])
    ensures var r := nu + " " + j; Trim(r) == r && SplitSpaces(r)[0] == nu
  {
    var r := nu + " " + j;
    assert r[|r| - 1] == j[|j| - 1];
    assert r[0] == '/';
    Unpadded(r);
    assert r == nu + (" " + j);
    FirstPiece(nu, " " + j);
  }

  /** A rewritten URL alone is already trimmed and is its own first piece. */
  lemma Bare(nu: string)
    requires nu != [] && nu[0] == '/' && NoSpace(nu)
    ensures Trim(nu) == nu && SplitSpaces(nu)[0] == nu
  {
    FirstPiece(nu, []);
    assert nu + [] == nu;
    Unpadded(nu);
  }

  /** The callback applied to its own result changes nothing, for a slug
      without white space. */
  lemma CandidateTwice(slug: string, p: string)
    requires NoSpace(slug)
    ensures RewriteCandidate(slug, RewriteCandidate(slug, p)) == RewriteCandidate(slug, p)
  {
    var t := Trim(p);
    var parts := SplitSpaces(t);
    var url := parts[0];
    TrimTwice(p);
    RewrittenShape(slug, p);
    if StartsWith(url, "/") && !StartsWith(url, "/" + slug + "/") && !HasScheme(url) {
      var nu := "/" + slug + "/" + url[1..];
      assert StartsWith(nu, "/" + slug + "/") by {
        assert nu[..|slug| + 2] == "/" + slug + "/";
      }
    }
  }

  lemma TrimLeadingSpace(s: string)
    ensures Trim(" " + s) == Trim(s)
  {
    assert (" " + s)[1..] == s;
    assert (" " + s)[SpaceRun(" " + s)..] == s[SpaceRun(s)..];
  }

  /** Each piece after the first but with one leading space. */
  function Padded(xs: seq<string>): (r: seq<string>)
    ensures |r| == |xs| && forall i :: 0 <= i < |xs| ==> r[i] == " " + xs[i]
  {
    if xs == [] then [] else [" " + xs[0]] + Padded(xs[1..])
  }

  lemma JoinPrefixed(p: string, x: string, more: seq<string>, sep: string)
    ensures Join([p + x] + more, sep) == p + Join([x] + more, sep)
  {
    assert ([p + x] + more)[1..] == more;
    assert ([x] + more)[1..] == more;
  }

  /** Joining with `", "` is joining with `","` after padding each later
      piece with a space. */
  lemma {:induction false} JoinPadded(a: string, xs: seq<string>)
    ensures Join([a] + xs, ", ") == Join([a] + Padded(xs), ",")
    decreases |xs|
  {
    if xs != [] {
      assert ([a] + xs)[1..] == [xs[0]] + xs[1..];
      assert ([a] + Padded(xs))[1..] == [" " + xs[0]] + Padded(xs[1..]);
      JoinPadded(xs[0], xs[1..]);
      JoinPrefixed(" ", xs[0], Padded(xs[1..]), ",");
    }
  }

  /** The `srcset` callback run over its own output changes nothing, for a
      slug without white space or commas. */
  lemma ValueTwice(slug: string, v: string)
    requires NoSpace(slug) && ',' !in slug
    ensures SrcsetValue(slug, SrcsetValue(slug, v)) == SrcsetValue(slug, v)
  {
    var cs := SplitOn(v, ',');
    var rs := RewriteCandidates(slug, cs);
    var w := Join(rs, ", ");
    CommaFree(slug);
    forall k | 0 <= k < |rs| ensures ',' !in rs[k] {
      CommaFree(cs[k]);
      CandidateAvoids(slug, cs[k], {','});
      CommaFree(rs[k]);
    }
    var ps := [rs[0]] + Padded(rs[1..]);
    assert rs == [rs[0]] + rs[1..];
    JoinPadded(rs[0], rs[1..]);
    forall k | 0 <= k < |ps| ensures ',' !in ps[k] {
      if k > 0 {
        assert ps[k] == " " + rs[k];
      }
    }
    SplitJoin(ps);
    forall k | 0 <= k < |ps| ensures RewriteCandidate(slug, ps[k]) == rs[k] {
      CandidateTwice(slug, cs[k]);
      if k > 0 {
        assert ps[k] == " " + rs[k];
        TrimmedFirst(slug, " " + rs[k]);
        TrimLeadingSpace(rs[k]);
        TrimmedFirst(slug, rs[k]);
      }
    }
    assert RewriteCandidates(slug, ps) == rs;
  }

  /** A `srcset` attribute the pass wrote is written again unchanged when
      the pass runs once more, for a slug without quotes, commas or white
      space. */
  lemma SrcsetStable(slug: string, q1: char, v: string, q2: char, rest: string)
    requires IsQuote(q1) && IsQuote(q2) && NoQuote(v)
    requires NoQuote(slug) && NoSpace(slug) && ',' !in slug
    ensures var r := "srcset=" + [q1] + SrcsetValue(slug, v) + [q2];
      ReplaceAll(Srcset, slug, r + rest) == r + ReplaceAll(Srcset, slug, rest)
  {
    var w := SrcsetValue(slug, v);
    ValueNoQuote(slug, v);
    WrittenSrcset(q1, w, q2);
    SrcsetRewritten(slug, "srcset", [], [], q1, w, q2, rest);
    ValueTwice(slug, v);
  }

  /** The new value of a quote-free value is quote-free, for a slug
      without quotes. */
  lemma ValueNoQuote(slug: string, v: string)
    requires NoQuote(v) && NoQuote(slug)
    ensures NoQuote(SrcsetValue(slug, v))
  {
    QuoteFree(v);
    QuoteFree(slug);
    ValueAvoids(slug, v, {'"', '\''});
    QuoteFree(SrcsetValue(slug, v));
  }

  /** What the `srcset` callback writes is itself a `srcset` attribute
      spelled in lower case without white space. */
  lemma WrittenSrcset(q1: char, w: string, q2: char)
    ensures Spelled("srcset", ["srcset"], [], [])
    ensures "srcset=" + [q1] + w + [q2] == RelativeRef("srcset", [], [], q1, w, q2)
  {
    assert LowerStr("srcset") == "srcset";
  }
}
