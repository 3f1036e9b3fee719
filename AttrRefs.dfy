/** What the attribute passes of `replaceAbsoluteUrls` do to one reference:
    root-relative `href`/`src`/`data-src`/`data-href` values, quoted or not,
    and values that start with a common asset folder. */
module AttrRefs {
  import opened Wrappers
  import opened Strings
  import opened Rewrite
  import opened Scan

  /** `<a><ws1>=<ws2>`: an attribute name as written, then its `=`. */
  function Lead(a: string, ws1: string, ws2: string): string
  {
    a + (ws1 + ("=" + ws2))
  }

  /** `<q1>/<x><q2>` */
  function RootBody(q1: char, x: string, q2: char): string
  {
    [q1] + ("/" + (x + [q2]))
  }

  /** `<q1><x><q2>` */
  function PlainBody(q1: char, x: string, q2: char): string
  {
    [q1] + (x + [q2])
  }

  /** `<a>=<q1>/<x><q2>`, white space allowed around `=`. */
  function QuotedRef(a: string, ws1: string, ws2: string, q1: char, x: string, q2: char): string
  {
    Lead(a, ws1, ws2) + RootBody(q1, x, q2)
  }

  /** `<a>=/<x>`, white space allowed around `=`. */
  function UnquotedRef(a: string, ws1: string, ws2: string, x: string): string
  {
    Lead(a, ws1, ws2) + ("/" + x)
  }

  /** `<a>=<q1><x><q2>`, a value without leading `/`. */
  function RelativeRef(a: string, ws1: string, ws2: string, q1: char, x: string, q2: char): string
  {
    Lead(a, ws1, ws2) + PlainBody(q1, x, q2)
  }

  // ---------------------------------------------------------------------
  // The `name\s*=\s*` prefix and the alternation
  // ---------------------------------------------------------------------

  lemma SpacesBeforeEq(name: string, t: string, p: nat)
    requires |name| <= p < |t| && t[p] == '='
    requires forall i :: |name| <= i < p ==> IsSpace(t[i])
    ensures SpaceRun(t[|name|..]) == p - |name|
  {
    assert !IsSpace(t[p]);
    SpaceRunAt(t, |name|, p - |name|);
  }

  lemma SpacesAfterEq(t: string, p: nat, e: nat)
    requires p < e <= |t|
    requires forall i :: p + 1 <= i < e ==> IsSpace(t[i])
    requires e == |t| || !IsSpace(t[e])
    ensures SpaceRun(t[p + 1..]) == e - p - 1
  {
    SpaceRunAt(t, p + 1, e - p - 1);
  }

  lemma AssignOf(name: string, t: string, n1: nat, n2: nat)
    requires StartsWithCI(t, name) && SpaceRun(t[|name|..]) == n1
    requires |name| + n1 < |t| && t[|name| + n1] == '='
    requires SpaceRun(t[|name| + n1 + 1..]) == n2
    ensures Assign(name, t) == Some(|name| + n1 + 1 + n2)
  {
  }

  /** `name\s*=\s*` matches up to `e` when the name, white space, `=` and
      white space sit at those positions. */
  lemma AssignPos(name: string, t: string, p: nat, e: nat)
    requires StartsWithCI(t, name) && |name| <= p < e <= |t| && t[p] == '='
    requires forall i :: |name| <= i < p ==> IsSpace(t[i])
    requires forall i :: p + 1 <= i < e ==> IsSpace(t[i])
    requires e == |t| || !IsSpace(t[e])
    ensures Assign(name, t) == Some(e)
  {
    SpacesBeforeEq(name, t, p);
    SpacesAfterEq(t, p, e);
    AssignOf(name, t, p - |name|, e - p - 1);
  }

  /** `name\s*=\s*` matches the whole lead, `name` in any case. */
  lemma AssignAt(a: string, name: string, ws1: string, ws2: string, s: string)
    requires LowerStr(a) == name && AllSpace(ws1) && AllSpace(ws2) && s != [] && !IsSpace(s[0])
    ensures Assign(name, Lead(a, ws1, ws2) + s) == Some(|Lead(a, ws1, ws2)|)
  {
    var t := Lead(a, ws1, ws2) + s;
    var p := |a| + |ws1|;
    var e := p + 1 + |ws2|;
    assert forall i :: 0 <= i < |a| ==> t[i] == a[i];
    assert forall i :: |a| <= i < p ==> t[i] == ws1[i - |a|];
    assert forall i :: p + 1 <= i < e ==> t[i] == ws2[i - p - 1];
    assert t[p] == '=' && t[e] == s[0];
    assert StartsWithCI(t, name) by {
      forall i | 0 <= i < |name| ensures Lower(t[i]) == Lower(name[i]) {
        assert name[i] == Lower(a[i]);
      }
    }
    AssignPos(name, t, p, e);
  }

  /** `a` spells one of `names` in any case and `ws1`, `ws2` are white
      space: `<a><ws1>=<ws2>` is what the rule's `(…|…)\s*=\s*` matches. */
  predicate Spelled(a: string, names: seq<string>, ws1: string, ws2: string)
  {
    LowerStr(a) in names && AllSpace(ws1) && AllSpace(ws2)
  }

  /** A value that starts with a quote or `/`, so the `\s*` before it stops. */
  predicate Opens(s: string)
  {
    s != [] && (IsQuote(s[0]) || s[0] == '/')
  }

  lemma OpensNoSpace(s: string)
    requires Opens(s)
    ensures s != [] && !IsSpace(s[0])
  {
  }

  /** The alternation settles on the `j`-th name when the earlier ones do
      not even start the text. */
  lemma {:induction false} AttrStepAt(rule: Rule, names: seq<string>, t: string, j: nat, v: nat)
    requires !rule.CssUrl? && j < |names|
    requires forall i :: 0 <= i < j ==> !StartsWithCI(t, names[i])
    requires Assign(names[j], t) == Some(v)
    requires ValueStep(rule, t[..|names[j]|], t, v).Some?
    ensures AttrStep(rule, names, t) == ValueStep(rule, t[..|names[j]|], t, v)
    decreases j
  {
    if j > 0 {
      assert forall i :: 0 <= i < j - 1 ==> names[1..][i] == names[i + 1];
      AttrStepAt(rule, names[1..], t, j - 1, v);
    }
  }

  /** A name whose letter at `i` differs is not tried. */
  lemma Mismatch(t: string, name: string, i: nat)
    requires i < |name| && i < |t| && Lower(t[i]) != Lower(name[i])
    ensures !StartsWithCI(t, name)
  {
  }

  /** The text begins with the attribute name as written. */
  lemma NameAt(a: string, ws1: string, ws2: string, s: string)
    ensures var t := Lead(a, ws1, ws2) + s;
      |a| <= |t| && t[..|a|] == a && forall i :: 0 <= i < |a| ==> t[i] == a[i]
  {
    var t := Lead(a, ws1, ws2) + s;
    assert t == a + (ws1 + ("=" + ws2) + s);
  }

  /** For the `(href|src)` and `(data-src|data-href)` groups: the name `a`
      spells is the one the alternation uses. */
  lemma PairNameAt(rule: Rule, names: seq<string>, a: string, ws1: string, ws2: string, s: string)
    requires (rule == RootQuoted(names) || rule == RootUnquoted) && Names(rule) == names
    requires names == HrefSrc || names == DataAttrs
    requires Spelled(a, names, ws1, ws2) && Opens(s)
    requires ValueStep(rule, a, Lead(a, ws1, ws2) + s, |Lead(a, ws1, ws2)|).Some?
    ensures Step(rule, Lead(a, ws1, ws2) + s) == ValueStep(rule, a, Lead(a, ws1, ws2) + s, |Lead(a, ws1, ws2)|)
  {
    var t := Lead(a, ws1, ws2) + s;
    var j := if LowerStr(a) == names[0] then 0 else 1;
    assert names[j] == LowerStr(a);
    OpensNoSpace(s);
    AssignAt(a, names[j], ws1, ws2, s);
    NameAt(a, ws1, ws2, s);
    if j == 1 {
      if names == HrefSrc {
        assert LowerStr(a)[0] == 's';
        Mismatch(t, names[0], 0);
      } else {
        assert LowerStr(a)[5] == 'h';
        Mismatch(t, names[0], 5);
      }
    }
    AttrStepAt(rule, names, t, j, |Lead(a, ws1, ws2)|);
  }

  /** For the `(href|src|data-src)` group of the folder rules. */
  lemma RefNameAt(rule: Rule, a: string, ws1: string, ws2: string, s: string)
    requires rule.AssetsRef? || rule.FolderRef?
    requires Spelled(a, RefAttrs, ws1, ws2) && Opens(s)
    requires ValueStep(rule, a, Lead(a, ws1, ws2) + s, |Lead(a, ws1, ws2)|).Some?
    ensures Step(rule, Lead(a, ws1, ws2) + s) == ValueStep(rule, a, Lead(a, ws1, ws2) + s, |Lead(a, ws1, ws2)|)
  {
    var t := Lead(a, ws1, ws2) + s;
    var names := RefAttrs;
    var j := if LowerStr(a) == names[0] then 0 else if LowerStr(a) == names[1] then 1 else 2;
    assert names[j] == LowerStr(a);
    OpensNoSpace(s);
    AssignAt(a, names[j], ws1, ws2, s);
    NameAt(a, ws1, ws2, s);
    if j == 1 {
      assert LowerStr(a)[0] == 's';
      Mismatch(t, names[0], 0);
    } else if j == 2 {
      assert LowerStr(a)[0] == 'd';
      Mismatch(t, names[0], 0);
      Mismatch(t, names[1], 0);
    }
    AttrStepAt(rule, names, t, j, |Lead(a, ws1, ws2)|);
  }

  // ---------------------------------------------------------------------
  // The value part, by positions
  // ---------------------------------------------------------------------

  lemma RootQuotedPos(attr: string, t: string, v: nat, x: string)
    requires v + 2 + |x| < |t| && IsQuote(t[v]) && t[v + 1] == '/'
    requires NoQuoteRun(t[v + 2..]) == |x| && t[v + 2..v + 2 + |x|] == x
    ensures RootQuotedValue(attr, t, v) == Some(Hit(v + 3 + |x|, RootCall(attr, t[v], x, t[v + 2 + |x|])))
  {
  }

  lemma RootUnquotedPos(attr: string, t: string, v: nat, x: string)
    requires v + 1 + |x| <= |t| && t[v] == '/'
    requires BareRun(t[v + 1..]) == |x| && t[v + 1..v + 1 + |x|] == x
    ensures RootUnquotedValue(attr, t, v) == Some(Hit(v + 1 + |x|, RootCall(attr, '"', x, '"')))
  {
  }

  lemma FolderPos(attr: string, t: string, v: nat, x: string, lead: string, folderRule: bool)
    requires v + 1 + |x| < |t| && IsQuote(t[v]) && StartsWithCI(t[v + 1..], lead)
    requires NoQuoteRun(t[v + 1..]) == |x| && t[v + 1..v + 1 + |x|] == x
    requires folderRule ==> t[v + 1 + |x|] == t[v]
    ensures FolderValue(attr, t, v, lead, folderRule)
         == Some(Hit(v + 2 + |x|, FolderCall(attr, t[v], x, if folderRule then t[v] else t[v + 1 + |x|], folderRule)))
  {
  }

  /** A match of length `|r|` at the start of `r + rest` is replaced by
      its callback's result and the search resumes on `rest`. */
  lemma Rewritten(rule: Rule, slug: string, r: string, rest: string, call: Call)
    requires Step(rule, r + rest) == Some(Hit(|r|, call))
    ensures ReplaceAll(rule, slug, r + rest) == Callback(slug, call, r) + ReplaceAll(rule, slug, rest)
  {
    assert (r + rest)[..|r|] == r;
    assert (r + rest)[|r|..] == rest;
  }

  /** Where the value part starts, the text is the body and then the rest. */
  lemma After(lead: string, body: string, rest: string)
    ensures (lead + body + rest)[|lead|..] == body + rest
    ensures (lead + body + rest)[..|lead + body|] == lead + body
    ensures (lead + body + rest)[|lead + body|..] == rest
  {
  }

  /** A quoted root-relative body at `v`, read back by positions. */
  lemma RootBodyAt(t: string, v: nat, q1: char, x: string, q2: char, rest: string)
    requires v <= |t| && t[v..] == RootBody(q1, x, q2) + rest && IsQuote(q2) && NoQuote(x)
    ensures v + 2 + |x| < |t| && t[v] == q1 && t[v + 1] == '/' && t[v + 2 + |x|] == q2
    ensures t[v + 2..v + 2 + |x|] == x && NoQuoteRun(t[v + 2..]) == |x|
  {
    var b := RootBody(q1, x, q2);
    assert forall i :: 0 <= i < |b| ==> t[v + i] == b[i] by {
      forall i | 0 <= i < |b| ensures t[v + i] == b[i] {
        assert t[v..][i] == t[v + i];
      }
    }
    assert t[v] == b[0] && t[v + 1] == b[1] && t[v + 2 + |x|] == b[2 + |x|];
    assert t[v + 2..v + 2 + |x|] == x by {
      forall i | 0 <= i < |x| ensures t[v + 2..v + 2 + |x|][i] == x[i] {
        assert b[2 + i] == x[i];
      }
    }
    forall i | v + 2 <= i < v + 2 + |x| ensures !IsQuote(t[i]) {
      assert b[i - v] == x[i - v - 2];
    }
    NoQuoteRunAt(t, v + 2, |x|);
  }

  /** An unquoted root-relative body at `v`, read back by positions. */
  lemma BareBodyAt(t: string, v: nat, x: string, rest: string)
    requires v <= |t| && t[v..] == "/" + x + rest && NoBareStop(x) && (rest == [] || IsBareStop(rest[0]))
    ensures v + 1 + |x| <= |t| && t[v] == '/'
    ensures t[v + 1..v + 1 + |x|] == x && BareRun(t[v + 1..]) == |x|
  {
    assert t[v..][0] == t[v];
    assert t[v + 1..] == x + rest by {
      assert t[v + 1..] == t[v..][1..];
    }
    BareRunOver(x, rest);
    assert (x + rest)[..|x|] == x;
  }

  /** A quoted body without leading `/` at `v`, read back by positions. */
  lemma PlainBodyAt(t: string, v: nat, q1: char, x: string, q2: char, rest: string)
    requires v <= |t| && t[v..] == PlainBody(q1, x, q2) + rest && IsQuote(q2) && NoQuote(x)
    ensures v + 1 + |x| < |t| && t[v] == q1 && t[v + 1 + |x|] == q2
    ensures t[v + 1..v + 1 + |x|] == x && NoQuoteRun(t[v + 1..]) == |x|
    ensures t[v + 1..] == x + ([q2] + rest)
  {
    var b := PlainBody(q1, x, q2);
    assert forall i :: 0 <= i < |b| ==> t[v + i] == b[i] by {
      forall i | 0 <= i < |b| ensures t[v + i] == b[i] {
        assert t[v..][i] == t[v + i];
      }
    }
    assert t[v] == b[0] && t[v + 1 + |x|] == b[1 + |x|];
    assert t[v + 1..v + 1 + |x|] == x by {
      forall i | 0 <= i < |x| ensures t[v + 1..v + 1 + |x|][i] == x[i] {
        assert b[1 + i] == x[i];
      }
    }
    forall i | v + 1 <= i < v + 1 + |x| ensures !IsQuote(t[i]) {
      assert b[i - v] == x[i - v - 1];
    }
    NoQuoteRunAt(t, v + 1, |x|);
    assert t[v + 1..] == t[v..][1..];
  }

  lemma RootLayout(lead: string, q1: char, x: string, q2: char, rest: string)
    requires IsQuote(q2) && NoQuote(x)
    ensures var r := lead + RootBody(q1, x, q2);
      var t := r + rest;
      var v := |lead|;
      v + 2 + |x| < |t| && t[v] == q1 && t[v + 1] == '/' && t[v + 2 + |x|] == q2
      && t[v + 2..v + 2 + |x|] == x && NoQuoteRun(t[v + 2..]) == |x|
      && |r| == v + 3 + |x| && t[..|r|] == r
  {
    After(lead, RootBody(q1, x, q2), rest);
    RootBodyAt(lead + RootBody(q1, x, q2) + rest, |lead|, q1, x, q2, rest);
  }

  lemma BareLayout(lead: string, x: string, rest: string)
    requires NoBareStop(x) && (rest == [] || IsBareStop(rest[0]))
    ensures var r := lead + ("/" + x);
      var t := r + rest;
      var v := |lead|;
      v + 1 + |x| <= |t| && t[v] == '/'
      && t[v + 1..v + 1 + |x|] == x && BareRun(t[v + 1..]) == |x|
      && |r| == v + 1 + |x| && t[..|r|] == r
  {
    After(lead, "/" + x, rest);
    BareBodyAt(lead + ("/" + x) + rest, |lead|, x, rest);
  }

  lemma PlainLayout(lead: string, q1: char, x: string, q2: char, rest: string)
    requires IsQuote(q2) && NoQuote(x)
    ensures var r := lead + PlainBody(q1, x, q2);
      var t := r + rest;
      var v := |lead|;
      v + 1 + |x| < |t| && t[v] == q1 && t[v + 1 + |x|] == q2
      && t[v + 1..v + 1 + |x|] == x && NoQuoteRun(t[v + 1..]) == |x|
      && t[v + 1..] == x + ([q2] + rest)
      && |r| == v + 2 + |x| && t[..|r|] == r
  {
    After(lead, PlainBody(q1, x, q2), rest);
    PlainBodyAt(lead + PlainBody(q1, x, q2) + rest, |lead|, q1, x, q2, rest);
  }

  // ---------------------------------------------------------------------
  // One reference, one pass
  // ---------------------------------------------------------------------

  lemma QuotedRootValue(rule: Rule, a: string, l: string, q1: char, x: string, q2: char, rest: string)
    requires rule.RootQuoted? && |a| < |l| && IsQuote(q1) && IsQuote(q2) && NoQuote(x)
    ensures var r := l + RootBody(q1, x, q2);
      |l| <= |r + rest|
      && ValueStep(rule, a, r + rest, |l|) == Some(Hit(|r|, RootCall(a, q1, x, q2)))
  {
    var r := l + RootBody(q1, x, q2);
    RootLayout(l, q1, x, q2, rest);
    RootQuotedAt(rule, a, r + rest, |l|, q1, x, q2);
  }

  /** The first rule's value at `v`, read from positions alone. */
  lemma RootQuotedAt(rule: Rule, a: string, t: string, v: nat, q1: char, x: string, q2: char)
    requires rule.RootQuoted? && |a| < v && IsQuote(q1)
    requires v + 2 + |x| < |t| && t[v] == q1 && t[v + 1] == '/' && t[v + 2 + |x|] == q2
    requires NoQuoteRun(t[v + 2..]) == |x| && t[v + 2..v + 2 + |x|] == x
    ensures ValueStep(rule, a, t, v) == Some(Hit(v + 3 + |x|, RootCall(a, q1, x, q2)))
  {
    RootQuotedPos(a, t, v, x);
  }

  lemma LeadLonger(a: string, ws1: string, ws2: string)
    ensures |a| < |Lead(a, ws1, ws2)|
  {
  }

  lemma QuotedRootStep(names: seq<string>, a: string, ws1: string, ws2: string, q1: char, x: string, q2: char, rest: string)
    requires names == HrefSrc || names == DataAttrs
    requires Spelled(a, names, ws1, ws2)
    requires IsQuote(q1) && IsQuote(q2) && NoQuote(x)
    ensures var r := QuotedRef(a, ws1, ws2, q1, x, q2);
      Step(RootQuoted(names), r + rest) == Some(Hit(|r|, RootCall(a, q1, x, q2)))
  {
    var lead := Lead(a, ws1, ws2);
    var body := RootBody(q1, x, q2);
    LeadLonger(a, ws1, ws2);
    QuotedRootValue(RootQuoted(names), a, lead, q1, x, q2, rest);
    Assoc(lead, body, rest);
    PairNameAt(RootQuoted(names), names, a, ws1, ws2, body + rest);
  }

  /** A quoted root-relative `href`/`src` (first pass) or `data-src`/
      `data-href` (fifth pass) gains `/<slug>/` and keeps both quotes, with
      the white space around `=` dropped, unless its path is already under
      `<slug>/` or is a scheme; the text after it is rewritten on its own. */
  lemma QuotedRootRewritten(names: seq<string>, slug: string, a: string, ws1: string, ws2: string, q1: char, x: string, q2: char, rest: string)
    requires names == HrefSrc || names == DataAttrs
    requires Spelled(a, names, ws1, ws2)
    requires IsQuote(q1) && IsQuote(q2) && NoQuote(x)
    ensures var r := QuotedRef(a, ws1, ws2, q1, x, q2);
      ReplaceAll(RootQuoted(names), slug, r + rest)
      == (if KeepsRoot(slug, x) then r else AttrOut(a, slug, q1, x, q2)) + ReplaceAll(RootQuoted(names), slug, rest)
  {
    var r := QuotedRef(a, ws1, ws2, q1, x, q2);
    QuotedRootStep(names, a, ws1, ws2, q1, x, q2, rest);
    Rewritten(RootQuoted(names), slug, r, rest, RootCall(a, q1, x, q2));
  }

  lemma UnquotedRootValue(a: string, l: string, x: string, rest: string)
    requires |a| < |l| && NoBareStop(x) && (rest == [] || IsBareStop(rest[0]))
    ensures var r := l + ("/" + x);
      |l| <= |r + rest|
      && ValueStep(RootUnquoted, a, r + rest, |l|) == Some(Hit(|r|, RootCall(a, '"', x, '"')))
  {
    var r := l + ("/" + x);
    BareLayout(l, x, rest);
    RootUnquotedAt(a, r + rest, |l|, x);
  }

  /** The second rule's value at `v`, read from positions alone. */
  lemma RootUnquotedAt(a: string, t: string, v: nat, x: string)
    requires |a| < v && v + 1 + |x| <= |t| && t[v] == '/'
    requires BareRun(t[v + 1..]) == |x| && t[v + 1..v + 1 + |x|] == x
    ensures ValueStep(RootUnquoted, a, t, v) == Some(Hit(v + 1 + |x|, RootCall(a, '"', x, '"')))
  {
    RootUnquotedPos(a, t, v, x);
  }

  lemma UnquotedRootStep(a: string, ws1: string, ws2: string, x: string, rest: string)
    requires Spelled(a, HrefSrc, ws1, ws2)
    requires NoBareStop(x) && (rest == [] || IsBareStop(rest[0]))
    ensures var r := UnquotedRef(a, ws1, ws2, x);
      Step(RootUnquoted, r + rest) == Some(Hit(|r|, RootCall(a, '"', x, '"')))
  {
    var lead := Lead(a, ws1, ws2);
    var body := "/" + x;
    LeadLonger(a, ws1, ws2);
    UnquotedRootValue(a, lead, x, rest);
    Assoc(lead, body, rest);
    PairNameAt(RootUnquoted, HrefSrc, a, ws1, ws2, body + rest);
  }

  /** An unquoted root-relative `href`/`src` (second pass) is written back
      double-quoted under `/<slug>/`, unless already under `<slug>/` or a
      scheme; the path runs to white space, `>` or the end. */
  lemma UnquotedRootRewritten(slug: string, a: string, ws1: string, ws2: string, x: string, rest: string)
    requires Spelled(a, HrefSrc, ws1, ws2)
    requires NoBareStop(x) && (rest == [] || IsBareStop(rest[0]))
    ensures var r := UnquotedRef(a, ws1, ws2, x);
      ReplaceAll(RootUnquoted, slug, r + rest)
      == (if KeepsRoot(slug, x) then r else AttrOut(a, slug, '"', x, '"')) + ReplaceAll(RootUnquoted, slug, rest)
  {
    var r := UnquotedRef(a, ws1, ws2, x);
    UnquotedRootStep(a, ws1, ws2, x, rest);
    Rewritten(RootUnquoted, slug, r, rest, RootCall(a, '"', x, '"'));
  }

  /** The lead each folder pass looks for right after the opening quote. */
  function FolderLead(rule: Rule): string
  {
    if rule.FolderRef? then rule.folder + "/" else "assets/"
  }

  lemma FolderValueLaid(a: string, l: string, q1: char, x: string, q2: char, rest: string, prefix: string, folderRule: bool)
    requires |a| < |l| && StartsWithCI(x, prefix) && NoQuote(x) && IsQuote(q1) && IsQuote(q2) && (folderRule ==> q2 == q1)
    ensures var r := l + PlainBody(q1, x, q2);
      |l| <= |r + rest|
      && FolderValue(a, r + rest, |l|, prefix, folderRule) == Some(Hit(|r|, FolderCall(a, q1, x, q2, folderRule)))
  {
    var r := l + PlainBody(q1, x, q2);
    PlainLayout(l, q1, x, q2, rest);
    StartsWithCIPrefix(x, [q2] + rest, prefix);
    FolderAt(a, r + rest, |l|, q1, x, q2, prefix, folderRule);
  }

  /** A folder rule's value at `v`, read from positions alone. */
  lemma FolderAt(a: string, t: string, v: nat, q1: char, x: string, q2: char, lead: string, folderRule: bool)
    requires v + 1 + |x| < |t| && t[v] == q1 && IsQuote(q1) && t[v + 1 + |x|] == q2
    requires StartsWithCI(t[v + 1..], lead) && NoQuoteRun(t[v + 1..]) == |x| && t[v + 1..v + 1 + |x|] == x
    requires folderRule ==> q2 == q1
    ensures FolderValue(a, t, v, lead, folderRule) == Some(Hit(v + 2 + |x|, FolderCall(a, q1, x, q2, folderRule)))
  {
    FolderPos(a, t, v, x, lead, folderRule);
  }

  lemma FolderValueAt(rule: Rule, a: string, l: string, q1: char, x: string, q2: char, rest: string)
    requires (rule == AssetsRef || (rule.FolderRef? && q2 == q1)) && StartsWithCI(x, FolderLead(rule))
    requires |a| < |l| && NoQuote(x) && IsQuote(q1) && IsQuote(q2)
    ensures var r := l + PlainBody(q1, x, q2);
      |l| <= |r + rest|
      && ValueStep(rule, a, r + rest, |l|) == Some(Hit(|r|, FolderCall(a, q1, x, q2, rule.FolderRef?)))
  {
    FolderValueLaid(a, l, q1, x, q2, rest, FolderLead(rule), rule.FolderRef?);
  }

  lemma FolderStep(rule: Rule, a: string, ws1: string, ws2: string, q1: char, x: string, q2: char, rest: string)
    requires (rule == AssetsRef || (rule.FolderRef? && q2 == q1)) && StartsWithCI(x, FolderLead(rule))
    requires NoQuote(x) && IsQuote(q1) && IsQuote(q2)
    requires Spelled(a, RefAttrs, ws1, ws2)
    ensures var r := RelativeRef(a, ws1, ws2, q1, x, q2);
      Step(rule, r + rest) == Some(Hit(|r|, FolderCall(a, q1, x, q2, rule.FolderRef?)))
  {
    var lead := Lead(a, ws1, ws2);
    var body := PlainBody(q1, x, q2);
    LeadLonger(a, ws1, ws2);
    FolderValueAt(rule, a, lead, q1, x, q2, rest);
    Assoc(lead, body, rest);
    RefNameAt(rule, a, ws1, ws2, body + rest);
  }

  /** A quoted `href`/`src`/`data-src` value that starts with `<folder>/`
      in any case gains `/<slug>/` from that folder's pass, the opening
      quote closing it too, unless it starts with `http`, `//` or
      `<slug>/`. */
  lemma FolderRewritten(folder: string, slug: string, a: string, ws1: string, ws2: string, q: char, x: string, rest: string)
    requires folder in CommonFolders && StartsWithCI(x, folder + "/") && NoQuote(x)
    requires Spelled(a, RefAttrs, ws1, ws2) && IsQuote(q)
    ensures var r := RelativeRef(a, ws1, ws2, q, x, q);
      var keep := StartsWith(x, "http") || StartsWith(x, "//") || StartsWith(x, slug + "/");
      ReplaceAll(FolderRef(folder), slug, r + rest)
      == (if keep then r else AttrOut(a, slug, q, x, q)) + ReplaceAll(FolderRef(folder), slug, rest)
  {
    var r := RelativeRef(a, ws1, ws2, q, x, q);
    FolderStep(FolderRef(folder), a, ws1, ws2, q, x, q, rest);
    Rewritten(FolderRef(folder), slug, r, rest, FolderCall(a, q, x, q, true));
  }

  /** A quoted `href`/`src`/`data-src` value that starts with `assets/` in
      any case gains `/<slug>/` from the sixth pass, keeping both quotes,
      unless it starts with `http` or `//`. */
  lemma AssetsRewritten(slug: string, a: string, ws1: string, ws2: string, q1: char, x: string, q2: char, rest: string)
    requires StartsWithCI(x, "assets/") && NoQuote(x)
    requires Spelled(a, RefAttrs, ws1, ws2) && IsQuote(q1) && IsQuote(q2)
    ensures var r := RelativeRef(a, ws1, ws2, q1, x, q2);
      var keep := StartsWith(x, "http") || StartsWith(x, "//");
      ReplaceAll(AssetsRef, slug, r + rest)
      == (if keep then r else AttrOut(a, slug, q1, x, q2)) + ReplaceAll(AssetsRef, slug, rest)
  {
    var r := RelativeRef(a, ws1, ws2, q1, x, q2);
    FolderStep(AssetsRef, a, ws1, ws2, q1, x, q2, rest);
    Rewritten(AssetsRef, slug, r, rest, FolderCall(a, q1, x, q2, false));
  }

  // ---------------------------------------------------------------------
  // A second pass
  // ---------------------------------------------------------------------

  lemma UnderSlug(slug: string, x: string)
    requires NoQuote(slug) && NoQuote(x)
    ensures NoQuote(slug + "/" + x) && StartsWith(slug + "/" + x, slug + "/")
  {
    var y := slug + "/" + x;
    forall i | 0 <= i < |y| ensures !IsQuote(y[i]) {
      if i < |slug| { assert y[i] == slug[i]; } else if i > |slug| { assert y[i] == x[i - |slug| - 1]; }
    }
    assert y[..|slug| + 1] == slug + "/";
  }

  /** A rewritten quoted reference is left alone by the same pass run
      again, as long as the slug has no quote. */
  lemma QuotedRootStable(names: seq<string>, slug: string, a: string, q1: char, x: string, q2: char, rest: string)
    requires names == HrefSrc || names == DataAttrs
    requires LowerStr(a) in names && IsQuote(q1) && IsQuote(q2) && NoQuote(x) && NoQuote(slug)
    ensures var r := AttrOut(a, slug, q1, x, q2);
      ReplaceAll(RootQuoted(names), slug, r + rest) == r + ReplaceAll(RootQuoted(names), slug, rest)
  {
    var y := slug + "/" + x;
    UnderSlug(slug, x);
    assert AttrOut(a, slug, q1, x, q2) == QuotedRef(a, [], [], q1, y, q2);
    QuotedRootRewritten(names, slug, a, [], [], q1, y, q2, rest);
  }
}
