/** The `<base href="/<slug>/">` tag is injected before the references are
    rewritten; the first pass must leave it as it is, or every relative URL
    of the page would resolve under `/<slug>/<slug>/`. */
module BaseRefs {
  import opened Wrappers
  import opened Strings
  import opened Rewrite
  import opened Scan
  import opened AttrRefs
  import opened BaseTag
  import Stable

  /** No attribute name of the alternation starts here, so there is no match. */
  lemma {:induction false} NoName(rule: Rule, names: seq<string>, t: string)
    requires !rule.CssUrl?
    requires forall i :: 0 <= i < |names| ==> !StartsWithCI(t, names[i])
    ensures AttrStep(rule, names, t) == None
  {
    if names != [] {
      NoName(rule, names[1..], t);
    }
  }

  /** A character the first pass cannot start a match at is copied. */
  lemma Copied(slug: string, c: char, s: string)
    requires !StartsWithCI([c] + s, "href") && !StartsWithCI([c] + s, "src")
    ensures ReplaceAll(RootQuoted(HrefSrc), slug, [c] + s) == [c] + ReplaceAll(RootQuoted(HrefSrc), slug, s)
  {
    NoName(RootQuoted(HrefSrc), HrefSrc, [c] + s);
    assert ([c] + s)[1..] == s;
  }

  /** Neither `h` nor `s` starts here. */
  lemma Other(slug: string, c: char, s: string)
    requires Lower(c) != 'h' && Lower(c) != 's'
    ensures ReplaceAll(RootQuoted(HrefSrc), slug, [c] + s) == [c] + ReplaceAll(RootQuoted(HrefSrc), slug, s)
  {
    Mismatch([c] + s, "href", 0);
    Mismatch([c] + s, "src", 0);
    Copied(slug, c, s);
  }

  /** An `s` not followed by `r`, as in `base`. */
  lemma NotSrc(slug: string, s: string)
    requires s != [] && Lower(s[0]) != 'r'
    ensures ReplaceAll(RootQuoted(HrefSrc), slug, "s" + s) == "s" + ReplaceAll(RootQuoted(HrefSrc), slug, s)
  {
    Mismatch("s" + s, "href", 0);
    Mismatch("s" + s, "src", 1);
    Copied(slug, 's', s);
  }

  /** The tag is its `<base ` opening, a quoted root reference and `>`. */
  lemma TagParts(slug: string)
    ensures Tag(slug) == "<base " + QuotedRef("href", [], [], '"', slug + "/", '"') + ">"
  {
  }

  /** The quoted `href` of the tag is already under the slug, so it is
      kept, and so is the `>` after it. */
  lemma RefKept(slug: string, rest: string)
    requires NoQuote(slug)
    ensures var r := QuotedRef("href", [], [], '"', slug + "/", '"');
      ReplaceAll(RootQuoted(HrefSrc), slug, r + (">" + rest))
      == r + (">" + ReplaceAll(RootQuoted(HrefSrc), slug, rest))
  {
    UnderSlug(slug, []);
    assert slug + "/" + [] == slug + "/";
    assert Spelled("href", HrefSrc, [], []) by { assert LowerStr("href") == "href"; }
    QuotedRootRewritten(HrefSrc, slug, "href", [], [], '"', slug + "/", '"', ">" + rest);
    Other(slug, '>', rest);
  }

  lemma Cons3(a: char, b: char, c: char, x: string)
    ensures [a] + ([b] + ([c] + x)) == [a, b, c] + x
  {
  }

  /** `se ` cannot start `src`. */
  lemma SeCopied(slug: string, s: string)
    ensures ReplaceAll(RootQuoted(HrefSrc), slug, "se " + s) == "se " + ReplaceAll(RootQuoted(HrefSrc), slug, s)
  {
    var R := RootQuoted(HrefSrc);
    var s1 := [' '] + s;
    var s2 := ['e'] + s1;
    Other(slug, ' ', s);
    Other(slug, 'e', s1);
    NotSrc(slug, s2);
    Cons3('s', 'e', ' ', s);
    Cons3('s', 'e', ' ', ReplaceAll(R, slug, s));
  }

  /** `<ba` cannot start `href` or `src`. */
  lemma LtBaCopied(slug: string, s: string)
    ensures ReplaceAll(RootQuoted(HrefSrc), slug, "<ba" + s) == "<ba" + ReplaceAll(RootQuoted(HrefSrc), slug, s)
  {
    var R := RootQuoted(HrefSrc);
    var s1 := ['a'] + s;
    var s2 := ['b'] + s1;
    Other(slug, 'a', s);
    Other(slug, 'b', s1);
    Other(slug, '<', s2);
    Cons3('<', 'b', 'a', s);
    Cons3('<', 'b', 'a', ReplaceAll(R, slug, s));
  }

  lemma Opening()
    ensures "<ba" + "se " == "<base "
  {
  }

  /** The `<base ` opening is copied. */
  lemma OpeningCopied(slug: string, s: string)
    ensures ReplaceAll(RootQuoted(HrefSrc), slug, "<base " + s) == "<base " + ReplaceAll(RootQuoted(HrefSrc), slug, s)
  {
    var R := RootQuoted(HrefSrc);
    SeCopied(slug, s);
    LtBaCopied(slug, "se " + s);
    Assoc("<ba", "se ", s);
    Assoc("<ba", "se ", ReplaceAll(R, slug, s));
    Opening();
  }

  /** The first pass of the HTML rewrite leaves an injected base tag alone
      when the slug has no quote in it. */
  lemma TagSurvives(slug: string, rest: string)
    requires NoQuote(slug)
    ensures ReplaceAll(RootQuoted(HrefSrc), slug, Tag(slug) + rest)
         == Tag(slug) + ReplaceAll(RootQuoted(HrefSrc), slug, rest)
  {
    var r := QuotedRef("href", [], [], '"', slug + "/", '"');
    var tail := r + (">" + rest);
    RefKept(slug, rest);
    OpeningCopied(slug, tail);
    TagParts(slug);
    Assoc("<base " + r, ">", rest);
    Assoc("<base ", r, ">" + rest);
    Assoc("<base ", r, ">" + ReplaceAll(RootQuoted(HrefSrc), slug, rest));
    Assoc("<base " + r, ">", ReplaceAll(RootQuoted(HrefSrc), slug, rest));
  }

  /** The passes that follow the first one in `HtmlRules()`. */
  predicate LaterRule(rule: Rule)
  {
    rule == RootUnquoted || rule == Srcset || rule == CssUrl(true) || rule == RootQuoted(DataAttrs)
    || rule == AssetsRef || (rule.FolderRef? && rule.folder in CommonFolders)
  }

  lemma LaterRules(n: nat)
    requires 1 <= n < |HtmlRules()|
    ensures LaterRule(HtmlRules()[n])
  {
    if n >= 6 {
      assert HtmlRules()[n] == FolderRef(CommonFolders[n - 6]);
    }
  }

  /** The first letters a match of the rule can start with. */
  function Initials(rule: Rule): string
  {
    match rule
    case CssUrl(_) => "u"
    case Srcset => "s"
    case RootQuoted(_) => "d"
    case RootUnquoted => "hs"
    case _ => "hsd"
  }

  /** Every name of a later pass is plain and starts with one of its
      initials, and an `s` in front is followed by `r`. */
  lemma InitialsOf(rule: Rule)
    requires LaterRule(rule) && !rule.CssUrl?
    ensures Stable.PlainNames(Names(rule))
    ensures forall k :: 0 <= k < |Names(rule)| ==>
      |Names(rule)[k]| > 1 && Lower(Names(rule)[k][0]) == Names(rule)[k][0] && Names(rule)[k][0] in Initials(rule)
      && (Names(rule)[k][0] == 's' ==> Lower(Names(rule)[k][1]) == 'r')
  {
    Stable.NamesPlain();
    assert Stable.PlainName("srcset") && Stable.PlainName("data-href");
  }

  /** A later pass finds no match where the text starts with none of its
      initials, or with `s` not followed by `r`. */
  lemma NoStart(rule: Rule, u: string)
    requires LaterRule(rule) && u != []
    requires Lower(u[0]) !in Initials(rule) || (Lower(u[0]) == 's' && |u| > 1 && Lower(u[1]) != 'r')
    ensures Step(rule, u).None?
  {
    if rule.CssUrl? {
      Mismatch(u, "url(", 0);
    } else {
      var names := Names(rule);
      InitialsOf(rule);
      forall k | 0 <= k < |names| ensures !StartsWithCI(u, names[k]) {
        if Lower(u[0]) != Lower(names[k][0]) {
          Mismatch(u, names[k], 0);
        } else {
          Mismatch(u, names[k], 1);
        }
      }
      NoName(rule, names, u);
    }
  }

  /** The characters of the tag, followed by anything. */
  lemma TagLaid(slug: string, x: string)
    ensures var t := Tag(slug) + x; var e := 14 + |slug|;
      |t| == e + 2 + |x|
      && t[0] == '<' && t[1] == 'b' && t[2] == 'a' && t[3] == 's' && t[4] == 'e' && t[5] == ' '
      && t[6] == 'h' && t[7] == 'r' && t[8] == 'e' && t[9] == 'f' && t[10] == '=' && t[11] == '"'
      && t[12] == '/' && (forall m :: 0 <= m < |slug| ==> t[13 + m] == slug[m])
      && t[e - 1] == '/' && t[e] == '"' && t[e + 1] == '>'
      && t[6..] == "href" + "=" + ['"'] + "/" + (slug + "/") + ['"'] + (">" + x)
  {
    var t := Tag(slug) + x;
    assert t == "<base " + ("href" + "=" + ['"'] + "/" + (slug + "/") + ['"'] + (">" + x));
  }

  /** No later pass matches inside `<base href=`. */
  lemma HeadUnmatched(rule: Rule, slug: string, x: string, i: nat)
    requires LaterRule(rule) && i <= 10
    ensures Step(rule, (Tag(slug) + x)[i..]).None?
  {
    var t := Tag(slug) + x;
    TagLaid(slug, x);
    var u := t[i..];
    if i == 6 && Stable.SlashRefused(rule) {
      InitialsOf(rule);
      Stable.NamesPlain();
      Stable.NameRegion(rule, "href", '"', slug + "/", '"', ">" + x, 0);
      assert t[6..][0..] == u;
    } else {
      assert u[0] == t[i] && u[1] == t[i + 1];
      NoStart(rule, u);
    }
  }

  /** Nor inside the quoted value, for a slug without `=`: its closing
      quote comes before any `=`. */
  lemma ValueUnmatched(rule: Rule, slug: string, x: string, i: nat)
    requires LaterRule(rule) && '=' !in slug && '(' !in slug
    requires 11 <= i <= 14 + |slug|
    ensures Step(rule, (Tag(slug) + x)[i..]).None?
  {
    var t := Tag(slug) + x;
    var e := 14 + |slug|;
    TagLaid(slug, x);
    var u := t[i..];
    if rule.CssUrl? {
      if i < 13 || i >= e - 1 {
        assert u[0] == t[i];
        Mismatch(u, "url(", 0);
      } else {
        assert u[3] == t[i + 3];
        assert t[i + 3] != '(' by {
          if i + 3 < 13 + |slug| {
            assert t[i + 3] == slug[i - 10];
          }
        }
        Mismatch(u, "url(", 3);
      }
    } else {
      InitialsOf(rule);
      forall k | 0 <= k < e - i ensures u[k] != '=' {
        assert u[k] == t[i + k];
      }
      assert u[e - i] == t[e];
      Stable.Fenced(rule, Names(rule), u, e - i);
    }
  }

  /** Nor at the closing `>`. */
  lemma CloseUnmatched(rule: Rule, slug: string, x: string)
    requires LaterRule(rule)
    ensures Step(rule, (Tag(slug) + x)[15 + |slug|..]).None?
  {
    var t := Tag(slug) + x;
    TagLaid(slug, x);
    assert t[15 + |slug|..][0] == '>';
    NoStart(rule, t[15 + |slug|..]);
  }

  /** A later pass copies the tag and goes on after it. */
  lemma TagPass(rule: Rule, slug: string, x: string)
    requires LaterRule(rule) && '=' !in slug && '(' !in slug
    ensures ReplaceAll(rule, slug, Tag(slug) + x) == Tag(slug) + ReplaceAll(rule, slug, x)
  {
    var t := Tag(slug);
    TagLaid(slug, x);
    forall i | 0 <= i < |t| ensures Step(rule, (t + x)[i..]).None? {
      if i <= 10 {
        HeadUnmatched(rule, slug, x, i);
      } else if i <= 14 + |slug| {
        ValueUnmatched(rule, slug, x, i);
      } else {
        CloseUnmatched(rule, slug, x);
      }
    }
    Stable.CopiedPrefix(rule, slug, t, x);
  }

  /** The tag at the head of the text survives the first `n` passes. */
  lemma {:induction false} TagKeptUpTo(slug: string, rest: string, n: nat)
    requires NoQuote(slug) && '=' !in slug && '(' !in slug
    requires 1 <= n <= |HtmlRules()|
    ensures ApplyRules(HtmlRules()[..n], slug, Tag(slug) + rest)
         == Tag(slug) + ApplyRules(HtmlRules()[..n], slug, rest)
  {
    var rules := HtmlRules();
    if n == 1 {
      ApplyRulesStep(rules, 0, slug, Tag(slug) + rest);
      ApplyRulesStep(rules, 0, slug, rest);
      TagSurvives(slug, rest);
    } else {
      TagKeptUpTo(slug, rest, n - 1);
      ApplyRulesStep(rules, n - 1, slug, Tag(slug) + rest);
      ApplyRulesStep(rules, n - 1, slug, rest);
      LaterRules(n - 1);
      TagPass(rules[n - 1], slug, ApplyRules(rules[..n - 1], slug, rest));
    }
  }

  /** All sixteen passes of the HTML rewrite leave a base tag at the head
      of the text alone, for a slug without quotes, `=` or `(`, and rewrite
      what follows it as they would on its own. */
  lemma TagKept(slug: string, rest: string)
    requires NoQuote(slug) && '=' !in slug && '(' !in slug
    ensures ApplyRules(HtmlRules(), slug, Tag(slug) + rest) == Tag(slug) + ApplyRules(HtmlRules(), slug, rest)
  {
    TagKeptUpTo(slug, rest, |HtmlRules()|);
    assert HtmlRules()[..|HtmlRules()|] == HtmlRules();
  }
}
