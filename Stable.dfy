/** A second run of the unquoted and folder passes over what they wrote:
    no match can start inside an attribute the pass wrote, so it is copied
    as it is. */
module Stable {
  import opened Wrappers
  import opened Strings
  import opened Rewrite
  import opened Scan
  import AttrRefs

  /** A prefix at none of whose positions the rule matches is copied by the
      global replace, and the search goes on in the rest. */
  lemma CopiedPrefix(rule: Rule, slug: string, s: string, rest: string)
    requires forall i :: 0 <= i < |s| ==> Step(rule, (s + rest)[i..]).None?
    ensures ReplaceAll(rule, slug, s + rest) == s + ReplaceAll(rule, slug, rest)
  {
    var t := s + rest;
    forall i | 0 <= i < |s| ensures Step(rule, t[i..]).None? {
    }
    CopiedFrom(rule, slug, t, 0, |s|);
    assert t[0..] == t && t[0..|s|] == s && t[|s|..] == rest;
  }

  /** The same, between positions `k` and `n` of one text. */
  lemma {:induction false} CopiedFrom(rule: Rule, slug: string, t: string, k: nat, n: nat)
    requires k <= n <= |t|
    requires forall i :: k <= i < n ==> Step(rule, t[i..]).None?
    ensures ReplaceAll(rule, slug, t[k..]) == t[k..n] + ReplaceAll(rule, slug, t[n..])
    decreases n - k
  {
    if k < n {
      assert Step(rule, t[k..]).None?;
      CopiedFrom(rule, slug, t, k + 1, n);
      CopiedOne(rule, slug, t, k, n);
    }
  }

  /** One more copied character in front of a copied stretch. */
  lemma CopiedOne(rule: Rule, slug: string, t: string, k: nat, n: nat)
    requires k < n <= |t| && Step(rule, t[k..]).None?
    requires ReplaceAll(rule, slug, t[k + 1..]) == t[k + 1..n] + ReplaceAll(rule, slug, t[n..])
    ensures ReplaceAll(rule, slug, t[k..]) == t[k..n] + ReplaceAll(rule, slug, t[n..])
  {
    Copied(rule, slug, t, k);
    SliceCons(t, k, n);
    Regroup(t[k], t[k + 1..n], ReplaceAll(rule, slug, t[n..]));
  }

  lemma SliceCons(t: string, k: nat, n: nat)
    requires k < n <= |t|
    ensures t[k..n] == [t[k]] + t[k + 1..n]
  {
  }

  lemma Regroup(c: char, x: string, y: string)
    ensures [c] + (x + y) == ([c] + x) + y
  {
  }

  /** Where the rule does not match, one character is copied. */
  lemma Copied(rule: Rule, slug: string, t: string, k: nat)
    requires k < |t| && Step(rule, t[k..]).None?
    ensures ReplaceAll(rule, slug, t[k..]) == [t[k]] + ReplaceAll(rule, slug, t[k + 1..])
  {
    assert t[k..][1..] == t[k + 1..];
  }

  /** A name with neither a quote nor `=` in it. */
  predicate PlainName(n: string)
  {
    forall i :: 0 <= i < |n| ==> !IsQuote(n[i]) && n[i] != '='
  }

  predicate PlainNames(names: seq<string>)
  {
    forall k :: 0 <= k < |names| ==> PlainName(names[k])
  }

  lemma NamesPlain()
    ensures PlainNames(HrefSrc) && PlainNames(RefAttrs)
  {
    assert PlainName("href") && PlainName("src") && PlainName("data-src");
  }

  /** A name as written that spells a plain name is plain too. */
  lemma SpelledPlain(a: string, names: seq<string>)
    requires LowerStr(a) in names && PlainNames(names)
    ensures PlainName(a)
  {
    var n := LowerStr(a);
    assert PlainName(n);
    forall i | 0 <= i < |a| ensures !IsQuote(a[i]) && a[i] != '=' {
      assert Lower(a[i]) == n[i];
    }
  }

  /** `name\s*=` cannot match when a quote comes before any `=`. */
  lemma FencedName(n: string, t: string, b: nat)
    requires PlainName(n)
    requires b < |t| && IsQuote(t[b]) && forall k :: 0 <= k < b ==> t[k] != '='
    ensures Assign(n, t) == None
  {
  }

  /** So no attribute rule matches there. */
  lemma {:induction false} Fenced(rule: Rule, names: seq<string>, t: string, b: nat)
    requires !rule.CssUrl? && PlainNames(names)
    requires b < |t| && IsQuote(t[b]) && forall k :: 0 <= k < b ==> t[k] != '='
    ensures AttrStep(rule, names, t) == None
    decreases |names|
  {
    if names != [] {
      FencedName(names[0], t, b);
      assert forall k :: 0 <= k < |names| - 1 ==> names[1..][k] == names[k + 1];
      Fenced(rule, names[1..], t, b);
    }
  }

  /** The rules whose value must not begin with a quote followed by `/`:
      the unquoted pass wants `/` right after `=`, the folder passes a
      folder name right after the quote. */
  predicate SlashRefused(rule: Rule)
  {
    rule.RootUnquoted? || rule.AssetsRef? || (rule.FolderRef? && rule.folder != [] && Lower(rule.folder[0]) != '/')
  }

  lemma FoldersRefuse(folder: string)
    requires folder in CommonFolders
    ensures SlashRefused(FolderRef(folder))
  {
  }

  /** Where the first `=` is followed by a quote and `/`, a name that
      reaches the `=` leaves the value part nothing to match. */
  lemma OpenedSlashName(rule: Rule, n: string, t: string, e: nat)
    requires SlashRefused(rule) && PlainName(n)
    requires e + 2 < |t| && t[e] == '=' && IsQuote(t[e + 1]) && t[e + 2] == '/'
    requires forall k :: 0 <= k < e ==> t[k] != '='
    ensures match Assign(n, t)
      case None => true
      case Some(v) => ValueStep(rule, t[..|n|], t, v) == None
  {
    if StartsWithCI(t, n) {
      var a := |n| + SpaceRun(t[|n|..]);
      if a < |t| && t[a] == '=' {
        assert a == e;
        assert t[e + 1..][0] == t[e + 1];
        assert SpaceRun(t[e + 1..]) == 0;
        var v := e + 1;
        assert Assign(n, t) == Some(v);
        if !rule.RootUnquoted? {
          var lead := if rule.FolderRef? then rule.folder + "/" else "assets/";
          assert t[v + 1..][0] == '/';
          assert Lower(lead[0]) != '/';
          assert !StartsWithCI(t[v + 1..], lead);
        }
      }
    }
  }

  lemma {:induction false} OpenedSlash(rule: Rule, names: seq<string>, t: string, e: nat)
    requires SlashRefused(rule) && PlainNames(names)
    requires e + 2 < |t| && t[e] == '=' && IsQuote(t[e + 1]) && t[e + 2] == '/'
    requires forall k :: 0 <= k < e ==> t[k] != '='
    ensures AttrStep(rule, names, t) == None
    decreases |names|
  {
    if names != [] {
      OpenedSlashName(rule, names[0], t, e);
      assert forall k :: 0 <= k < |names| - 1 ==> names[1..][k] == names[k + 1];
      OpenedSlash(rule, names[1..], t, e);
    }
  }

  /** `<a>=<q1>/<y><q2>`, what the root and folder callbacks write, read
      back by positions. */
  lemma Written(a: string, q1: char, y: string, q2: char)
    ensures var r := a + "=" + [q1] + "/" + y + [q2];
      |r| == |a| + |y| + 4
      && (forall j :: 0 <= j < |a| ==> r[j] == a[j])
      && r[|a|] == '=' && r[|a| + 1] == q1 && r[|a| + 2] == '/'
      && (forall m :: 0 <= m < |y| ==> r[|a| + 3 + m] == y[m])
      && r[|r| - 1] == q2
  {
  }

  /** Positions inside the attribute name or at its `=`. */
  lemma NameRegion(rule: Rule, a: string, q1: char, y: string, q2: char, rest: string, i: nat)
    requires SlashRefused(rule) && PlainNames(Names(rule)) && PlainName(a) && IsQuote(q1)
    requires i <= |a|
    ensures var t := a + "=" + [q1] + "/" + y + [q2] + rest; Step(rule, t[i..]).None?
  {
    var r := a + "=" + [q1] + "/" + y + [q2];
    var t := r + rest;
    var u := t[i..];
    var e := |a| - i;
    Written(a, q1, y, q2);
    assert u[e] == r[|a|] && u[e + 1] == r[|a| + 1] && u[e + 2] == r[|a| + 2];
    forall k | 0 <= k < e ensures u[k] != '=' {
      assert u[k] == a[i + k];
    }
    OpenedSlash(rule, Names(rule), u, e);
  }

  /** Positions after the attribute name's `=`, up to the closing quote. */
  lemma ValueRegion(rule: Rule, a: string, q1: char, y: string, q2: char, rest: string, i: nat)
    requires !rule.CssUrl? && PlainNames(Names(rule)) && IsQuote(q1) && IsQuote(q2)
    requires '=' !in y && |a| < i < |a| + |y| + 4
    ensures var t := a + "=" + [q1] + "/" + y + [q2] + rest; Step(rule, t[i..]).None?
  {
    var r := a + "=" + [q1] + "/" + y + [q2];
    var t := r + rest;
    var u := t[i..];
    var b := |r| - 1 - i;
    Written(a, q1, y, q2);
    assert u[b] == r[|r| - 1];
    forall k | 0 <= k < b ensures u[k] != '=' {
      var j := i + k;
      assert u[k] == r[j];
      if j > |a| + 2 {
        assert r[j] == y[j - |a| - 3];
        assert y[j - |a| - 3] in y;
      }
    }
    Fenced(rule, Names(rule), u, b);
  }

  /** An attribute the unquoted or a folder pass wrote, `<a>=<q1>/<y><q2>`,
      is copied by that pass run again when `y` has no `=`. */
  lemma WrittenCopied(rule: Rule, slug: string, a: string, q1: char, y: string, q2: char, rest: string)
    requires SlashRefused(rule) && PlainNames(Names(rule)) && PlainName(a)
    requires IsQuote(q1) && IsQuote(q2) && '=' !in y
    ensures var r := a + "=" + [q1] + "/" + y + [q2];
      ReplaceAll(rule, slug, r + rest) == r + ReplaceAll(rule, slug, rest)
  {
    var r := a + "=" + [q1] + "/" + y + [q2];
    Written(a, q1, y, q2);
    forall i | 0 <= i < |r| ensures Step(rule, (r + rest)[i..]).None? {
      if i <= |a| {
        NameRegion(rule, a, q1, y, q2, rest, i);
      } else {
        ValueRegion(rule, a, q1, y, q2, rest, i);
      }
    }
    CopiedPrefix(rule, slug, r, rest);
  }

  lemma NoEqUnder(slug: string, x: string)
    requires '=' !in slug && '=' !in x
    ensures '=' !in slug + "/" + x
  {
  }

  /** An attribute the unquoted pass wrote, `<a>="/<slug>/<x>"`, is left
      alone when that pass runs again, for a slug and path without `=`. */
  lemma UnquotedStable(slug: string, a: string, x: string, rest: string)
    requires LowerStr(a) in HrefSrc && '=' !in slug && '=' !in x
    ensures var r := AttrOut(a, slug, '"', x, '"');
      ReplaceAll(RootUnquoted, slug, r + rest) == r + ReplaceAll(RootUnquoted, slug, rest)
  {
    var y := slug + "/" + x;
    NamesPlain();
    SpelledPlain(a, HrefSrc);
    NoEqUnder(slug, x);
    assert AttrOut(a, slug, '"', x, '"') == a + "=" + ['"'] + "/" + y + ['"'];
    WrittenCopied(RootUnquoted, slug, a, '"', y, '"', rest);
  }

  /** An `assets/` reference the sixth pass wrote is left alone when that
      pass runs again, for a slug and path without `=`. */
  lemma AssetsStable(slug: string, a: string, q1: char, x: string, q2: char, rest: string)
    requires LowerStr(a) in RefAttrs && IsQuote(q1) && IsQuote(q2) && '=' !in slug && '=' !in x
    ensures var r := AttrOut(a, slug, q1, x, q2);
      ReplaceAll(AssetsRef, slug, r + rest) == r + ReplaceAll(AssetsRef, slug, rest)
  {
    var y := slug + "/" + x;
    NamesPlain();
    SpelledPlain(a, RefAttrs);
    NoEqUnder(slug, x);
    assert AttrOut(a, slug, q1, x, q2) == a + "=" + [q1] + "/" + y + [q2];
    WrittenCopied(AssetsRef, slug, a, q1, y, q2, rest);
  }

  /** A folder reference a common-folder pass wrote is left alone when that
      pass runs again, for a slug and path without `=`. */
  lemma FolderStable(folder: string, slug: string, a: string, q: char, x: string, rest: string)
    requires folder in CommonFolders
    requires LowerStr(a) in RefAttrs && IsQuote(q) && '=' !in slug && '=' !in x
    ensures var r := AttrOut(a, slug, q, x, q);
      ReplaceAll(FolderRef(folder), slug, r + rest) == r + ReplaceAll(FolderRef(folder), slug, rest)
  {
    var y := slug + "/" + x;
    NamesPlain();
    SpelledPlain(a, RefAttrs);
    NoEqUnder(slug, x);
    FoldersRefuse(folder);
    assert AttrOut(a, slug, q, x, q) == a + "=" + [q] + "/" + y + [q];
    WrittenCopied(FolderRef(folder), slug, a, q, y, q, rest);
  }

  /** The unquoted pass run a second time over its own output is not a
      no-op when the path has `=` then `/` after a quote: the pass reads an
      unquoted value up to white space or `>`, quotes included, so the `href=`
      inside the new value is taken for an attribute and gets rewritten again,
      closing quote and all. */
  lemma UnquotedNotIdempotent()
    ensures var r1 := ReplaceAll(RootUnquoted, "s", "src=/a'href=/b");
      r1 == "src=\"/s/a'href=/b\""
      && ReplaceAll(RootUnquoted, "s", r1) == "src=\"/s/a'href=\"/s/b\"\""
      && ReplaceAll(RootUnquoted, "s", r1) != r1
  {
    FirstRun();
    SecondPass();
  }

  /** The second run: the quoted value written for `src` is copied up to
      the `href=/b"` inside it, which is taken for an unquoted attribute. */
  lemma SecondPass()
    ensures ReplaceAll(RootUnquoted, "s", "src=\"/s/a'href=/b\"") == "src=\"/s/a'href=\"/s/b\"\""
  {
    var p, q := "src=\"/s/a'", "href=/b\"";
    SecondSplit(p, q);
    forall i | 0 <= i < |p| ensures Step(RootUnquoted, (p + q)[i..]).None? {
      Unmatched(i);
    }
    CopiedPrefix(RootUnquoted, "s", p, q);
    SecondRun();
  }

  lemma SecondSplit(p: string, q: string)
    requires p == "src=\"/s/a'" && q == "href=/b\""
    ensures p + q == "src=\"/s/a'href=/b\""
    ensures p + "href=\"/s/b\"\"" == "src=\"/s/a'href=\"/s/b\"\""
  {
  }

  lemma FirstRun()
    ensures ReplaceAll(RootUnquoted, "s", "src=/a'href=/b") == "src=\"/s/a'href=/b\""
  {
    var x := "a'href=/b";
    SpelledLower("src");
    Unstopped(x);
    NotRoot(x);
    RunOnce("src", x);
    Spell("src", x, "src=/a'href=/b", "src=\"/s/a'href=/b\"");
  }

  lemma SecondRun()
    ensures ReplaceAll(RootUnquoted, "s", "href=/b\"") == "href=\"/s/b\"\""
  {
    var x := "b\"";
    SpelledLower("href");
    Unstopped(x);
    NotRoot(x);
    RunOnce("href", x);
    Spell("href", x, "href=/b\"", "href=\"/s/b\"\"");
  }

  /** The unquoted pass over a lone `<a>=/<x>` for the slug `s`. */
  lemma RunOnce(a: string, x: string)
    requires AttrRefs.Spelled(a, HrefSrc, [], []) && NoBareStop(x) && !KeepsRoot("s", x)
    ensures ReplaceAll(RootUnquoted, "s", a + "=/" + x) == a + "=\"/s/" + x + "\""
  {
    RefLaid(a, x);
    AttrRefs.UnquotedRootRewritten("s", a, [], [], x, []);
    OutLaid(a, x);
  }

  /** The example's texts, spelled out. */
  lemma Spell(a: string, x: string, t: string, u: string)
    requires (a == "src" && x == "a'href=/b" && t == "src=/a'href=/b" && u == "src=\"/s/a'href=/b\"")
          || (a == "href" && x == "b\"" && t == "href=/b\"" && u == "href=\"/s/b\"\"")
    ensures a + "=/" + x == t && a + "=\"/s/" + x + "\"" == u
  {
    if a == "src" {
      SpellSrc(a, x, t, u);
    } else {
      SpellHref(a, x, t, u);
    }
  }

  lemma SpellSrc(a: string, x: string, t: string, u: string)
    requires a == "src" && x == "a'href=/b" && t == "src=/a'href=/b" && u == "src=\"/s/a'href=/b\""
    ensures a + "=/" + x == t && a + "=\"/s/" + x + "\"" == u
  {
  }

  lemma SpellHref(a: string, x: string, t: string, u: string)
    requires a == "href" && x == "b\"" && t == "href=/b\"" && u == "href=\"/s/b\"\""
    ensures a + "=/" + x == t && a + "=\"/s/" + x + "\"" == u
  {
  }

  lemma OutLaid(a: string, x: string)
    ensures AttrOut(a, "s", '"', x, '"') + [] == a + "=\"/s/" + x + "\""
  {
  }

  /** An attribute spelled in lower case, with nothing around `=`. */
  lemma SpelledLower(a: string)
    requires a == "src" || a == "href"
    ensures AttrRefs.Spelled(a, HrefSrc, [], [])
  {
    assert LowerStr(a) == a;
  }

  /** The two paths of the example have no white space or `>`. */
  lemma Unstopped(x: string)
    requires x == "a'href=/b" || x == "b\""
    ensures NoBareStop(x)
  {
  }

  /** `<a>=/<x>` with nothing around `=`. */
  lemma RefLaid(a: string, x: string)
    ensures AttrRefs.UnquotedRef(a, [], [], x) + [] == a + "=/" + x
  {
  }

  /** A path starting with neither `s` nor a scheme's first letter is
      rewritten for the slug `s`. */
  lemma NotRoot(url: string)
    requires url != [] && url[0] !in "shmtd"
    ensures !KeepsRoot("s", url)
  {
    FirstDiffers(url, "s/");
    FirstDiffers(url, "http:");
    FirstDiffers(url, "https:");
    FirstDiffers(url, "mailto:");
    FirstDiffers(url, "tel:");
    FirstDiffers(url, "data:");
  }

  /** A text does not start with a prefix whose first character differs
      from its own. */
  lemma FirstDiffers(s: string, p: string)
    requires s != [] && p != [] && s[0] != p[0]
    ensures !StartsWith(s, p)
  {
    assert |p| > |s| || s[..|p|][0] != p[0];
  }

  /** No match starts inside `src="/s/a'`. */
  lemma Unmatched(i: nat)
    requires i < 10
    ensures Step(RootUnquoted, "src=\"/s/a'href=/b\""[i..]).None?
  {
    NamesPlain();
    var t := "src=\"/s/a'href=/b\"";
    if i <= 3 {
      SrcLaid(t);
      SpelledLower("src");
      SpelledPlain("src", HrefSrc);
      NameRegion(RootUnquoted, "src", '"', "s/a'href=/b", '"', [], i);
    } else {
      var u := t[i..];
      assert u[9 - i] == '\'';
      Fenced(RootUnquoted, HrefSrc, u, 9 - i);
    }
  }

  lemma SrcLaid(t: string)
    requires t == "src=\"/s/a'href=/b\""
    ensures "src" + "=" + ['"'] + "/" + "s/a'href=/b" + ['"'] + [] == t
  {
  }
}
