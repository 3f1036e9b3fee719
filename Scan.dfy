/** Facts about the character runs the rewrite scanners measure, on
    documents assembled from pieces: how far a run reaches in `a + b`. */
module Scan {
  import opened Strings
  import opened Rewrite

  predicate AllSpace(s: string)
  {
    forall i :: 0 <= i < |s| ==> IsSpace(s[i])
  }

  predicate NoQuote(s: string)
  {
    forall i :: 0 <= i < |s| ==> !IsQuote(s[i])
  }

  predicate NoCssStop(s: string)
  {
    forall i :: 0 <= i < |s| ==> !IsCssStop(s[i])
  }

  predicate NoBareStop(s: string)
  {
    forall i :: 0 <= i < |s| ==> !IsBareStop(s[i])
  }

  lemma {:induction false} SpaceRunOver(ws: string, rest: string)
    requires AllSpace(ws)
    ensures SpaceRun(ws + rest) == |ws| + SpaceRun(rest)
  {
    if ws != [] {
      assert (ws + rest)[1..] == ws[1..] + rest;
      SpaceRunOver(ws[1..], rest);
    } else {
      assert ws + rest == rest;
    }
  }

  lemma SpaceRunStops(ws: string, rest: string)
    requires AllSpace(ws) && (rest == [] || !IsSpace(rest[0]))
    ensures SpaceRun(ws + rest) == |ws|
  {
    SpaceRunOver(ws, rest);
  }

  lemma {:induction false} NoQuoteRunOver(x: string, rest: string)
    requires NoQuote(x)
    ensures NoQuoteRun(x + rest) == |x| + NoQuoteRun(rest)
  {
    if x != [] {
      assert (x + rest)[1..] == x[1..] + rest;
      NoQuoteRunOver(x[1..], rest);
    } else {
      assert x + rest == rest;
    }
  }

  lemma {:induction false} CssRunOver(x: string, rest: string)
    requires NoCssStop(x)
    ensures CssRun(x + rest) == |x| + CssRun(rest)
  {
    if x != [] {
      assert (x + rest)[1..] == x[1..] + rest;
      CssRunOver(x[1..], rest);
    } else {
      assert x + rest == rest;
    }
  }

  lemma {:induction false} BareRunOver(x: string, rest: string)
    requires NoBareStop(x)
    ensures BareRun(x + rest) == |x| + BareRun(rest)
  {
    if x != [] {
      assert (x + rest)[1..] == x[1..] + rest;
      BareRunOver(x[1..], rest);
    } else {
      assert x + rest == rest;
    }
  }

  /** A case-insensitive prefix test only looks at the prefix. */
  lemma StartsWithCIPrefix(a: string, b: string, p: string)
    requires |p| <= |a|
    ensures StartsWithCI(a + b, p) <==> StartsWithCI(a, p)
  {
    assert forall i :: 0 <= i < |p| ==> (a + b)[i] == a[i];
  }

  lemma StartsWithPrefix(a: string, b: string, p: string)
    requires |p| <= |a|
    ensures StartsWith(a + b, p) <==> StartsWith(a, p)
  {
    assert (a + b)[..|p|] == a[..|p|];
  }

  /** Text written in lower case matches its own lower-case spelling. */
  lemma LowerMatches(attr: string, name: string, rest: string)
    requires LowerStr(attr) == name
    ensures StartsWithCI(attr + rest, name)
  {
    forall i | 0 <= i < |name| ensures Lower((attr + rest)[i]) == Lower(name[i]) {
      assert (attr + rest)[i] == attr[i];
      assert name[i] == Lower(attr[i]);
    }
  }

  /** A run measured from `u` is `n` long when the `n` characters there are
      not stops and the next one is. */
  lemma CssRunAt(t: string, u: nat, n: nat)
    requires u + n < |t| && IsCssStop(t[u + n])
    requires forall i :: u <= i < u + n ==> !IsCssStop(t[i])
    ensures CssRun(t[u..]) == n
  {
  }

  lemma SpaceRunAt(t: string, u: nat, n: nat)
    requires u + n <= |t| && (u + n == |t| || !IsSpace(t[u + n]))
    requires forall i :: u <= i < u + n ==> IsSpace(t[i])
    ensures SpaceRun(t[u..]) == n
  {
  }

  lemma NoQuoteRunAt(t: string, u: nat, n: nat)
    requires u + n < |t| && IsQuote(t[u + n])
    requires forall i :: u <= i < u + n ==> !IsQuote(t[i])
    ensures NoQuoteRun(t[u..]) == n
  {
  }

  lemma BareRunAt(t: string, u: nat, n: nat)
    requires u + n <= |t| && (u + n == |t| || IsBareStop(t[u + n]))
    requires forall i :: u <= i < u + n ==> !IsBareStop(t[i])
    ensures BareRun(t[u..]) == n
  {
  }
}
