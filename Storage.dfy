/** The object-store layout shared by the builder's uploads, the proxy's
    reads and the expiry sweep: every file of a project lives under
    `__outputs/<slug>/`. */
module Storage {
  import opened Strings

  const OutputsRoot := "__outputs/"

  /** `__outputs/<slug>/`. */
  function OutputPrefix(slug: string): (r: string)
    ensures StartsWith(r, OutputsRoot) && EndsWith(r, "/")
    ensures |r| == |OutputsRoot| + |slug| + 1
  {
    OutputsRoot + slug + "/"
  }

  /** Different slugs without `/` own disjoint parts of the store: no key
      lies under both prefixes. */
  lemma PrefixesDisjoint(a: string, b: string, key: string)
    requires '/' !in a && '/' !in b && a != b
    ensures !(StartsWith(key, OutputPrefix(a)) && StartsWith(key, OutputPrefix(b)))
  {
    if StartsWith(key, OutputPrefix(a)) && StartsWith(key, OutputPrefix(b)) {
      if |a| < |b| {
        SlashAfter(a);
        SlugOf(b);
      } else if |b| < |a| {
        SlashAfter(b);
        SlugOf(a);
      } else {
        SlugOf(a);
        SlugOf(b);
      }
    }
  }

  lemma SlashAfter(slug: string)
    ensures OutputPrefix(slug)[|OutputsRoot| + |slug|] == '/'
  {
  }

  lemma SlugOf(slug: string)
    ensures OutputPrefix(slug)[|OutputsRoot|..|OutputsRoot| + |slug|] == slug
  {
  }
}
