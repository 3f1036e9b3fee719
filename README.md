# bruumhost core, modelled in Dafny

bruumhost builds a static site from a GitHub repository and serves it from
an object store under the path `/<slug>/`. This project models four parts of
that system and proves properties about them.

- **The reverse proxy** (`reverse-proxy/index.ts`). It takes a request path
  and works out the project slug and the object key `__outputs/<slug>/<file>`.
  It fetches that object. A missing file other than `index.html` falls back
  to the project's `index.html`, for single-page routing. The proxy answers
  404, 200 or 500 with the matching cache policy.
  - HTML pages get a `<base href="/<slug>/">` tag. It replaces the first
    base tag, or goes after the first `<head…>`, or before `</head>`, or at
    the start of the page.
  - Then sixteen regex passes prefix root-relative and folder-relative
    references with `/<slug>/`: six fixed passes, then one for each of
    ten common asset folders.
  - Stylesheets get one `url()` pass.
  - Content types come from object metadata, or else from the file
    extension.
- **The repository-URL check of the deploy form**
  (`frontend/src/utils/validations.ts`, `isValidURL`).
- **The DNS zone update** (`api-server/services/dns.ts`, `createDNSRecord`).
  Each of the subdomain's `A` records is replaced by the new record, so k
  such records become k copies of it; if it has none, one is appended.
- **The expiry sweep** (`api-server/services/cleanup.ts`). Every
  `project:*` entry older than `TTL_HOURS` is removed. First, everything
  stored under its `__outputs/<slug>/` prefix is deleted.

How the model is built:

- **Regex passes.** Each `replace(/…/g, callback)` pass is modelled as a
  scanner that tries an anchored match at each position (`Rewrite.Step`)
  and then applies the callback (`Rewrite.Callback`). Per-reference lemmas
  state what one pass does to one reference, in context.
- **The handler.** It is a method (`Proxy.Handle`) over a store given as a
  function from key to reply. It is proved equal to the response function
  `Proxy.Respond`, and the lemmas are stated about `Proxy.Respond`.
- **The sweep.** It is a class whose fields are the project table and the
  bucket (`Cleanup.ProjectStore`). Its method is proved equal to the
  functional sweep `Cleanup.Sweep`, and the lemmas are stated about that
  function.

Modules: `Wrappers`, `Strings`, `Scan`, `Storage`, `Numbers`, `Rewrite`,
`AttrRefs`, `CssRefs`, `SrcsetRefs` (file `Srcset.dfy`), `BaseTag`,
`BaseRefs`, `Stable` (second runs and copied stretches), `ContentType`,
`Proxy`, `Validation`, `Dns`, `Cleanup`.

## Model

| member | source | states |
|---|---|---|
| Rewrite.RewriteHtml | reverse-proxy/index.ts:61-230 | the page after reassigning it pass by pass: the six fixed rules in source order, then one rule per common folder |
| Rewrite.ApplyRulesStep | reverse-proxy/index.ts:86-209 | a definition unfolding of `ApplyRules` at `rules[..n + 1]`: pass `n + 1` rewrites the output of the first `n` passes, as the successive reassignments of `modifiedHtml` do |
| Rewrite.HtmlRules | reverse-proxy/index.ts:197-199 | there are six fixed passes plus one pass for each of the ten common folders |
| Rewrite.RewriteCandidates | reverse-proxy/index.ts:125-143 | the `srcset` callback maps each comma piece to its rewritten candidate, keeping count and order |
| Rewrite.Assign | reverse-proxy/index.ts:86 | `name\s*=\s*` matches only where the text starts with the name in any case, and ends after the `=` |
| Rewrite.NoQuoteRun | reverse-proxy/index.ts:86 | `[^"']*` takes the longest quote-free prefix and stops at a quote |
| Rewrite.BareRun | reverse-proxy/index.ts:109 | `[^\s>]*` takes the longest prefix without white space or `>` |
| Rewrite.CssRun | reverse-proxy/index.ts:39 | `[^"')]*` takes the longest prefix without a quote or `)` |
| Rewrite.ReplaceAll | reverse-proxy/index.ts:86-209 | the global `replace(regex, callback)`: its behaviour on a reference is stated by the per-reference lemmas (AttrRefs.Rewritten, the `…Rewritten` and `…Stable` lemmas) and on match-free text by Stable.CopiedPrefix |
| Rewrite.Callback | reverse-proxy/index.ts:86-209 | the callbacks of the passes; what each writes is stated by CssRefs.UrlRewritten, CssRefs.UrlOutIsRef and the `…Rewritten` lemmas |
| Rewrite.RewriteCandidate | reverse-proxy/index.ts:125-142 | the `srcset` candidate callback; stated by SrcsetRefs.BareCandidate, DescribedCandidate, TrimmedFirst and CandidateTwice |
| Rewrite.SrcsetValue | reverse-proxy/index.ts:124-145 | the value callback of the `srcset` pass; stated by SrcsetRefs.Candidates, SingleCandidate and ValueTwice |
| Rewrite.ApplyRules | reverse-proxy/index.ts:86-209 | the passes applied in order, each to the previous one's output; stated by Rewrite.ApplyRulesStep and Rewrite.RewriteHtml |
| Rewrite.RewriteCss | reverse-proxy/index.ts:34-58 | `replaceAbsoluteUrlsInCSS`: one `url()` pass over the stylesheet; stated by CssRefs.CssRefRewritten and CssRefs.CssRefStable |
| Rewrite.Step | reverse-proxy/index.ts:86-209 | a match at the start of the text is non-empty and lies within the text, so the global replace makes progress |
| AttrRefs.QuotedRootRewritten | reverse-proxy/index.ts:86-103 | `href`/`src` (also `data-src`/`data-href`, lines 161-171) `= "/x"` in any case, with white space around `=`: becomes `attr=<q>/<slug>/x<q>`, keeping both quotes; it is left as it was when `x` starts with `<slug>/` or a scheme; the rest of the text is rewritten independently |
| AttrRefs.UnquotedRootRewritten | reverse-proxy/index.ts:109-121 | an unquoted `href=/x` (path up to white space, `>` or the end) becomes `href="/<slug>/x"` unless it is under `<slug>/` or is a scheme |
| AttrRefs.AssetsRewritten | reverse-proxy/index.ts:179-191 | a quoted `href`/`src`/`data-src` value starting with `assets/` gains `/<slug>/` unless it starts with `http` or `//` |
| AttrRefs.FolderRewritten | reverse-proxy/index.ts:197-209 | a value starting with `<folder>/`, with the opening quote closing it, gains `/<slug>/` unless it starts with `http`, `//` or `<slug>/` |
| AttrRefs.QuotedRootStable | reverse-proxy/index.ts:86-103 | a reference the first pass wrote is left alone when the pass runs again (slug without quotes) |
| AttrRefs.Rewritten | reverse-proxy/index.ts:86-103 | the global replace substitutes a match at the start by its callback's value and continues after the match |
| AttrRefs.AttrStepAt | reverse-proxy/index.ts:86 | the `href`/`src` alternation settles on the first name that matches |
| AttrRefs.AssignAt | reverse-proxy/index.ts:86 | `\s*=\s*` consumes exactly the white space around `=` before a quote or `/` |
| AttrRefs.RootQuotedAt | reverse-proxy/index.ts:86 | the quoted value `<q1>/x<q2>` is captured with its open quote, path and close quote |
| AttrRefs.RootUnquotedAt | reverse-proxy/index.ts:109 | the unquoted value `/x` is captured up to the first white space or `>` |
| AttrRefs.FolderAt | reverse-proxy/index.ts:199 | the folder value is captured after the quote; for folder passes the closing quote must equal the opening one |
| AttrRefs.UnderSlug | reverse-proxy/index.ts:92 | a path written under the slug starts with `<slug>/` and stays quote-free |
| CssRefs.CssRefRewritten | reverse-proxy/index.ts:34-58 | in a stylesheet, `url(<q>/x<q>)` becomes `url(<q>/<slug>/x<q>)` unless `x` is under `<slug>/` or a scheme, and the rest is rewritten on its own |
| CssRefs.LooseCssRefRewritten | reverse-proxy/index.ts:148-158 | inside HTML, `url(` in any case with white space inside the parentheses is rewritten the same way, written back as lower-case `url(` without the white space |
| CssRefs.UrlRewritten | reverse-proxy/index.ts:39-51 | a `url()` match is replaced by the reference as it was or by the reference under `<slug>/` |
| CssRefs.UrlOutIsRef | reverse-proxy/index.ts:50 | the callback's output is a `url()` reference whose path is `<slug>/x` |
| CssRefs.CssRefStable | reverse-proxy/index.ts:34-58 | a `url()` reference the stylesheet pass wrote is left alone when the pass runs again (slug and path without quotes or `)`) |
| CssRefs.LooseCssRefStable | reverse-proxy/index.ts:148-158 | the same for the `url()` pass over HTML |
| CssRefs.StepForm | reverse-proxy/index.ts:39 | after `url(` the optional quote decides between the quoted and the bare form |
| SrcsetRefs.BareCandidate | reverse-proxy/index.ts:125-142 | a candidate `/x` becomes `/<slug>/x` unless it is already under `/<slug>/` |
| SrcsetRefs.DescribedCandidate | reverse-proxy/index.ts:125-142 | a candidate `/x` followed by any number of descriptor tokens, each after a run of white space, becomes `/<slug>/x` followed by all its descriptors re-joined with single spaces, unless it is already under `/<slug>/` (then it is kept as written) |
| SrcsetRefs.SpacedSplit | reverse-proxy/index.ts:128 | `split(/\s+/)` of a URL followed by space-separated tokens gives back the URL and exactly those tokens, in order |
| SrcsetRefs.TrimmedFirst | reverse-proxy/index.ts:126 | a candidate is trimmed before it is examined, so surrounding white space never changes the result |
| SrcsetRefs.Candidates | reverse-proxy/index.ts:124-145 | a value made of any number of comma-free candidates joined by `,` becomes the candidates, each rewritten on its own, joined with `", "` in the same order |
| SrcsetRefs.SplitJoin | reverse-proxy/index.ts:125 | `split(',')` of comma-free pieces joined by `,` gives back exactly those pieces |
| SrcsetRefs.SrcsetRewritten | reverse-proxy/index.ts:124-145 | the `srcset` pass turns `srcset\s*=\s*<q>v<q>` (name in any case) into lower-case `srcset=<q>` + the rewritten value + `<q>`, and rewrites the rest of the text on its own |
| SrcsetRefs.CandidateTwice | reverse-proxy/index.ts:125-142 | rewriting a candidate a second time changes nothing (slug without white space) |
| SrcsetRefs.ValueTwice | reverse-proxy/index.ts:124-145 | rewriting a whole `srcset` value a second time changes nothing (slug without white space or commas) |
| SrcsetRefs.SrcsetStable | reverse-proxy/index.ts:124-145 | an attribute the `srcset` pass wrote is left alone when the pass runs again (slug without quotes, commas or white space) |
| SrcsetRefs.SingleCandidate | reverse-proxy/index.ts:125 | a value with no comma is a single candidate |
| SrcsetRefs.RootNoScheme | reverse-proxy/index.ts:131-135 | a URL starting with `/` never passes the scheme test, so that branch of the callback is never taken |
| SrcsetRefs.PairSplit | reverse-proxy/index.ts:128 | `u d` splits on white space into the URL and its descriptor |
| SrcsetRefs.TrimTwice | reverse-proxy/index.ts:126 | trimming is idempotent |
| BaseTag.InjectBaseTag | reverse-proxy/index.ts:373-400 | the base-tag step reassigns the page to the placement function's result, string replacements with their `$` patterns included |
| BaseTag.WithBase | reverse-proxy/index.ts:374-400 | after injection the page contains `<base href="/<slug>/">` whenever the slug has no `$`; the replacement and `</head>` branches expand `$` patterns as `String.prototype.replace` does |
| BaseTag.Substitute | reverse-proxy/index.ts:380 | the expansion of a replacement string: `$$`, `$&`, `` $` `` and `$'`; any other `$` stays; its properties are stated by BaseTag.Literal and BaseTag.DollarDollar |
| BaseTag.Literal | reverse-proxy/index.ts:380 | a replacement string without `$` is inserted literally |
| BaseTag.DollarDollar | reverse-proxy/index.ts:392 | `$$` in a replacement string is written as a single `$` |
| BaseTag.DollarSlug | reverse-proxy/index.ts:377-380 | for the slug `a$$b`, replacing an existing base tag writes `<base href="/a$b/">`, which is not the tag for `a$$b` |
| BaseTag.ReplacedContains | reverse-proxy/index.ts:380 | a `$`-free tag replacing a match leaves the tag in the page |
| BaseTag.InsertedContains | reverse-proxy/index.ts:392 | a `$`-free tag inserted before `</head>` leaves the tag in the page |
| BaseTag.PlacementOf | reverse-proxy/index.ts:377-398 | an existing base tag is replaced when the base regex matches; otherwise the tag goes after the first `<head…>` match; otherwise before the first `</head>`; otherwise at the start, and only when there is no `</head>` |
| BaseTag.KeepsPrefix | reverse-proxy/index.ts:374-400 | nothing before the insertion point changes; a prepended tag keeps the whole page after it |
| BaseTag.FindBase | reverse-proxy/index.ts:377-380 | a reported base match is a match of the base regex at that position |
| BaseTag.FindBaseLeftmost | reverse-proxy/index.ts:377-380 | the base match replaced is the leftmost one |
| BaseTag.FindBaseNone | reverse-proxy/index.ts:377-378 | when no base match is found, the regex matches nowhere |
| BaseTag.BaseAtViable | reverse-proxy/index.ts:377 | a base match is `<base`, white space, no `>` before `href`, then `href\s*=\s*` and a quoted value ending at `>` |
| BaseTag.BaseAtLargest | reverse-proxy/index.ts:377 | backtracking the greedy `[^>]*` picks the last viable `href` |
| BaseTag.BaseAtNone | reverse-proxy/index.ts:377 | with no match at a position, no `href` there is viable |
| BaseTag.LastTailLargest | reverse-proxy/index.ts:377 | the backtracking search skips no viable `href` position |
| BaseTag.HrefTail | reverse-proxy/index.ts:377 | the part of the regex after `href` ends at a `>` |
| BaseTag.HeadAt | reverse-proxy/index.ts:384 | `<head[^>]*>` matches `<head` in any case up to the first `>` after it (so `<header>` matches too) |
| BaseTag.FindHead | reverse-proxy/index.ts:384-387 | a reported head match is a match at that position |
| BaseTag.FindHeadLeftmost | reverse-proxy/index.ts:384-387 | the head match used is the leftmost one |
| BaseTag.FindHeadNone | reverse-proxy/index.ts:384-385 | when no head match is found, the regex matches nowhere |
| BaseTag.Search | reverse-proxy/index.ts:378-380 | a regex search reports a position where the matcher succeeds, with what it matched |
| BaseTag.SearchLeftmost | reverse-proxy/index.ts:378-380 | no earlier position matches |
| BaseTag.SearchNone | reverse-proxy/index.ts:378 | a failed search means no position matches |
| BaseTag.SkipSpaces | reverse-proxy/index.ts:377 | `\s*` stops at the first character that is not white space |
| BaseTag.SkipToQuote | reverse-proxy/index.ts:377 | `[^"']*` stops at the first quote |
| BaseTag.SkipToGt | reverse-proxy/index.ts:377 | `[^>]*` stops at the first `>` |
| Stable.CopiedPrefix | reverse-proxy/index.ts:86-209 | a prefix at none of whose positions the pass matches is copied as it is, and the pass continues after it; this places every per-reference lemma anywhere in a page |
| Stable.UnquotedStable | reverse-proxy/index.ts:109-121 | the quoted attribute the unquoted pass wrote is left alone when that pass runs again (slug and path without `=`) |
| Stable.AssetsStable | reverse-proxy/index.ts:179-191 | an attribute the `assets/` pass wrote is left alone when that pass runs again (slug and path without `=`) |
| Stable.FolderStable | reverse-proxy/index.ts:197-209 | an attribute a common-folder pass wrote is left alone when that pass runs again (slug and path without `=`) |
| Stable.UnquotedNotIdempotent | reverse-proxy/index.ts:109-121 | the unquoted pass run again over its own output is not a no-op: `src=/a'href=/b` becomes `src="/s/a'href=/b"`, and the second run rewrites the `href=/b"` inside that value |
| BaseRefs.TagSurvives | reverse-proxy/index.ts:86-98 | the first rewrite pass keeps the injected base tag (slug without quotes): its `href` is already under the slug, so the callback returns it as it is |
| BaseRefs.TagPass | reverse-proxy/index.ts:109-209 | each of the fifteen later passes finds no match inside the base tag (slug without `=` or `(`), so it copies the tag and goes on after it |
| BaseRefs.TagKept | reverse-proxy/index.ts:374-408 | all sixteen passes together leave a base tag at the head of the text unchanged, and rewrite what follows it as they would on its own (slug without quotes, `=` or `(`) |
| BaseRefs.NoName | reverse-proxy/index.ts:86 | no attribute name means no match at that position |
| BaseRefs.OpeningCopied | reverse-proxy/index.ts:86 | the `<base ` opening is copied unchanged by the first pass |
| ContentType.TypeOf | reverse-proxy/index.ts:233-254 | the type of `<name>.<ext>` is the table entry for lower-cased `ext`, or `application/octet-stream` |
| ContentType.GetContentType | reverse-proxy/index.ts:233-254 | `getContentType`; stated by ContentType.TypeOf, HtmlOnly, CssOnly and CaseInsensitive |
| ContentType.Extension | reverse-proxy/index.ts:234 | the extension is the longest dot-free suffix, preceded by `.` when shorter than the path |
| ContentType.ExtensionOf | reverse-proxy/index.ts:234 | the extension of `<name>.<ext>` is `ext` |
| ContentType.ExtensionNoDot | reverse-proxy/index.ts:234 | a path with no `.` is its own extension |
| ContentType.CaseInsensitive | reverse-proxy/index.ts:234 | the lookup ignores the extension's case |
| ContentType.HtmlOnly | reverse-proxy/index.ts:233-254 | the type is `text/html` exactly when the extension is `html` in any case |
| ContentType.CssOnly | reverse-proxy/index.ts:233-254 | the type is `text/css` exactly when the extension is `css` in any case |
| ContentType.HtmlKey | reverse-proxy/index.ts:235-252 | `html` is the only key of the table whose type is `text/html` |
| ContentType.CssKey | reverse-proxy/index.ts:235-252 | `css` is the only key of the table whose type is `text/css` |
| ContentType.IndexIsHtml | reverse-proxy/index.ts:233-254 | `/index.html` is served as `text/html` |
| ContentType.LowerKeepsDots | reverse-proxy/index.ts:234 | lower-casing neither adds nor removes dots |
| Proxy.Handle | reverse-proxy/index.ts:300-521 | the handler's response equals the response function's |
| Proxy.Respond | reverse-proxy/index.ts:300-521 | the response to a request; stated by Proxy.StatusCodes, ServerErrorIff, FallbackPage and DirectFile, and Proxy.Handle is proved equal to it |
| Proxy.Resolve | reverse-proxy/index.ts:306-351 | the route of a request path; stated by Proxy.ResolveCases and TrailingSlashSameRoute |
| Proxy.RouteOf | reverse-proxy/index.ts:323-351 | the route of the path segments; stated by Proxy.ResolveCases and FilePathShape |
| Proxy.ContentTypeOf | reverse-proxy/index.ts:262-269 | the metadata `content-type`, then `Content-Type`, then the extension's type; stated by Proxy.Fetch and Proxy.TypeFromName |
| Proxy.IsNotFound | reverse-proxy/index.ts:276 | a `NotFound` code or a message with "does not exist"; stated by Proxy.Fetch and Proxy.ServerErrorIff |
| Proxy.Served | reverse-proxy/index.ts:366-448 | the body served for a found file: HTML gets the base tag and the passes, CSS the `url()` pass, anything else unchanged; stated by Proxy.DirectFile |
| Proxy.NormalizePath | reverse-proxy/index.ts:306-323 | the normalised path starts with `/`, has no `?`, and has the same segments as the request path before its query |
| Proxy.BeforeQuery | reverse-proxy/index.ts:309 | the part before the query is a `?`-free prefix ending at the first `?` |
| Proxy.BeforeQueryIsSplit | reverse-proxy/index.ts:309 | it is the first piece of `split('?')` |
| Proxy.NonEmpty | reverse-proxy/index.ts:323 | `filter(Boolean)` keeps only non-empty pieces, drawn from the input |
| Proxy.LeadingSlash | reverse-proxy/index.ts:312-314 | a leading `/` does not change the segments |
| Proxy.TrailingSlash | reverse-proxy/index.ts:319-321 | a trailing `/` does not change the segments |
| Proxy.TrailingSlashSameRoute | reverse-proxy/index.ts:319-321 | `/<slug>` and `/<slug>/` resolve to the same route |
| Proxy.SplitTrailing | reverse-proxy/index.ts:323 | splitting `s + c` on `c` adds one empty piece at the end |
| Proxy.NonEmptyTrailing | reverse-proxy/index.ts:323 | the filter drops a trailing empty piece |
| Proxy.SegmentChars | reverse-proxy/index.ts:323 | segments are non-empty, contain no `/`, and use only characters of the path |
| Proxy.PieceChars | reverse-proxy/index.ts:323 | every character of a split piece occurs in the split text |
| Proxy.JoinSlashed | reverse-proxy/index.ts:347 | `'/' + parts.join('/')` is the parts each preceded by `/` |
| Proxy.SlashedShape | reverse-proxy/index.ts:346-348 | the file path built from segments starts with `/`, does not end with `/`, and has no `//` or `?` |
| Proxy.FilePathShape | reverse-proxy/index.ts:346-350 | the file path is `/index.html` for a bare slug and otherwise the remaining segments; cleaning it changes nothing |
| Proxy.CollapseSlashes | reverse-proxy/index.ts:351 | `replace(/\/+/g, '/')` leaves no `//`, never lengthens the text and keeps its first character |
| Proxy.CollapseNoop | reverse-proxy/index.ts:351 | collapsing a text without `//` changes nothing |
| Proxy.NoDoubleSlashJoin | reverse-proxy/index.ts:351 | joining texts without `//` creates one only at a `/`–`/` seam |
| Proxy.KeyShape | reverse-proxy/index.ts:351 | the object name is `__outputs/<slug>/` followed by the file path without its leading `/` |
| Proxy.ResolveCases | reverse-proxy/index.ts:323-351 | no segments give no project; a known asset folder as first segment (any case) gives the asset 404; otherwise the slug is the first segment, the file path is `/index.html` or the rest, and the key lies under the slug's prefix |
| Proxy.KeyUnderPrefix | reverse-proxy/index.ts:351-455 | both keys read for a project, the file and the fallback, lie under `__outputs/<slug>/` |
| Proxy.Fetch | reverse-proxy/index.ts:256-281 | a stored object is a file with its body; a not-found error is `null`; any other error is rethrown |
| Proxy.TypeFromName | reverse-proxy/index.ts:264-268 | an object without metadata is typed by its name |
| Proxy.StatusCodes | reverse-proxy/index.ts:300-520 | the status is 200, 404 or 500, and exactly the 200 responses set `Content-Type` and `Cache-Control` |
| Proxy.ServerErrorIff | reverse-proxy/index.ts:355-520 | a 500 happens exactly when the file fetch fails with another error, or when the file is missing, is not `/index.html`, and the fallback fetch fails |
| Proxy.FallbackPage | reverse-proxy/index.ts:454-511 | the revalidating cache policy is used exactly for a missing non-index file whose project has an `index.html`, and the body is that page with the base tag and rewrites |
| Proxy.DirectFile | reverse-proxy/index.ts:359-448 | a found file is served with status 200, the immutable cache policy and its content type; an HTML body becomes the page with the base tag and all passes, a CSS body goes through the `url()` pass, and anything else is passed through unchanged |
| Storage.OutputPrefix | api-server/services/cleanup.ts:51 | `__outputs/<slug>/` starts with the outputs root and ends with `/` |
| Storage.PrefixesDisjoint | api-server/services/cleanup.ts:51 | distinct slugs without `/` own disjoint prefixes |
| Strings.IndexOf | reverse-proxy/index.ts:391-392 | `indexOf` gives the first occurrence, and -1 exactly when there is none |
| Strings.SplitOn | reverse-proxy/index.ts:323 | `split(c)` gives at least one piece and no piece contains `c` |
| Strings.SplitAt | reverse-proxy/index.ts:125 | `split(c)` cuts at the first `c` and splits the rest |
| Strings.SplitSpaces | reverse-proxy/index.ts:128 | `split(/\s+/)` gives at least one piece, each free of white space |
| Strings.TrimEnd | reverse-proxy/index.ts:126 | the trailing-space trim removes exactly the trailing white space |
| Strings.LowerStr | reverse-proxy/index.ts:234 | `toLowerCase` keeps the length and lower-cases each character |
| Validation.ValidIff | frontend/src/utils/validations.ts:1-6 | `isValidURL(s)` holds exactly when `s` is an optional `http://` or `https://`, an optional `www.`, `github.com/`, two non-empty `/`-free segments and an optional `/` |
| Validation.IsValidURL | frontend/src/utils/validations.ts:1-6 | `isValidURL`; stated by Validation.ValidIff and the accept and reject lemmas below |
| Validation.GuardRedundant | frontend/src/utils/validations.ts:2 | the empty-string guard never changes the answer |
| Validation.RenderParse | frontend/src/utils/validations.ts:4 | whatever the regex accepts is exactly the rendering of its parse |
| Validation.ParseRender | frontend/src/utils/validations.ts:4 | parsing an accepted URL gives back its pieces |
| Validation.Parse | frontend/src/utils/validations.ts:4 | every parse is well formed |
| Validation.ParsePath | frontend/src/utils/validations.ts:4 | owner and repository are both non-empty `/`-free segments |
| Validation.ParsePathText | frontend/src/utils/validations.ts:4 | the path scanner reads back every owner/repository pair |
| Validation.PathTextParse | frontend/src/utils/validations.ts:4 | the path scanner accepts only exact owner/repository text |
| Validation.SchemeOf | frontend/src/utils/validations.ts:4 | the recognised scheme is a prefix of the text |
| Validation.HostIsGithub | frontend/src/__test__/validation.test.ts:31 | only `github.com` and `www.github.com` hosts are accepted |
| Validation.ValidText | frontend/src/utils/validations.ts:4 | whatever the scheme and `www.`, the verdict is the path scanner's |
| Validation.Accepts | frontend/src/utils/validations.ts:4 | every well-formed GitHub URL is accepted |
| Validation.AcceptsHttps | frontend/src/__test__/validation.test.ts:7 | `https://github.com/user/repo` is accepted |
| Validation.AcceptsWww | frontend/src/__test__/validation.test.ts:11 | `https://www.github.com/user/repo` is accepted |
| Validation.AcceptsTrailingSlash | frontend/src/__test__/validation.test.ts:15 | `https://github.com/user/repo/` is accepted |
| Validation.AcceptsAnyNames | frontend/src/__test__/validation.test.ts:19 | any `/`-free owner and repository names, hyphens included, are accepted |
| Validation.SchemelessAccepted | frontend/src/utils/validations.ts:4 | `github.com/user/repo` is accepted, because the scheme group is optional |
| Validation.RejectsEmpty | frontend/src/__test__/validation.test.ts:35 | the empty string is rejected |
| Validation.RejectsOneSegment | frontend/src/__test__/validation.test.ts:27 | a path with one segment is rejected, with or without scheme, `www.` or trailing `/` |
| Validation.RejectsExtraSegment | frontend/src/__test__/validation.test.ts:39 | a third path segment is rejected |
| Validation.RejectsBareHost | frontend/src/__test__/validation.test.ts:40 | `github.com` is rejected |
| Validation.RejectsHostOnly | frontend/src/__test__/validation.test.ts:41 | `https://github.com` is rejected |
| Dns.Find | api-server/services/dns.ts:28-30 | `find` succeeds exactly when an `A` record with the subdomain's name exists, and returns the first one |
| Dns.Upsert | api-server/services/dns.ts:27-63 | `overwrite` is set exactly when a same-name `A` record exists; an overwrite keeps the zone's length, and otherwise the new record is appended to the old zone |
| Dns.ReplaceMatches | api-server/services/dns.ts:33-44 | `map` replaces every matching record by the new `A` record, in place, and keeps every other record |
| Dns.OverwriteIff | api-server/services/dns.ts:32-64 | `overwrite` is true exactly when a matching record exists |
| Dns.ReplaceCase | api-server/services/dns.ts:32-49 | with a match, the zone keeps its length and order; matches are replaced and nothing else changes |
| Dns.AppendCase | api-server/services/dns.ts:50-63 | without a match, the old zone is sent followed by the new record |
| Dns.PointsToAddress | api-server/services/dns.ts:25-64 | afterwards the subdomain has at least one `A` record, and every one is the new record |
| Dns.UpsertTwice | api-server/services/dns.ts:25-64 | repeating the update is an overwrite that changes nothing more |
| Dns.OthersUnchanged | api-server/services/dns.ts:33-44 | records with other names stay in place |
| Dns.OtherTypeKept | api-server/services/dns.ts:28-30 | a same-name record of another type is kept |
| Dns.TtlOrDefault | api-server/services/dns.ts:25 | an omitted ttl is 3600 |
| Dns.ZoneOrEmpty | api-server/services/dns.ts:71 | a missing response body reads as an empty zone |
| Dns.CreateDnsRecord | api-server/services/dns.ts:25-63 | as written: the update is sent to a path that is not the zone that was read, and `overwrite` is set exactly when the zone read has a same-name `A` record |
| Dns.CreateDnsRecordCorrected | api-server/services/dns.ts:25-63 | corrected: the same update, sent to the path the zone was read from (line 69) |
| Dns.FirstRecord | api-server/services/dns.ts:50-63 | as written: on a missing zone with no ttl given, one record with ttl 3600 is appended and sent to `/api/dns/v1/zones<domain>` |
| Dns.FirstRecordCorrected | api-server/services/dns.ts:50-63 | corrected: the same first record, sent to `/api/dns/v1/zones/<domain>` |
| Dns.WritePath | api-server/services/dns.ts:69 | a definition unfolding: the corrected update path is, by definition, the zone path that was read |
| Dns.WritePathAsWrittenMisses | api-server/services/dns.ts:46 | the update path as written is never the zone path that was read |
| Dns.WritePathAsWrittenDefault | api-server/services/dns.ts:60 | for the default domain, the update goes to `/api/dns/v1/zonesleobrum.run` |
| Cleanup.ProjectStore.CleanupExpiredProjects | api-server/services/cleanup.ts:30-48 | the loop over the keys leaves the table and the bucket as the sweep function says, and reports whether it ran to the end |
| Cleanup.ProjectStore.DeleteMinIOFiles | api-server/services/cleanup.ts:50-65 | the bucket loses the objects under the slug's prefix, with one delete request when any were listed |
| Cleanup.Sweep | api-server/services/cleanup.ts:30-48 | the sweep over the keys as a function; stated by Cleanup.CompletedIff, SweepTable and SweepBucket, and CleanupExpiredProjects is proved equal to it |
| Cleanup.Step | api-server/services/cleanup.ts:36-46 | one iteration of the sweep; stated by Cleanup.StepLookup |
| Cleanup.Expired | api-server/services/cleanup.ts:41 | a project expires when created before the cutoff; stated by Cleanup.DefaultExpiry and NaNTtlKeepsAll |
| Cleanup.TtlHours | api-server/services/cleanup.ts:11 | `parseInt` of `TTL_HOURS`, or of `'24'` when it is unset or empty; stated by Cleanup.DefaultTtl and NumericTtl |
| Cleanup.Purge | api-server/services/cleanup.ts:50-65 | exactly the objects under `__outputs/<slug>/` go; the table is untouched; a delete request is counted only for a non-empty listing |
| Cleanup.Under | api-server/services/cleanup.ts:52-55 | the listing holds exactly the bucket's objects under the prefix |
| Cleanup.Cutoff | api-server/services/cleanup.ts:31-32 | the cutoff is `now` minus the TTL in milliseconds, and `NaN` when the TTL is `NaN` |
| Cleanup.CompletedIff | api-server/services/cleanup.ts:36-40 | the sweep runs to the end exactly when no swept value fails `JSON.parse` |
| Cleanup.SweepTable | api-server/services/cleanup.ts:36-46 | after a complete sweep, a key is gone exactly when it was swept and its project had expired |
| Cleanup.SweepBucket | api-server/services/cleanup.ts:41-45 | after a complete sweep, an object is gone exactly when it lay under an expired project's prefix |
| Cleanup.StepLookup | api-server/services/cleanup.ts:36-46 | one iteration removes at most the key it read |
| Cleanup.DoomedStep | api-server/services/cleanup.ts:41-44 | an object is doomed by the keys exactly when the first key dooms it or the remaining keys do |
| Cleanup.NoRequestWithoutObjects | api-server/services/cleanup.ts:57 | when no stored object lies under an expired prefix, no delete request is sent and the bucket is unchanged |
| Cleanup.NaNTtlKeepsAll | api-server/services/cleanup.ts:41 | with a `NaN` TTL nothing expires and a complete sweep changes nothing |
| Cleanup.OthersObjectsKept | api-server/services/cleanup.ts:51 | objects of a project that shares no slug with an expired swept project are kept |
| Cleanup.DefaultTtl | api-server/services/cleanup.ts:11 | an unset or empty `TTL_HOURS` means 24 hours |
| Cleanup.NumericTtl | api-server/services/cleanup.ts:11 | a decimal `TTL_HOURS` is read as that number |
| Cleanup.DefaultExpiry | api-server/services/cleanup.ts:30-41 | with the default setting, a project expires exactly when it was created more than 86 400 000 ms before `now` |
| Numbers.ParseDecimal | api-server/services/cleanup.ts:11 | `parseInt` reads a decimal numeral back, whatever non-digit follows |
| Numbers.ParsePlain | api-server/services/cleanup.ts:11 | text starting with a decimal digit (not `0x`) is read as its leading digit run |
| Numbers.NoDigits | api-server/services/cleanup.ts:11 | text with no digit is `NaN` |
| Numbers.ParseInt | api-server/services/cleanup.ts:11 | `parseInt` with radix 10; stated by Numbers.ParseDecimal, ParsePlain, NoDigits and DigitRun |
| Numbers.DecimalValue | api-server/services/cleanup.ts:11 | the numeral of `n` denotes `n` |
| Numbers.Decimal | api-server/services/cleanup.ts:11 | a numeral is a non-empty digit string without leading zeros |
| Numbers.DigitValue | api-server/services/cleanup.ts:11 | digits `0`–`9` are worth 0–9, and no digit is worth more than 35 |
| Numbers.DigitRun | api-server/services/cleanup.ts:11 | `parseInt` reads the longest run of digits of the radix |

## Left out

- I/O is not modelled: the Express server, MinIO streams, Redis, HTTP to the DNS API, `Date.now()`, `process.env`. The store is a function from key to reply; the clock and the environment are parameters; the Redis keys are a given sequence.
- The 500 "Error reading file" sent on a stream error is left out, as are the `data`/`end` events themselves: a page is read whole.
- `console.log`, the debug `fetch` calls and the replacement counters are left out: they do not change any response.
- `getPresignedUrl` is left out: the handler never calls it.
- `deleteDNSRecord` is a single HTTP call with no logic of its own.
- `getDNSRecords` throwing is not modelled.
- ListObjectsV2 returns at most 1000 keys per call. The model deletes every listed object in one request.
- Every failure of `redis.get`, `redis.del` or the S3 calls is left out. The only failure modelled is `JSON.parse` throwing, which ends the sweep.
- Cleanup.ProjectStore.CleanupExpiredProjects: a `createdAt` that is not a number, or is missing, is not modelled. `ProjectInfo.createdAt` is an integer.
- Regexes in general are not modelled. Each regex of the core is written out as a scanner that follows the regex's own backtracking for these patterns. JavaScript's `\s` is the fixed character list in `Strings.IsSpace`. The `i` flag folds ASCII letters only.
- ContentType.TypeOf: inherited object keys such as `constructor` are not modelled. In JavaScript, `contentTypes['constructor']` is a function, not `undefined`.
- Express's own decoding of `req.path` is not modelled: the model starts from the path string.
- Rewrite.RewriteHtml: the per-reference lemmas cover one pass each. The only statement about all sixteen passes together is BaseRefs.TagKept, for a base tag at the head of the text. No theorem says what the sixteen passes do to a reference in general, because later passes also see the output of earlier ones.
- BaseRefs.TagKept: stated for a tag at the head of the text and a slug without quotes, `=` or `(`. Text in front of the tag is not covered, since a match starting there could run into the tag. A slug is a path segment (reverse-proxy/index.ts:323-324), so it can hold those characters.
- BaseTag.WithBase: the page is promised to contain the tag only for slugs without `$`. `replace` with a replacement string expands `$` patterns (reverse-proxy/index.ts:380, 392, 477, 489), so a slug with `$` can lose or change the tag (BaseTag.DollarSlug).
- The second-run lemmas (AttrRefs.QuotedRootStable, Stable.UnquotedStable, Stable.AssetsStable, Stable.FolderStable, CssRefs.CssRefStable, CssRefs.LooseCssRefStable, SrcsetRefs.SrcsetStable) cover one pass run again on its own output, for slugs and paths without the characters named in their rows. A second run is not a no-op in general. The unquoted pass reads its value up to white space or `>`, quotes included (reverse-proxy/index.ts:109). So a path holding a quote and then `attr=/` gets its inner attribute rewritten on the second run (Stable.UnquotedNotIdempotent). For the same reason Stable.UnquotedStable needs a path without `=`. No theorem covers a second run of all sixteen passes on a whole page.
- Code and its test disagree on `github.com/user/repo`. `isValidURL` accepts it (Validation.SchemelessAccepted), while `frontend/src/__test__/validation.test.ts:23` expects `false`. The model follows the code.
- A root-relative `srcset` candidate can never reach the scheme branch of its callback (SrcsetRefs.RootNoScheme). The model keeps the branch as written.

## Findings

| source | as written | input that shows it | evidently intended | confidence | as-written member | corrected member |
|---|---|---|---|---|---|---|
| api-server/services/dns.ts:46 | the zone update `PUT`s to `` `/api/dns/v1/zones${DOMAIN}` `` with no `/` before the domain (also line 60) | `DOMAIN = "leobrum.run"` gives `/api/dns/v1/zonesleobrum.run`, while the zone was read from `/api/dns/v1/zones/leobrum.run` (line 69) | write to the zone that was read: `/api/dns/v1/zones/${DOMAIN}` | not executed | Dns.CreateDnsRecord (Dns.WritePathAsWrittenMisses, Dns.WritePathAsWrittenDefault, Dns.FirstRecord) | Dns.CreateDnsRecordCorrected (Dns.WritePath, Dns.FirstRecordCorrected) |
