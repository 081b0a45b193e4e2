# webCrawler `update.js` in Dafny

A model of the core of the site mirroring crawler in `update.js`. The crawler starts at the
site root `/` and at a list of extra references. It follows the same-site links it finds in the
HTML pages and style sheets it downloads. It stores every document it fetches. Before a text
document is stored and scanned, its absolute links to the site are rewritten to root-relative ones.

The model covers:

- **`filterUrl`** (`UrlFilter.FilterUrl`). It turns a raw `href`/`src`/`url()` value into the
  absolute URL string the crawler fetches, or rejects it. The steps are:
  - append `index.html` to a reference without a file extension;
  - reject a query;
  - dispatch on the prefix (`http(s):`, `//`, `/`, `./` or `../`, a word character, anything else);
  - test the host with `new RegExp(host)`;
  - resolve `./` and `../` against the parent document's pathname.

  `UrlFilter.FormOf` names the branch a reference takes. `FilterExamples` proves what the
  function does with each legal and illegal form listed in its documentation, for any protocol,
  host and file name. Where that differs from the documentation, it is listed below.
- **`isBinFile` and `getFiletypeByLocalUrl`** (`Classify`). A URL is binary unless it ends in
  `/` or a text extension. The file type is the text after the last dot.
- **The rewrite of line 249** (`Rewrite.StripHost`). This is the global replace of
  `(https?:\/\/)?(host)?` by the empty string. The model describes a global replace with a
  pattern that may match the empty string (`Rewrite.ReplaceAll` over a `Scanner`). It shows
  which links the rewrite removes and which it leaves, and that it is not idempotent.
- **Link extraction** (`Extract`). These are the `exec` loops over
  `/(?:href|src|data-src)=(["'])(.*?)\1/g` and `/url\(['"]?([^'"\)]+)['"]?\)/g`. Each matcher
  has a round trip: a rendered attribute or `url()` is matched and gives back its value. Each
  matcher is also sound: every match is such a rendering. The loop (`Extract.Links`) yields
  only values of matches found in the text, in order.
- **The traversal of `recursion` and `run`** (`Crawler`), as a sequential worklist.
  - A work item is a reference together with the pathname of the document it was found in.
  - A reference is filtered, then admitted only when its URL is not yet visited (lines 206-209).
  - It is then fetched, and its document's links are queued.
  - `Crawler.Crawl` proves three things:
    - each URL is fetched at most once;
    - the visited set holds the seeds' targets and is closed under the links of its documents;
    - it is the least such set.
  - `Crawler.Run` instantiates this for a site, given as a map from URL to body, and for the
    configured protocol, host and extra URLs.

The JavaScript strings and regular expressions used are modelled in `JsString`: `\w`, the line
terminators `.` does not match, `RegExp.test` for a host pattern, `split`, `join` and
`slice(0, end)` with a negative end.

### Where the behaviour differs from the function's documentation

- The host test (lines 150 and 156) is an unanchored regular-expression match over the whole
  reference. It is not a comparison of host names. So:
  - `//nothost/example.html` is accepted for the host `host`, although the comment at line 129
    lists it as illegal (`FilterExamples.SubstringHostAccepted`);
  - a link to another server whose path mentions the host is kept
    (`FilterExamples.HostInPathAccepted`);
  - each `.` in the host matches any character other than a line terminator
    (`FilterExamples.DotInHostIsWildcard`).
- The rewrite of line 249 drops `http://` and `https://` in front of every host, not only in
  front of the crawled one (`Rewrite.StripSchemeOfOtherHost`). It also drops bare occurrences
  of the host anywhere in the text (`Rewrite.StripBareHost`).
- Some `./` and `../` references resolve to a path that starts with `//`
  (`FilterExamples.RootParentDoubleSlash`). This happens for `./x` in a page directly under the
  root, and for `../x` in a page one directory down. The model keeps the string the code builds.
  What `new URL` then makes of it is outside the model.

## Model

| member | source | states |
|---|---|---|
| JsString.RegExpTest | update.js:150 | a host test that succeeds needs a text at least as long as the host; the empty host matches every text |
| JsString.RegExpTestIffOccurs | update.js:150 | `new RegExp(host).test(s)` holds exactly when the host pattern matches at some index of `s` |
| JsString.LiteralPattern | update.js:150 | a host without `.` matches at the start of a text exactly when the text starts with the host |
| JsString.DotWildcard | update.js:150 | a `.` in the host matches any character other than a line terminator |
| JsString.RegExpTestPrefixed | update.js:150 | a text that passes the host test still passes it with anything put in front |
| JsString.RegExpTestSuffixed | update.js:150 | a text that passes the host test still passes it with anything appended |
| JsString.RegExpTestMiddle | update.js:150 | every text that contains the host literally passes the host test |
| JsString.Split | update.js:112 | `split(c)` gives one more piece than there are occurrences of `c` |
| JsString.Join | update.js:169 | the join is at least as long as all the pieces together |
| JsString.JoinLength | update.js:169 | the join is exactly the pieces plus one separator between each two |
| JsString.SliceTo | update.js:169-171 | `slice(0, end)` is a prefix: `end` items for `0 <= end <= length`, all of them past the end, `length + end` for a negative `end`, none below `-length` |
| JsString.SplitPiecesAvoid | update.js:112 | no piece of `split(c)` contains `c` |
| JsString.JoinSplit | update.js:112 | joining the pieces of `split(c)` with `c` gives the string back |
| JsString.SplitLastPiece | update.js:112-113 | the last piece of `split(c)` is a suffix of the string; it is the whole string or is preceded by `c` |
| JsString.SplitJoin | update.js:167 | splitting a join of `c`-free pieces gives back the pieces |
| JsString.JoinKeepsPieceChars | update.js:169 | every character of a piece appears in the join |
| JsString.JoinAvoids | update.js:169 | a character that is in no piece and not in the separator is not in the join |
| Classify.IsBinFile | update.js:101-104 | a URL is text exactly when it ends in `/` or has a dot and a text extension as its file type |
| Classify.FileType | update.js:111-114 | the file type has no dot and is a suffix of the URL; it is the whole URL or follows a dot |
| Classify.FileTypeNoDot | update.js:111-114 | a URL without a dot is its own file type |
| Classify.FileTypeOfExtension | update.js:111-114 | the file type of `p.e`, for a dot-free `e`, is `e` |
| Classify.EndsWithExtension | update.js:101-114 | ending with `.e` (the suffix test of `isBinFile`) holds exactly when the URL has a dot and its file type is `e` |
| Classify.TextSuffixByFileType | update.js:101-114 | ending with a dot and one of the text extensions holds exactly when the URL has a dot and its file type is one of them |
| Classify.BinaryByExtension | update.js:101-104 | a URL ending with a dot and an extension outside the text list is binary |
| Classify.ImageIsBinary | update.js:101-104 | `/img/pic.png` is binary |
| Classify.PageIsText | update.js:101-104 | `/page.html` is text |
| Classify.DirectoryIsText | update.js:101-104 | `/dir/` is text |
| UrlFilter.TrailingWordChars | update.js:139 | the count is the length of the final run of `\w` characters |
| UrlFilter.TrailingRun | update.js:139 | a run of word characters to the end, after a non-word character, is the final run |
| UrlFilter.HasExtension | update.js:139 | a reference with an extension contains a dot and ends in a word character |
| UrlFilter.HasExtensionMeans | update.js:139 | `/\.\w+$/` holds exactly when some dot before the last character is followed only by word characters |
| UrlFilter.ExtensionAt | update.js:139 | a dot followed only by at least one word character gives an extension |
| UrlFilter.DefaultDocumentExtension | update.js:139-145 | anything ending in `index.html` has an extension |
| UrlFilter.WithDefaultDocument | update.js:139-145 | the result has an extension and starts with the reference |
| UrlFilter.DefaultDocumentShape | update.js:139-145 | a reference with an extension is unchanged; any other ends in `/index.html`, 10 or 11 characters longer depending on a final `/` |
| UrlFilter.DefaultDocumentKeepsQuery | update.js:139-147 | appending the default document neither adds nor removes a `?` |
| UrlFilter.ExtensionPrefixed | update.js:139 | an extension survives anything put in front |
| UrlFilter.ExtensionAfterSlash | update.js:139 | an extension survives dropping a prefix that ends in `/` |
| UrlFilter.ResolveRelative | update.js:165-172 | a leading `./` or `../` is replaced by a rooted directory path, so the result starts with `/` and ends with `/` and the rest of the reference; any other reference is unchanged |
| UrlFilter.SplitRooted | update.js:166-167 | the segments of `/` followed by slash-free pieces joined with `/` are those pieces |
| UrlFilter.DirectoriesOf | update.js:169-171 | `slice(0, length - 1)` of the segments gives the directories; `slice(0, length - 2)` gives all but the last |
| UrlFilter.ResolveDotSlash | update.js:165-169 | `./x` under `/d1/.../dn/file` resolves to `/d1/.../dn/x`, and to `//x` when there is no directory |
| UrlFilter.ResolveDotDotSlash | update.js:165-171 | `../x` under `/d1/.../dn/file` with `n >= 1` resolves to `/d1/.../dn-1/x` |
| UrlFilter.ResolveDotDotSlashAtRoot | update.js:165-171 | `../x` under `/file` resolves to `//x`, because the negative slice end is clamped |
| UrlFilter.ResolvedKeepsExtension | update.js:165-173 | resolving a `./` or `../` reference keeps its extension |
| UrlFilter.ResolveRelativeAvoids | update.js:165-173 | a character other than `/` that is absent from the reference and the parent pathname is absent from the result |
| UrlFilter.FilterUrl | update.js:137-189 | a reference with `?` is rejected; an accepted URL has an extension, passes the host test and starts with `http:`, `https:` or the configured protocol |
| UrlFilter.Built | update.js:162 | `protocol://host` followed by a path passes the host test, starts with the protocol and keeps the path's extension |
| UrlFilter.FilterAppendsDefaultFirst | update.js:139-145 | filtering a reference is filtering it with its default document appended |
| UrlFilter.FilterAbsolute | update.js:149-154 | an `http:`/`https:` reference is kept unchanged when it passes the host test and is rejected otherwise |
| UrlFilter.FilterProtocolRelative | update.js:155-160 | a `//` reference gets `protocol:` in front when it passes the host test and is rejected otherwise |
| UrlFilter.FilterRootRelative | update.js:161-162 | a `/p` reference (not `//`) becomes `protocol://host/p`, with no host test |
| UrlFilter.FilterPathRelative | update.js:163-176 | a `./` or `../` reference is rejected without a parent; with one it becomes `protocol://host` and the resolved path |
| UrlFilter.FilterBareWord | update.js:178-185 | a reference that starts with a word character is rejected for `mailto:` and `javascript:`; otherwise it becomes `protocol://host/` and the reference |
| UrlFilter.FilterOther | update.js:186-188 | every other reference is rejected |
| UrlFilter.FormFromSlash | update.js:155-162 | a reference without `?` that starts with `/` takes the `//` branch or the `/` branch |
| UrlFilter.FormFromWordChar | update.js:178-185 | a word-character reference without `?` that does not start with `http:`/`https:` is excluded exactly for `mailto:` and `javascript:` |
| UrlFilter.FilterAcceptedHasNoQuery | update.js:137-189 | an accepted URL has no `?` when the host and the parent pathname have none |
| UrlFilter.FilterIdempotent | update.js:137-189 | for an `http`/`https` configuration, filtering an accepted URL again gives it back unchanged, whatever the parent |
| UrlFilter.Pathname | update.js:166 | the pathname starts with `/` and contains neither `?` nor `#`: it ends at the first of them |
| UrlFilter.PathnameOfBuilt | update.js:166 | the pathname of `protocol://host/p` is `/p` up to its first `?` or `#` |
| UrlFilter.PathnameDropsFragment | update.js:166 | the pathname of `protocol://host/p#f` is `/p` for `p` without `?` and `#` |
| Rewrite.SchemeLength | update.js:249 | the scheme group takes 0, 7 or 8 characters, within the text |
| Rewrite.SchemeLengthPrefix | update.js:249 | the scheme group takes 8 characters exactly for `https://`, 7 exactly for `http://`, and none otherwise |
| Rewrite.MatchLength | update.js:249 | the match never runs past the end of the text |
| Rewrite.ReplaceAll | update.js:249 | a global replace by the empty string never lengthens the text |
| Rewrite.ReplaceKeepsPrefix | update.js:249 | text in front of which only empty matches start is copied through unchanged |
| Rewrite.StripHost | update.js:249 | the rewrite never lengthens the text |
| Rewrite.StripHostKeepsPrefix | update.js:249 | text in front of which only empty matches start survives the rewrite |
| Rewrite.StripSchemeAndHost | update.js:249 | `https://host` and `http://host` are removed as one match |
| Rewrite.StripSchemeOfOtherHost | update.js:249 | `https://` and `http://` are removed in front of any text the host does not match |
| Rewrite.StripBareHost | update.js:249 | a bare occurrence of the host at a scan position is removed |
| Rewrite.AbsoluteLinkBecomesRootRelative | update.js:249 | `pre` + `https://host/path` becomes `pre` + the rewritten `/path` |
| Rewrite.StripHostUnchanged | update.js:249 | text with no `http://`, no `https://` and no match of a non-empty host is unchanged |
| Rewrite.StripHostNotIdempotent | update.js:249 | with host `xy`, `xxyy` becomes `xy` and then the empty string: one pass can create a new occurrence |
| Extract.AttributeAt | update.js:259 | the attribute found is the one the text starts with, followed by `=`; none means no alternative applies |
| Extract.AttributeAtUnique | update.js:259 | at most one of `href=`, `src=` and `data-src=` applies at a position |
| Extract.ClosingQuote | update.js:259 | the lazy `(.*?)\1` stops at the first matching quote with no line terminator before it; none means no quote can close |
| Extract.ClosingQuoteOf | update.js:259 | for a value without the quote and line terminators, the closing quote is the one right after the value |
| Extract.HtmlMatch | update.js:259 | an HTML match consumes at least one character and stays within the text |
| Extract.HtmlMatchRender | update.js:259-262 | round trip: `a=qvq` followed by anything is matched and yields `v` |
| Extract.HtmlMatchSound | update.js:259-262 | every HTML match is some rendered `a=qvq` at the start of the text |
| Extract.HtmlMatchParts | update.js:259-262 | what a successful HTML match consists of: quote, value and the same closing quote |
| Extract.RunLength | update.js:270 | the length of the longest run of `[^'"\)]` at the start |
| Extract.RunLengthOf | update.js:270 | the run stops at the first quote or `)` |
| Extract.CssMatch | update.js:270 | a CSS match consumes at least one character and stays within the text |
| Extract.CssMatchRender | update.js:270-273 | round trip: `url(` with optional quotes around `v` and `)`, followed by anything, is matched and yields `v` |
| Extract.CssMatchSound | update.js:270-273 | every CSS match is some rendered `url()` at the start of the text |
| Extract.CssMatchParts | update.js:270-273 | what a successful CSS match consists of: `url(`, an optional quote, the value, an optional quote and `)` |
| Extract.Links | update.js:261-267 | the loop yields at most one value per character of the text, since every match consumes at least one |
| Extract.LinksSkip | update.js:261-267 | text in front of which no match starts yields nothing |
| Extract.LinksSound | update.js:261-262 | every value the loop yields is the value of a match at some index of the text |
| Extract.HtmlLinksRender | update.js:259-267 | `a=qvq` at the front of a page yields `v` first |
| Extract.CssLinksRender | update.js:270-278 | `url(v)` at the front of a style sheet yields `v` first |
| Extract.HtmlLinksNeedEquals | update.js:259-267 | a page without `=` yields no links |
| Extract.CssLinksNeedParenthesis | update.js:270-278 | a style sheet without `(` yields no links |
| Extract.LinksFor | update.js:255-279 | at most one link per character of the text, and links only from `html`, `htm` and `css` documents |
| Crawler.DocumentLinks | update.js:239-279 | a binary document yields no links; a text document yields at most one per character of its body |
| Crawler.AbsoluteLinkScannedRootRelative | update.js:249-267 | a page whose body is `href="https://host/path"` yields `path`: the scheme and host are removed before the scan |
| Crawler.RewriteAbsoluteLink | update.js:249 | `pre` + `https://host` + a tail becomes `pre` + the tail when nothing else in the text matches |
| Crawler.UnchangedBodyScannedAsIs | update.js:249-279 | a text document with nothing for line 249 to remove is scanned as fetched |
| Crawler.Children | update.js:239-279 | a document whose fetch fails yields no work items; every work item carries the pathname of the document it was found in |
| Crawler.FrontierAdmit | update.js:206-209 | admitting a URL and queueing its document's links keeps the worklist invariant; the URL is a new candidate |
| Crawler.FrontierSkip | update.js:206-208 | dropping a rejected or already visited item keeps the worklist invariant |
| Crawler.FrontierDone | update.js:195-280 | with nothing pending, the visited set holds the seeds' targets, is closed, and is the least such set |
| Crawler.FetchLogAppend | update.js:208-214 | recording a new URL keeps the fetch log free of repeats and equal to the visited set |
| Crawler.Crawl | update.js:195-280 | each URL is fetched at most once; the visited set holds the seeds' targets, is closed under links, and is the least such set |
| Crawler.LeastIsReached | update.js:195-280 | every URL of the least closed set is a seed target or the target of a link in one of its own documents |
| Crawler.Run | update.js:283-292 | the site's `index.html` and every accepted extra URL are fetched, once each; no fetched document links to an accepted URL outside the fetched set; and every fetched URL is the target of one of `run`'s references or of a link in a fetched document |
| Crawler.RootSeed | update.js:195 | the default reference `/` stands for `protocol://host/index.html` |
| Crawler.RootDocument | update.js:139-143 | `/` with its default document is `/index.html` |
| FilterExamples.LegalAbsoluteForms | update.js:119-120 | `http://host/f` and `https://host/f` are kept as they are |
| FilterExamples.HostInPathAccepted | update.js:149-154 | `http://other/host/f` is kept: the host test reads the whole reference |
| FilterExamples.IllegalAbsoluteForm | update.js:128 | `http://other/f` is rejected when the host test finds no match in it, as for `http://aaaaa/example.html` |
| FilterExamples.LegalProtocolRelativeForm | update.js:121 | `//host/f` becomes `protocol://host/f` |
| FilterExamples.LegalRootForms | update.js:124-125 | `/f` and `f` become `protocol://host/f` |
| FilterExamples.LegalRelativeForms | update.js:122-123 | `./f` in `/d/page` and `../f` in `/d/e/page` become `protocol://host/d/f`; both are rejected without a parent |
| FilterExamples.RootParentDoubleSlash | update.js:163-173 | `./f` in `/page` and `../f` in `/d/page` become `protocol://host//f` |
| FilterExamples.IllegalSchemes | update.js:131-132 | `mailto:` and `javascript:` references are rejected, whatever follows |
| FilterExamples.IllegalFragment | update.js:130 | `#` and every reference starting with `#` is rejected |
| FilterExamples.SubstringHostAccepted | update.js:129 | `//otherhost/f` is accepted for the host `host`, with `otherhost` kept as the host |
| FilterExamples.DotInHostIsWildcard | update.js:150 | with the host `a.b`, `//aXb/f` is accepted for every `X` other than `?` and a line terminator |
| FilterExamples.ProtocolRelativeAccepted | update.js:155-160 | `//h/f` becomes `protocol://h/f` whenever `h` passes the host test |

## Left out

- HTTP fetching, the redirect handling of lines 216-231, the timing log and the filesystem writes are left out. The site is a map from URL to body, and a URL outside it is a fetch that fails.
- The concurrency of the un-awaited `recursion` calls is modelled as a sequential worklist. Each call filters and admits its URL before its first `await`. So the parent it reads from the global `parentOriginUrl` is the one its caller has just set, and the parent travels with each work item.
- `new URL(...)` normalisation, `href` and `decodeURIComponent` (lines 199-202) are left out. A URL is the string `filterUrl` assembles, and that string is what the visited set holds.
- UrlFilter.FilterUrl: returns the assembled string, not a `URL` object. The `try`/`catch` around an invalid URL (lines 198-205) is not modelled.
- UrlFilter.Pathname: reads the path after the host of an `http`/`https` URL and ends it at the first `?` or `#`. It does not model percent-encoding, dot-segment removal, ports, credentials or backslashes.
- JsString.RegExpTest: treats every character of the host except `.` as a literal. Other regular-expression metacharacters in a configured host are not modelled.
- UrlFilter.ResolveRelative: models `String.replace` with a string pattern, which replaces the first occurrence. The `$` substitution patterns a parent path could hold in the replacement text are not modelled.
- Rewrite.StripHost: uses the same host pattern as the host test, with the same limits as JsString.RegExpTest.
- Strings are sequences of characters. UTF-16 surrogate pairs, `Buffer.toString` decoding and any encoding are not modelled.
- The configuration module (protocol, host, extra URLs) is taken as parameters, and the log file is left out.
