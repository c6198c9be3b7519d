# Token-registry docs import, modelled in Dafny

The Cardano developer portal builds part of its documentation from the
Cardano Token Registry: its GitHub wiki and its README. The script
`scripts/token-registry.ts` downloads the wiki's home page and finds every
`[[Page name]]` link on it. For each linked page it downloads the page,
builds a URL path segment and a markdown file name from the page name, and
rewrites the page text. It writes each page as a Docusaurus document with
front matter and a notice saying where the page came from. The README
becomes an `Overview.md` page: it gets a fixed header, is cut at the
step-by-step section, has its relative links made absolute, and gets a
footer.

This project models the string layer of that script, within the limits
listed under "## Left out". A string is a `seq<char>`. The JavaScript built-ins the script relies on are modelled in
the script's own terms:

- `String.prototype.replace` with a string pattern (first occurrence);
- `split(sep)[0]`;
- global regular-expression replacement for the patterns the script uses
  (literal characters, `.`, and `\b`);
- the `match(/(?<=\[\[)(.*?)(?=\]\])/g)` search;
- `new Set` deduplication;
- `encodeURIComponent`, as in ECMA-262.

The project is split into these modules:

- `Wrappers`: `Option`.
- `JsString`: `indexOf`, first-occurrence `replace`, `split(…)[0]`, and a
  character-by-character reference form (`ConcatMap`).
- `JsRegex`: a small regular-expression matcher (a literal character, `.`,
  `\b`) that tracks the character before the match, and global
  replacement.
- `UriEncoding`: `encodeURIComponent` over full UTF-8. Its inverse,
  `DecodeURIComponent`, is the specification it is proved against.
- `NameEncoding`: `tokenRegistryStringManipulation` and
  `markdownStringManipulation`.
- `ContentRewrite`: `injectAutogeneratedMessage` and `stringManipulation`.
- `Overview`: `overviewStringManipulation`.
- `FrontMatter`: `sidebarPosition` and `injectDocusaurusDocTags`.
- `LinkDiscovery`: the page names found on the home page (lines 190-191).
- `Pipeline`: what `main` writes, given the downloads. The downloads stand
  in for the network. The values of `scripts/constants.ts` are fields of
  `Settings`.

Line 191 deduplicates page *names*, not file names, and both name encoders
write a space as `-`. So the pages `a b` and `a-b` are written to the same
file, and a wiki page called `Overview` overwrites `Overview.md`.
`NameEncoding.NamesCollide` and `Pipeline.OverviewPageCollides` state these
collisions.

## Model

| member | source | states |
|---|---|---|
| UriEncoding.EncodeURIComponent | ADAdeveloper/developer-portal-staging/scripts/token-registry.ts:32 | `encodeURIComponent`. Specified by `DecodeEncode` (the round trip) and `EncodeCharIdentity`. |
| NameEncoding.TokenRegistryPath | ADAdeveloper/developer-portal-staging/scripts/token-registry.ts:30-44 | `tokenRegistryStringManipulation`. Specified by `TokenRegistryPathChunks`, `TokenRegistryPathSafe` and `PlainNames`. |
| NameEncoding.MarkdownFileName | ADAdeveloper/developer-portal-staging/scripts/token-registry.ts:47-67 | `markdownStringManipulation`. Specified by `MarkdownFileNameChunks`, `MarkdownFileNameSafe` and `PlainNames`. |
| JsString.ReplaceFirst | ADAdeveloper/developer-portal-staging/scripts/token-registry.ts:90-93 | `replace` with a string pattern. Specified by `ReplaceFirstSpec`. |
| JsString.SplitFirst | ADAdeveloper/developer-portal-staging/scripts/token-registry.ts:111-113 | `split(sep)[0]`. Specified by `SplitFirstSpec`. |
| JsRegex.ReplaceGlobal | ADAdeveloper/developer-portal-staging/scripts/token-registry.ts:35-41 | `replace` with a global regex. Specified by `LiteralReplaceGlobal`, `WordReplaceSpec` and `PrefixedReplaceSpec`. |
| ContentRewrite.StringManipulation | ADAdeveloper/developer-portal-staging/scripts/token-registry.ts:85-99 | `stringManipulation`. Specified by `StringManipulationShape` and `StringManipulationSpec`. |
| Overview.AbsoluteLinks | ADAdeveloper/developer-portal-staging/scripts/token-registry.ts:115-124 | The three link rewrites. Specified by `LinksReference`, `UnmatchedKeepsLinks` and the `…Linked` lemmas. |
| Overview.OverviewStringManipulation | ADAdeveloper/developer-portal-staging/scripts/token-registry.ts:102-138 | `overviewStringManipulation`. Specified by `OverviewShape`, `TruncationStep` and `OverviewBodySpec`. |
| FrontMatter.SidebarPosition | ADAdeveloper/developer-portal-staging/scripts/token-registry.ts:142-151 | `sidebarPosition`. Specified by `SidebarPositionTable` and `SidebarPositionPresent`. |
| FrontMatter.InjectDocusaurusDocTags | ADAdeveloper/developer-portal-staging/scripts/token-registry.ts:154-176 | `injectDocusaurusDocTags`. Specified by `DocTagsLayout`, `DocTagsStart` and `DocTagsTail`. |
| LinkDiscovery.MatchesFrom | ADAdeveloper/developer-portal-staging/scripts/token-registry.ts:190 | The global `match` from a position. Specified by `MatchesSound`, `MatchesSkip` and `PageMatches`. |
| LinkDiscovery.Dedup | ADAdeveloper/developer-portal-staging/scripts/token-registry.ts:191 | `[...new Set(xs)]`. Specified by `DedupSpec`. |
| LinkDiscovery.LinkNames | ADAdeveloper/developer-portal-staging/scripts/token-registry.ts:189-191 | `tr_unique_urls`. Specified by `LinkNamesSpec`, `NoOpeningNoNames` and `LinkNamesExample`. |
| Pipeline.RenderPage | ADAdeveloper/developer-portal-staging/scripts/token-registry.ts:204-229 | One page file. Specified by `RenderPageSpec` and `RenderedNotice`. |
| Pipeline.OverviewWritten | ADAdeveloper/developer-portal-staging/scripts/token-registry.ts:19-27 | The overview file. Specified by `OverviewOutput`. |
| Pipeline.PageWrites | ADAdeveloper/developer-portal-staging/scripts/token-registry.ts:182-232 | The page files. Specified by `PageOutputs` and `PagesAt`. |
| UriEncoding.DecodeEncode | ADAdeveloper/developer-portal-staging/scripts/token-registry.ts:32 | Decoding the `encodeURIComponent` output of any string gives that string back (the percent-encoded UTF-8 round trip). |
| UriEncoding.EncodeInjective | ADAdeveloper/developer-portal-staging/scripts/token-registry.ts:49 | Two strings with the same `encodeURIComponent` output are equal. |
| UriEncoding.EncodeCharIdentity | ADAdeveloper/developer-portal-staging/scripts/token-registry.ts:32 | A character is left as it is exactly when it is in the unescaped set (ASCII letters and digits, and `- _ . ! ~ * ' ( )`). |
| UriEncoding.EncodeCharAlphabet | ADAdeveloper/developer-portal-staging/scripts/token-registry.ts:32 | Each output character of one character's encoding is that character (when unescaped), `%`, or an upper-case hex digit. |
| UriEncoding.DecodeEscapeUtf8 | ADAdeveloper/developer-portal-staging/scripts/token-registry.ts:32 | The escapes written for one character decode back to that character and take exactly three output characters per UTF-8 octet. |
| NameEncoding.SpacesToHyphens | ADAdeveloper/developer-portal-staging/scripts/token-registry.ts:32-35 | Replacing `%20` by `-` in the encoded name is the same as encoding each character, with a space written as `-`. No other `%20` can be found across escape boundaries. |
| NameEncoding.TokenRegistryPathChunks | ADAdeveloper/developer-portal-staging/scripts/token-registry.ts:30-44 | The URL path segment is the page name translated character by character: space becomes `-`, `(` becomes `%28`, `)` becomes `%29`, and everything else is its `encodeURIComponent` form. |
| NameEncoding.TokenRegistryPathSafe | ADAdeveloper/developer-portal-staging/scripts/token-registry.ts:30-44 | The URL path segment contains no space, `(` or `)`. |
| NameEncoding.MarkdownFileNameChunks | ADAdeveloper/developer-portal-staging/scripts/token-registry.ts:47-67 | The file name is the page name translated character by character: space becomes `-`, `(`, `)` and `'` are dropped, and everything else is its `encodeURIComponent` form. |
| NameEncoding.QuestionStage | ADAdeveloper/developer-portal-staging/scripts/token-registry.ts:54-55 | The `?` replacement changes nothing, because `encodeURIComponent` has already written every `?` as `%3F`. |
| NameEncoding.MarkdownFileNameSafe | ADAdeveloper/developer-portal-staging/scripts/token-registry.ts:47-67 | The file name contains no space, `(`, `)`, `'` or `?`. |
| NameEncoding.MarkdownFileNameNoParenEscapes | ADAdeveloper/developer-portal-staging/scripts/token-registry.ts:47-67 | The file name contains neither `%28` nor `%29`, because parentheses are dropped rather than escaped. |
| NameEncoding.PlainNames | ADAdeveloper/developer-portal-staging/scripts/token-registry.ts:30-67 | For a name made of ASCII letters, digits and spaces, both the path segment and the file name have the same length as the name. Each space becomes `-` and every other character stays. |
| NameEncoding.NamesCollide | ADAdeveloper/developer-portal-staging/scripts/token-registry.ts:30-67 | Different names `x y` and `x-y` get the same path segment and the same file name. |
| JsString.ReplaceFirstSpec | ADAdeveloper/developer-portal-staging/scripts/token-registry.ts:90-93 | A `replace` with a string pattern changes nothing when the pattern is absent. Otherwise it splices the replacement in at the first occurrence only. |
| JsString.SplitFirstSpec | ADAdeveloper/developer-portal-staging/scripts/token-registry.ts:111-113 | `split(sep)[0]` is the longest prefix before the first `sep`. It is the whole string exactly when `sep` does not occur. |
| JsRegex.LiteralReplaceGlobal | ADAdeveloper/developer-portal-staging/scripts/token-registry.ts:35-41 | A global regex made of literal characters replaces the left-to-right, non-overlapping occurrences of that text. |
| JsRegex.ReplaceCharPointwise | ADAdeveloper/developer-portal-staging/scripts/token-registry.ts:160 | Replacing every `c` by `d` keeps the length and changes exactly the positions holding `c`. |
| JsRegex.WordReplaceSpec | ADAdeveloper/developer-portal-staging/scripts/token-registry.ts:116-123 | The global replacement of `\bW\b` equals the left-to-right reference scan that replaces each occurrence of `W` with no word character on either side. |
| JsRegex.PrefixedReplaceSpec | ADAdeveloper/developer-portal-staging/scripts/token-registry.ts:124 | The global replacement of `\(\bW\b` equals the reference scan that replaces each `(W` with no word character after it. |
| JsRegex.WordPatternMatch | ADAdeveloper/developer-portal-staging/scripts/token-registry.ts:117-122 | `\bW\b` (with `.` matching any character other than a line break) matches exactly when no word character comes before, the text matches `W`, and no word character follows. |
| ContentRewrite.InjectAutogeneratedMessage | ADAdeveloper/developer-portal-staging/scripts/token-registry.ts:70-82 | The result is the content, a newline, and then the notice naming the wiki and the page. |
| ContentRewrite.AutogeneratedMessageIgnoresPath | ADAdeveloper/developer-portal-staging/scripts/token-registry.ts:70-82 | The `path` argument has no influence on the result. |
| ContentRewrite.AutogeneratedNoticeNamesSource | ADAdeveloper/developer-portal-staging/scripts/token-registry.ts:74-80 | The notice ends with the markdown link `[wiki](wiki/fileName).`. |
| ContentRewrite.NoticeIsHeading | ADAdeveloper/developer-portal-staging/scripts/token-registry.ts:74 | The notice starts with `#`, which is a heading. |
| ContentRewrite.StringManipulationShape | ADAdeveloper/developer-portal-staging/scripts/token-registry.ts:85-99 | A page's text is the content, with the broken NA-policy link fixed once, followed by a newline and the notice. |
| ContentRewrite.StringManipulationSpec | ADAdeveloper/developer-portal-staging/scripts/token-registry.ts:85-99 | Without the broken link, the content is kept verbatim in front of the notice. Otherwise only its first occurrence is replaced by the fixed link. |
| ContentRewrite.FixedLinkDropsParentheses | ADAdeveloper/developer-portal-staging/scripts/token-registry.ts:86-93 | The hard-coded fixed link is the broken link with all its parentheses removed, which is what the disabled general rule of line 87 would give. |
| Overview.OverviewShape | ADAdeveloper/developer-portal-staging/scripts/token-registry.ts:102-138 | The overview is the fixed header, then the trimmed README with absolute links, then the footer naming the README. |
| Overview.TruncationStep | ADAdeveloper/developer-portal-staging/scripts/token-registry.ts:104-113 | Removing the package heading and cutting at the step-by-step heading leaves the header untouched and applies only to the README. |
| Overview.OverviewBodySpec | ADAdeveloper/developer-portal-staging/scripts/token-registry.ts:110-113 | The trimmed README is the part of the README (without its package heading) that precedes the first `## Step-by-Step`. It holds no such heading, and it is followed by one unless it is the whole text. |
| Overview.PlainKeepsLinks | ADAdeveloper/developer-portal-staging/scripts/token-registry.ts:115-124 | The three link rewrites leave unchanged any text that has no `U` or `#`, and no `(` that is last or followed by `m` (the header is such a text). |
| Overview.UnmatchedKeepsLinks | ADAdeveloper/developer-portal-staging/scripts/token-registry.ts:115-124 | The three link rewrites leave unchanged any text in which none of the three patterns can match at any position, whatever the character before it. |
| Overview.LinksReference | ADAdeveloper/developer-portal-staging/scripts/token-registry.ts:115-124 | The three rewrites equal their reference definitions. Every `\bRegistry_Terms_of_Use.md\b` and `\bAPI_Terms_of_Use.md\b` occurrence gets the repository address in front, and every `(mappings` not followed by a word character becomes `(` + address + `mappings`. |
| Overview.RegistryTermsLinked | ADAdeveloper/developer-portal-staging/scripts/token-registry.ts:116-119 | The relative link `(Registry_Terms_of_Use.md)` becomes `(` + address + `Registry_Terms_of_Use.md)`. |
| Overview.ApiTermsLinked | ADAdeveloper/developer-portal-staging/scripts/token-registry.ts:120-123 | The relative link `(API_Terms_of_Use.md)` becomes `(` + address + `API_Terms_of_Use.md)`. |
| Overview.MappingsLinked | ADAdeveloper/developer-portal-staging/scripts/token-registry.ts:124 | The relative link `(mappings)` becomes `(` + address + `mappings)`. |
| Overview.HeaderPlain | ADAdeveloper/developer-portal-staging/scripts/token-registry.ts:105 | The fixed header holds nothing the link rewrites can match. |
| Overview.HeaderHasNoHash | ADAdeveloper/developer-portal-staging/scripts/token-registry.ts:105-112 | The header contains no `#`, so the package heading can only be found in the README. |
| Overview.MappingsMatch | ADAdeveloper/developer-portal-staging/scripts/token-registry.ts:124 | `\(\bmappings\b` matches exactly where `(mappings` starts and no word character follows. |
| Overview.LinksAfterLineBreak | ADAdeveloper/developer-portal-staging/scripts/token-registry.ts:115-124 | After the header's final line break, the link rewrites behave as at the start of a text. |
| FrontMatter.SidebarPositionTable | ADAdeveloper/developer-portal-staging/scripts/token-registry.ts:142-151 | The three named pages get `sidebar_position: 2`, `3` and `4`. Every other page gets the empty string. |
| FrontMatter.SidebarPositionPresent | ADAdeveloper/developer-portal-staging/scripts/token-registry.ts:142-151 | A sidebar line is present exactly for the pages in the table. |
| FrontMatter.PagesDistinct | ADAdeveloper/developer-portal-staging/scripts/token-registry.ts:143-147 | The three page names are distinct, so the checks in the chain cannot shadow one another. |
| FrontMatter.StripLeadingFence | ADAdeveloper/developer-portal-staging/scripts/token-registry.ts:157 | A content starting with `---` loses exactly those three characters. Any other content is kept. |
| FrontMatter.StripLeadingFenceOnce | ADAdeveloper/developer-portal-staging/scripts/token-registry.ts:156-157 | Only one leading `---` is removed. |
| FrontMatter.SidebarLabelSpec | ADAdeveloper/developer-portal-staging/scripts/token-registry.ts:159-160 | The sidebar label is the page name with every `-` turned into a space and nothing else changed. |
| FrontMatter.DocTagsLayout | ADAdeveloper/developer-portal-staging/scripts/token-registry.ts:153-176 | In order, a page is: the label line, the edit link, the title line, the optional sidebar line, and `--- ` followed by the content without its leading `---`. |
| FrontMatter.DocTagsStart | ADAdeveloper/developer-portal-staging/scripts/token-registry.ts:163-165 | A page starts with `--- ` and the sidebar label line. |
| FrontMatter.DocTagsTail | ADAdeveloper/developer-portal-staging/scripts/token-registry.ts:157-173 | A page ends with its content, minus any leading `---`. |
| LinkDiscovery.LazyEnd | ADAdeveloper/developer-portal-staging/scripts/token-registry.ts:190 | The lazy `(.*?)(?=\]\])` ends at the first `]]` that no line break precedes. If there is none, it fails. |
| LinkDiscovery.DedupSpec | ADAdeveloper/developer-portal-staging/scripts/token-registry.ts:191 | `[...new Set(xs)]` has no duplicates and the same elements as `xs`, in order of first occurrence. |
| LinkDiscovery.MatchesSound | ADAdeveloper/developer-portal-staging/scripts/token-registry.ts:190 | Each match is the text of a `[[…]]` on the page: it has `[[` before it, `]]` after it, and no line break in it. |
| LinkDiscovery.MatchesSkip | ADAdeveloper/developer-portal-staging/scripts/token-registry.ts:190 | The global search skips positions where `[[` does not end. |
| LinkDiscovery.NoOpeningNoNames | ADAdeveloper/developer-portal-staging/scripts/token-registry.ts:190-191 | A home page without `[[` makes `match` return `null`, and the list of names is empty. |
| LinkDiscovery.LinkNamesSpec | ADAdeveloper/developer-portal-staging/scripts/token-registry.ts:189-191 | The page names are the global matches, without duplicates, in first-occurrence order. Each is the text of a real `[[…]]` link on the page. |
| LinkDiscovery.PageMatches | ADAdeveloper/developer-portal-staging/scripts/token-registry.ts:190 | A page made of bracket-free text and `[[name]]` links matches exactly its names, in order, repetitions included. |
| LinkDiscovery.LinkNamesExample | ADAdeveloper/developer-portal-staging/scripts/token-registry.ts:189-191 | `[[Foo]] text [[Bar]] [[Foo]]` yields `["Foo", "Bar"]`. |
| Pipeline.OverviewOutput | ADAdeveloper/developer-portal-staging/scripts/token-registry.ts:19-27 | `Overview.md` in the docs folder gets the header, then the README downloaded from the overview URL (trimmed, with absolute links), then the footer. |
| Pipeline.PagesAt | ADAdeveloper/developer-portal-staging/scripts/token-registry.ts:203-232 | The `k`-th page write is for the `k`-th name, rendered from the text at its URL. |
| Pipeline.PageOutputs | ADAdeveloper/developer-portal-staging/scripts/token-registry.ts:182-232 | There is one write per distinct name linked from the home page downloaded from `Home.md`, in first-occurrence order, each made from the text downloaded from that page's URL. |
| Pipeline.RenderPageSpec | ADAdeveloper/developer-portal-staging/scripts/token-registry.ts:204-229 | A page file sits at `docsPath/<file name>.md`, starts with `--- ` and its sidebar label line, and ends with the notice linking to its wiki page. `FrontMatter.DocTagsLayout` gives the rest of the layout. |
| Pipeline.RenderedNotice | ADAdeveloper/developer-portal-staging/scripts/token-registry.ts:216-223 | The front matter keeps the notice `stringManipulation` appended at the end of the page. |
| Pipeline.OverviewPageCollides | ADAdeveloper/developer-portal-staging/scripts/token-registry.ts:200-228 | A wiki page named `Overview` is written to the overview's own path. |

## Left out

- Input and output are not modelled: `fetch` through
  `getStringContentAsync`, `fs.existsSync`, `rmSync`, `mkdirSync`,
  `writeFileSync`, and the `console.log` progress lines. A download is the
  function `fetch` from URL to text, a write is a `Written` value, and the
  directory reset is not modelled.
- The values imported from `scripts/constants.ts` are parameters in
  `Settings`, because their values come from files that are not part of
  this model. `path_name` (line 16) is the base name of the running script.
  It is the constant `ContentRewrite.ScriptName`, taken to be
  `token-registry.ts`. `AutogeneratedMessageIgnoresPath` proves the value
  has no effect.
- `Promise.all` runs the page downloads and writes concurrently, so the
  order in which the files are written is not modelled. `PageWrites` lists
  the writes in name order.
- A failed download or write, and the resulting rejected promise, is not
  modelled: `fetch` always returns a text.
- The `URIError` that `encodeURIComponent` throws on a lone surrogate is left
  out. JavaScript strings are UTF-16 code units, but a Dafny `char` is a
  Unicode scalar value. A lone surrogate therefore cannot occur, and
  Unicode characters are encoded from their scalar values, which gives the
  same octets.
- JsRegex.MatchLen: `.` matches one Unicode scalar value, but in JavaScript
  (without the `u` flag) it matches one UTF-16 code unit. So a character
  outside the Basic Multilingual Plane in place of the `.` of
  `Registry_Terms_of_Use.md` or `API_Terms_of_Use.md` is rewritten by the
  model and left alone by JavaScript. Every other literal the script
  matches, cuts or compares is ASCII, so those steps agree.
- Special `$` patterns in replacement strings are not modelled. The
  literal replacements of the script contain none, and `tr_url` is assumed
  to contain none either.
- The commented-out general link rule (line 87) is not modelled as code.
  `FixedLinkDropsParentheses` relates the hard-coded fix to it.
- JsString.SplitFirst: requires a non-empty separator. JavaScript also
  allows an empty one, but the script only splits on `## Step-by-Step`.
- JsRegex.ReplaceGlobal: supports only patterns of literal characters, `.`
  and `\b` that consume at least one character. These are all the patterns
  the script uses.
- LinkDiscovery.MatchesFrom: models the one link pattern of line 190
  directly, not through a general lookbehind and lookahead engine.
- LinkDiscovery.LinkNamesSpec: states soundness for each name (it is the
  text between a real `[[` and `]]`). Completeness is stated by
  `PageMatches` for pages built from plain text and `[[name]]` links, not
  for arbitrary texts.
