# dot — a Dafny model of the static site generator's core

`dot` turns a project directory of Markdown articles and pages into a static HTML site.
This project models the core of `dot.php` and the small standalone renderer
`schachtel/rdrtpl.php`:

- **Layout** (`Build.LayoutOf`, `Build.TrimSlashes`): the constructor derives every output
  path from the project directory, with trailing slashes stripped.
- **Template rendering** (`Template`): `renderTemplate` replaces each `{{KEY}}` in turn with
  `str_replace`. Each key is upper-cased. A later key sees the text that earlier values inserted.
- **Article metadata** (`Metadata`): `extractArticleData` finds the headline, summary,
  author, date and first image URL with the same regular expressions as the source, and
  the HTML content.
- **Markdown to HTML** (`Escape`, `Markdown`, `FenceOrder`, `Paragraphs`, `Tags`):
  `markdownToHtml` escapes the text with `htmlspecialchars`, runs a fixed chain of PCRE
  substitutions, and wraps the blank-line separated blocks in `<p>`.
  - Each substitution is a `Pattern` run by one generic scanner (`Markdown.Scan`).
    The scanner cuts the text into literal characters and hits.
    Every hit matches the pattern's rule, and the hits and literals together are exactly
    the input. The scan is leftmost-first: each hit is what the pattern yields at its
    position, and at each character kept the pattern yields nothing.
  - The chain is a list of `Step`s, so the source's order is data that lemmas can reason about.
  - `Tags` defines the tags the converter emits (`<h1>`…`</p>`, `<a href="`, `<img src="`).
    A text is tag-safe when every `<` in it begins one of them. Escaping makes the text
    tag-safe, and every step and the paragraph split keep it so. So no `<` other than the
    converter's own tag openings reaches the `{{CONTENT}}` field. Attribute values are not
    covered, and the other fields go into the templates unescaped (see "## Left out").
- **Site build** (`Build`): `build`, `buildContent`, `addToIndex` and `finalizeIndex`.
  - Folders are a sequence of values. The files written are a sequence of `Output` records
    in write order. The index accumulates in a string, as in the source.
  - `BuildContent` is a method with a loop whose body is the method `RenderFolder`. Both are
    proved against the functions `Pages` and `Items`.
- **rdrtpl** (`Rdrtpl`): `ParseVars` is the argument loop, and `Render` prints the blank
  line before `<?php`, then the single `strtr` pass, longest key first.

Strings are `seq<char>`, one element per byte of the PHP string.

## Model

| member | source | states |
|---|---|---|
| Build.TrimSlashes | dot.php:23 | `rtrim($projectDir, '/')`: the result is a prefix of the input, does not end in `/`, and everything removed is `/` |
| Build.LayoutOf | dot.php:21-38 | the rendered directory is the trimmed project directory followed by `.rendered/`; the article, page and index paths lie under it and are pairwise different |
| Build.WithMarkdown | dot.php:111-117 | the folders kept are folders of the input that hold at least one Markdown file |
| Build.RenderFolder | dot.php:113-141 | one folder: the page is the first Markdown file rendered into the template at `<outputDir><folder>/<name>.html`; the index item is rendered only when `addToIndex` holds; a folder without Markdown produces nothing |
| Build.BuildContent | dot.php:100-144 | the loop writes exactly the pages of the folders, in order, and appends exactly their index items to the index it was given |
| Build.Build | dot.php:80-98 | the whole build writes the article pages, then the page pages, then the index file (`indexPre`, the article items, `indexPost`); pages never reach the index |
| Build.PagesOfAt | dot.php:116-135 | the k-th page written is the page of the k-th folder that has Markdown |
| Build.PagesFollowFolders | dot.php:111-135 | the pages written are, one for one, the folders that have Markdown |
| Build.ItemsFollowFolders | dot.php:137-141 | the index content is the concatenation of the items of the folders that have Markdown, in order |
| Build.Pages | dot.php:111-135 | at most one page per folder; `Build.PagesFollowFolders` pins the pages to the folders with Markdown, and `Build.BuildContent` computes them |
| Build.Items | dot.php:137-141 | folders without Markdown add nothing to the index; `Build.ItemsFollowFolders` gives the whole index content |
| Build.PageFileInFolder | dot.php:119-134 | a page is written inside its folder's output directory, with an `.html` name |
| Build.ItemRendering | dot.php:173-185 | an index item is the item template with the headline substituted first and then the URL |
| Build.IndexLinksResolve | dot.php:119-140 | the link `articles/<folder>/<name>.html` in the index, taken relative to the rendered directory, is the path the article page was written to |
| Build.SkipWithoutMarkdown | dot.php:116 | folders without a Markdown file produce no page and no index item |
| Template.Token | dot.php:253 | the token of a key starts with `{{`, ends with `}}` and is four characters longer than the key |
| Template.RenderTemplate | dot.php:249-257 | the loop's result is the sequential substitution `RenderSeq` of all placeholders in order |
| Template.RenderSeq | dot.php:251-254 | the sequential substitution leaves the template unchanged when every value is its own token |
| Template.RenderAppend | dot.php:251-254 | substituting `ps` then `qs` is substituting `ps + qs` |
| Template.RenderWithoutTokens | dot.php:249-257 | a template containing none of the tokens is returned unchanged |
| Template.RenderOne | dot.php:253 | one `str_replace` cuts the template at every occurrence of the token and joins the pieces with the value; no piece contains the token |
| Template.KeysIgnoreCase | dot.php:253 | a key and its upper-cased form substitute identically |
| Template.EarlierValueIsRescanned | dot.php:251-254 | a token inserted by an earlier value is expanded by a later key |
| Template.TokenCanRemain | dot.php:253 | even with values free of `{{`, a supplied key's token can remain, because removing a token can join its neighbours into a new one |
| Text.ToUpper | dot.php:253 | `strtoupper` maps exactly `a`-`z` to `A`-`Z`, byte by byte |
| Text.ToUpperIdempotent | dot.php:253 | upper-casing twice is upper-casing once |
| Text.ReplaceAllIsImplodeExplode | dot.php:253 | `str_replace` is `implode($value, explode($token, $s))` |
| Text.ImplodeExplode | dot.php:253 | `implode` undoes `explode` with the same separator |
| Text.ExplodePiecesFree | dot.php:253 | no piece of `explode` contains the separator |
| Text.ReplaceAllAbsent | dot.php:253 | replacing an absent string changes nothing |
| Text.ReplaceAll | dot.php:253 | `str_replace` returns the subject unchanged when the search string is empty or equals the value |
| Text.Trim | dot.php:156 | `trim` keeps the slice that starts after the leading run of trim characters and is followed only by trim characters, and the result neither starts nor ends with one |
| Text.LeadingTrim | dot.php:298 | the leading run of trim characters: every character before the count is one, and the character at the count is not |
| Text.TrimLeft | dot.php:298 | the left half of `trim`: the longest suffix that does not start with a trim character |
| Text.TrimRight | dot.php:298 | the right half of `trim`: the longest prefix that does not end with a trim character |
| Text.LineAt | dot.php:151 | `(.*?)$` under `/m` captures the rest of the line, with no line feed |
| Text.FindClose | dot.php:270-295 | a lazy group ends at the first occurrence of the closing text, on the same line unless `/s` is given |
| Text.FindLast | dot.php:288 | the greedy `.*` under `/s` ends at the last occurrence |
| Escape.EscapeChar | dot.php:261 | the five special characters become entities and every other character is kept |
| Escape.HtmlSpecialChars | dot.php:261 | `htmlspecialchars` never shortens the text and leaves no raw `<` or `>` |
| Escape.EscapeIsEscaped | dot.php:261 | after `htmlspecialchars` no raw `<`, `>`, `"` or `'` remains, and every `&` starts an entity |
| Escape.UnescapeOfEscape | dot.php:261 | decoding the five entities recovers the original text exactly |
| Escape.EscapePlain | dot.php:261 | text without special characters is unchanged |
| Paragraphs.SeparatorAt | dot.php:298 | `\n\s*\n` at the start of the text: whitespace that starts and ends with a line feed, the longest such run (it is not followed by another line feed, and every blank line starting there ends inside it); none exactly when no blank line starts there |
| Paragraphs.SplitBlank | dot.php:298 | `preg_split` returns at least one piece |
| Paragraphs.SplitRejoin | dot.php:298 | `preg_split` loses nothing: joining the pieces with the separators gives back the text |
| Paragraphs.SeparatorsAreBlank | dot.php:298 | every separator is a line feed, whitespace, and a line feed |
| Paragraphs.PiecesHaveNoBlankLine | dot.php:298 | no piece contains a blank line |
| Paragraphs.TrimmedPiecesNonEmpty | dot.php:298 | after `trim`, every piece is non-empty |
| Paragraphs.WrapPieces | dot.php:299 | the joined paragraphs start with `<p>` and end with `</p>` |
| Paragraphs.ToParagraphs | dot.php:298-299 | the paragraph step starts with `<p>` and ends with `</p>`; a text that is blank after `trim` becomes `<p></p>` |
| Markdown.HeadingAt | dot.php:264-267 | a heading hit is 1 to 6 `#`, a `\s` run, and a non-empty text without line feed, rendered as `<hN>` with N the number of `#`; the match ends at a line feed or at the end of the text |
| Markdown.HeadingHit | dot.php:264-267 | a split into a `#` run, a `\s` run and a text that runs to the end of its line gives a piece that satisfies the heading rule and ends at that line end |
| Markdown.HeadingAtBest | dot.php:264 | completeness: where the pattern can match, `HeadingAt` returns exactly the split PCRE prefers, the most `#` and then the longest `\s*` |
| Markdown.HeadingAtSome | dot.php:264 | wherever the heading pattern can match, `HeadingAt` returns a match |
| Markdown.SpacesThenText | dot.php:264 | `\s{min,}(.+)$` with backtracking: the longest `\s` run that still leaves a text character, the text running to the end of the line; none exactly when no split exists |
| Markdown.ListItemAt | dot.php:286-291 | a list hit is a `\s` run, a `-`/`*` or `digits.` marker, a non-empty `\s` run and a non-empty rest of line, rendered as `<li>`; it ends at a line feed or at the end, and no longer gap gives a match |
| Markdown.ListHit | dot.php:286-291 | a split into indentation, marker, gap and text that runs to the end of its line gives a piece that satisfies the list rule and ends at that line end |
| Markdown.ListIndentMarker | dot.php:286-291 | in every list match the indentation is the whole leading `\s` run and the marker is the whole marker |
| Markdown.ListItemAtSome | dot.php:286-291 | wherever the list pattern can match, `ListItemAt` returns a match |
| Markdown.PairAt | dot.php:269-295 | a delimited hit runs from the opening text to the first closing text (lazy), on one line unless `/s` |
| Markdown.PairHit | dot.php:269-295 | the lazy group is exactly the text up to the first closing text |
| Markdown.PairAtIs | dot.php:270-295 | completeness: a lazy `o g c` at the start of the text is exactly the hit `PairAt` returns |
| Markdown.BracketAt | dot.php:280-284 | `[text](url)` with lazy groups: no `](` before the end of the text group, no `)` in the URL, neither crossing a line feed; rendered as a link or an image |
| Markdown.BracketTailOf | dot.php:281 | plain text and URL are captured as written |
| Markdown.BracketTailIs | dot.php:281 | completeness: lazy groups `g1](g2)` at the start of the text are exactly the groups captured |
| Markdown.BracketAtIs | dot.php:280-284 | completeness: a lazy bracket match at the start of the text is exactly the hit `BracketAt` returns |
| Markdown.HitAt | dot.php:264-295 | a hit found at a position satisfies its pattern's rule; a line pattern matches only at a line start and ends at a line feed or at the end |
| Markdown.HitAtInline | dot.php:270-284 | for the inline patterns, every match of the rule at a position is the hit `HitAt` returns |
| Markdown.HitAtLine | dot.php:264-291 | for the line patterns, where a match of the rule begins at a line start, `HitAt` finds one |
| Markdown.Scan | dot.php:264-295 | the scan reproduces its input, and every hit in it satisfies the pattern's rule |
| Markdown.ScanStep | dot.php:264-295 | the first piece is the pattern's hit at the start, or the first character when there is none; the rest is the scan of what follows |
| Markdown.ScanSuffix | dot.php:264-295 | at every piece boundary, scanning the rest of the subject in the line state there gives the rest of the scan |
| Markdown.ScanLeftmost | dot.php:264-295 | leftmost-first: every hit is the pattern's hit at its offset, and at every character kept literally the pattern has none |
| Markdown.ScanWholeHit | dot.php:264-295 | text that is exactly one hit renders as that hit's output |
| Markdown.ScanKeepsFirst | dot.php:264-295 | where no hit starts, the character is kept and scanning continues |
| Markdown.ScanHitStep | dot.php:264-295 | after a hit, scanning resumes right after the matched text |
| Markdown.Apply | dot.php:264-295 | one `preg_replace`: the scan of the whole subject from a line start, each hit replaced; `Markdown.ApplyWithoutNeedle` and `Markdown.ApplySafe` state its properties |
| Markdown.RuleHasNeedle | dot.php:264-295 | every hit contains one of its pattern's marker strings |
| Markdown.ScanWithoutNeedle | dot.php:264-295 | text without the marker strings yields no hits |
| Markdown.ApplyWithoutNeedle | dot.php:264-295 | a substitution leaves such text unchanged |
| Markdown.ListSpan | dot.php:288-292 | `(<li>.*<\/li>)` under `/s` spans from the first `<li>` to the end of the last `</li>` |
| Markdown.WrapList | dot.php:288-292 | the list wrap returns text without `<li>` unchanged; otherwise it encloses the `ListSpan` span |
| Markdown.Run | dot.php:259-295 | the steps one after another, each on the output of the one before; `Markdown.RunAppend` and `Markdown.RunSafe` state its properties |
| Markdown.RunAppend | dot.php:259-295 | running two step lists is running their concatenation |
| Markdown.StepWithoutMarkup | dot.php:264-295 | a step leaves text without Markdown or HTML-special characters unchanged |
| Markdown.RunWithoutMarkup | dot.php:264-295 | so does a list of such steps |
| Markdown.StepListsNeedMarkup | dot.php:264-295 | every step of both chains needs markup to fire |
| Markdown.PlainTextOnlyParagraphs | dot.php:259-302 | text without markup is only split into paragraphs |
| Markdown.ToHtmlAsWritten | dot.php:259-302 | the chain in the source's order yields text that starts with `<p>` and ends with `</p>` |
| Markdown.ToHtml | dot.php:259-302 | the corrected chain yields the same frame |
| Markdown.ToHtmlAsWrittenSafe | dot.php:259-302 | the output of the chain in the source's order is tag-safe: every `<` begins a tag the converter emits |
| Markdown.ToHtmlSafe | dot.php:259-302 | the output of the corrected chain is tag-safe as well |
| Markdown.HitOutSafe | dot.php:264-295 | a hit's replacement is tag-safe when the text it was found in is: the pattern adds only emitted tags, and a group never cuts a tag |
| Markdown.ScanKeepsTagRest | dot.php:264-295 | a tag in the subject reaches the output whole, because no pattern matches inside it |
| Markdown.ScanSafe | dot.php:264-295 | the scan of a tag-safe text renders tag-safe text |
| Markdown.ApplySafe | dot.php:264-295 | one substitution keeps a tag-safe text tag-safe |
| Markdown.WrapListSafe | dot.php:288-292 | the list wrap keeps a tag-safe text tag-safe |
| Markdown.StepListsAreSafe | dot.php:264-295 | every step of both chains adds only emitted tags and starts its matches on characters outside tags |
| Markdown.RunSafe | dot.php:264-295 | a run of such steps keeps a tag-safe text tag-safe |
| Tags.TagShape | dot.php:264-299 | every emitted tag starts with `<`, ends with `>` or `"`, and after the `<` holds only lower-case letters, digits, `/`, `"`, `=`, `>` and spaces |
| Tags.EscapedIsSafe | dot.php:261 | the output of `htmlspecialchars` is tag-safe |
| Tags.SafeAppend | dot.php:264-299 | concatenation keeps tag-safety |
| Tags.SafeSuffix | dot.php:264-299 | so does taking a suffix |
| Tags.SafePrefix | dot.php:264-299 | so does cutting at a point that splits no tag |
| Tags.SafeTrim | dot.php:298 | `trim` keeps tag-safety |
| Tags.SafePieces | dot.php:298 | every `preg_split` piece of a tag-safe text is tag-safe |
| Tags.SafeParagraphs | dot.php:298-299 | the paragraph step keeps a tag-safe text tag-safe |
| Markdown.LinkBeforeImage | dot.php:280-284 | in the source's order, image syntax `![a](u)` becomes `!` plus a link, never an image |
| Markdown.LinkStepOnImage | dot.php:281 | the link step alone turns image syntax into `!` and a link |
| Markdown.ImageHitOf | dot.php:284 | image syntax is one image hit |
| Markdown.ImageBeforeLink | dot.php:280-284 | with the image step first, image syntax becomes exactly one `<img>` |
| Markdown.CodeHitTickFree | dot.php:278 | an inline code hit starts with a backtick, and its output has none |
| Markdown.InlineCodeNoTickPair | dot.php:278 | after the inline code step, no two backticks are adjacent |
| Markdown.NoTickPairNoFence | dot.php:295 | without two adjacent backticks there is no fence |
| Markdown.InlineCodeBeforeFence | dot.php:277-295 | the fence step run directly on the output of the inline code step changes nothing |
| FenceOrder.HitOutTickFree | dot.php:281-291 | a link, image or list item replacement has no two adjacent backticks and neither starts nor ends with a backtick |
| FenceOrder.BracketOutTickFree | dot.php:281-284 | the same for a link or image replacement: its captured texts are slices of an input without adjacent backticks |
| FenceOrder.ItemOutTickFree | dot.php:287-291 | the same for a list item replacement |
| FenceOrder.ScanKeepsTickPairsOut | dot.php:281-291 | the link, image and list item steps keep a text free of adjacent backticks, and the output starts with a backtick only where the input does |
| FenceOrder.WrapListKeepsTickPairsOut | dot.php:288-292 | the `<ul>` and `<ol>` wraps keep it too |
| FenceOrder.RunKeepsTickPairsOut | dot.php:281-292 | any chain of such steps keeps it |
| FenceOrder.FenceIdle | dot.php:295 | on a text without adjacent backticks the fence step returns its input |
| FenceOrder.FenceIdleAfterInlineCode | dot.php:278-295 | after inline code and any chain of such steps, the fence step changes nothing |
| FenceOrder.RunThroughInlineCode | dot.php:263-292 | running steps, then inline code, then more steps is one run of the joined list |
| FenceOrder.AsWrittenFenceIsIdle | dot.php:263-295 | for every input, the source's chain gives the same text as the chain without its last, fenced-code step |
| Markdown.FenceHitOf | dot.php:295 | a fence is one code block hit |
| Markdown.FenceBeforeInlineCode | dot.php:277-295 | with the fence step first, a fenced block becomes `<pre><code>` |
| Metadata.Placeholders | dot.php:146-171 | exactly six placeholders, one per field of the article data |
| Metadata.FirstHeadingLine | dot.php:151 | finds the first line that starts with `# ` |
| Metadata.Headline | dot.php:151-152 | the rest of the first `# ` line, or `Untitled` when there is none |
| Metadata.SummaryEnd | dot.php:155 | the lazy group stops at the first blank line or at the end |
| Metadata.Summary | dot.php:155-156 | empty when there is no blank line; otherwise trimmed and free of blank lines |
| Metadata.SummaryOf | dot.php:155-156 | the value: when the first `\n\n` is at p and the first stop after it (a `\n\n` or the end) at e, the summary is `trim` of the text between |
| Metadata.SummaryHasNoBlankLine | dot.php:155 | the captured summary contains no blank line |
| Metadata.ByLineAt | dot.php:159 | the line after a heading line reads `by <author>, <date>`, with the author ending at the first `, ` |
| Metadata.ByLineFrom | dot.php:159 | a by-line is split at its first `, ` |
| Metadata.ByLineText | dot.php:159 | the by-line is `by `, the author, `, `, and the rest of the line |
| Metadata.FirstByLine | dot.php:159 | a position it returns holds a heading line followed by a by-line |
| Metadata.FirstByLineIsFirst | dot.php:159 | no such line starts before the position FirstByLine returns, and none exists when it returns nothing |
| Metadata.FirstImage | dot.php:164 | finds the first `![...](...)` on one line |
| Metadata.ImageUrl | dot.php:164-165 | the URL of the first image, or empty; it holds no line feed and no `)` |
| Metadata.ImageUrlOf | dot.php:164-165 | the value: when the first image match `![alt](url)` starts at p, with both groups lazy, the image is exactly `url` |
| Metadata.ExtractArticleData | dot.php:146-171 | all defaults (`Untitled`, `Unknown Author`, `Unknown Date`, empty summary and image) where no match exists; the content is `markdownToHtml` in the source's order, framed in `<p>` |
| Rdrtpl.ArgMatch | schachtel/rdrtpl.php:19-21 | a match is a non-empty key of `A-Z0-9_`, `=`, and a value with no line feed, with at most one final line feed |
| Rdrtpl.ArgMatchComplete | schachtel/rdrtpl.php:19-21 | every argument of that form matches, with exactly that key and value |
| Rdrtpl.TokenOfIsToken | schachtel/rdrtpl.php:22 | the map key is `{{`, key characters, `}}` |
| Rdrtpl.TokenOfInjective | schachtel/rdrtpl.php:22 | different keys give different map keys |
| Rdrtpl.ParseVars | schachtel/rdrtpl.php:17-24 | the loop over the arguments from index 2 builds exactly `VarsOf(argv[2..])` |
| Rdrtpl.VarsOf | schachtel/rdrtpl.php:17-24 | the map built from the arguments has at most one entry per argument |
| Rdrtpl.VarsKeysAreTokens | schachtel/rdrtpl.php:22 | every key of the map is a token |
| Rdrtpl.VarsHasKey | schachtel/rdrtpl.php:18-23 | `{{KEY}}` is in the map exactly when some argument supplies KEY |
| Rdrtpl.LastWins | schachtel/rdrtpl.php:22 | `{{KEY}}` holds the decoding of the last argument that supplies KEY |
| Rdrtpl.LongestKey | schachtel/rdrtpl.php:27 | a key of the map, at most `n` long, that starts the text; no longer prefix up to `n` is a key, and none is when the result is empty |
| Rdrtpl.KeyAt | schachtel/rdrtpl.php:27 | `strtr`'s choice: the longest non-empty key at the position |
| Rdrtpl.Strtr | schachtel/rdrtpl.php:27 | `strtr` with a map that sends every key to itself returns the template unchanged |
| Rdrtpl.Render | schachtel/rdrtpl.php:1-27 | the output is a line feed, the blank line 2 outside `<?php`, followed by one `strtr` pass of the template over the parsed map |
| Rdrtpl.StrtrWithoutKeys | schachtel/rdrtpl.php:27 | a template with none of the keys is echoed unchanged |
| Rdrtpl.TokensPrefixFree | schachtel/rdrtpl.php:22 | no token is a proper prefix of another |
| Rdrtpl.TokenReplaced | schachtel/rdrtpl.php:27 | a token is replaced by its value verbatim, and the scan resumes after it: a value is never rescanned |
| Rdrtpl.SinglePassUnlikeRenderTemplate | schachtel/rdrtpl.php:27 | a value holding `{{B}}` stays as it is under `strtr`, while `renderTemplate` expands it |

## Left out

- File system and console: `init`, `createArticle`, `createPage`, `ensureDirectory`,
  `copyDirectory`, `clearDirectory`, `echo`, and the command lines of both scripts
  (dot.php:305-353, schachtel/rdrtpl.php:7-14). Directory listings, template files and
  Markdown contents are parameters. Files written are returned as a sequence of `Output`
  records in write order, so overwriting and directory creation are not modelled.
- `Build.RenderFolder` and `Build.BuildContent` do not model the `$articleData` variable that
  is reused across iterations. It is only read when a folder has Markdown, so the result is the same.
- `scandir` order and the `glob` order that picks the first Markdown file are the order of the
  given sequences.
- `base64_decode` is the function parameter `decode` and is not modelled. If it returns
  `false`, `strtr` treats that as the empty string; this is left to `decode`.
- PCRE is modelled only for the patterns used, with the line feed as the only newline.
  `\s` is space, tab, line feed, vertical tab, form feed and carriage return. The `/u` flag
  and UTF-8 are not modelled: characters are bytes.
- `htmlspecialchars` uses the PHP 8.1 defaults (`ENT_QUOTES`, `'` becomes `&#039;`). Invalid
  UTF-8 handling is not modelled.
- Markdown.ToHtml: when a text has unordered items only, the `<li>` span that is already
  wrapped in `<ul>` is wrapped again in `<ol>`, giving `<ul><ol>...</ol></ul>`. Both
  chains do this, as the source does, and no property is proved about list nesting.
- Metadata.Headline: the headline is the captured text without `trim`, as dot.php:152 stores it.
- Tag safety is proved for the `content` field only. The headline, summary, author, date and
  image are captured from the raw Markdown and go into the article template unescaped
  (dot.php:152-165, 129). The headline goes into the index item the same way (dot.php:140, 179).
  Markup written in those parts of an article reaches the page as it is.
- Tag safety says where a `<` may stand, not what an attribute value holds. The link step
  (dot.php:281) runs before the image step (dot.php:284), so a link's output can become an
  image's captured URL, and its `"` then ends the `src` value early. The body
  `[![a](b)]([d](onerror=x))` becomes `<a href="b"><img src="<a href="onerror=x">d</a>" alt="a</a>">`,
  in which `onerror=x` stands as an attribute of an emitted `<img>`. No property about
  attribute values is proved.
- `strtr` ignores an empty key. That case cannot arise in the script, because every key is a
  token of at least five characters; `Rdrtpl.KeyAt` skips empty keys all the same.

## Findings

| source | as written | input that shows it | evidently intended | confidence | as-written member | corrected member |
|---|---|---|---|---|---|---|
| dot.php:280-284 | the link substitution runs before the image substitution | `![a](u)` becomes `!<a href="u">a</a>` | an `<img src="u" alt="a">` | not executed | Markdown.LinkBeforeImage | Markdown.ImageBeforeLink |
| dot.php:277-295 | fenced code runs last, after inline code and six other steps | after the inline code step no two backticks are adjacent, and the link, image and list steps keep it so; for every input (```` ```c``` ```` among them) the fence step changes nothing | a `<pre><code>c</code></pre>` block | not executed | FenceOrder.AsWrittenFenceIsIdle | Markdown.FenceBeforeInlineCode |

`Markdown.ToHtmlAsWritten` keeps the order of the source, and `Metadata.ExtractArticleData`
and the build use it, so the pages and the index are those the program writes.
`Markdown.ToHtml` is the corrected chain: fenced code, inline code, images, links.
