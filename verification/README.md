# nuxt-blog-starter in Dafny

A Dafny model of the logic inside nuxt-blog-starter, a Nuxt blog that keeps
its posts as markdown files. It covers four pieces.

- **The build-time RSS feed** (`utils/generateRSSFeed.ts`):
  - a depth-first walk of the content directory that turns every readable
    `.md` file into a post;
  - a regular-expression markdown-to-HTML renderer;
  - the selection of the twenty newest published posts and their mapping
    to feed items.
- **The server feed route** (`server/routes/feed.xml.ts`): the same
  selection made by the content-query engine. Body text comes from a string
  body or from a flattening of the parsed markdown tree, and the path, title
  and URL path each have their own fallback chain.
- **Pagination** (`app/composables/usePagination.ts`): the defaults, one
  page of the published posts (newest first), the published count, and the
  page count `Math.ceil(totalCount / postsPerPage)`.
- **The sitemap source** (`server/api/__sitemap__/urls.ts`): one
  `{loc, lastmod}` entry per record.

Modules:

- `Strings`: the JavaScript string built-ins the code uses.
  - `trim` and the `\s` class over the JavaScript whitespace set;
  - `split` and `join`;
  - truthiness of optional strings and `||`;
  - `startsWith` and `endsWith`;
  - the one-character global replacements;
  - `split('/').pop()`;
  - `replace(/\s+/g, '-')`;
  - `toLowerCase`.
- `Paths`: the path and title derivations shared by the three consumers.
- `Query`: the contract of the array chain `filter` / `sort` / `slice` and of
  the content query's `where` / `order` / `skip` / `limit`.
  - It is a stable newest-first insertion sort with SQL `OFFSET`/`LIMIT`
    windows.
  - Its window lemmas are reused by the build feed, the route and
    pagination.
- `Markdown`: the renderer.
  - Each regular expression is a left-to-right scanner, and the scanners are
    composed in source order.
  - The chain is a list of steps: three header passes, eight inline passes,
    then the paragraph stage.
- `ContentReader`: the walk.
  - The filesystem is a tree of `Directory`/`File` entries.
  - The front-matter parser's output is an input value.
  - `class PostCollector` holds the shared `posts` array, and
    `ReadDirectory` is its loop.
  - A reference definition (list every file, keep the `.md` ones) is proved
    equal to the walk.
- `BuildFeed`: the selection and the items. `class Feed` stands for the
  feed object that `addItem` mutates.
- `Collection`: the records of the server-side `content` collection, shared
  by the route, pagination and the sitemap.
- `FeedRoute`: `extractText`, the body dispatch, the fallbacks and the route
  handler.
- `Pagination`: `usePagination`.
- `Sitemap`: the sitemap handler.

Dates are integers, and "now" is a parameter. A content store that lacks a
collection stands for a query that fails.

## Model

| member | source | states |
|---|---|---|
| Strings.Or | server/routes/feed.xml.ts:58 | `o \|\| fallback` on an optional string: the value when present and non-empty (and then the result is non-empty), the fallback otherwise |
| Strings.TrimStart | utils/generateRSSFeed.ts:93 | never longer than the input; what it drops from the front is all whitespace, and what remains does not start with whitespace |
| Strings.TrimStartSuffix | utils/generateRSSFeed.ts:93 | what `trimStart` keeps is a suffix of its input |
| Strings.TrimEnd | utils/generateRSSFeed.ts:93 | the result is a prefix of the input, what it drops is all whitespace, and what remains does not end in whitespace |
| Strings.Trim | utils/generateRSSFeed.ts:93 | `trim` is never longer than its input and leaves no whitespace at either end (`TrimSlice` says which slice it keeps) |
| Strings.TrimSlice | utils/generateRSSFeed.ts:93 | `trim` keeps a contiguous slice of its input, drops only whitespace on either side, and leaves no whitespace at either end |
| Strings.TrimFixpoint | utils/generateRSSFeed.ts:93 | a string with no whitespace at either end is its own trim |
| Strings.TrimIdempotent | utils/generateRSSFeed.ts:93 | trimming twice is trimming once |
| Strings.TrimAllSpace | server/routes/feed.xml.ts:45 | a string made only of whitespace trims to '' |
| Strings.IndexFrom | utils/generateRSSFeed.ts:92 | finds the first occurrence of the separator at or after a position, or reports that none follows |
| Strings.Split | utils/generateRSSFeed.ts:92 | `split` always yields at least one piece |
| Strings.Join | utils/generateRSSFeed.ts:102 | `join` of no pieces is '' and of one piece is that piece; `JoinSplit` and `SplitJoin` tie it to `split` for any number of pieces |
| Strings.JoinSplit | utils/generateRSSFeed.ts:92 | joining the pieces of a split with the separator gives back the string |
| Strings.SplitPiecesFree | utils/generateRSSFeed.ts:92 | no piece of a split contains the separator |
| Strings.SplitJoin | utils/generateRSSFeed.ts:92 | splitting a join gives back the pieces, when no piece contains the separator or lets one straddle its end |
| Strings.JoinBlank | server/routes/feed.xml.ts:45 | empty strings joined with a whitespace separator give only whitespace |
| Strings.ReplaceChar | utils/generateRSSFeed.ts:107 | `replace(/-/g, ' ')`: same length, each `from` becomes `to`, every other character is kept |
| Strings.ReplaceCharBy | utils/generateRSSFeed.ts:100 | `replace(/\n/g, '<br>')`: no `\n` is left, and a string without one is unchanged; its exact value is given by `ReplaceCharByOne` and `ReplaceCharByAppend` |
| Strings.ReplaceCharByOne | utils/generateRSSFeed.ts:100 | on one character: `\n` becomes `<br>`, and any other character is kept |
| Strings.ReplaceCharByAppend | utils/generateRSSFeed.ts:100 | the replacement works character by character: it distributes over concatenation, so every `\n` becomes `<br>` and everything else is copied in order |
| Strings.LastSegment | utils/generateRSSFeed.ts:107 | `split('/').pop()` holds no '/' and is no longer than the string |
| Strings.LastSegmentSuffix | utils/generateRSSFeed.ts:107 | the last segment is a suffix that is either the whole string or preceded by a '/' |
| Strings.LastSegmentOfSuffix | utils/generateRSSFeed.ts:107 | the last segment of `x/` followed by a slash-free name is that name |
| Strings.LastSegmentOfName | utils/generateRSSFeed.ts:107 | a slash-free name is its own last segment |
| Strings.Lower | server/routes/feed.xml.ts:52 | same length; each capital A–Z becomes the lower-case letter 32 code points above it, every other character is kept, and so no capital remains and whitespace stays whitespace |
| Strings.SpaceRun | server/routes/feed.xml.ts:52 | the length of the maximal leading run of whitespace |
| Strings.DashSpaces | server/routes/feed.xml.ts:52 | `replace(/\s+/g, '-')` leaves no whitespace, is empty exactly when the input is, never grows, and leaves whitespace-free text alone; the run-by-run value is given by the `DashSpaces*` lemmas below |
| Strings.SpaceRunAppend | server/routes/feed.xml.ts:52 | the leading whitespace run of `x + y` is that of `x` when it stops inside `x`, otherwise all of `x` followed by the run of `y` |
| Strings.DashSpacesRun | server/routes/feed.xml.ts:52 | a maximal leading run of whitespace becomes exactly one '-', and the replacement goes on after the run |
| Strings.DashSpacesChar | server/routes/feed.xml.ts:52 | a leading character that is not whitespace is copied, and the replacement goes on after it |
| Strings.DashSpacesOfSpace | server/routes/feed.xml.ts:52 | a non-empty all-whitespace string becomes a single '-' |
| Strings.DashSpacesWord | server/routes/feed.xml.ts:52 | a leading whitespace-free word is copied as it is |
| Paths.StripMd | utils/generateRSSFeed.ts:104 | removes one trailing `.md` when there is one (adding `.md` back gives the input), and otherwise changes nothing |
| Paths.StripMdInverse | utils/generateRSSFeed.ts:104 | stripping undoes appending `.md`, and strips it only once |
| Paths.LeadingSlash | utils/generateRSSFeed.ts:33 | the result starts with '/'; a path that already starts with '/' is unchanged, and any other path gets exactly one '/' in front |
| Paths.LeadingSlashIdempotent | utils/generateRSSFeed.ts:33 | applying it twice is applying it once |
| Paths.FallbackTitle | utils/generateRSSFeed.ts:107 | the fallback title is non-empty and slash-free, and is 'Untitled' when the last segment is empty |
| Paths.FallbackTitleOfSegment | utils/generateRSSFeed.ts:107 | with a non-empty last segment, the title is that segment with each '-' read as ' ', character by character |
| Paths.TitleSlug | server/routes/feed.xml.ts:52 | for a truthy title the slug is '/' followed by the title with each whitespace run replaced by '-' and then lowered; without one it is '/untitled'; it starts with '/', has at least two characters and is at most one longer than the title |
| Paths.TitleSlugClean | server/routes/feed.xml.ts:52 | the slug holds no whitespace and no capital, and a whitespace-free title is only lowered |
| Paths.TitleSlugWords | server/routes/feed.xml.ts:52 | two words around a whitespace run give '/' followed by the lowered words joined by a single '-' |
| Paths.JoinRelativeLast | utils/generateRSSFeed.ts:64 | the relative path of an entry ends in the entry's name, and at the top level it is the name itself |
| Query.Map | utils/generateRSSFeed.ts:32-43 | one output per input |
| Query.MapAt | utils/generateRSSFeed.ts:32-43 | the output at each position is the function of the input at that position |
| Query.MapSnoc | utils/generateRSSFeed.ts:32-43 | mapping one more element appends its image |
| Query.NoLaterTotal | utils/generateRSSFeed.ts:30 | the date order is total, and antisymmetric |
| Query.Dated | utils/generateRSSFeed.ts:30 | the records of one date, in order; each has that date |
| Query.Insert | utils/generateRSSFeed.ts:30 | insertion adds exactly the one element (as a multiset) |
| Query.SortNewestFirst | utils/generateRSSFeed.ts:30 | the sort is a permutation of its input |
| Query.InsertSorted | utils/generateRSSFeed.ts:30 | inserting into a newest-first list keeps it newest first |
| Query.SortSorted | utils/generateRSSFeed.ts:30 | the sort orders newest first |
| Query.InsertStable | utils/generateRSSFeed.ts:30 | insertion puts the new element ahead of the elements of its own date, and keeps their order |
| Query.SortStable | utils/generateRSSFeed.ts:30 | the sort is stable: the records of each date keep their input order |
| Query.DatedPrefix | utils/generateRSSFeed.ts:31 | the records of one date in a prefix are the first records of that date |
| Query.Limit | utils/generateRSSFeed.ts:31 | `slice(0, n)` / `LIMIT n`: a prefix of length `min(n, len)`; a negative limit keeps everything |
| Query.Offset | app/composables/usePagination.ts:27 | `OFFSET n`: a suffix of length `max(0, len - n)`; a non-positive offset skips nothing |
| Query.Filter | utils/generateRSSFeed.ts:29 | an element is in the result exactly when it is in the input and passes; the result is no longer than the input (order and multiplicity are stated by `FilterOne` and `FilterAppend`) |
| Query.FilterAll | app/composables/usePagination.ts:30-32 | a filter every element passes keeps them all |
| Query.FilterOne | utils/generateRSSFeed.ts:29 | a single element is kept exactly when it passes |
| Query.FilterAppend | utils/generateRSSFeed.ts:29 | the filter distributes over concatenation, so it keeps the input order and every copy of a passing element |
| Query.Newest | utils/generateRSSFeed.ts:28-31 | everything selected comes from the input and passes the filter |
| Query.NewestAtMost | utils/generateRSSFeed.ts:31 | a selection limited to `n >= 0` holds at most `n` elements |
| Query.NewestWindow | app/composables/usePagination.ts:24-29 | the selection is a run of consecutive elements of the sorted, filtered list, starting at the offset |
| Query.NewestSize | utils/generateRSSFeed.ts:29-31 | the selection holds `min(n, max(0, passing - skip))` elements |
| Query.NewestOrdered | utils/generateRSSFeed.ts:30 | the selection is newest first |
| Query.SliceNewestFirst | utils/generateRSSFeed.ts:30-31 | any run of consecutive elements of a newest-first list is newest first |
| Query.NewestMostRecent | utils/generateRSSFeed.ts:28-31 | a passing element left out of a first window is no later than anything in it |
| Query.NewestStable | utils/generateRSSFeed.ts:30-31 | the records of a date in a first window are the first ones of that date, in input order |
| Markdown.LineEnd | utils/generateRSSFeed.ts:76-78 | where `(.*$)` stops under the `m` flag: no line terminator before it, and a terminator at it unless the text ends |
| Markdown.LineEndOfLine | utils/generateRSSFeed.ts:76-78 | `(.*$)` on a line without terminators, followed by a terminator or the end, captures the whole line |
| Markdown.HeaderPass | utils/generateRSSFeed.ts:76-78 | on a single line (no terminator inside), one header pass rewrites exactly as `HeaderOnLine` prescribes for its level |
| Markdown.HeaderOnLineKeepsLine | utils/generateRSSFeed.ts:76-78 | rewriting a line as a header introduces no line terminator |
| Markdown.HeaderLine | utils/generateRSSFeed.ts:76-78 | on one line: `### x` gives `<h3>x</h3>`, otherwise `## x` gives `<h2>x</h2>`, otherwise `# x` gives `<h1>x</h1>`, otherwise the line is kept |
| Markdown.Headers | utils/generateRSSFeed.ts:76-78 | on a single line, the three header passes together act exactly as `HeaderLine`, so no line gets two header tags |
| Markdown.HeadersOnOneLine | utils/generateRSSFeed.ts:76-78 | the `###`, `##` and `#` passes composed in source order on one line give `HeaderLine` |
| Markdown.ThreePassesOnLine | utils/generateRSSFeed.ts:76-78 | the `###`, `##` and `#` passes applied one after another to a single line give `HeaderLine` |
| Markdown.HeadersOnLines | utils/generateRSSFeed.ts:76-78 | the three passes rewrite each line independently |
| Markdown.PassOnLines | utils/generateRSSFeed.ts:76 | one header pass rewrites the first line and continues after its terminator |
| Markdown.NoHeading | utils/generateRSSFeed.ts:76-78 | a line that does not open with '#' passes the header passes unchanged |
| Markdown.CharFrom | utils/generateRSSFeed.ts:86 | where a negated class like `[^\]]+` stops: the first such character after the start, or the end |
| Markdown.CharFromFinds | utils/generateRSSFeed.ts:86 | when no such character comes between the start and position `n`, and one sits at `n`, the scan stops at `n` |
| Markdown.LazyClose | utils/generateRSSFeed.ts:80-84 | where the lazy `(.*?)` stops: the first closing delimiter, with no line terminator before it (`LazyCloseNone` states when there is none) |
| Markdown.LazyCloseFinds | utils/generateRSSFeed.ts:80-84 | when no delimiter start or line terminator comes before a delimiter at `n`, the lazy match closes at `n` |
| Markdown.LazyCloseNone | utils/generateRSSFeed.ts:80-84 | the lazy match fails exactly when no delimiter starts anywhere from the start through the end of the line, and when it succeeds it closes no later than the end of the line |
| Markdown.MatchEmphasis | utils/generateRSSFeed.ts:80-84 | a match consumes something and starts with the delimiter (what it matches and emits, and when it fails, are stated by the three lemmas below) |
| Markdown.MatchEmphasisNone | utils/generateRSSFeed.ts:80-84 | no match exactly when the text does not open with the delimiter, or no closing delimiter starts before the end of that line |
| Markdown.MatchEmphasisFound | utils/generateRSSFeed.ts:80-84 | a match spans the opening delimiter, a body on one line in which no delimiter starts, and the first closing delimiter; it emits the opening tag, the body and the closing tag |
| Markdown.EmphasisMatch | utils/generateRSSFeed.ts:80-84 | `d x d` followed by anything, with `x` on one line and free of the delimiter's first character, matches exactly `d x d` and emits `open x close` |
| Markdown.MatchLink | utils/generateRSSFeed.ts:86 | a link match consumes something and starts with '[' (its form and output are stated by the lemmas below) |
| Markdown.MatchLinkOf | utils/generateRSSFeed.ts:86 | `[t](u)` followed by anything, with `t` non-empty without ']' and `u` non-empty without ')', matches exactly `[t](u)` and emits `<a href="u">t</a>` |
| Markdown.MatchLinkShape | utils/generateRSSFeed.ts:86 | conversely, every link match is '[', a text up to the first ']', then '(', a URL and ')', and emits the anchor of that URL and text |
| Markdown.MatchLinkFree | utils/generateRSSFeed.ts:86 | in every link match the text is non-empty without ']' and the URL is non-empty without ')', as `[^\]]+` and `[^)]+` demand |
| Markdown.LinkSlices | utils/generateRSSFeed.ts:86 | the matched prefix reads `[` text `](` URL `)` |
| Markdown.NoLinkMatch | utils/generateRSSFeed.ts:86 | `[t]` not followed by '(' is no link |
| Markdown.BracketCopied | utils/generateRSSFeed.ts:86 | the link pass copies the '[' of such text and goes on after it |
| Markdown.NotALink | utils/generateRSSFeed.ts:86 | with no further '[' after it, the link pass leaves `[t]` and what follows unchanged |
| Markdown.MatchImage | utils/generateRSSFeed.ts:88 | an image match consumes something and starts with '!' (its form and output are stated by the lemmas below) |
| Markdown.MatchImageOf | utils/generateRSSFeed.ts:88 | `![a](u)` followed by anything, with `a` free of ']' (possibly empty) and `u` non-empty without ')', matches exactly `![a](u)` and emits `<img src="u" alt="a" />` |
| Markdown.MatchImageShape | utils/generateRSSFeed.ts:88 | conversely, every image match is `![`, an alt text up to the first ']', then '(', a URL and ')', and emits the `<img>` of that URL and alt text |
| Markdown.MatchImageFree | utils/generateRSSFeed.ts:88 | in every image match the alt text has no ']' and the URL is non-empty without ')' |
| Markdown.ImageSlices | utils/generateRSSFeed.ts:88 | the matched prefix reads `![` alt `](` URL `)` |
| Markdown.MatchCode | utils/generateRSSFeed.ts:90 | a code match consumes something and starts with a back-quote (its form and output are stated by the lemmas below) |
| Markdown.MatchCodeOf | utils/generateRSSFeed.ts:90 | a back-quote, a non-empty `x` without back-quotes and a back-quote, followed by anything, match exactly that span and emit `<code>x</code>` |
| Markdown.MatchCodeShape | utils/generateRSSFeed.ts:90 | conversely, every code match is a back-quoted non-empty span without inner back-quotes, and emits `<code>` around its inside |
| Markdown.MatchAt | utils/generateRSSFeed.ts:80-90 | any match consumes something and starts with the pattern's leading character (each pattern's own lemmas above say what it matches) |
| Markdown.ReplaceAllStep | utils/generateRSSFeed.ts:80-90 | a global replacement emits the replacement for a match at the start and resumes after it, or else copies one character |
| Markdown.CopiedFirst | utils/generateRSSFeed.ts:80-90 | where no match starts, a global replacement copies one character and goes on with the rest |
| Markdown.ReplacedByMatch | utils/generateRSSFeed.ts:80-90 | where a match starts, a global replacement emits its output and resumes right after it |
| Markdown.Untouched | utils/generateRSSFeed.ts:80-90 | a pass leaves alone text that lacks its leading character |
| Markdown.CopiesPrefix | utils/generateRSSFeed.ts:80-90 | a pass copies a prefix that lacks its leading character |
| Markdown.UntouchedEmphasis | utils/generateRSSFeed.ts:80-84 | an emphasis pass leaves alone text without its delimiter |
| Markdown.EmphasisReplaced | utils/generateRSSFeed.ts:80-84 | `d x d` becomes `open x close` when `x` stays on one line and has no delimiter character |
| Markdown.UnclosedBoldNoMatch | utils/generateRSSFeed.ts:81 | `**` with no '*' after it on the text is no bold match |
| Markdown.UnclosedBoldCopied | utils/generateRSSFeed.ts:81 | the `**` pass copies such unclosed text unchanged |
| Markdown.LinkReplaced | utils/generateRSSFeed.ts:86 | `[t](u)` becomes `<a href="u">t</a>` |
| Markdown.ImageReplaced | utils/generateRSSFeed.ts:88 | `![a](u)` becomes `<img src="u" alt="a" />` in the image pass |
| Markdown.CodeReplaced | utils/generateRSSFeed.ts:90 | a back-quoted `x` becomes `<code>x</code>` |
| Markdown.BangLinkToAnchor | utils/generateRSSFeed.ts:86 | the link pass rewrites the bracket part of `![a](u)` when `a` is non-empty |
| Markdown.ImageWithAltBecomesLink | utils/generateRSSFeed.ts:86-88 | because links run first, `![a](u)` with non-empty alt comes out as `!` followed by an anchor, never an `<img>` |
| Markdown.EmptyAltSkipsLink | utils/generateRSSFeed.ts:86 | the link pass does not touch `![](u)` |
| Markdown.ImageWithoutAltBecomesImg | utils/generateRSSFeed.ts:86-88 | only an empty-alt image reaches the image pass and becomes an `<img>` |
| Markdown.UnderscoresInUrl | utils/generateRSSFeed.ts:84-86 | the underscore passes run before the link pass, so `[t](a_b_c)` becomes an anchor whose `href` holds `a<em>b</em>c` |
| Markdown.ItalicInUrl | utils/generateRSSFeed.ts:84 | the single-underscore pass rewrites underscores inside a link's URL |
| Markdown.ItalicThenLink | utils/generateRSSFeed.ts:84-86 | the single-underscore pass puts `<em>` into a link's URL, and the link pass then wraps it in an anchor |
| Markdown.RenderBlock | utils/generateRSSFeed.ts:95-101 | a block that opens with `<h`, `<img`, `<ul` or `<ol` is kept as it is; any other becomes `<p>`, the block with every `\n` turned into `<br>`, and `</p>`, which holds no newline |
| Markdown.Blocks | utils/generateRSSFeed.ts:93-94 | the kept blocks are non-empty and no more than the pieces (which pieces, and how, is stated by `BlocksOne` and `BlocksAppend`) |
| Markdown.BlocksOne | utils/generateRSSFeed.ts:93-94 | a piece is kept, trimmed, when its trim is non-empty, and dropped otherwise |
| Markdown.BlocksAppend | utils/generateRSSFeed.ts:93-94 | trimming and filtering works piece by piece: it distributes over concatenation, keeping the order of the pieces |
| Markdown.RenderBlocks | utils/generateRSSFeed.ts:95-101 | each block is rendered on its own, in order |
| Markdown.BlocksAreClean | utils/generateRSSFeed.ts:92-94 | every block the paragraph stage renders is non-empty, trimmed and free of blank lines |
| Markdown.BlocksOfClean | utils/generateRSSFeed.ts:93-94 | trimmed, non-empty blocks pass the trim-and-filter stage unchanged |
| Markdown.ParagraphsOfBlocks | utils/generateRSSFeed.ts:92-102 | clean blocks separated by blank lines are rendered one by one and joined with single newlines |
| Markdown.OneBlock | utils/generateRSSFeed.ts:92-102 | a trimmed one-line block is rendered by `RenderBlock` alone |
| Markdown.OneParagraph | utils/generateRSSFeed.ts:100 | a trimmed one-line block that is not a block tag becomes one `<p>` element |
| Markdown.Inline | utils/generateRSSFeed.ts:80-90 | the inline passes leave alone text with no pattern's leading character |
| Markdown.Render | utils/generateRSSFeed.ts:74-102 | the HTML is the paragraph stage applied to the inline passes applied to the header passes |
| Markdown.ChainStages | utils/generateRSSFeed.ts:74-102 | every step of the chain of eleven replacements and the paragraph stage is well formed, and running the chain in source order is that composition |
| Markdown.HeadingLine | utils/generateRSSFeed.ts:78 | `# t` on one line becomes `<h1>t</h1>` |
| Markdown.KeptBlock | utils/generateRSSFeed.ts:97 | an inert one-line heading element passes the inline and paragraph stages unchanged |
| Markdown.RenderHeading | utils/generateRSSFeed.ts:74-102 | `# t` renders to `<h1>t</h1>`, not wrapped in a paragraph |
| Markdown.BoldItalicSkips | utils/generateRSSFeed.ts:80 | the `***` pass leaves `**x**` alone |
| Markdown.BoldStarsReplaced | utils/generateRSSFeed.ts:81 | the `**` pass turns `**x**` into `<strong>x</strong>` |
| Markdown.InlineBold | utils/generateRSSFeed.ts:80-90 | the inline passes turn `**x**` into `<strong>x</strong>` |
| Markdown.RenderBold | utils/generateRSSFeed.ts:74-102 | `**x**` renders to `<p><strong>x</strong></p>` |
| Markdown.InlineLink | utils/generateRSSFeed.ts:80-90 | the inline passes turn `[t](u)` into an anchor |
| Markdown.RenderLink | utils/generateRSSFeed.ts:74-102 | `[t](u)` renders to a paragraph holding `<a href="u">t</a>` |
| ContentReader.Post.Title | utils/generateRSSFeed.ts:107 | the title is non-empty; it is the front-matter title when truthy, else a slash-free fallback |
| ContentReader.Post.Description | utils/generateRSSFeed.ts:108 | the front-matter description when truthy, else '' |
| ContentReader.Post.Date | utils/generateRSSFeed.ts:109 | the front-matter date when present, else the clock reading |
| ContentReader.Post.Draft | utils/generateRSSFeed.ts:110 | a draft exactly when the front matter says so |
| ContentReader.Post.Path | utils/generateRSSFeed.ts:104-111 | the path is '/' followed by the relative path with its `.md` stripped |
| ContentReader.MakePosts | utils/generateRSSFeed.ts:106-113 | one post per source |
| ContentReader.MakePostsAt | utils/generateRSSFeed.ts:106-113 | each post is made from the source at the same position |
| ContentReader.MakePostsAppend | utils/generateRSSFeed.ts:106 | pushing posts for two runs of sources appends their posts |
| ContentReader.AllPosts | utils/generateRSSFeed.ts:56-123 | a root that is a file, or that cannot be listed, makes the walk throw |
| ContentReader.ListingFailureSticks | utils/generateRSSFeed.ts:60-67 | once a listing fails, the walk of the directory fails, whatever follows |
| ContentReader.DirSources | utils/generateRSSFeed.ts:59-60 | a directory that cannot be listed makes its walk fail |
| ContentReader.PostCollector.constructor | utils/generateRSSFeed.ts:57 | the walk starts with no posts |
| ContentReader.PostCollector.ReadDirectory | utils/generateRSSFeed.ts:59-119 | the recursive walk reports success exactly when `DirSources` has a value; it then appends to `posts` one post per source, in order (see `DirSourcesReference` for what those sources are) |
| ContentReader.GetAllPosts | utils/generateRSSFeed.ts:56-123 | the method's result is `AllPosts` |
| ContentReader.Kept | utils/generateRSSFeed.ts:68-116 | the reference filter keeps no more files than it is given |
| ContentReader.KeptAppend | utils/generateRSSFeed.ts:62 | the reference filter works entry by entry |
| ContentReader.DirSourcesReference | utils/generateRSSFeed.ts:59-119 | walking a directory equals listing every file depth first and keeping the parsed `.md` ones, or fails when a directory cannot be listed |
| ContentReader.ListingReference | utils/generateRSSFeed.ts:62-118 | the same for the first `n` entries of a directory |
| ContentReader.AllPostsReference | utils/generateRSSFeed.ts:56-123 | `getAllPosts` resolves exactly when every directory is readable, and then gives one post per parsed `.md` file, in depth-first listing order |
| ContentReader.SkippedFile | utils/generateRSSFeed.ts:114-116 | a file that fails to read or parse, or is not `.md`, adds nothing and changes nothing around it |
| ContentReader.MarkdownFile | utils/generateRSSFeed.ts:68-113 | a parsed `.md` file adds exactly its own post, between those before and after it |
| ContentReader.NestedStem | utils/generateRSSFeed.ts:104 | `d/stem.md` loses exactly its `.md` |
| ContentReader.NestedPost | utils/generateRSSFeed.ts:64-111 | `stem.md` in `d` without a title has path `/d/stem` and title `stem` with '-' read as ' ' |
| ContentReader.FooBarExample | utils/generateRSSFeed.ts:104-111 | `foo/bar.md` has path `/foo/bar` and, without a title, title `bar` |
| BuildFeed.Published | utils/generateRSSFeed.ts:29 | a post is kept exactly when it is a post of the walk that is not a draft; no more than the posts |
| BuildFeed.Selected | utils/generateRSSFeed.ts:28-31 | at most twenty posts, each a post of the walk that is not a draft |
| BuildFeed.ItemOf | utils/generateRSSFeed.ts:33-42 | id and link are both the base URL plus the post path; title, date and description are the post's; content is the rendered body, or the description when that is empty |
| BuildFeed.Items | utils/generateRSSFeed.ts:32-43 | one item per post |
| BuildFeed.ItemsAt | utils/generateRSSFeed.ts:32-43 | each item is made from the post at the same position |
| BuildFeed.ItemDate | utils/generateRSSFeed.ts:41 | each item's date is the date of the post at the same position |
| BuildFeed.ItemsPrefix | utils/generateRSSFeed.ts:32-35 | each post of the `forEach` adds its item at the end |
| BuildFeed.Feed.constructor | utils/generateRSSFeed.ts:9-20 | a new feed has no items |
| BuildFeed.Feed.AddItem | utils/generateRSSFeed.ts:35-42 | `addItem` appends the item |
| BuildFeed.AddPosts | utils/generateRSSFeed.ts:32-43 | the `forEach` appends the items of the posts, in order |
| BuildFeed.FeedItems | utils/generateRSSFeed.ts:22-53 | a feed is produced exactly when the walk succeeds |
| BuildFeed.GenerateRSSFeed | utils/generateRSSFeed.ts:6-54 | the method produces `FeedItems`: the items of the selected posts, or nothing when the walk throws |
| BuildFeed.FeedSize | utils/generateRSSFeed.ts:29-31 | the feed holds `min(20, number of published posts)` items |
| BuildFeed.FeedItemsPublished | utils/generateRSSFeed.ts:29 | every item comes from a post of the walk that is not a draft |
| BuildFeed.FeedNewestFirst | utils/generateRSSFeed.ts:30 | item dates never increase along the feed |
| BuildFeed.ItemsNewestFirst | utils/generateRSSFeed.ts:30-43 | the items of newest-first posts have dates that never increase |
| BuildFeed.FeedMostRecent | utils/generateRSSFeed.ts:30-31 | a published post left out is no later than every post in the feed |
| BuildFeed.FeedStable | utils/generateRSSFeed.ts:30 | posts of the same date enter the feed in walk order |
| BuildFeed.FeedLinks | utils/generateRSSFeed.ts:33-38 | every item's id equals its link and starts with the base URL and '/' |
| BuildFeed.ItemLink | utils/generateRSSFeed.ts:33-38 | the same for the item of a single post |
| FeedRoute.ExtractText | server/routes/feed.xml.ts:39-46 | `extractText` never returns text with whitespace at either end, and gives '' for no nodes |
| FeedRoute.JoinTexts | server/routes/feed.xml.ts:45 | `join(' ').trim()` leaves no whitespace at either end, and gives '' for no texts |
| FeedRoute.TextOf | server/routes/feed.xml.ts:41-44 | a text node contributes `value \|\| ''`; any other node contributes text with no whitespace at either end, and '' when it has no children |
| FeedRoute.TextOfParent | server/routes/feed.xml.ts:42-43 | a non-text node with children contributes its children's extraction, whether it is an element or not |
| FeedRoute.ExtractSingle | server/routes/feed.xml.ts:41-45 | a lone node yields its contribution trimmed; a text node yields its value (or '') trimmed |
| FeedRoute.ExtractWrapped | server/routes/feed.xml.ts:42-45 | wrapping nodes in a non-text parent does not change the extraction |
| FeedRoute.ExtractBlank | server/routes/feed.xml.ts:40-45 | nodes that contribute nothing leave no stray separators: the result is '' |
| FeedRoute.EmphasisExample | server/routes/feed.xml.ts:39-46 | an element around the text ` world ` contributes `world` |
| FeedRoute.ExtractExample | server/routes/feed.xml.ts:39-46 | the text `Hello` and that element flatten to `Hello world` |
| FeedRoute.BodyContent | server/routes/feed.xml.ts:33-49 | no body gives '', a string body is taken as it is, and a tree body gives its extracted text, trimmed, or '' without children |
| FeedRoute.Selected | server/routes/feed.xml.ts:20-24 | at most twenty records, each a record of the collection that is not a draft |
| FeedRoute.RoutePath | server/routes/feed.xml.ts:29 | the first truthy of `path`, `_path`, `_id`; '' exactly when none is truthy |
| FeedRoute.RouteTitle | server/routes/feed.xml.ts:30 | a non-empty title: the record's own when truthy, else the fallback title of the path |
| FeedRoute.UrlPath | server/routes/feed.xml.ts:52 | always starts with '/': a non-empty path that starts with '/' is kept, any other non-empty path gets one, and an empty path gives the slug of the record's title |
| FeedRoute.UrlPathFromTitle | server/routes/feed.xml.ts:52 | without a path, the URL path has no whitespace and no capital, and is '/untitled' without a title |
| FeedRoute.ItemOf | server/routes/feed.xml.ts:54-61 | id and link are both the base URL plus the URL path; description defaults to ''; content is the body text, else the description, else '' (empty exactly when both are); the date is the record's or now |
| FeedRoute.Items | server/routes/feed.xml.ts:27 | one item per record |
| FeedRoute.ItemsAt | server/routes/feed.xml.ts:27 | each item is made from the record at the same position |
| FeedRoute.ItemsPrefix | server/routes/feed.xml.ts:27 | each record of the `forEach` adds its item at the end |
| FeedRoute.RouteItems | server/routes/feed.xml.ts:18-66 | at most twenty items, and none when the collection cannot be queried |
| FeedRoute.AddRecord | server/routes/feed.xml.ts:28-61 | the callback, with its reassigned `content`, appends exactly `ItemOf` of the record |
| FeedRoute.AddRecords | server/routes/feed.xml.ts:27 | the `forEach` appends the items of the records, in order |
| FeedRoute.FeedXml | server/routes/feed.xml.ts:4-70 | the handler serves `RouteItems`, also when the query fails |
| FeedRoute.RouteSize | server/routes/feed.xml.ts:20-24 | the route serves `min(20, number of published records)` items |
| FeedRoute.RouteItemsPublished | server/routes/feed.xml.ts:21 | every item comes from a record of the collection that is not a draft |
| FeedRoute.RouteNewestFirst | server/routes/feed.xml.ts:22 | dated records come before undated ones, and the dates of dated records never increase |
| FeedRoute.RouteLinks | server/routes/feed.xml.ts:56-57 | every item's id equals its link and starts with the base URL and '/' |
| FeedRoute.ItemLink | server/routes/feed.xml.ts:52-57 | the same for the item of a single record |
| Pagination.CeilDiv | app/composables/usePagination.ts:43 | a whole number for a non-zero divisor; `Infinity` for a positive count over zero, `NaN` for 0/0 |
| Pagination.CeilDivBounds | app/composables/usePagination.ts:43 | the whole number is the ceiling: `(c-1)·d < n ≤ c·d` for `d > 0`, and the mirrored bounds for `d < 0` |
| Pagination.UsePagination | app/composables/usePagination.ts:15-52 | echoes the effective page and page size; the count is the number of published records, or 0 without a result (the page list then empty); page count is `CeilDiv` of the count; each page entry is a published record of the collection |
| Pagination.Defaults | app/composables/usePagination.ts:16-20 | without options: page 1, five a page, from `content` |
| Pagination.PageQuery | app/composables/usePagination.ts:24-29 | a page never holds more than a non-negative page size, and every entry is a published record of the collection |
| Pagination.PageWindow | app/composables/usePagination.ts:24-29 | the page is the slice of the sorted published records after `(page-1)·size` of them, `min(size, what is left)` long |
| Pagination.PageOrdered | app/composables/usePagination.ts:26 | the page is newest first |
| Pagination.CountIgnoresPage | app/composables/usePagination.ts:30-32 | the count and page count do not depend on the page asked for |
| Pagination.RecordOnPage | app/composables/usePagination.ts:27-28 | the published record at sorted place `i` is at place `i mod size` of page `i div size + 1` |
| Pagination.PageQueryAt | app/composables/usePagination.ts:24-29 | the page query for page `i div size + 1` holds sorted published record `i` at place `i mod size` |
| Pagination.LastPage | app/composables/usePagination.ts:27-43 | with a positive size, a page is empty exactly when it is past the last page |
| Pagination.EmptyPage | app/composables/usePagination.ts:24-43 | the page query of a positive size is empty exactly when the page number exceeds the ceiling of count over size |
| Pagination.PastLast | app/composables/usePagination.ts:43 | a page starts at or past the end exactly when its number exceeds the ceiling |
| Pagination.TwelveByFive | app/composables/usePagination.ts:24-43 | twelve published records at five a page: count 12, three pages, and page 3 holds two |
| Pagination.NoResult | app/composables/usePagination.ts:41-43 | without a result: no pages, count 0, and page count 0 for a positive size |
| Sitemap.Loc | server/api/__sitemap__/urls.ts:8 | non-empty: `path` when truthy (as it is, no slash added), else `_path`, else the title slug |
| Sitemap.UrlOf | server/api/__sitemap__/urls.ts:7-10 | `loc` as above; `lastmod` is the record's date, or now without one |
| Sitemap.UrlsOf | server/api/__sitemap__/urls.ts:7-10 | one entry per record, each made from the record at the same position |
| Sitemap.Urls | server/api/__sitemap__/urls.ts:3-15 | one entry per record of `content`, and none when the query fails |
| Sitemap.LocFromTitle | server/api/__sitemap__/urls.ts:8 | a location from the title starts with '/', has no whitespace and no capital, and is '/untitled' without a title |
| Sitemap.LocMatchesFeed | server/api/__sitemap__/urls.ts:8 | the sitemap and the feed route agree on a path that starts with '/', and on a record with no path at all |
| Sitemap.LocWithoutSlash | server/api/__sitemap__/urls.ts:8 | on `blog/hello` they disagree: the sitemap lists `blog/hello`, the feed `/blog/hello` |

## Left out

- RSS 2.0 serialisation is not modelled. This covers the `feed` library's constructor and metadata and `rss2()`. The model stops at the list of items handed to `addItem`.
- The front-matter parser is not modelled: its output, or its failure, is an input of each file.
- Filesystem I/O is not modelled. `readdir` becomes the `Entry` tree, where an unlistable directory is `readable == false`. `readFile` failures become `parsed == None`. `writeFile` becomes the returned items.
- Logging (`console.*`) and the `setHeader` response header are not modelled.
- The clock is not modelled: `new Date()` is the parameter `now`, one reading for the whole run. The code reads the clock afresh for every undated post or record (utils/generateRSSFeed.ts:109, server/routes/feed.xml.ts:60, server/api/__sitemap__/urls.ts:9). In the model all undated posts share one date, tie in the sort and keep walk order (as `BuildFeed.FeedStable` states). In the code a post read later can get a later time and sort ahead of them.
- JavaScript `Date` parsing is not modelled.
  - Dates are integers.
  - A date field that is absent or empty is `None`; an unparseable date (`NaN`) is not modelled.
  - The build sort compares `getTime()` values, modelled as integers.
- The query engine and the async data layer are modelled only by their filter/sort/skip/limit/count contract. This leaves out `queryCollection`, `useAsyncData` (its cache key and reactivity) and `Promise.all`.
  - The query engine does not promise an order for equal dates; the model keeps collection order, as a stable sort would.
  - Offsets and limits follow SQLite: a negative offset skips nothing and a negative limit keeps everything.
  - A record's `draft` is a boolean; records with a missing `draft` field are not modelled.
- Errors thrown inside the route's `forEach` callback are not modelled (for example a non-string `path`). Only a failing query is modelled: it leads to an empty feed.
- Pagination options are integers. Fractional page numbers and sizes, and `NaN` options, are not modelled.
- Whitespace is the fixed ECMAScript set (WhiteSpace plus LineTerminator). Strings are sequences of Unicode scalar values rather than UTF-16 code units.
- Strings.Lower: lowers only the ASCII letters A–Z, while `toLowerCase` also lowers non-ASCII letters.
- ContentReader.Post: a post keeps the file's relative path, its parsed contents and the clock reading, and its six fields are functions of those. The object literal the walk pushes is not stored field by field.
- ContentReader.Post.Title: its contract states only that the fallback is slash-free. The exact fallback text is stated by Paths.FallbackTitleOfSegment, and for paths of the form `d/stem.md` by ContentReader.NestedPost.
- Paths.FallbackTitle: its contract states only non-emptiness, the absence of '/' and the 'Untitled' case. The character-by-character content is in Paths.FallbackTitleOfSegment.
- An unreadable directory: `getAllPosts` throws, and `generateRSSFeed` catches the error before `writeFile`, so no feed file is written at all (`BuildFeed.FeedItems` is `None`). An unreadable subdirectory ends the whole walk in the same way, not just that directory.
- The sitemap module's own configuration and the Nuxt and Tailwind configuration files hold no logic and are not modelled.
- Markdown.LazyClose: its own contract gives only the success case. When it fails is stated by Markdown.LazyCloseNone.
- Markdown.MatchEmphasis: its own contract gives only the length and first character of a match. The match, its output and its failure are stated by Markdown.MatchEmphasisNone, Markdown.MatchEmphasisFound and Markdown.EmphasisMatch.
- Markdown.MatchLink: its own contract gives only the length and first character of a match. Both directions are stated by Markdown.MatchLinkOf, Markdown.MatchLinkShape and Markdown.MatchLinkFree, and a non-link by Markdown.NoLinkMatch.
- Markdown.MatchImage: its own contract gives only the length and first character of a match. Both directions are stated by Markdown.MatchImageOf, Markdown.MatchImageShape and Markdown.MatchImageFree.
- Markdown.MatchCode: its own contract gives only the length and first character of a match. Both directions are stated by Markdown.MatchCodeOf and Markdown.MatchCodeShape.
- Markdown.MatchAt: its own contract gives only the length and first character of a match. Each pattern's lemmas above give the rest.
- Markdown.Blocks: its own contract gives only a bound and non-emptiness. Which pieces are kept is stated by Markdown.BlocksOne and Markdown.BlocksAppend.
- Strings.ReplaceCharBy: its own contract says only that no `\n` remains. Its value is stated by Strings.ReplaceCharByOne and Strings.ReplaceCharByAppend.
- Strings.DashSpaces: its own contract gives only coarse facts. Its value run by run is stated by Strings.DashSpacesRun, Strings.DashSpacesChar and Strings.DashSpacesWord.
- Query.Filter: its own contract gives membership and a bound. Order and multiplicity are stated by Query.FilterOne and Query.FilterAppend.
