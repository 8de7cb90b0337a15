# A verified model of the content logic of a personal website

The site is a Next.js blog. Two generations coexist:

- The pages-router site uses `pages/index.tsx` and `utils/mdx.ts`. Articles are
  `content/blog/<slug>.mdx` or `content/blog/<slug>/index.mdx` files with a gray-matter frontmatter.
- The app-router site uses `app/page.tsx` and `lib/posts.ts`. Articles are
  `content/posts/<slug>/page.mdx` modules that export `metadata`.

Both home pages merge articles with bookmarks fetched from Pinboard and sort the feed newest
first. Around that sit several small transforms:

- the code-annotation handlers and code-block title of the highlighted code samples;
- a rehype highlighting plugin;
- the Style Dictionary configuration that turns design tokens into light and dark CSS
  custom properties;
- the two token galleries that flatten token metadata into `--` variable names.

Each part is a Dafny module:

| module | models |
|---|---|
| `Wrappers` | `Option`, `Result` and `Sequence`, the first-failure aggregation of a list of results |
| `Text` | string operations with JavaScript semantics: `split(sep).pop()`, a first-character `replace`, ASCII `toLowerCase`, a `/[^/]*$/` match, end-anchored regex replacement, decimal `toString` |
| `StableSort` | `Array.prototype.sort` with a numeric comparator. The proven facts are stable, descending, a permutation, and unique: every stable descending sort of the same input is the same sequence |
| `DirTree` | the recursive `getMdxFiles` generator walk over an in-memory directory tree |
| `PostsLib` | lib/posts.ts: slugs, metadata import with its caught failure, `getAllPosts` |
| `Mdx` | utils/mdx.ts: slugs, `getSourceOfFile` fallback over a file map, `serialiseFrontmatter`, `getAllPosts` |
| `Pinboard` | utils/pinboard.ts: the bookmark projection and the authenticated request URL |
| `AppFeed`, `PagesFeed` | the two home-page feeds: discriminant, content date, merge, card choice |
| `CodeHikeHandlers` | the handler registry and the `callout`/`diff` transforms, mark colour and gutter width |
| `CodeBlock` | the `name="..."` display-name extraction and the title-bar branch |
| `RehypeShiki` | the `language-` class lookup, the option default, unknown-language nulling and the `pre > code` guard |
| `StyleDictionary` | default-name stripping, the light/dark partition, reference rewriting, CSS line and wrapper formatting |
| `DesignTokens` | recursive flattening of token metadata and the gallery calls |
| `PostsLayout` | the slug recovered from the `x-pathname` header |

The model takes the environment as parameters:

- The directory listing is a tree of `Entry` values.
- The file system is a `map` from path to contents.
- The dynamic `import()` of an article's metadata is a `map` from module path to metadata.
- The frontmatter parser is a function `matter` that returns either the parsed fields or the error gray-matter throws on a malformed header.
- Date parsing is an abstract function `ts` from a date string to a timestamp.
- The Pinboard HTTP request and JSON decode are a function from URL to posts.
- The request header is an `Option<string>`.

Where the source's loops accumulate into an array, the model has a `method` with a loop, proved
equal to a specification function that the lemmas speak about. This covers the two
`getAllPosts`, the generator walk, `getLanguage` and the token extraction.

## Model

| member | source | states |
|---|---|---|
| Wrappers.SequenceFailure | utils/mdx.ts:65-69 | collecting results fails exactly when one of them fails |
| Wrappers.SequenceSuccess | utils/mdx.ts:65-69 | a successful collection has one value per result, in order |
| Wrappers.SequenceFailurePersists | utils/mdx.ts:67-68 | once a result fails, later results do not change the outcome: the loop may stop at the first failure |
| Wrappers.SequenceStep | utils/mdx.ts:67-68 | collecting one more result extends the collected values or fails |
| StableSort.SortDescPermutation | app/page.tsx:29-33 | the sort is a permutation of its input |
| StableSort.SortDescSorted | app/page.tsx:29-33 | the sort is non-increasing by the comparator's key |
| StableSort.SortDescStable | app/page.tsx:28-33 | items with equal keys keep their input order |
| StableSort.SortDescIsStableSort | lib/posts.ts:57-59 | the sort meets the stable descending sort specification |
| StableSort.StableSortUnique | lib/posts.ts:57-59 | any two stable descending sorts of the same input are equal, so the one an engine uses does not matter |
| StableSort.StableSortIsSortDesc | utils/mdx.ts:70-74 | every stable descending sort of an input is the model's sort |
| StableSort.SortDescConcat | pages/index.tsx:53-58 | sorting a concatenation keeps both parts' items and, on ties, puts the first part's items first |
| DirTree.Walk | lib/posts.ts:15-27 | the loop over the listing, with its recursive descent, yields exactly the walk's paths in order |
| DirTree.MdxPathsAreFilteredFiles | utils/mdx.ts:21-33 | the walk yields the `.md`/`.mdx` files of the tree, depth first in listing order, and nothing else |
| DirTree.MdxPathsMembership | lib/posts.ts:19-25 | a path is yielded if and only if it is a file of the tree ending in `.md` or `.mdx` |
| DirTree.MdxPathsAppend | lib/posts.ts:18-25 | everything below an entry, subdirectories included, comes before its later siblings |
| DirTree.MdxPathsSnoc | lib/posts.ts:19-25 | one more listed entry adds its subtree's paths or its own path if `.md`/`.mdx` |
| DirTree.StripEntryFile | lib/posts.ts:32 | the entry regex strips a trailing `<entry>.mdx`/`<entry>.md` whole |
| DirTree.StripEntryFlat | utils/mdx.ts:29 | a trailing `.mdx`/`.md` not preceded by the entry name is stripped alone |
| DirTree.StripEntryOther | utils/mdx.ts:39 | a path without an `.md`/`.mdx` ending is left unchanged |
| Text.LastPieceSpec | lib/posts.ts:31 | `split(sep).pop()` is a suffix without the separator; it is the whole string exactly when the separator is absent, and otherwise follows a separator |
| Text.LastPieceBelowRoot | utils/mdx.ts:28 | below a root that does not occur again, the last piece is the part after the root |
| Text.RemoveFirstSpec | lib/posts.ts:32 | `replace("/", "")` removes only the first `/`, and changes nothing without one |
| Text.AfterLastSpec | app/posts/layout.tsx:13 | `/[^/]*$/` matches a slash-free suffix, the whole string exactly when it has no `/`, otherwise preceded by `/` |
| Text.AfterLastOfSegment | app/posts/layout.tsx:13 | the match after `p/q` with a slash-free `q` is `q` |
| Text.ToLower | utils/rehype-shiki.ts:58 | each character is lower-cased, so no upper-case ASCII letter remains |
| Text.DecimalRoundTrip | components/Code/codehike-handlers.tsx:168 | the decimal string of a number reads back as that number |
| Text.DecimalStringLength | components/Code/codehike-handlers.tsx:168 | the decimal string has exactly as many digits as the number's magnitude needs |
| Text.SplitJoin | style-dictionary.config.js:70 | joining newline-free lines with `\n` and splitting gives the lines back |
| Text.JoinSnoc | style-dictionary.config.js:26 | joining one more part appends the separator and the part |
| Text.ReplaceAll | style-dictionary.config.js:62 | `.replace(/\./g, "-")` replaces every dot and only dots |
| PostsLib.SlugOfPageFile | lib/posts.ts:31-32 | `<root>/<name>/page.mdx` has slug `<name>` |
| PostsLib.SlugOfFlatFile | lib/posts.ts:31-32 | `<root>/<name>.md` has slug `<name>` |
| PostsLib.MetaOfFile | lib/posts.ts:43-50 | the import gives the module's metadata, and a missing module gives undefined instead of throwing |
| PostsLib.Records | lib/posts.ts:30-39 | one record per walked path, in walk order, each kept even without metadata |
| PostsLib.SortPostsSpec | lib/posts.ts:57-59 | the sort throws exactly when there are two or more records and one lacks metadata; otherwise it is a stable newest-first sort |
| PostsLib.GetAllPosts | lib/posts.ts:52-61 | the push loop and sort give the sorted records of the walk |
| PostsLib.GetAllPostsThrowsOnMissingMetadata | lib/posts.ts:52-61 | a flat `b.md` beside `a/page.mdx` gets a record without metadata, and the listing throws |
| PostsLib.ExamplePaths | lib/posts.ts:18-25 | the walk of that tree yields `a/page.mdx`, then `b.md` |
| PostsLib.ExampleRecords | lib/posts.ts:30-39 | their records have slugs `a` (metadata loaded) and `b` (none) |
| PostsLib.WithMeta | lib/posts.ts:43-50 | keeps exactly the records with metadata |
| PostsLib.AllPostsSpec | lib/posts.ts:52-61 | the corrected listing is a stable newest-first sort of exactly the records with metadata, and its sort cannot throw |
| Mdx.SerialiseFrontmatter | utils/mdx.ts:60-63 | every other field is kept; `date` becomes its string form, or `null` for a missing, `null` or empty date |
| Mdx.SerialiseFrontmatterSpec | utils/mdx.ts:60-63 | the result always has a `null` or non-empty string date; an already serialised frontmatter is unchanged |
| Mdx.SerialiseFrontmatterIdempotent | utils/mdx.ts:60-63 | serialising twice is serialising once |
| Mdx.SerialisedDate | utils/mdx.ts:62 | the date is `null` exactly when missing, `null` or empty |
| Mdx.GetSourceOfFile | utils/mdx.ts:51-58 | a successful read returns the contents of some file |
| Mdx.GetSourceOfFileSpec | utils/mdx.ts:51-58 | `<p>.mdx` is preferred, `<p>/index.mdx` is the fallback, and the read throws only when both are missing |
| Mdx.SourcePathsBelowRoot | utils/mdx.ts:53-56 | the two candidate paths below a root ending in `/` |
| Mdx.WalkSlugOfIndexFile | utils/mdx.ts:28-29 | `<root><name>/index.mdx` has slug `<name>`, with no leading `/` |
| Mdx.WalkSlugOfFlatFile | utils/mdx.ts:28-29 | `<root><name>.mdx` has slug `<name>` |
| Mdx.RederivedSlugUnchanged | utils/mdx.ts:38-39 | re-deriving a slug without the root and without an `.md`/`.mdx` ending leaves it unchanged |
| Mdx.MdxMetadata | utils/mdx.ts:36-47 | fails exactly when the source cannot be read or its header cannot be parsed; otherwise gives the serialised parsed frontmatter and the re-derived slug |
| Mdx.Records | utils/mdx.ts:21-33 | one metadata result per walked path, in walk order |
| Mdx.CollectFailure | utils/mdx.ts:65-69 | the walk rejects exactly when some walked file's source is unreadable or its header unparsable |
| Mdx.CollectSuccess | utils/mdx.ts:65-69 | a successful walk gives one record per walked file, in walk order |
| Mdx.AllPostsFailure | utils/mdx.ts:65-76 | `getAllPosts` rejects exactly when a walked file's source is unreadable or its header unparsable |
| Mdx.AllPostsSorted | utils/mdx.ts:70-74 | a successful listing is a stable newest-first sort of every walked record |
| Mdx.AllPostsSerialised | utils/mdx.ts:65-76 | every listed record has a serialised frontmatter |
| Mdx.GetAllPosts | utils/mdx.ts:65-76 | the push loop with its early rejection and the sort give the modelled listing |
| AppFeed.IsPost | app/page.tsx:37-39 | the `meta` discriminant holds exactly for articles |
| AppFeed.ContentDate | app/page.tsx:41-46 | `meta.date` for an article, `time` for a bookmark; for an article without metadata reading `meta.date` throws (`None`) |
| AppFeed.MergeSpec | app/page.tsx:24-35 | the merge throws exactly when there are two or more items and an article lacks metadata; otherwise it is a permutation of articles and bookmarks, newest first, articles first on ties |
| AppFeed.MergeOfListedPosts | app/page.tsx:24-35 | articles from the corrected listing never make the merge throw |
| AppFeed.MergeExample | app/page.tsx:24-35 | January and March articles with a February bookmark merge to March, bookmark, January |
| AppFeed.Cards | app/page.tsx:62-68 | one card per item: a post card exactly for articles, keyed by slug; otherwise a bookmark card keyed by href |
| PagesFeed.IsPost | pages/index.tsx:62-64 | the `frontmatter` discriminant holds exactly for articles |
| PagesFeed.ContentDate | pages/index.tsx:66-71 | `frontmatter.date` for an article, `time` for a bookmark |
| PagesFeed.ItemKeyOfPost | pages/index.tsx:54-58 | an article's feed key is the key its listing sorted it by |
| PagesFeed.MergeSpec | pages/index.tsx:49-60 | the merge is a permutation of articles and bookmarks, newest first, articles first on ties |
| PagesFeed.Cards | pages/index.tsx:36-42 | one card per item with its index: a post card exactly for articles, otherwise a bookmark card |
| Pinboard.PreparePinProjects | utils/pinboard.ts:22-27 | the projection copies `href`, `description`, `extended` and `time` and drops exactly the other five fields |
| Pinboard.PrepareAll | utils/pinboard.ts:42 | the map keeps the order and length of the posts |
| Pinboard.UrlRoundTrip | utils/pinboard.ts:36-38 | the token is inserted verbatim: it can be read back from the URL |
| Pinboard.GetAllPins | utils/pinboard.ts:29-45 | a missing or empty token throws before any request; otherwise one request to the URL, and the projected posts in order |
| CodeHikeHandlers.RegistrySpec | components/Code/codehike-handlers.tsx:187-193 | registry names are distinct, so each name finds its own handler; only focus and diff set `onlyIfAnnotated` |
| CodeHikeHandlers.RegistryOrder | components/Code/codehike-handlers.tsx:187-193 | the handlers are registered in the order focus, mark, callout, diff, line-numbers |
| CodeHikeHandlers.HandlerIndex | components/Code/codehike-handlers.tsx:187-193 | finds the first handler with a name, or none when no handler has it |
| CodeHikeHandlers.Callout | components/Code/codehike-handlers.tsx:90-99 | keeps name and query; a one-line range on the annotation's line; other data kept; the column is the midpoint |
| CodeHikeHandlers.CalloutColumnWithinRange | components/Code/codehike-handlers.tsx:97 | the midpoint lies in the column range, equally far from both ends |
| CodeHikeHandlers.Diff | components/Code/codehike-handlers.tsx:148-151 | two annotations: the original unchanged, then a copy named `mark` with the diff colour and the same range and data |
| CodeHikeHandlers.MarkColor | components/Code/codehike-handlers.tsx:49-64 | the query when non-empty, otherwise `rgb(14 165 233)` |
| CodeHikeHandlers.DiffMarkIsColoured | components/Code/codehike-handlers.tsx:149-150 | the synthesised mark goes to the mark handler and is red for `-`, green otherwise |
| CodeHikeHandlers.GutterWidthBounds | components/Code/codehike-handlers.tsx:168 | the gutter is the digit count of the line total plus one |
| CodeBlock.MatchName | components/Code/Code.tsx:32 | a captured name is non-empty, quote-free, and the meta is exactly `name="<it>"` |
| CodeBlock.MatchNameComplete | components/Code/Code.tsx:32 | every non-empty quote-free name is captured |
| CodeBlock.DisplayMetaSpec | components/Code/Code.tsx:32-34 | `name="x"` displays `x`; any meta not of that form is shown unchanged |
| CodeBlock.DisplayMetaOfTitle | components/Code/Code.tsx:32-34 | `title="example.js"` is shown whole |
| CodeBlock.HeaderOfSpec | components/Code/Code.tsx:38-53 | the title bar appears exactly for a non-empty meta, and its title is never empty |
| RehypeShiki.LanguageOfSpec | utils/rehype-shiki.ts:53-63 | a language is found exactly when some class starts with `language-`, and it comes from the first such class, lower-cased |
| RehypeShiki.GetLanguage | utils/rehype-shiki.ts:53-63 | the loop with early return gives that language, or none for a missing `className` |
| RehypeShiki.IgnoreUnknownLanguage | utils/rehype-shiki.ts:16-19 | an absent option means true |
| RehypeShiki.EffectiveLanguage | utils/rehype-shiki.ts:29-31 | with ignoring on, an unloaded language becomes null; a loaded one, or any with ignoring off, is kept |
| RehypeShiki.NodeLanguage | utils/rehype-shiki.ts:23-25 | only a `code` element whose parent is `pre` is processed |
| RehypeShiki.NodeLanguageDefault | utils/rehype-shiki.ts:16-31 | with default options a processed block gets a loaded language from its first `language-` class, or none |
| StyleDictionary.StripSuffix | style-dictionary.config.js:26-51 | an end-anchored literal suffix is removed once, and nothing else changes |
| StyleDictionary.StripDefaultNameSpec | style-dictionary.config.js:24-27 | a final `default` segment is dropped; a path ending otherwise keeps its `-` joined name |
| StyleDictionary.TokenFilterMembers | style-dictionary.config.js:44-46 | the dark set is exactly the tokens with an `inverse` path segment, the light set exactly those without |
| StyleDictionary.InverseTokensAppend | style-dictionary.config.js:44-46 | the dark filter keeps dictionary order |
| StyleDictionary.LightTokensAppend | style-dictionary.config.js:111 | the light filter keeps dictionary order |
| StyleDictionary.LightDarkPartition | style-dictionary.config.js:44-46 | light and dark together are exactly the dictionary |
| StyleDictionary.LightDarkSameVariable | style-dictionary.config.js:24-52 | a `default`/`inverse` pair defines the same CSS variable in both modes |
| StyleDictionary.ReferenceRewrite | style-dictionary.config.js:53-64 | with references on, `{a.b.c}` becomes `var(--a-b-c)`; with them off the value passes through |
| StyleDictionary.ValuePassesThrough | style-dictionary.config.js:53-65 | any value that is not a string `{...}` original reaches the declaration unchanged, with or without references |
| StyleDictionary.CssLineShape | style-dictionary.config.js:67-68 | a declaration is four spaces and `--name: value;`, followed by ` /** comment */` exactly when there is a comment |
| StyleDictionary.CssLines | style-dictionary.config.js:49-69 | one declaration line per dark token, in order |
| StyleDictionary.VariablesLines | style-dictionary.config.js:67-70 | splitting the joined declarations at newlines gives one line per dark token |
| StyleDictionary.InverseCssShape | style-dictionary.config.js:72 | the output is the header, the media-query opening, the declarations and the closing braces |
| DesignTokens.ExtractTokens | components/DesignTokens/ColorTokens.stories.tsx:15-37 | the push loop with recursive spreading gives the flattened tokens |
| DesignTokens.FlattenAppend | components/DesignTokens/SpacingTokens.stories.tsx:21-31 | entries are processed in order, each one's tokens spliced in at its position |
| DesignTokens.FlattenIsNamedLeaves | components/DesignTokens/ColorTokens.stories.tsx:21-33 | one token per string leaf, named `--` plus prefix and key path joined with `-`, value copied, depth first |
| DesignTokens.EntriesOf | components/DesignTokens/ColorTokens.stories.tsx:21 | `Object.entries` throws exactly on null |
| DesignTokens.ColorTokenGalleries | components/DesignTokens/ColorTokens.stories.tsx:39-47 | a missing `colors` throws; a missing brand or content group gives an empty gallery |
| DesignTokens.BrandColorExample | components/DesignTokens/ColorTokens.stories.tsx:40-43 | `primary.default` under `brand-color` is `--brand-color-primary-default` |
| DesignTokens.SpacingScale | components/DesignTokens/SpacingTokens.stories.tsx:37 | the spacing call throws exactly when `spacing` is missing or null |
| DesignTokens.SpacingScaleNames | components/DesignTokens/SpacingTokens.stories.tsx:37 | spacing tokens are `--` and their key path, with no prefix |
| PostsLayout.StrippedPathSpec | app/posts/layout.tsx:13 | the stripped path is a slash-free suffix, the whole pathname exactly when it has no `/` |
| PostsLayout.SinglePostArgumentSpec | app/posts/layout.tsx:12-15 | the argument is `/` and a slash-free segment; no header, or a trailing `/`, gives `/` |
| PostsLayout.SinglePostArgumentExample | app/posts/layout.tsx:12-15 | `/posts/hello-world` asks for `/hello-world` |

## Left out

- JSX rendering is not modelled. That covers the handlers' `Line`/`Inline`/`Block` components, the cards, the layouts and the copy button. Only which card or header is chosen is modelled.
- The highlighting library's directive parser, range resolution and dispatch are not modelled, because they are not visible. So the model does not connect `onlyIfAnnotated` or the transforms to their callers.
- File system, module and network I/O become parameters. That covers `readdir`, `readFileSync`, dynamic `import()`, `fetch`, the JSON decode and `headers()`. `readdir`, `fetch` and the JSON decode are assumed to succeed. A failed listing, a rejected request, a body that is not JSON, or a response without `posts` would also make `getAllPosts` or `getAllPins` throw, and the model does not capture that.
- `console.error` logging in `getMetaOfFile` is left out, because it does not affect results.
- Date parsing (`new Date(...).getTime()`) is an abstract function from string to integer. An unparsable date (`NaN`) is not modelled, and neither is the unspecified order a NaN comparator gives.
- `Array.prototype.sort` on the arrays is modelled on sequences, not in place. The uniqueness lemma makes the result independent of the engine's algorithm.
- `path.resolve` and `path.join` are modelled for a plain entry name under an absolute directory; `.`/`..` normalisation is not modelled.
- `toLowerCase` is modelled for ASCII letters only; Unicode case mapping is not.
- `Object.entries` order is taken as the given entry sequence; integer-like keys, which JavaScript moves to the front, are not reordered.
- The Style Dictionary library itself is not modelled: registration, the build, `fileHeader` (a parameter) and the other platform configs. The token name given to the dark format is taken to be the path joined with `-`.
- The rehype visitor's tree mutation (utils/rehype-shiki.ts:33-45) is not modelled, because it depends on the highlighter's HTML output.
- `getSinglePost`, `augmentMetadata` and the MDX bundling are not modelled; only which article `app/posts/layout.tsx` asks for is. The `getStaticProps` wiring of pages/index.tsx is not modelled apart from the merge it calls.
- PagesFeed.ItemKey: maps an article date that is not a string to time 0. That is exact for `null`; other values cannot occur after serialisation.
- PostsLib.SortPosts: assumes that when there are two or more records every one of them reaches the comparator. So it throws whenever one lacks metadata, and does not depend on which comparisons the engine makes.
- AppFeed.MergePostsAndPins: makes the same assumption as `PostsLib.SortPosts`. With two or more items, every item is taken to reach the comparator, so an article without `meta` makes the merge throw whichever comparisons the engine makes.
- PostsLib.Slug: requires a non-empty root, as the constant `POSTS_PATH` is.
- Mdx.GetSourceOfFileSpec: states the lookup for a root ending in `/` and a name not ending in `/`, the shape the walk produces; `GetSourceOfFile` itself is total.
- Text.LastPieceSpec: "after the last occurrence" is exact only for separators that cannot overlap themselves; `LastPiece` itself models the left-to-right split exactly.

## Findings

| source | as written | input that shows it | evidently intended | confidence | as-written member | corrected member |
|---|---|---|---|---|---|---|
| lib/posts.ts:43-61 | `getMetaOfFile` catches a failed import and returns `undefined`, but the `getAllPosts` comparator then reads `meta.date` of that record and throws a TypeError | the tree `a/page.mdx` (with metadata) and a flat `b.md`: `b.md` gets slug `b`, and `../content/posts/b/page.mdx` does not exist | records whose metadata could not be loaded are left out, and the listing is a newest-first sort of the rest | not executed | PostsLib.GetAllPostsThrowsOnMissingMetadata | PostsLib.AllPostsSpec |
