# Jekyll blog: diagram plugins, post generator and page scripts in Dafny

This project models the logic of a Jekyll blog and proves properties about that model. It covers the blog's three diagram tags, its emoji filter, its new-post generator script and the two browser scripts that enhance post pages and render diagrams.

- `plantuml_plugin.dfy` (module `PlantUmlPlugin`) models the `plantuml` Liquid block.
  - It wraps the diagram text in `@startuml`/`@enduml` unless the text already contains `@startuml`.
  - It deflates the text and encodes it as unpadded URL-safe Base64.
  - It derives the element id from the first eight hex digits of the SHA-1 of the content.
  - It emits an `<img>` that points at the PlantUML server.
- `kroki_diagrams.dfy` (module `KrokiDiagrams`) models the `kroki` block and its three fixed-type subclasses: `plantuml`, `graphviz` and `svgbob`.
  - The diagram type is the stripped, downcased markup, or `plantuml` when the markup is blank.
  - The body is stripped before it is hashed and encoded.
  - The token is padded URL-safe Base64.
  - The URL is `https://kroki.io/<type>/svg/<token>`.
- `mermaid_plugin.dfy` (module `MermaidPlugin`) models the `mermaid` block. It places the content verbatim inside a `<div class="mermaid">` whose id comes from the content's hash.
- `remove_emojis.dfy` (module `RemoveEmojis`) models the pre-render hook. For pages and posts rendered to `.html`, the hook deletes every character in U+1F300–U+1FAFF and U+2600–U+27BF.
- `new_post.dfy` (module `NewPost`) models the `new_post.rb` generator:
  - option parsing, with help, title, comma lists and template choice;
  - the slug and the file name;
  - the YAML arrays;
  - template substitution and the generated description;
  - the run outcome (exit, file already exists, post created).
  - The class `BlogPostGenerator` holds the `@options` state that the script's methods update.
- `post_enhancements.dfy` (module `PostEnhancements`) models `post-enhancements.js`:
  - heading ids and `createSlug`;
  - the nested table-of-contents HTML built by `buildTOCHTML`;
  - the reading-time estimate;
  - the scroll-spy search for the active heading;
  - the back-to-top threshold.
  - The class `PostEnhancements` holds the page state that the script's methods mutate.
- `diagrams.dfy` (module `Diagrams`) models `diagrams.js`:
  - the dark/light colour choice;
  - the client-side PlantUML encoder;
  - the Mermaid render path: primary attempt, fallback attempt, error block, interactive controls and the rendered counter;
  - the intersection-observer callback;
  - the initial pass over diagrams already in the page.
  - The classes `DiagramElement` and `DiagramPage` hold the DOM attributes and page counters that the script updates in place.
- The supporting modules model the library behaviour that the code relies on:
  - `text.dfy` (module `Text`): Ruby `gsub` with a literal pattern, `split(',')` (which drops trailing empty fields), `strip`, `downcase`, `capitalize`, and JavaScript `trim`/`split(/\s+/)`;
  - `base64.dfy` (module `Base64`): Base64 with the standard and the URL-safe alphabets, with and without padding;
  - `utf8.dfy` (module `Utf8`): UTF-8 encoding and strict decoding;
  - `digest.dfy` (module `Digest`): the lower-case hex rendering of a SHA-1 digest;
  - `html.dfy` (module `Html`): attribute markup and quote-free attribute values.
- `common.dfy` holds the `Option` type and the `byte` type.

SHA-1 and zlib deflate are parameters of the model: functions passed in by the caller. Statements about decoding assume only that the supplied `inflate` undoes the supplied `deflate`. The current date, the set of files that already exist, the available templates, the page's scroll position, heading offsets and the outcome of each Mermaid render call are also parameters.

## Model

| member | source | states |
|---|---|---|
| PlantUmlPlugin.WrapMarkers | _plugins/plantuml_plugin.rb:39-41 | the text handed to the encoder always contains `@startuml` |
| PlantUmlPlugin.WrapMarkersCases | _plugins/plantuml_plugin.rb:39-41 | text already containing `@startuml` is left alone; otherwise the result is exactly `@startuml\n` + text + `\n@enduml`, 18 characters longer |
| PlantUmlPlugin.WrapMarkersIdempotent | _plugins/plantuml_plugin.rb:39-41 | wrapping twice is the same as wrapping once |
| PlantUmlPlugin.StripLineEndEqualsPadding | _plugins/plantuml_plugin.rb:45 | `gsub(/=+$/, '')` removes exactly the `=` padding that ends a Base64 text free of `=` and newlines |
| PlantUmlPlugin.TokenIsUnpaddedUrlSafe | _plugins/plantuml_plugin.rb:45 | the token is the URL-safe rendering of the sextets of the compressed bytes: length (4n+2)/3, every character in the URL-safe alphabet, none of `+`, `/`, `=` |
| PlantUmlPlugin.TokenDecodes | _plugins/plantuml_plugin.rb:45 | re-padding the token and translating `-_` back to `+/` gives standard Base64 that decodes to the compressed bytes |
| PlantUmlPlugin.TokenInjective | _plugins/plantuml_plugin.rb:45 | two compressed byte strings give the same token if and only if they are equal |
| PlantUmlPlugin.EncodeDecodeRoundTrip | _plugins/plantuml_plugin.rb:37-46 | decoding the token and inflating it gives back the UTF-8 of the wrapped text |
| PlantUmlPlugin.DiagramIdShape | _plugins/plantuml_plugin.rb:17 | the id is `plantuml-` and eight lower-case hex digits; two contents share an id if and only if the first four SHA-1 bytes of their UTF-8 agree |
| PlantUmlPlugin.RenderHtml | _plugins/plantuml_plugin.rb:23-32 | the HTML carries the diagram id as `id` and the PlantUML server URL with the token as `src` |
| PlantUmlPlugin.IdSafe | _plugins/plantuml_plugin.rb:25 | the id needs no escaping inside a double-quoted attribute |
| PlantUmlPlugin.UrlSafe | _plugins/plantuml_plugin.rb:26 | the image URL needs no escaping inside a double-quoted attribute |
| KrokiDiagrams.NormaliseType | _plugins/kroki_diagrams.rb:11-12 | the diagram type is never empty, has no surrounding white space and no upper-case ASCII letter |
| KrokiDiagrams.NormaliseTypeCases | _plugins/kroki_diagrams.rb:11-12 | blank markup gives `plantuml`; otherwise the type is the downcased stripped markup |
| KrokiDiagrams.NormaliseTypeIdempotent | _plugins/kroki_diagrams.rb:11-12 | normalising a type again leaves it unchanged |
| KrokiDiagrams.NormaliseWord | _plugins/kroki_diagrams.rb:11 | a non-empty lower-case word passes through unchanged |
| KrokiDiagrams.LowerWord | _plugins/kroki_diagrams.rb:51-67 | the three fixed type names pass through normalisation unchanged |
| KrokiDiagrams.FixedTypes | _plugins/kroki_diagrams.rb:51-67 | `PlantUMLBlock`, `GraphvizBlock` and `SvgbobBlock` render with types `plantuml`, `graphviz` and `svgbob` whatever the markup |
| KrokiDiagrams.TokenIsUrlSafeBase64 | _plugins/kroki_diagrams.rb:43-47 | the token is padded URL-safe Base64 of the compressed bytes, of length 4·⌈n/3⌉, with no `+` or `/` (the trailing `strip` removes nothing) |
| KrokiDiagrams.TokenDecodes | _plugins/kroki_diagrams.rb:46 | URL-safe Base64 decoding of the token gives back the compressed bytes |
| KrokiDiagrams.EncodeDecodeRoundTrip | _plugins/kroki_diagrams.rb:16-23 | decoding and inflating the token gives back the stripped body as text |
| KrokiDiagrams.DiagramIdParts | _plugins/kroki_diagrams.rb:20 | two diagrams share an id if and only if their types are equal and the short hashes of their stripped bodies are equal |
| KrokiDiagrams.KrokiUrlParts | _plugins/kroki_diagrams.rb:26 | the URL holds the diagram type after the server prefix, and its last path segment decodes to the compressed bytes |
| KrokiDiagrams.RenderHtmlAttributes | _plugins/kroki_diagrams.rb:29-38 | for a type that needs no escaping, the HTML carries the diagram id as `id` and the Kroki URL as `src` |
| KrokiDiagrams.ConstantsSafe | _plugins/kroki_diagrams.rb:20-26 | the fixed parts of the id and of the URL need no escaping inside an attribute |
| KrokiDiagrams.IdSafe | _plugins/kroki_diagrams.rb:20 | the id needs no escaping when the type needs none |
| KrokiDiagrams.TokenSafe | _plugins/kroki_diagrams.rb:46 | the token needs no escaping inside an attribute |
| KrokiDiagrams.UrlSafe | _plugins/kroki_diagrams.rb:26 | the URL needs no escaping when the type needs none |
| MermaidPlugin.NewBlock | _plugins/mermaid_plugin.rb:5-8 | the stored markup is the stripped markup: it has no white space or null at either end |
| MermaidPlugin.NewBlockIdempotent | _plugins/mermaid_plugin.rb:5-8 | building a block from an already stored markup stores the same markup |
| MermaidPlugin.IdSafe | _plugins/mermaid_plugin.rb:15 | the `mermaid-` id needs no escaping inside an attribute |
| MermaidPlugin.RenderHtmlShape | _plugins/mermaid_plugin.rb:18-24 | the HTML is the fixed head, the id attribute, the fixed middle, the content verbatim and the fixed tail |
| MermaidPlugin.RenderHtmlInjective | _plugins/mermaid_plugin.rb:18-24 | different contents give different HTML |
| MermaidPlugin.RenderIgnoresMarkup | _plugins/mermaid_plugin.rb:14-24 | the output does not depend on the block's markup |
| RemoveEmojis.StripEmojis | _plugins/remove_emojis.rb:5-10 | no character of the two emoji ranges remains, and the text does not grow |
| RemoveEmojis.StripEmojisChar | _plugins/remove_emojis.rb:5 | one character is deleted exactly when it lies in U+1F300–U+1FAFF or U+2600–U+27BF |
| RemoveEmojis.StripEmojisAppend | _plugins/remove_emojis.rb:10 | the deletion works character by character: it distributes over concatenation |
| RemoveEmojis.StripEmojisNone | _plugins/remove_emojis.rb:10 | a text without emoji is unchanged |
| RemoveEmojis.StripEmojisIdempotent | _plugins/remove_emojis.rb:10 | a second pass changes nothing |
| RemoveEmojis.StripEmojisLength | _plugins/remove_emojis.rb:10 | the length is kept if and only if the text holds no emoji |
| RemoveEmojis.PreRender | _plugins/remove_emojis.rb:7-11 | the hook keeps the document's kind and output extension, and keeps whether it has content |
| RemoveEmojis.PreRenderCases | _plugins/remove_emojis.rb:7-11 | documents of another kind, with another output extension or without content are untouched; otherwise the content becomes the emoji-free text |
| RemoveEmojis.PreRenderIdempotent | _plugins/remove_emojis.rb:7-11 | running the hook twice is the same as once |
| NewPost.DropLineEdgeDashesOneLine | scripts/new_post.rb:159 | on a single line, the last substitution of `slugify` removes one dash at the start and one at the end |
| NewPost.SlugifyIsSlug | scripts/new_post.rb:154-160 | every slug is empty or made of `a-z`, `0-9` and single dashes, with no dash at either end |
| NewPost.SlugifyFixesSlugs | scripts/new_post.rb:154-160 | a title that is already a slug is its own slug |
| NewPost.SlugifyIdempotent | scripts/new_post.rb:154-160 | slugifying a slug changes nothing |
| NewPost.JoinQuoted | scripts/new_post.rb:151 | joining the quoted items with `, ` is the items joined by `", "` inside one pair of quotes |
| NewPost.ParseFormatYamlArray | scripts/new_post.rb:149-152 | for items without `"`, the YAML flow array reads back as the same items (round trip) |
| NewPost.SplitListParts | scripts/new_post.rb:41 | items are the stripped pieces in order; no item holds a comma or edge white space; the pieces joined by commas rebuild the argument up to its trailing commas |
| NewPost.StripKeepsAbsent | scripts/new_post.rb:41 | stripping never introduces a character that was absent |
| NewPost.ParseArgsHelp | scripts/new_post.rb:32-61 | parsing reports help if and only if some argument is `-h`/`--help` |
| NewPost.ParseArgsKeepsTitle | scripts/new_post.rb:36-38 | without a `-t` argument the title is unchanged |
| NewPost.FormatYmdParts | scripts/new_post.rb:65 | for a valid date, `strftime('%Y-%m-%d')` is ten characters: digits with dashes at positions 4 and 7, and the fields read back as year, month and day |
| NewPost.FilenameInjective | scripts/new_post.rb:65 | two file names are equal if and only if the dates are equal and the slugs are equal |
| NewPost.DescriptionInjective | scripts/new_post.rb:162-164 | two titles give the same description if and only if they downcase to the same text |
| NewPost.ApplySubstitutionsAbsent | scripts/new_post.rb:90-96 | a template without any placeholder is returned unchanged |
| NewPost.ApplyStep | scripts/new_post.rb:90-96 | applying the replacements from step k on is the k-th `gsub!` followed by the rest |
| NewPost.MissingTitleExits | scripts/new_post.rb:18-28 | without a title the run exits with status 0 when help was asked for and 1 otherwise, and writes nothing |
| NewPost.CreatedPostIsNew | scripts/new_post.rb:63-85 | a created post had a title, its path is `_posts/<date>-<slug>.md`, that path did not exist before, and its content is the filled template |
| NewPost.BlogPostGenerator.constructor | scripts/new_post.rb:8-16 | the options start at their defaults |
| NewPost.BlogPostGenerator.ParseOptions | scripts/new_post.rb:32-61 | the new options and the help flag are those of folding the arguments over the old options |
| NewPost.BlogPostGenerator.Substitute | scripts/new_post.rb:90-98 | the seven `gsub!` calls leave the template with all placeholders replaced in order |
| NewPost.BlogPostGenerator.GenerateContent | scripts/new_post.rb:87-99 | the content is the chosen template, falling back to the built-in one, with all placeholders filled |
| NewPost.BlogPostGenerator.Run | scripts/new_post.rb:18-28 | the outcome (exit status, file-exists error, or created path and content) is the run specification applied to the arguments, and the options end as the arguments parsed them |
| PostEnhancements.CreateSlugIsJsSlug | assets/js/post-enhancements.js:81-88 | the slug is made only of `a-z`, `0-9`, `_` and `-`, with no doubled dash; it is the four replacements in order |
| PostEnhancements.CreateSlugFixesSlugs | assets/js/post-enhancements.js:81-88 | a text that is already such a slug is unchanged |
| PostEnhancements.CreateSlugIdempotent | assets/js/post-enhancements.js:81-88 | applying `createSlug` twice is the same as once |
| PostEnhancements.SlugFunctionsDiffer | assets/js/post-enhancements.js:81-88 | a slug with `_` or an edge dash is kept by `createSlug` but changed by the generator's `slugify` |
| PostEnhancements.WithId | assets/js/post-enhancements.js:61-64 | a heading keeps its id when it has one, otherwise gets `<slug>-<index>`; either way the id is non-empty and nothing else changes |
| PostEnhancements.DigitsAfterLastDash | assets/js/post-enhancements.js:62 | the index digits after the last dash are determined by the id |
| PostEnhancements.GeneratedIdsDistinct | assets/js/post-enhancements.js:62 | generated ids for different heading positions never collide |
| PostEnhancements.RenderLevelChange | assets/js/post-enhancements.js:118-122 | the emitted HTML is that many repeated tags |
| PostEnhancements.TocNesting | assets/js/post-enhancements.js:107-137 | opened lists minus closed lists equal the last heading's level minus the first's |
| PostEnhancements.TocLinks | assets/js/post-enhancements.js:124-130 | the TOC holds exactly one link per heading, in document order, with its id, level, index and text |
| PostEnhancements.TocEmpty | assets/js/post-enhancements.js:108 | no headings give empty HTML |
| PostEnhancements.ItemsUpToCounts | assets/js/post-enhancements.js:113-133 | after n headings the list depth equals the current level relative to the first |
| PostEnhancements.ItemsUpToLinks | assets/js/post-enhancements.js:113-133 | after n headings the links are those of the first n headings |
| PostEnhancements.RenderStep | assets/js/post-enhancements.js:113-133 | one loop turn appends the level change and the link for heading n |
| PostEnhancements.RenderTocEnds | assets/js/post-enhancements.js:110-136 | the HTML opens with `<ul>` and closes with `</ul>` around the loop's output |
| PostEnhancements.AppendHeading | assets/js/post-enhancements.js:116-130 | the string grows by the level change and the heading's link |
| PostEnhancements.BuildTocHtml | assets/js/post-enhancements.js:107-137 | the loop builds exactly the HTML of the TOC's item sequence |
| PostEnhancements.SplitWords | assets/js/post-enhancements.js:188 | `split(/\s+/)` gives at least one field and no field holds white space |
| PostEnhancements.SplitWordsJoin | assets/js/post-enhancements.js:188 | the fields are the text's whitespace-separated runs in order: joined by single spaces they give the text with every whitespace run squeezed to one space |
| PostEnhancements.SplitWordsNonEmpty | assets/js/post-enhancements.js:188 | on a trimmed, non-empty text every field is non-empty |
| PostEnhancements.WordCount | assets/js/post-enhancements.js:186-188 | the word count is at least one, even for an empty text |
| PostEnhancements.ReadingMinutesIsCeiling | assets/js/post-enhancements.js:187-189 | minutes are the ceiling of words/200 |
| PostEnhancements.ReadingTimeAtLeastOne | assets/js/post-enhancements.js:186-191 | the estimate is at least one minute; an empty text counts as one word |
| PostEnhancements.WordsAreWords | assets/js/post-enhancements.js:188 | for non-blank text every counted word is non-empty |
| PostEnhancements.FindActiveIndex | assets/js/post-enhancements.js:240-246 | the active index is the last heading at or above the position, or -1 when there is none |
| PostEnhancements.PostEnhancements.constructor | assets/js/post-enhancements.js:7-16 | initial page state: no headings, active index -1, no active link, back-to-top hidden |
| PostEnhancements.AssignIds | assets/js/post-enhancements.js:61-65 | every heading gets the id generated from its position when it has none and keeps its own otherwise, in document order |
| PostEnhancements.PostEnhancements.GenerateToc | assets/js/post-enhancements.js:46-76 | headings get ids; no headings hide the TOC; otherwise the TOC HTML is rendered, one link is counted per heading, and no link is active after the `innerHTML` replacement; the active index is untouched |
| PostEnhancements.PostEnhancements.UpdateActiveTocItem | assets/js/post-enhancements.js:235-265 | the active index is the last heading at or above scroll + 120; when it changes, exactly the matching link (if any) is active; otherwise the links are untouched |
| PostEnhancements.PostEnhancements.UpdateBackToTopVisibility | assets/js/post-enhancements.js:305-316 | with a button present it is visible exactly when scrolled past 300; without one nothing changes |
| Diagrams.ColoursByMode | assets/js/diagrams.js:36-41 | dark colours exactly when the system prefers dark or `data-mode` is `dark`; light colours otherwise |
| Diagrams.EncodePlantUmlRoundTrip | assets/js/diagrams.js:457-467 | the client-side encoding is padded standard Base64 that decodes as UTF-8 back to the text |
| Diagrams.EncodePlantUmlInjective | assets/js/diagrams.js:457-467 | different texts give different encodings |
| Diagrams.Decorate | assets/js/diagrams.js:254-304 | a diagram with a parent is wrapped once and gets the fullscreen, copy and download buttons, in that order; an already wrapped or parentless one keeps its controls; nothing but the wrapper flag and the controls changes; afterwards every diagram with a parent is wrapped, so a second call does nothing |
| Diagrams.DecorateFrame | assets/js/diagrams.js:254-304 | decorating touches nothing but the wrapper and the controls |
| Diagrams.DecorateIdempotent | assets/js/diagrams.js:257-260 | decorating twice is the same as once |
| Diagrams.ErrorBlockShows | assets/js/diagrams.js:187-194 | the error block shows both the diagram source and the error message |
| Diagrams.BlankContentSkipped | assets/js/diagrams.js:140-145 | a diagram whose text is blank is left untouched and not counted |
| Diagrams.RenderCounts | assets/js/diagrams.js:135-196 | the counter grows by one exactly when the text is non-blank and one attempt succeeds, and then the diagram is decorated; otherwise it stays |
| Diagrams.BothFailShowsError | assets/js/diagrams.js:176-194 | when both attempts fail, nothing is counted or decorated and the element shows its source and the first error |
| Diagrams.FallbackRescues | assets/js/diagrams.js:157-183 | when the primary attempt fails and the fallback succeeds, the fallback SVG is shown, decorated and counted |
| Diagrams.RenderKeepsFlag | assets/js/diagrams.js:135-196 | rendering a Mermaid diagram never sets `data-rendered` |
| Diagrams.ObserverRendersOnce | assets/js/diagrams.js:64-94 | after one intersection the element is marked rendered, and a second intersection changes nothing |
| Diagrams.InitialPassThenObserverRendersAgain | assets/js/diagrams.js:64-109 | the initial pass does not set `data-rendered`, so a diagram it rendered is rendered and counted again when it scrolls into view |
| Diagrams.DiagramElement.constructor | assets/js/diagrams.js:97-98 | a fresh element is observed, not rendered and not decorated |
| Diagrams.DiagramElement.SetRendered | assets/js/diagrams.js:75 | only the `data-rendered` flag changes |
| Diagrams.DiagramElement.Unobserve | assets/js/diagrams.js:88 | only the observed flag changes |
| Diagrams.DiagramElement.SetInnerHtml | assets/js/diagrams.js:160 | the inner HTML becomes the new markup and no other field changes; `textContent` is kept as it was (see "## Left out") |
| Diagrams.DiagramElement.MarkMermaidRendered | assets/js/diagrams.js:161 | only the `mermaid-rendered` class changes |
| Diagrams.DiagramElement.AddInteractiveFeatures | assets/js/diagrams.js:254-304 | the element's new state is its decorated old state |
| Diagrams.DiagramPage.constructor | assets/js/diagrams.js:133 | the page starts with no diagram counted and no colour pass scheduled |
| Diagrams.DiagramPage.RenderMermaidDiagram | assets/js/diagrams.js:135-196 | the element and the counter change exactly as the render function says; no colour pass is scheduled |
| Diagrams.DiagramPage.ShowRendered | assets/js/diagrams.js:157-166 | the SVG is shown, the element is marked mermaid-rendered and decorated, and the counter grows by one |
| Diagrams.DiagramPage.ShowFallback | assets/js/diagrams.js:176-183 | the fallback SVG is shown and decorated, and the counter grows by one |
| Diagrams.DiagramPage.OnIntersection | assets/js/diagrams.js:64-94 | the element, the counter and the scheduled colour passes change exactly as the observer callback function says |
| Diagrams.DiagramPage.InitialRenderOne | assets/js/diagrams.js:105-109 | one step of the initial pass renders a Mermaid diagram that is not yet marked, and nothing else |
| Diagrams.DiagramPage.InitialPass | assets/js/diagrams.js:102-109 | every element of the list ends in the state of its own initial render, and the counter grows by the number of diagrams rendered |
| Diagrams.CountRenderedBound | assets/js/diagrams.js:102-109 | the initial pass counts at most one render per diagram |
| Base64.DecodeEncode | _plugins/kroki_diagrams.rb:46 | decoding an encoding gives back the bytes |
| Base64.EncodeDecode | _plugins/kroki_diagrams.rb:46 | every decodable text is the encoding of what it decodes to, so the encoding is canonical |
| Base64.TrEncodeToUrlSafe | _plugins/plantuml_plugin.rb:45 | `tr('+/', '-_')` turns standard Base64 into URL-safe Base64 |
| Base64.TrEncodeToStandard | _plugins/plantuml_plugin.rb:45 | the reverse `tr('-_', '+/')` turns URL-safe Base64 back into standard Base64 |
| Base64.RepadRender | _plugins/plantuml_plugin.rb:45 | adding back the padding to the unpadded rendering gives the padded encoding |
| Utf8.DecodeEncode | _plugins/plantuml_plugin.rb:44 | the UTF-8 bytes of a text decode back to the text |
| Utf8.EncodeDecode | _plugins/plantuml_plugin.rb:44 | every valid UTF-8 byte string is the encoding of what it decodes to |
| Digest.ShortHashIsFirstFourBytes | _plugins/plantuml_plugin.rb:17 | `hexdigest[0..7]` is eight lower-case hex digits that spell the first four digest bytes |
| Digest.ShortHashCollision | _plugins/kroki_diagrams.rb:20 | two short hashes agree if and only if the first four digest bytes agree |
| Digest.HexInjective | _plugins/plantuml_plugin.rb:17 | hex rendering is injective |
| Text.ReplaceAllIsJoinSplit | scripts/new_post.rb:90-96 | `gsub!` with a literal pattern replaces every occurrence, read left to right |
| Text.JoinSplit | scripts/new_post.rb:90-96 | the text is the pieces between occurrences joined by the pattern |
| Text.RubySplitParts | scripts/new_post.rb:41 | `split(',')` gives comma-free pieces, drops trailing empty fields, and rebuilds the text up to its trailing commas |
| Text.ReplaceRunsSqueezes | scripts/new_post.rb:157-158 | replacing runs by one dash leaves no doubled dash |
| Text.Downcase | scripts/new_post.rb:155 | no upper-case ASCII letter, Kelvin sign or capital dotted I remains |
| Text.ParseNatToString | assets/js/post-enhancements.js:62 | the decimal rendering of an index reads back as the index |

## Left out

- Ruby and zlib deflate, inflate and SHA-1 are function parameters. Their bit-level algorithms are not modelled. The round trips assume only that `inflate` undoes `deflate`.
- Jekyll and Liquid plumbing is not modelled: tag registration, `super` returning the block body, `context.registers[:site]`.
- The conflicting double definition of `Jekyll::PlantUMLBlock` is not modelled: `_plugins/plantuml_plugin.rb:6` declares it under `Liquid::Block` and `_plugins/kroki_diagrams.rb:51` under `KrokiBlock`. Each encoder is modelled as written.
- The `@markup` kept by `PlantUMLBlock` (`_plugins/plantuml_plugin.rb:7-10`) is never read, so it is not modelled.
- The network: the PlantUML and Kroki servers are not modelled. The model stops at the URL that would be fetched.
- File system, console and editor in `new_post.rb` are not modelled: reading templates and writing the post, `puts`, and launching `$EDITOR`. They appear as a map of templates, a set of existing paths and an `Outcome` value.
- `Date.today` is a parameter.
- `OptionParser` errors for unknown or malformed options are not modelled. Arguments arrive already classified as `Arg` values.
- NewPost.BlogPostGenerator.GenerateContent requires a title. The script only reaches it after `run` has checked for one, and `gsub!` with a nil replacement would raise.
- Browser APIs are not modelled: `IntersectionObserver`, `setTimeout`, `throttle`, `MutationObserver`, `matchMedia`, event listeners, smooth scrolling, and `console` output.
  - Timers are modelled as counters of scheduled passes.
  - The decoration that `throttle` wraps runs immediately, because a fresh throttle is created per call.
- Reading progress, scroll percentages and the zoom factor are floating point and are not modelled. Neither is the styling of PlantUML/Kroki SVG text.
- Calls into the `mermaid` library are inputs. Each render attempt is an `Attempt` value, success with SVG or failure with a message, and rendering is synchronous. The real calls are asynchronous, so the order of the `unobserve` call against an unfinished render is not captured.
- The random suffix of Mermaid ids in `diagrams.js` is not modelled.
- The outer `catch` of `renderMermaidDiagram` (`assets/js/diagrams.js:197-205`) only fires on exceptions the model has no source of, so it is not modelled.
- `renderPlantUMLDiagram` (`assets/js/diagrams.js:208`) is never called and is not modelled. Only its encoder is modelled.
- Diagrams.RenderMermaid reads `textContent` once.
- Diagrams.DiagramElement.SetInnerHtml: replaces `innerHTML` without recomputing `textContent` from the new markup.
- `data-rendered` is modelled as a boolean. A value other than `'true'` that is still truthy is not distinguished.
- Text.ReplaceAll: treats the replacement text literally. Ruby's `gsub!` with a string replacement also expands backslash sequences such as `\0`, `\&` and `\\`, so a title, author or list holding a backslash is not modelled exactly.
- Text.Downcase: case mapping (`downcase`, `toLowerCase`, `capitalize`) is modelled for ASCII, the Kelvin sign and the capital dotted I. Other letters pass through unchanged. This is exact for slugs, which delete or replace every non-ASCII letter (non-ASCII white space becomes `-` in `createSlug`), and approximate for the Kroki type and the description.
- Strings are sequences of Unicode scalar values. Lone surrogates in JavaScript strings are not represented.
- The remaining `post-enhancements.js` features (copy buttons, reading progress bar, smooth scrolling, image zoom) only touch the page's look and are not modelled.
