# Slide generator core, modelled in Dafny

This project models the sequential logic around the network and
presentation-library calls of a slide-deck generator.

**The outline parser and slide dispatcher** (`core/slides_generator.py`):
- The language model's reply is cut at every `[SLIDEBREAK]`.
- Each piece gets a kind: the first of `[L_TS]`, `[L_CS]`, `[L_IS]`, `[L_THS]` that occurs in it.
- The fields `[TITLE]`, `[SUBTITLE]`, `[CONTENT]` and `[IMAGE]` are read between their tags.
- Each recognised piece adds exactly one slide, with layout 0, 1, 8 or 5 respectively.
- The deck is saved as the first slide's title (or the topic, when that title is empty) plus `.pptx`.

**The image cache and download naming** (`core/image_search.py`):
- A downloaded picture is stored as `p_`, then a 16-character random alphanumeric name, then the base 64 encoding (section 4 of RFC 4648) of the UTF-8 bytes of the URL path, then a dot and a whitelisted extension.
- The image searcher keeps a query-to-file map. It consults the map before crawling and writes it through to a JSON file when a crawl yields a file.
- It falls back to `default.png`, which is never cached.

**Search-result formatting** (`core/web_search.py`):
- Result records become markdown blocks with per-key defaults, joined by `"\n---\n"`.
- An empty or failed search gives `"No results found."`.
- A failed formatting request leaves the markdown unformatted.

Modules, one per file:
- `Wrappers` and `Bytes` (`wrappers.dfy`): `Option` and a byte type.
- `Strings` (`strings.dfy`): the Python string operations used:
  - `find`, `in`, `startswith` and slicing
  - `split` and `join`
  - `strip` over Python's whitespace set
  - ASCII `lower`
- `Utf8` and `Base64`: `str.encode()` and `base64.b64encode`, each with a decoder proved to invert it.
- `ImageSearch`, `Slides` and `WebSearch`: the three source files.

Where the source changes state in place, the model does too:
- `SlidesGenerator` and `ImageSearcher` are classes whose methods update their fields.
- `Presentation` is a class whose slide sequence grows.
- `_parse_response` and `parse_results` are loops.

Each method is proved against a pure specification function (`RenderChunks`, `Download`, `Markdown`), and the properties are proved about those functions.

External effects are parameters:
- The directory listing of the images folder after a crawl: `listdir`.
- The cache file on disk: a `StoreFile` value, one of missing, corrupt JSON, or a JSON object.
- The search engine: `ddgs`.
- HTML-to-text: `getText`.
- The language model: `requestAi`, which may raise.
- The random downloader name: a `UniqueName` value, a subset type of 16 ASCII letters and digits.

Where the specification and the code disagree, the model follows the code:
- An image slide looks its picture up by the `[IMAGE]` field's text, not by the slide title.
- No secondary elaboration request is made per slide.
- No cache of language-model requests exists.
- There is no two-column slide kind.

## Model

| member | source | states |
|---|---|---|
| Strings.Contains | core/slides_generator.py:104 | Python's `in`: holds exactly when the pattern occurs at some index (`ContainsIffOccurs`) |
| Strings.StartsWith | core/image_search.py:69 | `str.startswith`: the text's prefix of the pattern's length is the pattern |
| Strings.Find | core/slides_generator.py:93-94 | `str.find`: the first index at which the tag occurs, and -1 exactly when it occurs nowhere |
| Strings.Slice | core/slides_generator.py:96 | Python slicing: the text between the bounds when they are ordered and in range, `""` when the end is not after the start |
| Strings.Strip | core/slides_generator.py:96 | `str.strip()`: the result neither begins nor ends with whitespace |
| Strings.StripSpec | core/slides_generator.py:96 | the stripped text is a middle part of the input with only whitespace before and after it, starting after the whole leading whitespace run |
| Strings.FindFirstOccurrence | core/slides_generator.py:93-94 | wherever the first occurrence of a tag is known to be, `find` returns that index |
| Strings.Split | core/slides_generator.py:31 | `str.split` with a non-empty separator: at least one piece; the lemmas below prove that the pieces join back to the text, hold no separator, and number one more than the separators |
| Strings.Join | core/web_search.py:43 | `sep.join`: the lemmas below prove that splitting a join gives the pieces back when none runs into the separator, and that a join opens with its first piece |
| Strings.JoinSplit | core/slides_generator.py:31 | joining the pieces of `split` with the separator gives back the reply |
| Strings.SplitSize | core/slides_generator.py:31 | `split` yields one more piece than there are non-overlapping separators |
| Strings.SplitPiecesFree | core/slides_generator.py:31 | no piece of a split holds the separator |
| Strings.SplitLastIsSuffix | core/image_search.py:21 | the last piece of `split` holds no separator; it is the whole text when the separator is absent, and otherwise what follows a separator at the end of the text |
| Strings.SplitJoin | core/web_search.py:43 | splitting a join gives back the pieces when no piece runs into a separator |
| Strings.LowerAscii | core/image_search.py:22 | `lower()` keeps the length and lowers each ASCII letter |
| Strings.MemberFromSpec | core/image_search.py:22-24 | the list-membership scan holds exactly when some entry from the start position on equals the value |
| Strings.JoinStartsWith | core/web_search.py:43 | a join opens with its first piece |
| Slides.ExtractTagContent | core/slides_generator.py:89-97 | the field is always trimmed, and `""` when either tag is missing |
| Slides.ExtractAtFirstTags | core/slides_generator.py:93-97 | with both tags present, the field is the trimmed text from the end of the first start tag to the first end tag, or `""` when that end tag comes before the start tag is over (the end tag is searched from position 0) |
| Slides.ExtractTagged | core/slides_generator.py:93-96 | a text that opens with the start tag, the field and the end tag reads back as the trimmed field |
| Slides.FindSlideType | core/slides_generator.py:99-106 | the kind whose tag occurs and comes first in the order `[L_TS]`, `[L_CS]`, `[L_IS]`, `[L_THS]`; none exactly when no kind tag occurs |
| Slides.Draft | core/slides_generator.py:40-83 | the slide of each kind, pictures aside: layout 0 with title and subtitle, layout 1 or 8 with title and content, layout 5 with the title only; `ChunkWellFormed` and `RenderWellFormed` prove the shape of every slide it yields |
| Slides.ChunkTitle | core/slides_generator.py:35 | a slide's title is never empty and never has surrounding whitespace (`"Untitled"` replaces an empty field) |
| Slides.RenderChunk | core/slides_generator.py:33-47 | one iteration of the loop as a value: `SteadyStep` and `ImageStep` state it per kind, and `ChunkFollowsOutline`, `ChunkWellFormed` and `ChunkKeepsCache` prove its slide follows the outline, is well formed, and keeps the cache file's entries |
| Slides.RenderChunks | core/slides_generator.py:27-47 | `_parse_response` as a value: `RenderFollowsOutline`, `RenderWellFormed`, `RenderKeepsCache` and `ReplySlideCount` prove its slides are the outline with pictures, well formed, at most one per piece, and that the cache file only grows |
| Slides.RenderWithStep | core/slides_generator.py:32-47 | handling one more piece appends that piece's slide and threads the cache file on |
| Slides.SteadyStep | core/slides_generator.py:40-47 | a title, content or thanks piece adds its layout-0, 1 or 5 slide and leaves the cache file alone |
| Slides.ImageStep | core/slides_generator.py:76-87 | an image piece adds a layout-8 slide with title, text and the picture found for its `[IMAGE]` query under the images directory |
| Slides.ChunkFollowsOutline | core/slides_generator.py:34-47 | one piece adds its outline slide if its kind is recognised and nothing otherwise, pictures aside |
| Slides.RenderWithFollows | core/slides_generator.py:32-47 | when every step adds its piece's draft, pictures aside, the pieces together add the drafts of all pieces in order |
| Slides.RenderFollowsOutline | core/slides_generator.py:27-47 | pictures aside, the slides added are exactly the outline: one per recognised piece, in reply order |
| Slides.DraftsSize | core/slides_generator.py:32-47 | at most one slide per piece, and one for every piece exactly when every piece's draft is a slide |
| Slides.OutlineSize | core/slides_generator.py:40-47 | at most one slide per piece, and one for every piece exactly when every piece is recognised |
| Slides.ReplySlideCount | core/slides_generator.py:31-47 | the reply adds at most one slide more than it has `[SLIDEBREAK]` separators |
| Slides.ChunkWellFormed | core/slides_generator.py:35-87 | the slide one piece adds, if any, has a non-empty trimmed title, a layout fitting its body, and a picture in the images directory exactly for layout 8 |
| Slides.RenderWithWellFormed | core/slides_generator.py:32-47 | steps that add only well-formed slides add only well-formed slides over all pieces |
| Slides.RenderWellFormed | core/slides_generator.py:35-87 | every added slide has a non-empty trimmed title, one of layouts 0, 1, 5, 8, a body exactly unless layout 5, and a picture in the images directory exactly for layout 8 |
| Slides.ChunkKeepsCache | core/slides_generator.py:85-86 | handling one piece never drops or changes an entry of the image cache file |
| Slides.RenderWithKeepsCache | core/slides_generator.py:32-47 | steps that never drop a cache entry never drop one over all pieces |
| Slides.RenderKeepsCache | core/slides_generator.py:85-86 | handling a reply never drops or changes an entry of the image cache file |
| Slides.FirstSlideNamesDeck | core/slides_generator.py:22 | with no template slides, the first slide exists and carries the first outline title, which is not empty |
| Slides.Presentation.constructor | core/slides_generator.py:20 | the deck starts as the template's slides |
| Slides.Presentation.AddSlide | core/slides_generator.py:54 | a slide is appended and nothing else changes |
| Slides.SlidesGenerator.constructor | core/slides_generator.py:6-11 | the generator starts with the given paths and cache file and no saved decks |
| Slides.SlidesGenerator.GeneratePresentation | core/slides_generator.py:13-25 | the deck is the template then the reply's slides; it is saved under the first slide's title, or the topic when that is empty, plus `.pptx`; the cache file is what the reply's image slides left |
| Slides.SlidesGenerator.ParseResponse | core/slides_generator.py:27-47 | the loop appends exactly the slides the pieces render to, in order, and leaves the cache file they left |
| Slides.SlidesGenerator.HandlePieces | core/slides_generator.py:32-47 | the `for` loop over the pieces: the deck grows by the slides of the pieces in order, and the cache file is what they left |
| Slides.SlidesGenerator.HandlePiece | core/slides_generator.py:33-47 | one loop iteration: the piece's kind picks the create call, and the deck grows by that piece's slide |
| Slides.SlidesGenerator.CreateThanksSlide | core/slides_generator.py:49-55 | appends a layout-5 slide with the title only |
| Slides.SlidesGenerator.CreateTitleSlide | core/slides_generator.py:57-65 | appends a layout-0 slide with title and subtitle |
| Slides.SlidesGenerator.CreateContentSlide | core/slides_generator.py:67-74 | appends a layout-1 slide with title and content |
| Slides.SlidesGenerator.CreateImageSlide | core/slides_generator.py:76-87 | appends a layout-8 slide with title, content and the picture a fresh searcher finds for the query, and keeps the cache file it wrote |
| Slides.SlidesGenerator.GetPresentationTitle | core/slides_generator.py:108-112 | the title of the deck's first slide |
| Utf8.Encode | core/image_search.py:29 | UTF-8 takes between one and four bytes per character |
| Utf8.DecodeEncode | core/image_search.py:29 | UTF-8 decoding inverts `url_path.encode()` |
| Utf8.EncodeAscii | core/image_search.py:29 | an ASCII path encodes to its own code points |
| Base64.Encode | core/image_search.py:29 | four alphabet-or-padding characters per started group of three bytes |
| Base64.DecodeEncode | core/image_search.py:29 | base 64 decoding inverts `b64encode` |
| Base64.EncodeHasNoDot | core/image_search.py:29-30 | an encoding never holds a dot, so the name's first dot after the random part starts the extension |
| ImageSearch.IsImageExtension | core/image_search.py:22-24 | the extension's lower case is one of `jpg`, `jpeg`, `png`, `bmp`, `tiff`, `gif`, `ppm`, `pgm`; `MemberFromSpec` proves the scan is list membership |
| ImageSearch.Extension | core/image_search.py:19-27 | the default without a dot in the path; otherwise either the default or a whitelisted (in lower case) dot-free suffix after the path's last dot |
| ImageSearch.ExtensionOfSuffix | core/image_search.py:20-25 | for the text after the last dot: kept exactly when its lower case is whitelisted |
| ImageSearch.LastPieceIsDotSuffix | core/image_search.py:20-21 | with a dot in the path, `split('.')[-1]` is the dot-free text after the path's last dot |
| ImageSearch.LastPieceOfSuffix | core/image_search.py:20-21 | a path ending in a dot and a dot-free text holds a dot, and that text is the last piece of its split |
| ImageSearch.EncodePath | core/image_search.py:29 | the base 64 encoding of the path's UTF-8 bytes holds no dot, and decoding it gives the path back |
| ImageSearch.PrefixDownloader.GetFilename | core/image_search.py:18-30 | starts with `p_` and the 16-character name, and parses back into that name, the encoding of the URL path and the chosen extension |
| ImageSearch.FilenameParses | core/image_search.py:29-30 | a name built from prefix, random name, encoded path, dot and extension reads back into those parts |
| ImageSearch.FilenameRevealsPath | core/image_search.py:29-30 | the encoded part of a downloader's file name decodes to the URL path, so two paths never share a name |
| ImageSearch.LoadedEntries | core/image_search.py:38-46 | a JSON object loads as itself; a missing or corrupt file loads as the empty cache |
| ImageSearch.Downloaded | core/image_search.py:69 | exactly the listing's entries that start with `p_` |
| ImageSearch.DownloadedHead | core/image_search.py:69-70 | the chosen file is the listing's first `p_` entry |
| ImageSearch.Download | core/image_search.py:53-84 | a hit returns the cached name and changes nothing; a miss takes the first `p_` entry less its prefix and caches it; without one (or with an empty name) it returns `default.png` and changes nothing |
| ImageSearch.DownloadOnlyAddsQuery | core/image_search.py:53-84 | no entry is dropped or changed; only the query may be added, mapped to the name returned, which is then a `p_` file of the listing without its prefix; a save happens exactly when the query was added |
| ImageSearch.DownloadAgainHits | core/image_search.py:55-80 | once a query has a file, asking again hits, returns the same file and changes nothing |
| ImageSearch.ImageSearcher.constructor | core/image_search.py:33-36 | the searcher's cache is what loading its file gives |
| ImageSearch.ImageSearcher.LoadCache | core/image_search.py:38-46 | the file's object, or an empty cache for a missing or corrupt file |
| ImageSearch.ImageSearcher.SaveCache | core/image_search.py:48-51 | the file now holds the whole in-memory cache |
| ImageSearch.ImageSearcher.DownloadImage | core/image_search.py:53-84 | returns and caches what `Download` prescribes, writes the file exactly when a new entry was cached, and keeps cache and file in agreement |
| WebSearch.Get | core/web_search.py:31-33 | `dict.get`: the stored value when the key is present, the default otherwise |
| WebSearch.Block | core/web_search.py:31-40 | a block opens with the linked heading of the title (or `No title`) and ends with a newline |
| WebSearch.Blocks | core/web_search.py:30-41 | one block per result, in input order |
| WebSearch.Markdown | core/web_search.py:25-43 | `parse_results` as a value: `ParseResults` computes it by its loop, `MarkdownSplitsIntoBlocks` proves it splits back into one block per result, and `MarkdownIsNotSentinel` that it opens with the first heading and is never the sentinel |
| WebSearch.Search | core/web_search.py:14-23 | the engine's records, or no records when it raises |
| WebSearch.FormatWithLlm | core/web_search.py:45-55 | the model's reply to the instruction prefix followed by the markdown, or the markdown unchanged when the request raises |
| WebSearch.SearchAndFormat | core/web_search.py:57-73 | `perform_search_and_format` as a value: `NoResultsIgnoresModel` proves an empty or failed search gives the sentinel whatever the model does, and `FailingModelGivesMarkdown` that with a failing model the answer is the sentinel exactly when there are no results |
| WebSearch.WebSearch.ParseResults | core/web_search.py:25-43 | the loop's blocks joined by rules; `""` for no results |
| WebSearch.WebSearch.PerformSearchAndFormat | core/web_search.py:57-73 | `"No results found."` for an empty or failed search; otherwise the formatted markdown |
| WebSearch.BlockSeparatesCleanly | core/web_search.py:40-43 | a block ends in a newline, so a rule can only occur inside it, never straddling into the next rule |
| WebSearch.MarkdownSplitsIntoBlocks | core/web_search.py:43 | when no block holds a rule, the markdown splits back into exactly the blocks and holds `n - 1` rules for `n` results |
| WebSearch.MarkdownIsNotSentinel | core/web_search.py:62-71 | the markdown of some results opens with the first heading and is never `"No results found."` |
| WebSearch.FailingModelGivesMarkdown | core/web_search.py:49-73 | with a model that always raises, the answer is the sentinel exactly when there are no results, and the plain markdown otherwise |
| WebSearch.NoResultsIgnoresModel | core/web_search.py:62-65 | an empty or failed search gives the sentinel whatever the model would answer |

## Left out

- Printing and logging: all `print` calls are left out.
- The language model: prompt construction, the request that produces the reply, and `AIRequester`. `GeneratePresentation` takes the reply as its input.
- The presentation library:
  - Template loading: the template's slides are an input.
  - Placeholder filling: a slide is a record of layout, title, body text and picture path.
  - Picture positioning.
  - Writing the file: a save records the deck under its path in `savedDecks`.
- The crawler and its threads. The crawl's effect is the directory listing passed in as `listdir(query)`.
- `os.listdir` order: the listing is a sequence given by the caller.
- A changing images directory during one reply: `listdir` depends on the query only and is fixed for the whole reply. In the source every cache miss crawls again and lists the directory as it then stands, so a repeated query whose first crawl found nothing may find a file later; the model says it finds nothing again. No proved property relies on this.
- `os.rename` of the chosen file, including its failure for an entry named exactly `p_`. For such an entry the model follows the code after the rename: the empty name is falsy, so `default.png` is returned and nothing is cached.
- JSON parsing: a cache file is modelled as missing, corrupt, or an object mapping strings to strings. `Corrupt` stands only for a file that `json.load` rejects with `JSONDecodeError`, the one failure `load_cache` catches. A file whose bytes do not decode as text (`UnicodeDecodeError`) and a path that exists but cannot be opened make the source raise; those are not modelled. A well-formed JSON file holding something else is not modelled either.
- `random.choices`: the random name is a parameter of type `UniqueName`.
- `urlparse`: the URL path is a parameter.
- `ImageSearcher`'s config lookup (`IMAGES_PATH`, `CACHE_FILE`): the cache file is a value, and the images path is a field of the generator.
- Strings.LowerAscii: lowers ASCII letters only, unlike Python's full Unicode `lower()`. This does not change whitelist membership: no other character lowers to a string made only of the whitelist's ASCII letters.
- The `WebSearch` config argument is unused by the source and is not modelled.
- The constructor default of five results: the number of results is always given.
- Python `None` results from `_find_slide_type` are `Option.None`.
- A search engine returning a non-list value is not modelled.
- `url_path.encode()` raising on a lone surrogate: a Dafny `char` is a Unicode scalar value and cannot hold one, so `Utf8.Encode` is total.
- A language model answering `None`: `request_ai` can return `None`, which `format_with_llm` passes on unchanged. `Completion` carries only text, so that answer is not modelled.
