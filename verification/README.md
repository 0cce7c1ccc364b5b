# kenny-rag in Dafny

A model of the deterministic core of kenny-rag, a retrieval-augmented chat bot
about the comedian Kenny Robinson. The model covers three scripts:

- The corpus builder (`build_vector_db.py`):
  - finds each fetched page's article container and extracts de-duplicated, whitespace-normalised text;
  - cuts the text into overlapping word windows;
  - builds `{name}_chunk_{i:04d}` records and adds them to the vector store in batches of 100.
- The supplemental updater (`add_supplemental.py`):
  - parses hand-written corpus files, whose header holds a `URL:` line and ends at the first blank line;
  - deletes the records of the sources being replaced, then adds the new files' records.
- The bot (`kenny_robinson_api/main.py`):
  - zips retrieval results;
  - packs the context block for the language model;
  - builds the sorted source attribution, the first-URL-wins source catalogue and the `/stats` count;
  - cuts every reply to Telegram's 4096-character limit.

The modules:

| module | concept |
|---|---|
| `Wrappers` | `Option` |
| `Text` | Python's whitespace, `split`, `join` and `strip`; substrings; ASCII case folding; code-point string order; sorted sets; zero-padded decimals |
| `Seqs` | order-preserving subsequences |
| `Chunker` | `chunk_text` as a closed form over word windows |
| `Html` | the parse tree, `find` and `find_all` in document order, `get_text`, boilerplate stripping |
| `Extract` | the container cascade, the fragment filter, containment de-duplication, whitespace normalisation |
| `Records` | chunk ids, records, the store as a map, batching, the fetch loop, the raw file format |
| `Supplemental` | universal newlines, `readlines`, `parse_file`, the loop form of `chunk_text`, the delete-then-add update |
| `Bot` | truncation, zipping, context block, attribution, catalogue, stats, button data |

How the model represents things:

- The vector store is a `map` from id to document and metadata.
- `collection.add` inserts ids that are absent and leaves ids already present unchanged. This follows the store's documented behaviour of ignoring an existing id.
- `collection.delete` removes a set of keys.
- Network, files, the language model and Telegram are parameters: a page is an `Option<Node>`, a file's content is a string, and the model's answer is a string.

## Model

`Bot.CatalogText` is the reply of both the `/sources` command (kenny_robinson_api/main.py:207-222) and the catalogue button (kenny_robinson_api/main.py:157-169). The two blocks are the same code, so one definition serves both.

| member | source | states |
|---|---|---|
| Text.Words | build_vector_db.py:172 | every word `text.split()` yields is non-empty and free of whitespace |
| Text.WordsEmptyIff | build_vector_db.py:172-174 | `split()` yields no words exactly when the text is all whitespace |
| Text.WordsOfJoin | build_vector_db.py:184 | splitting words joined by single spaces gives back exactly those words, so a chunk never cuts a word |
| Text.WordsStrip | build_vector_db.py:109 | `strip` keeps every word of the text |
| Text.Strip | add_supplemental.py:50 | `str.strip()`: the result is a contiguous slice with no leading or trailing whitespace, and only whitespace was cut off |
| Text.StripEmptyIff | kenny_robinson_api/main.py:238-240 | stripping gives `""` exactly when the text is all whitespace |
| Text.SortedSet | kenny_robinson_api/main.py:257 | `sorted(set(xs))`: strictly increasing and has exactly the elements of `xs` |
| Text.SortedUnique | kenny_robinson_api/main.py:257 | two strictly sorted lists with the same elements are equal, so the sorted set is determined by the elements alone |
| Text.LessTransitive | kenny_robinson_api/main.py:217 | code-point string order is transitive (with irreflexivity and totality, a strict total order) |
| Text.DecimalRoundTrip | build_vector_db.py:239 | the decimal rendering of a number reads back as that number |
| Chunker.DefaultWordCounts | build_vector_db.py:177-178 | the default 500 and 50 tokens convert to 375 and 37 words |
| Chunker.ChunkText | build_vector_db.py:170-190 | chunk `k` is words `k*step .. k*step+wpc` joined by single spaces, where `step = wpc - overlap` |
| Chunker.ChunkTextCount | build_vector_db.py:182-188 | there are `ceil(n / step)` chunks for `n` words |
| Chunker.ChunkTextEmptyIff | build_vector_db.py:172-174 | no chunks exactly when the text has no words |
| Chunker.SingleChunk | build_vector_db.py:182-188 | at most `step` words make exactly one chunk, the whole text |
| Chunker.TwoChunks | build_vector_db.py:182-188 | between `step` and `wpc` words make two chunks, the second a suffix of the first |
| Chunker.ChunkSizes | build_vector_db.py:183-184 | every chunk has between 1 and `wpc` words |
| Chunker.ChunkResplit | build_vector_db.py:184 | re-splitting chunk `k` gives exactly its word window |
| Chunker.ChunkCoverage | build_vector_db.py:182-186 | every word index lies in some chunk at its position |
| Chunker.ChunkAt | build_vector_db.py:182-188 | window `k` of the loop entered at `start` lies inside the text and begins at word `start + k * step` |
| Chunker.ChunkOverlapWords | build_vector_db.py:186 | the next chunk starts `overlap` words before the previous one ends |
| Chunker.Reassemble | build_vector_db.py:182-186 | the first chunk plus each later chunk minus its overlap gives back the word list |
| Chunker.DefaultChunkCounts | build_vector_db.py:177-188 | with the defaults, 300 words give 1 chunk, 10 words give 1, and 900 words give 3 |
| Html.FindSpec | build_vector_db.py:122 | `find` returns the first matching descendant in document order, and `None` only when none matches |
| Html.Select | build_vector_db.py:82 | `find_all` keeps exactly the matching nodes, in document order |
| Html.SelectCount | build_vector_db.py:82 | each matching node is kept as many times as it occurs, and no other node is kept |
| Html.GetTextEmptyIff | build_vector_db.py:83 | `get_text(strip=True)` is empty exactly when no descendant string has non-whitespace |
| Html.CleanAllRemoves | build_vector_db.py:66-75 | after stripping, no comment and no element with a tag in `STRIP_TAGS` remains at any depth |
| Html.CleanAllFixedIff | build_vector_db.py:66-75 | stripping changes nothing exactly when there is no boilerplate |
| Html.CleanIdempotent | build_vector_db.py:66-75 | stripping twice is stripping once |
| Html.CleanAllTexts | build_vector_db.py:72-74 | the strings left after stripping are a subsequence of the original strings: a removed tag takes its subtree, and nothing is added or reordered |
| Extract.FirstFound | build_vector_db.py:118-139 | the cascade returns the result of the first rule that finds something, and `None` only when no rule does |
| Extract.LocateWikipedia | build_vector_db.py:120-122 | on a URL containing `wikipedia.org`, `div#mw-content-text` wins when present |
| Extract.LocateUrlIndependent | build_vector_db.py:121-139 | the URL matters only through whether it contains `wikipedia.org` |
| Extract.ArticleBeatsClassHeuristics | build_vector_db.py:125-133 | without the Squarespace classes, `<article>` comes before every later heuristic |
| Extract.LocateFallback | build_vector_db.py:142-143 | when no rule matches, the container is `body`, or else the whole document |
| Extract.LocateFirstMatch | build_vector_db.py:118-139 | the container is the match of the first rule that matches |
| Extract.LongTexts | build_vector_db.py:82-86 | kept fragments are longer than 20 characters, and every element text that long is kept |
| Extract.LongTextsInOrder | build_vector_db.py:82-86 | the kept texts follow element order, and each long text is kept as many times as it occurs while short ones are dropped |
| Extract.FragmentsInOrder | build_vector_db.py:82-86 | the fragments appear in document (pre-order) order of the container's descendants |
| Extract.Evict | build_vector_db.py:97-98 | eviction keeps, in order, exactly the kept lines that do not occur inside the new line |
| Extract.DedupAllFacts | build_vector_db.py:88-100 | the de-duplicated list keeps the input order, has no line inside another, covers every input line, and holds exactly the input's maximal lines |
| Extract.Dedup | build_vector_db.py:88-100 | the loop, which also keeps a `seen` set equal to the kept lines' elements, computes the de-duplicated list |
| Extract.CollapseNewlines | build_vector_db.py:107 | the result has no three newlines in a row |
| Extract.CollapseBlanks | build_vector_db.py:108 | the result has no tab and no two spaces in a row |
| Extract.CollapseBlanksNewlines | build_vector_db.py:107-108 | collapsing blanks cannot recreate three newlines in a row |
| Extract.Normalize | build_vector_db.py:107-109 | normalised text has no triple newline, no tab, no double space, and no surrounding whitespace |
| Extract.WordsCollapseNewlines | build_vector_db.py:107 | collapsing newline runs leaves the text's words unchanged |
| Extract.WordsCollapseBlanks | build_vector_db.py:108 | collapsing runs of spaces and tabs leaves the text's words unchanged |
| Extract.NormalizeWords | build_vector_db.py:107-109 | tidying whitespace keeps every word of the text, in order |
| Extract.NormalizeIdempotent | build_vector_db.py:107-109 | normalising twice is normalising once |
| Extract.KeptFragments | build_vector_db.py:82-101 | every kept fragment is a long element text, and every long element text lies inside a kept fragment |
| Extract.ContainerWords | build_vector_db.py:88-109 | the container text has exactly the words of the kept fragments joined by blank lines, or of the container's strings when no fragment was kept |
| Extract.ContainerFallback | build_vector_db.py:103-104 | with no long fragment, the newline-joined container text is used |
| Extract.ExtractedIsTidy | build_vector_db.py:112-145 | extracted article text is already normalised |
| Extract.FetchArticle | build_vector_db.py:156-162 | the fetch yields text exactly when the page arrived and its extracted text is non-empty |
| Records.Pad4 | build_vector_db.py:239 | `{i:04d}` is all digits and exactly four wide, or as wide as the plain numeral when that is longer |
| Records.Pad4Value | build_vector_db.py:239 | `{i:04d}` has at least four digits and reads back as `i` |
| Records.ChunkIdRoundTrip | build_vector_db.py:239 | a chunk id parses back into its source name and index |
| Records.ParseChunkIdExact | build_vector_db.py:239 | parsing succeeds with `(name, i)` exactly on `ChunkId(name, i)` |
| Records.ChunkIdInjective | build_vector_db.py:239 | two chunk ids are equal exactly when their names and indices are |
| Records.SourceRecordsFacts | build_vector_db.py:235-246 | a source's records are its chunks in order, with `chunk_index` 0..n-1, the source's URL and name, and distinct ids |
| Records.AddAllSpec | build_vector_db.py:272-276 | adding records keeps existing ids and inserts each absent id from its first record |
| Records.AddAllConcat | build_vector_db.py:270-276 | adding in two steps is adding the concatenation |
| Records.FirstEntriesDistinct | build_vector_db.py:272-276 | with distinct ids, each record is stored under its own id |
| Records.Batches | build_vector_db.py:269-271 | batches concatenate back to the list, each holds 1 to 100 records, and all but the last are full |
| Records.BatchCount | build_vector_db.py:270 | there are `ceil(n / 100)` batches |
| Records.AddBatchesConcat | build_vector_db.py:270-276 | adding batch by batch is adding the whole list |
| Records.PutFacts | build_vector_db.py:210 | assigning into `fetched` keeps names distinct, sets the entry, and leaves every other entry alone |
| Records.GatherFacts | build_vector_db.py:204-212 | each gathered article has non-empty text and comes from a listed name and URL |
| Records.GatherAll | build_vector_db.py:204-212 | when every fetch succeeds, every listed source is gathered |
| Records.UrlsDistinct | build_vector_db.py:37-55 | the source list's names are distinct |
| Records.AllRecordsFacts | build_vector_db.py:233-246 | every record's id is consistent with its metadata and comes from a fetched source, and ids are distinct |
| Records.BuildIndexSpec | build_vector_db.py:233-277 | the rebuilt store holds exactly the records' ids, each with its own document and metadata |
| Supplemental.UniversalNewlines | add_supplemental.py:36 | no `\r` is left and the text does not grow; the three step lemmas below fix the translation itself |
| Supplemental.UniversalNewlinesCrLf | add_supplemental.py:36 | a `\r\n` pair reads as one `\n` |
| Supplemental.UniversalNewlinesLoneCr | add_supplemental.py:36 | a `\r` not followed by `\n` reads as `\n` |
| Supplemental.UniversalNewlinesKeep | add_supplemental.py:36 | every other character reads as itself |
| Supplemental.UniversalNewlinesIdempotent | add_supplemental.py:36 | translating twice is translating once |
| Supplemental.ReadLinesFacts | add_supplemental.py:36 | `readlines` gives non-empty lines that concatenate back to the text, each but the last ending in its only newline |
| Supplemental.ReadLinesAppend | add_supplemental.py:36 | reading text that starts at a line boundary splits it into the lines of each part |
| Supplemental.UrlLineColon | add_supplemental.py:43-44 | on a `URL:` line the first colon is at index 3, so the URL is everything after `URL:` |
| Supplemental.EndsHeaderIff | add_supplemental.py:46-48 | the header ends at a whitespace-only line at index 1 or later |
| Supplemental.ScanRunsOff | add_supplemental.py:41-48 | the scan runs off the end exactly when there is no separator line |
| Supplemental.ScanStopsAt | add_supplemental.py:46-48 | the scan stops just after the first separator line |
| Supplemental.ScanUrl | add_supplemental.py:41-45 | the scanned URL is that of the last `URL:` line before the break; later lines are never scanned |
| Supplemental.ParseFile | add_supplemental.py:31-51 | the parsed body has no surrounding whitespace |
| Supplemental.NoSeparatorWholeFile | add_supplemental.py:50 | with no separator line, the body is the whole file, stripped, header included |
| Supplemental.SeparatorSplits | add_supplemental.py:41-50 | with a first separator line `j`, the URL comes from lines before `j` and the body is what follows `j`, stripped |
| Supplemental.UrlHeader | add_supplemental.py:43-44 | a `URL: u` line sets the URL to `u` |
| Supplemental.OtherHeader | add_supplemental.py:43 | any other line leaves the URL unchanged |
| Supplemental.UrlFile | add_supplemental.py:31-51 | a `URL:` line, a rule line and a blank line parse to the URL and the stripped body |
| Supplemental.ParseExample | add_supplemental.py:31-51 | `"URL: http://x\n===\n\nBody text here"` parses to `("http://x", "Body text here")` |
| Supplemental.RawRoundTrip | build_vector_db.py:223-225 | parsing a raw corpus file gives an empty URL, because its key is `SOURCE:`, and the stripped text |
| Supplemental.RawRoundTripPlain | build_vector_db.py:223-225 | for text without `\r`, the parsed body is `text.strip()` |
| Supplemental.ChunkText | add_supplemental.py:54-73 | the updater's loop computes the builder's `chunk_text(t, 500, 50)` |
| Supplemental.ChunkLoop | add_supplemental.py:63-71 | the `while` loop with its early `break` yields one joined window per step, the same list as the builder's recursive windowing from word 0 |
| Supplemental.PurgeSpec | add_supplemental.py:84-93 | deletion removes exactly the records whose source is replaced, and leaves all others unchanged |
| Supplemental.UpdateSpec | add_supplemental.py:84-120 | the update fails exactly when a stored record has no `source_name`; otherwise it is the purged store plus the first entry per new id, and `total_added` counts the added records |
| Supplemental.FileRecordsFacts | add_supplemental.py:102-119 | a readable file with a non-empty body adds one record per chunk, with id `name_chunk_{i:04d}`, `chunk_index` i and the parsed URL |
| Supplemental.TotalAdded | add_supplemental.py:97-120 | `total_added` is the sum of the chunk counts of the files actually processed |
| Supplemental.UpdateKeeps | add_supplemental.py:84-93 | a record of a source not being replaced survives the update unchanged |
| Supplemental.UpdateReplaces | add_supplemental.py:84-120 | after the update, every entry of a replaced source is the first entry the update added under its id |
| Supplemental.ReplacedWithoutFileIsEmpty | add_supplemental.py:91-109 | a replaced source whose file is missing or empty is left with no records |
| Supplemental.ImdbGone | add_supplemental.py:23-28 | with the shipped file table, no `imdb` record survives the update |
| Supplemental.UpdateIdempotent | add_supplemental.py:84-120 | running the update twice gives the store of running it once |
| Bot.Truncate | kenny_robinson_api/main.py:186-187 | a reply is unchanged exactly when it fits in 4096 characters; otherwise it becomes its first 4090 characters plus `...` |
| Bot.TruncateIdempotent | kenny_robinson_api/main.py:262-263 | truncating twice is truncating once |
| Bot.Zip | kenny_robinson_api/main.py:76-86 | as many hits as the shortest of the three result lists |
| Bot.ZipAt | kenny_robinson_api/main.py:76-86 | hit `k` combines the `k`-th document, metadata and distance, with a missing name or URL read as `""` |
| Bot.ContextBlockAppend | kenny_robinson_api/main.py:92-94 | one more chunk appends a `---` separator and its `[Source: name]` entry, and nothing else changes |
| Bot.ContextBlockLength | kenny_robinson_api/main.py:92-94 | the block is the entries plus one separator between neighbours |
| Bot.UserMessageSpec | kenny_robinson_api/main.py:92-100 | the user message holds every chunk under its source tag and ends with the question |
| Bot.SourcesLineSpec | kenny_robinson_api/main.py:257-258 | the attribution lists every source of the hits once, in increasing order |
| Bot.SingleSourceLine | kenny_robinson_api/main.py:257-258 | hits from a single source are attributed to it alone |
| Bot.AnswerReply | kenny_robinson_api/main.py:260-263 | an answer reply never exceeds 4096 characters |
| Bot.AnswerReplyShape | kenny_robinson_api/main.py:260-263 | a short enough reply carries the answer and attribution whole, and a long one keeps the answer's start |
| Bot.Question | kenny_robinson_api/main.py:238-240 | a message gets no reply exactly when it is all whitespace; otherwise the question is the stripped text |
| Bot.QuestionReply | kenny_robinson_api/main.py:247-263 | the no-information text is sent exactly when retrieval found nothing |
| Bot.AnswerHasSources | kenny_robinson_api/main.py:179-187 | an answer reply to found hits can never look like a no-information text |
| Bot.RemovePrefix | kenny_robinson_api/main.py:174 | `removeprefix` cuts the prefix off exactly when the text starts with it, and otherwise returns the text unchanged |
| Bot.ButtonQuestion | kenny_robinson_api/main.py:174 | a button carrying `q:` plus a question asks exactly that question, with one tag removed |
| Bot.ButtonUntagged | kenny_robinson_api/main.py:174 | data without the tag is asked as it is |
| Bot.SeenSpec | kenny_robinson_api/main.py:209-215 | a name is catalogued exactly when one of its records has a non-empty URL, and with the first such URL |
| Bot.CatalogNames | kenny_robinson_api/main.py:217 | the catalogue's names are strictly increasing and are exactly the catalogued names |
| Bot.CatalogSpec | kenny_robinson_api/main.py:216-218 | the header count equals the number of lines, and each line is a name with its first URL, in name order |
| Bot.CatalogText | kenny_robinson_api/main.py:220-221 | the catalogue reply never exceeds 4096 characters |
| Bot.MessageReply | kenny_robinson_api/main.py:236-265 | a typed message gets no reply exactly when it is all whitespace, and every reply fits in 4096 characters |
| Bot.ButtonReply | kenny_robinson_api/main.py:151-188 | every button reply, the catalogue or an answer, fits in 4096 characters |
| Bot.ButtonLikeTyped | kenny_robinson_api/main.py:172-188 | a `q:` button gets the reply that typing its question gets, except for the wording of the no-information text |
| Bot.CatalogWithinStats | kenny_robinson_api/main.py:228 | every catalogued name is among the names `/stats` counts |
| Bot.CatalogMatchesStats | kenny_robinson_api/main.py:228 | when every record has a URL, the catalogue and `/stats` agree on the sources |

## Left out

- Fetching pages over HTTP, with its headers, 20-second timeout, polite one-second delay and failure logging: a page is a parameter that is either present or missing.
- Parsing HTML with lxml and BeautifulSoup: the tree is a datatype. Attributes other than `id`, `class` and `role` are dropped, and an absent attribute is the empty string.
- Regular expressions: each case-insensitive class or id regex is its list of literal alternatives, tested as ASCII case-insensitive substrings.
- Python's Unicode rules for `split`, `strip`, `upper` and `isspace`: a fixed ASCII whitespace set and ASCII case folding stand in for them.
- Text mode's UTF-8 decoding, and reading and writing files: a file is its decoded content, and a missing file is a key absent from a map.
- The vector store's embedding, similarity search, `count` and collection metadata: only insert and delete on the id map are modelled. Query results are parameters of `Bot.Zip`.
- Rounding distances with `round(dist, 4)`: distances are kept as given.
- Deleting and recreating the collection, which the model treats as starting from the empty map; the exception the deletion may raise is swallowed there.
- Calling the language model, Telegram's handlers and keyboards, the placeholder "Searching" message, the generic error replies, the FastAPI health server, environment configuration and logging: these are I/O. The answer text is a parameter.
- The smoke test script that posts to a `/query` endpoint: it is a network client outside the core.
- Metadata that is `None` rather than a dictionary: metadata is always a record whose fields may be absent.
- Chunker.ChunkText: the float conversion `int(t / 1.33)` is `t * 100 / 133` on naturals. This agrees on the defaults 500 and 50, but may differ by one for other inputs because of binary rounding. Windows need `overlap < words per chunk`, because the source loops forever otherwise.
- Records.AddAllSpec: an id already in the store is left unchanged, following the store's documented handling of existing ids. The updater's result depends on this. On a rerun, `comedy_history_101` and `google_doc_catalog` replace nothing, and `imdb_bio` is written while the delete set holds `imdb` (add_supplemental.py:23-28, 84-90). So all three add ids that were never deleted. A store that overwrote or rejected existing ids would give other results.
- Supplemental.UpdateSpec: "the first entry per new id, the purged store winning" holds only because the store ignores ids it already has, as under Records.AddAllSpec.
- Supplemental.UpdateIdempotent: a second run changes nothing only because the store ignores ids it already has, as under Records.AddAllSpec.
- Bot.Truncate: counts characters as code points, as Python's `len` does, not the UTF-16 units Telegram counts.
- Bot.StatsReply: the chunk count and model name in the `/stats` text are parameters; only the source count is derived.
- Supplemental.Update: a store record with no `source_name` makes the update fail as a whole. The source raises `KeyError` there before deleting anything, and the model returns `None`.
