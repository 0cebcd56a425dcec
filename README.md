# Koningschat core, modelled in Dafny

Koningschat answers questions about the Koningsspelen (the Dutch King's
Games) from the content of the Koningsspelen website. This project models
the core of that pipeline and proves properties of the model:

- **Scraper** (`backend/src/scripts/scraper.ts`). It collects the internal
  links of the home page, with `findUrls`. It turns a fetched page into a
  title and cleaned text, with `scrapeUrl`, and upserts that into the
  `content` table, with `saveContent`.
- **Chunker** and **Embeddings** (`backend/src/services/embeddings.ts`).
  `chunkText` packs the sentences of a page greedily into chunks.
  `generateEmbeddingsForAllContent` embeds every chunk of every page and
  appends it to the `embeddings` table. `searchSimilarContent` looks up the
  chunks nearest to a question.
- **Database** (`backend/src/services/database.ts`). The two tables become
  an in-memory `Store` class. The service's SQL queries (upsert, insert,
  inner join, `ORDER BY`, `LIMIT`) are functions on its rows.
- **OpenAI** (`backend/src/services/openai.ts`). It builds the chat request
  from a question and its context, reads back the reply, and picks the
  first vector of an embedding response.
- **UseChat** (`frontend/src/composables/useChat.ts`). This is the chat
  window's state as a `Chat` class. `sendMessage` posts the question and
  reads the answer as a stream of `data: <json>` lines.

The helper modules are:

- `Wrappers`: `Option` and `Result`.
- `JsString`: JavaScript's `trim`, `.length` in UTF-16 code units, `split`
  and `join` on strings.
- `Sorting`: a stable insertion sort and `LIMIT`, with their proofs.

External services are parameters of the model:

- the OpenAI endpoints (`embed`, `chat`, `embeddings`);
- pgvector's `<=>` distance (`distance`);
- `fetch` with the parsed HTML (`Response` and `Page`);
- the chat stream (`Reply`);
- `JSON.parse` (`parse`);
- the clock (`now`, `userNow`, `botNow`, `errorNow`).

Where the code and its documentation disagree, the model follows the code:

- Regenerating embeddings does not delete the old rows first. Every run
  appends, so a second run with the same embedding outcomes duplicates
  them.
  `GenerateEmbeddingsForAllContent` keeps the old rows as a prefix.
- Chunk indices are not always contiguous. A chunk whose embedding fails
  is skipped and leaves a gap (`ChunkSavedIff`).

## Model

| member | source | states |
|---|---|---|
| Chunker.ChunkText | backend/src/services/embeddings.ts:7-29 | The loop's result is `Chunks(text, maxChunkSize)`, with a default size of 1000. That is the greedy packing of the non-blank trimmed fragments, or `[text]` when no chunk is produced |
| Chunker.Chunks | backend/src/services/embeddings.ts:28 | `chunkText` never returns an empty list |
| Chunker.SplitSentences | backend/src/services/embeddings.ts:8 | `split(/[.!?]+/)` always yields at least one fragment |
| Chunker.SplitHasNoDelimiter | backend/src/services/embeddings.ts:8 | No fragment of the split contains `.`, `!` or `?` |
| Chunker.SplitLosesOnlyDelimiters | backend/src/services/embeddings.ts:8 | Concatenating the fragments gives the text with every delimiter removed. The split loses nothing else |
| Chunker.SplitNoDelimiter | backend/src/services/embeddings.ts:8 | A text without `.`, `!` or `?` splits into itself alone |
| Chunker.SplitAtRun | backend/src/services/embeddings.ts:8 | A delimiter run of any length after a delimiter-free prefix ends exactly one fragment, and the split goes on after the run |
| Chunker.SplitRunLikeOne | backend/src/services/embeddings.ts:8 | A run of two or more delimiters splits exactly like a single delimiter, as the `+` of the pattern says |
| Chunker.SplitInterleave | backend/src/services/embeddings.ts:8 | Delimiter-free fragments joined by non-empty delimiter runs split back into exactly those fragments, when no inner fragment is empty |
| Chunker.NonBlank | backend/src/services/embeddings.ts:8 | The filter never adds a fragment |
| Chunker.NonBlankAppend | backend/src/services/embeddings.ts:8 | The filter works fragment by fragment: filtering a concatenation concatenates the filtered parts |
| Chunker.NonBlankSingle | backend/src/services/embeddings.ts:8 | A single fragment is kept exactly when it is not blank |
| Chunker.NonBlankKeepsEvery | backend/src/services/embeddings.ts:8 | Every non-blank fragment is kept, between the kept fragments before it and the kept fragments after it |
| Chunker.NonBlankKeeps | backend/src/services/embeddings.ts:8 | The filter keeps only fragments of the split that are not blank |
| Chunker.FragmentsAreSentences | backend/src/services/embeddings.ts:8-13 | Every trimmed sentence the loop sees is non-empty, trimmed and free of delimiters |
| Chunker.TrimAll | backend/src/services/embeddings.ts:12-13 | The loop's sentence at each position is the fragment at that position, trimmed |
| Chunker.Sentences | backend/src/services/embeddings.ts:8-13 | The loop sees one sentence per kept fragment, and each is non-empty, trimmed and free of delimiters |
| Chunker.StepIsPush | backend/src/services/embeddings.ts:13-21 | One loop iteration on (chunks, currentChunk) is one step on a grouping of sentences. It either closes the open group and opens a new one, or appends to the open group |
| Chunker.OpenGroup | backend/src/services/embeddings.ts:14-18 | The overflow branch keeps the grouping well formed and appends the sentence in a new group |
| Chunker.ExtendGroup | backend/src/services/embeddings.ts:19-21 | The fitting branch keeps the grouping well formed and appends the sentence to the open group |
| Chunker.GroupsInvariant | backend/src/services/embeddings.ts:12-22 | After any number of iterations the grouping is greedy. Each added sentence fitted, each new group overflowed the previous one, and the groups hold exactly the sentences after the dropped prefix, in order |
| Chunker.RunIsGroups | backend/src/services/embeddings.ts:12-22 | The loop's state is that grouping: the closed groups joined by ". " as chunks, and the last group as `currentChunk` |
| Chunker.ProducedIsJoinedGroups | backend/src/services/embeddings.ts:12-26 | The chunks before the fallback are the groups, each joined by ". " |
| Chunker.ChunksAreGreedyGroups | backend/src/services/embeddings.ts:7-29 | `chunkText` returns the groups of a greedy grouping of the text's sentences, each joined by ". ", or `[text]` when there is no group |
| Chunker.ChunksAreTrimmed | backend/src/services/embeddings.ts:16-25 | Unless the fallback applies, every chunk is non-empty and trimmed |
| Chunker.FallbackIff | backend/src/services/embeddings.ts:24-28 | The result is `[text]` exactly when every sentence is longer than `maxChunkSize` on its own, including when there is no sentence |
| Chunker.GreedyEmptyIff | backend/src/services/embeddings.ts:12-22 | A greedy grouping is empty exactly when every sentence is too long |
| Chunker.ChunkSizeBound | backend/src/services/embeddings.ts:14-20 | A chunk of two or more sentences is at most `maxChunkSize + 2` long, because the check ignores the last ". ". The first sentence of the first chunk fits |
| Chunker.GreedyGroupBound | backend/src/services/embeddings.ts:14-20 | Within a well-formed grouping, every group of two or more sentences joins to at most `maxChunkSize + 2` |
| Chunker.GreedyFirstFits | backend/src/services/embeddings.ts:14-15 | The first sentence of a non-empty greedy grouping is at most `maxChunkSize` long |
| Chunker.LongFirstSentenceDropped | backend/src/services/embeddings.ts:14-18 | A first sentence longer than `maxChunkSize` is lost: with an empty buffer the overflow branch does nothing |
| Chunker.ThreeShortSentences | backend/src/services/embeddings.ts:8-28 | Three delimited sentences that fit together make a single chunk joined by ". " |
| Embeddings.FullText | backend/src/services/embeddings.ts:41 | The chunked text is the title, two line breaks and the content, and both can be read back |
| Embeddings.GenerateEmbeddingsForAllContent | backend/src/services/embeddings.ts:31-61 | The content rows are untouched and every old embedding row stays. The rows appended are exactly `JobPayloads`: page by page in `scraped_at DESC` order, each page's successful chunks in index order |
| Embeddings.EmbedItem | backend/src/services/embeddings.ts:37-57 | One page appends exactly the rows for its `${title}\n\n${content}` chunks |
| Embeddings.EmbedChunks | backend/src/services/embeddings.ts:44-57 | The inner loop appends one row per chunk whose embedding succeeds, with the page id, the chunk and its index. A failing chunk is skipped |
| Embeddings.ChunkPayloads | backend/src/services/embeddings.ts:44-57 | After `n` chunks at most `n` rows have been saved |
| Embeddings.ItemPayloads | backend/src/services/embeddings.ts:37-57 | A page saves at most one row per chunk of its text |
| Embeddings.ChunkPayloadsStep | backend/src/services/embeddings.ts:44-57 | One more chunk adds its row exactly when its embedding succeeded |
| Embeddings.ChunkSavedIff | backend/src/services/embeddings.ts:44-56 | A row with chunk index `i` is saved for a page exactly when embedding chunk `i` succeeds |
| Embeddings.ChunkPayloadsIndexed | backend/src/services/embeddings.ts:44-50 | A page's saved chunk indices strictly increase and lie in `0..n-1`. Each row holds the page id and the chunk at its index |
| Embeddings.NoFailureNoGaps | backend/src/services/embeddings.ts:44-50 | With no failing embedding, a page gets `n` rows with indices `0..n-1` in order |
| Embeddings.ItemPayloadsFrom | backend/src/services/embeddings.ts:41-50 | Every row saved for a page carries that page's id and one of its chunks at that chunk's index |
| Embeddings.JobPayloadsFromItems | backend/src/services/embeddings.ts:37-50 | Every row the job saves belongs to one of the pages it read |
| Embeddings.SearchSimilarContent | backend/src/services/embeddings.ts:63-71 | It returns `[]` when embedding the question fails or the database rejects the limit. Otherwise it returns the database search with the question's embedding: at most `limit` hits (default 3) |
| Database.FindUrl | backend/src/services/database.ts:74 | It finds a row with the url exactly when one exists |
| Database.Upsert | backend/src/services/database.ts:70-81 | A known url keeps the row count and the serial counter. A new url adds one row, gets the next serial id and advances the counter |
| Database.UpsertKeepsInvariant | backend/src/services/database.ts:70-81 | The upsert keeps url a unique key and the ids distinct and below the next serial value |
| Database.UpsertStores | backend/src/services/database.ts:70-81 | After the upsert exactly one row has the url. It holds the new title and content, the returned id and `updated_at = now` |
| Database.UpsertKeepsIdentity | backend/src/services/database.ts:72-79 | On conflict the row keeps its position, id and `scraped_at`, and the same id is returned. A new url adds one row with the next id. Other rows are untouched |
| Database.JoinRows | backend/src/services/database.ts:63-64 | The inner join has at most one row per embedding |
| Database.JoinSound | backend/src/services/database.ts:63-64 | Every joined row pairs a stored embedding with the stored content row whose id it references |
| Database.JoinComplete | backend/src/services/database.ts:63-64 | Every embedding whose content row exists appears in the join with that row |
| Database.Search | backend/src/services/database.ts:56-68 | The search fails exactly for a negative LIMIT. Otherwise it returns at most `limit` hits |
| Database.SearchSorted | backend/src/services/database.ts:56-68 | The search returns joined rows nearest first, `min(limit, rows)` of them, taken from the join |
| Database.SearchKeepsNearest | backend/src/services/database.ts:65-66 | No joined row left out is nearer to the query than a row returned |
| Database.SearchHitsHaveParents | backend/src/services/database.ts:58-64 | Each hit is a stored embedding with its distance to the query and the title and url of its content row |
| Database.ListEmbeddings | backend/src/services/database.ts:91-106 | It fails exactly for a negative LIMIT. Otherwise each listed row gives `e.id, e.chunk_text, e.chunk_index, c.title, c.url, LENGTH(e.chunk_text)` of the listed joined rows |
| Database.ListedRows | backend/src/services/database.ts:100-103 | `ORDER BY c.id, e.chunk_index LIMIT n` gives at most `n` joined rows |
| Database.ListingOrdered | backend/src/services/database.ts:100-103 | The listing is ordered by content id then chunk index and holds `min(limit, rows)` joined rows. No omitted row sorts before a listed one |
| Database.AllContentOrdered | backend/src/services/database.ts:49-54 | `getAllContent` returns every content row once, newest `scraped_at` first |
| Database.AllContent | backend/src/services/database.ts:49-54 | `getAllContent` returns as many rows as the table holds |
| Database.DistinctUrls | backend/src/services/database.ts:72-74 | With url a unique key, there are as many urls as content rows |
| Database.Store.constructor | backend/src/services/database.ts:5 | A fresh database has both tables empty and both serial sequences at 1, and the table invariants hold |
| Database.Store.ContentCountIsUrlCount | backend/src/services/database.ts:39-42 | `getContentCount` equals the number of distinct urls scraped |
| Database.Store.GetAllContent | backend/src/services/database.ts:49-54 | It returns as many rows as the table holds |
| Database.Store.SearchSimilarContent | backend/src/services/database.ts:56-68 | It fails exactly for a negative limit (default 5). Otherwise it returns at most `limit` rows and no more than there are embeddings |
| Database.Store.GetAllEmbeddings | backend/src/services/database.ts:91-106 | It fails exactly for a negative limit (default 50). Otherwise it returns at most `limit` rows |
| Database.Store.SaveContent | backend/src/services/database.ts:70-82 | The new table is the upsert of the old one and the returned id is the upserted row's. The count grows by one only for a new url, and the embeddings are unchanged |
| Database.Store.SaveEmbedding | backend/src/services/database.ts:84-89 | It appends one row with the next serial id and changes nothing else |
| Sorting.SortByCorrect | backend/src/services/database.ts:49-54 | `ORDER BY` returns a sorted permutation of the rows |
| Sorting.TopRows | backend/src/services/database.ts:65-66 | `ORDER BY ... LIMIT n` returns the first `min(n, rows)` rows of the order, taken from the input, and no later row sorts before them |
| Sorting.TopRowsBeatOmitted | backend/src/services/database.ts:65-66 | Every returned row sorts no later than every omitted one |
| JsString.Trim | backend/src/services/embeddings.ts:13 | `trim()` gives a trimmed string, is empty exactly for blank input and leaves a trimmed string as it is |
| JsString.TrimIsSlice | backend/src/services/embeddings.ts:13 | `trim()` only cuts characters off the two ends |
| JsString.TrimAround | backend/src/scripts/scraper.ts:59 | Trimming a string whose middle part sits between two non-whitespace characters trims only the outer parts |
| JsString.Utf16Length | backend/src/services/embeddings.ts:14 | `.length` lies between the number of code points and twice that |
| JsString.Utf16LengthAppend | backend/src/services/embeddings.ts:14 | `.length` of a concatenation is the sum of the lengths |
| JsString.SplitOn | frontend/src/composables/useChat.ts:71 | `split('\n')` gives at least one part and no part contains the separator |
| JsString.SplitOnJoin | frontend/src/composables/useChat.ts:71 | Joining the parts of `split('\n')` with `'\n'` gives back the read |
| JsString.BeforeFirst | backend/src/scripts/scraper.ts:102 | `split(c)[0]` is the longest prefix without `c`; the next character, if any, is `c` |
| JsString.ToLowerAscii | backend/src/scripts/scraper.ts:105 | The `/i` flag on an ASCII pattern folds exactly the ASCII capitals, character by character |
| Scraper.ResolveHref | backend/src/scripts/scraper.ts:92-99 | An href is kept exactly when it starts with `/` or with the site URL. A path gets the site URL prepended, and a site URL stays as it is |
| Scraper.CleanUrl | backend/src/scripts/scraper.ts:102 | The cleaned URL has no `#` or `?`. It is the prefix of the URL up to the first `#` or `?` |
| Scraper.CleanUrlIdempotent | backend/src/scripts/scraper.ts:102 | Cleaning a cleaned URL changes nothing |
| Scraper.LinkTargetShape | backend/src/scripts/scraper.ts:88-108 | A URL contributed by a link is on the site, has no fragment or query, has no listed extension and no admin path |
| Scraper.LinkTargetDropped | backend/src/scripts/scraper.ts:90-106 | A link is dropped exactly when it is external, or its cleaned URL has a listed extension or contains `/admin` or `/wp-` |
| Scraper.BlockedIgnoresCase | backend/src/scripts/scraper.ts:105 | The extension filter ignores ASCII case |
| Scraper.BlockedExtensionMatches | backend/src/scripts/scraper.ts:105 | Any URL ending in a dot and one of the eight extensions, in any ASCII case, is blocked |
| Scraper.SetAdd | backend/src/scripts/scraper.ts:108 | `Set.add` keeps the earlier members in insertion order and adds the URL, and nothing else |
| Scraper.SetAddDistinct | backend/src/scripts/scraper.ts:108 | Adding to a set never creates a duplicate |
| Scraper.FindUrls | backend/src/scripts/scraper.ts:78-119 | The loop over the links returns `FoundUrls(home)`: the set of link targets in document order, then the home page |
| Scraper.FoundUrlsCorrect | backend/src/scripts/scraper.ts:78-119 | The URLs are distinct. A failed fetch gives none. Otherwise the home page is in the list, and a URL is in the list exactly when it is the home page or some link contributes it |
| Scraper.FoundUrlsOnSite | backend/src/scripts/scraper.ts:93-112 | Every URL found is on the site without fragment or query, and every one but the home page passes both filters |
| Scraper.Gather | backend/src/scripts/scraper.ts:88-109 | The set never holds more URLs than there were links |
| Scraper.FoundUrls | backend/src/scripts/scraper.ts:78-119 | No URL is found exactly when fetching the home page fails |
| Scraper.GatherMembers | backend/src/scripts/scraper.ts:88-109 | A URL is in the set exactly when some link step contributed it |
| Scraper.GatherDistinct | backend/src/scripts/scraper.ts:79-109 | The set never holds a URL twice |
| Scraper.CollectedMembers | backend/src/scripts/scraper.ts:88-109 | A URL is collected exactly when some link of the page resolves to it |
| Scraper.PageTitle | backend/src/scripts/scraper.ts:32 | The title is trimmed, and it is empty exactly when both the `title` and the first `h1` are blank |
| Scraper.FirstMatch | backend/src/scripts/scraper.ts:45-51 | It returns the first selector, in priority order, that matches, and no earlier selector matches |
| Scraper.MainContent | backend/src/scripts/scraper.ts:44-51 | The selector loop with `break` computes `MainText`: the trimmed text of the first matching selector, or empty |
| Scraper.FirstSelectorDecides | backend/src/scripts/scraper.ts:45-56 | The first matching selector gives the text. If that text is blank, the body is used instead |
| Scraper.NoSelectorUsesBody | backend/src/scripts/scraper.ts:53-56 | Without a matching selector the body's text is used |
| Scraper.MainText | backend/src/scripts/scraper.ts:44-51 | The selector text is trimmed, and it is non-empty only when some selector matched |
| Scraper.PageText | backend/src/scripts/scraper.ts:53-59 | The page text is trimmed and never has two whitespace characters in a row |
| Scraper.CollapseWhitespace | backend/src/scripts/scraper.ts:59 | `replace(/\s+/g, ' ')` leaves only single spaces as whitespace and keeps the first character or turns it into a space |
| Scraper.CollapseKeepsWords | backend/src/scripts/scraper.ts:59 | Collapsing keeps every non-whitespace character, in order |
| Scraper.CollapseIdempotent | backend/src/scripts/scraper.ts:59 | Collapsing text that has only single spaces changes nothing |
| Scraper.CollapseRun | backend/src/scripts/scraper.ts:59 | A whitespace run of any length becomes exactly one space |
| Scraper.CollapseAppend | backend/src/scripts/scraper.ts:59 | Collapsing works piece by piece when the cut does not fall inside a whitespace run |
| Scraper.CollapseBetweenWords | backend/src/scripts/scraper.ts:59 | A whitespace run between two pieces becomes exactly one space between their collapsed forms. A run never disappears |
| Scraper.CleanText | backend/src/scripts/scraper.ts:59 | The cleaned text is trimmed, and its only whitespace is single spaces |
| Scraper.CleanTextBetweenWords | backend/src/scripts/scraper.ts:59 | Two pieces that start and end in non-whitespace, with a whitespace run between them, are cleaned to the cleaned pieces joined by one space |
| Scraper.WordsOfTrim | backend/src/scripts/scraper.ts:59 | `trim()` removes only whitespace |
| Scraper.CleanTextKeepsWords | backend/src/scripts/scraper.ts:59 | Cleaning keeps every non-whitespace character of the page text, in order |
| Scraper.ScrapeUrl | backend/src/scripts/scraper.ts:15-76 | It gives nothing exactly when the fetch fails, the status is not OK, or the cleaned content is shorter than 50 UTF-16 units. Otherwise it gives the url, the title and the cleaned content, which is trimmed, at least 50 long and without double whitespace |
| Scraper.SaveContent | backend/src/scripts/scraper.ts:121-136 | The page is upserted on url. A failed write is caught and leaves the table as it was. The embeddings and their serial counter are untouched |
| OpenAI.UserPromptWithContext | backend/src/services/openai.ts:35-41 | With a context, the user prompt is the header, the context, a blank line, `Vraag: ` with the question, a blank line and the instruction, each at a fixed position |
| OpenAI.UserPromptWithoutContext | backend/src/services/openai.ts:42 | Without a context, the prompt is `Vraag: ` followed by the question |
| OpenAI.UserPromptInjective | backend/src/services/openai.ts:35-42 | For the same context, different questions give different prompts |
| OpenAI.ChatRequestShape | backend/src/services/openai.ts:44-52 | Every request has two messages: the same system prompt, then the user prompt, which determines the question for a given context |
| OpenAI.ReplyText | backend/src/services/openai.ts:54 | The reply is never empty. A `null` or empty content becomes the fallback text, and other content is returned unchanged |
| OpenAI.GenerateChatResponse | backend/src/services/openai.ts:24-59 | An API error is rethrown, and an empty `choices` is an error. Otherwise the reply text of the first choice is returned |
| OpenAI.GenerateEmbedding | backend/src/services/openai.ts:10-22 | An API error is rethrown, and an empty `data` is an error. Otherwise the first vector is returned |
| UseChat.Chat.constructor | frontend/src/composables/useChat.ts:12-17 | The chat starts with the greeting from `Bot` (id 1), an empty input and nothing loading |
| UseChat.Chat.SendMessage | frontend/src/composables/useChat.ts:19-111 | A blank input or a pending send changes nothing. Otherwise the user message and then the bot message in its final streamed state are appended. The apology follows exactly when the request failed or the stream broke before `end`/`error`. The input is cleared and nothing is loading |
| UseChat.Chat.ReadStream | frontend/src/composables/useChat.ts:65-97 | The read loop leaves the bot message in the state of the whole stream and reports whether an `end` or `error` event stopped it. Other messages are unchanged |
| UseChat.Chat.ReadLines | frontend/src/composables/useChat.ts:73-94 | The line loop updates the bot message line by line and returns early on `end`/`error` |
| UseChat.LinesAppend | frontend/src/composables/useChat.ts:65-72 | The lines of several reads are the lines of each read, in order |
| UseChat.ConsumeAppend | frontend/src/composables/useChat.ts:73-94 | Handling lines in two parts is handling them all |
| UseChat.StoppedStaysStopped | frontend/src/composables/useChat.ts:84-91 | After `end` or `error` nothing changes the message |
| UseChat.StopsIffTerminal | frontend/src/composables/useChat.ts:84-91 | Streaming stops exactly when some line is an `end` or `error` event |
| UseChat.ChunksAccumulate | frontend/src/composables/useChat.ts:78-81 | Until the stream stops, the text is the concatenation of the chunk contents in arrival order |
| UseChat.OtherLinesIgnored | frontend/src/composables/useChat.ts:74 | Lines without the `data: ` prefix change nothing |
| UseChat.ErrorReplacesText | frontend/src/composables/useChat.ts:87-91 | An `error` event replaces the whole text with its message and stops streaming |
| UseChat.SourcesSet | frontend/src/composables/useChat.ts:82-83 | The message's sources are those of the last `sources` event before the stream stops |
| UseChat.SourcesKept | frontend/src/composables/useChat.ts:82-83 | Lines without a `sources` event leave the sources alone |
| UseChat.StopsWithinRead | frontend/src/composables/useChat.ts:65-97 | Stopping within a read fixes the outcome of the whole stream |
| UseChat.StopsWithinLines | frontend/src/composables/useChat.ts:73-94 | Stopping at a line fixes the outcome of all the lines |
| UseChat.ReadStep | frontend/src/composables/useChat.ts:65-73 | One more read handles that read's lines after the earlier ones |
| UseChat.Step | frontend/src/composables/useChat.ts:74-91 | A line never changes a stopped message and never restarts streaming |
| UseChat.Consume | frontend/src/composables/useChat.ts:73-94 | A stopped message stays as it is through any lines, and streaming never restarts |
| UseChat.Lines | frontend/src/composables/useChat.ts:65-72 | Every read gives at least one line |

## Left out

- I/O is not modelled: logging, `setTimeout` delays, `await`, the database connection, `testConnection` and `close`. The scraper's `main` and its pacing are also left out.
- HTML parsing and cheerio's removal of `script`, `style`, `nav`, `header`, `footer`, `.menu` and `.navigation` are not modelled. The `Page` value already holds the text left after that removal: the `title`, the first `h1`, the body, each selector's text and the `href`s in document order.
- The `TextDecoder` is left out: each read arrives already decoded. A line cut across two reads stays cut into two lines, as in the code.
- Concurrency is not modelled: two overlapping `sendMessage` calls, or a second embedding run next to a first. The chat's bot message is updated through its index in the list. The code updates the same object through an alias, and only this function writes the list.
- JavaScript's `undefined` coercions are not modelled, such as an event `chunk` without `content` appending `"undefined"`. Events are typed by the `parse` parameter.
- Embeddings.EmbedChunks: `embed` is a function of the chunk text alone, so equal texts always get the same vector and the same success or failure, for the chunks and for the question. Transient failures, rate limits and a changing model that make one call fail and another with the same text succeed are not modelled; the 100 ms pause between calls is left out with the other delays.
- Embeddings.EmbedChunks: a failed `saveEmbedding` is caught by the same `try` as a failed embedding. The model folds both into one outcome of the `embed` parameter.
- `content_type` and `created_at` are left out. The model assumes that `scraped_at` and `updated_at` both default to the insert time, because the insert gives neither: `Upsert` sets both to `now` for a new url. The serial ids are modelled as a counter without gaps. PostgreSQL can skip serial values, which would not change any property stated.
- The `ORDER BY` orders are a stable sort. For ties PostgreSQL guarantees no order, so the model fixes one of the allowed orders.
- Limits are integers. A fractional or non-numeric `LIMIT` is left out, and a negative one is an error.
- Scraper.FindUrls: an exception from `fetch` or `response.text()` can only happen before any link is collected, so it is the `FetchFailed` case and yields `[]`. The response status is not checked, as in the code.
- Database.Store.GetAllContent: its own contract states only the row count. The order and permutation are stated by `Database.AllContentOrdered`.
- Database.Store.SearchSimilarContent and Database.Store.GetAllEmbeddings: their own contracts state only the bounds. The order, the nearest rows and the parent rows are stated by `Database.SearchSorted`, `Database.SearchKeepsNearest`, `Database.SearchHitsHaveParents` and `Database.ListingOrdered`.
- pgvector's `<=>` is the `distance` parameter; its cosine formula and floating point are not modelled. `LENGTH` counts code points.
