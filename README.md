# browser-history-search: a Dafny model of the text-processing core

browser-history-search is a browser extension with a small Express backend. The extension captures chat messages and page text. The backend splits each capture into chunks, stores the chunks in a vector database, and answers questions with a retrieval-augmented prompt. The chat panel then turns markdown links in the answer into HTML anchors.

This project models the parts of that pipeline that are computation rather than I/O, and proves properties of them:

- `js_strings.dfy` (module `JsStrings`): the JavaScript string built-ins the core relies on.
  - `trim`, with the ECMAScript WhiteSpace and LineTerminator code points.
  - `split` and `join` with a one-character separator.
  - `value || fallback` for a possibly absent string.
  - A Dafny `char` stands for one UTF-16 code unit, so `|s|` is `s.length`.
- `chunker.dfy` (module `Chunker`): `splitIntoChunks`.
  - The functional specification is a fold over the sentences (`SentenceRun`) and a fold over the words (`WordRun`). Each fold's step is one iteration of the source loop.
  - `SplitIntoChunks` and `PushWordGroups` are the imperative loops, with the same buffers and the same output list. Both are proved against the folds.
  - Lemmas state what every chunk looks like, what happens to an overlong sentence, and that no non-whitespace, non-terminator character is lost, added or reordered.
- `ingest.dfy` (module `Ingest`): the records that `POST /api/messages` and `POST /api/pages` store. There is one record per chunk, numbered by position, and every record carries the chunk count and the request's single timestamp.
- `rag.dfy` (module `Rag`): the context block and the user prompt that `POST /api/rag` builds from the retrieved messages and pages.
- `markdown_links.dfy` (module `MarkdownLinks`): `convertMarkdownLinks`.
  - This is a global, left-to-right, non-overlapping replacement of the pattern `\[([^\]]+)\]\(([^)]+)\)`.
  - The one-position matcher `MatchLinkAt` is proved equal to the declarative reading of the pattern (`HasLinkAt`), in both directions.

Behaviour of the code worth knowing, each proved in the model:

- No text gives zero chunks (`Chunker.Chunks`).
  - The empty text gives one chunk, `["."]` (`Chunker.ChunksOfEmptyText`).
  - A whitespace-only text that fits the chunk size also gives `["."]` (`Chunker.BlankTextWithinSize`).
  - A longer whitespace-only text goes through the word loop, and every chunk it gives is the empty string (`Chunker.BlankTextOverSize`).
- `"A. B. C."` with chunk size 5 gives `["A.  B.", "C. ."]`, not `["A.", "B.", "C."]` (`Chunker.ThreeSentencesExample`).
  - The size test counts the sentence but not the `". "` appended after it.
  - Sentences keep their leading space.
  - The empty piece after the last `.` adds a stray `"."`.
- A word group longer than the chunk size is not the only way to exceed it. A sentence-buffer chunk can be one code unit over the chunk size while still holding spaces: `"A.  B."` at chunk size 5 (`Chunker.ThreeSentencesExample`). One over is also the most it can be (`Chunker.ChunksWellFormed`, `Chunker.ChunksBound`).
- An overlong sentence whose first word is itself overlong produces an empty chunk `""` (`Chunker.EmptyChunkBeforeOverlongWord`).

## Model

| member | source | states |
|---|---|---|
| JsStrings.Trim | server/index.js:41 | `trim` never lengthens a string, and neither end of its result is whitespace |
| JsStrings.WhitespaceTrimsAway | server/index.js:41 | trimming a whitespace-only string leaves the empty string |
| JsStrings.Join | server/index.js:228 | `join` begins with the first part; for separator-free parts the separator occurs in the result exactly when there are two parts or more |
| JsStrings.OrElse | server/index.js:90 | `url \|\| 'unknown'`: the result is the value when it is present and non-empty, and otherwise the fallback |
| JsStrings.TrimShape | server/index.js:41 | `trim` returns the infix left once the whitespace at both ends is removed; neither end of the result is whitespace |
| JsStrings.TrimFixedPoint | server/index.js:41 | trimming leaves a string unchanged exactly when neither of its ends is whitespace |
| JsStrings.TrimIdempotent | server/index.js:41 | trimming twice is the same as trimming once |
| JsStrings.TrimAppendWhitespace | server/index.js:53 | the space appended after each word never survives the final `trim` |
| JsStrings.SplitOn | server/index.js:46 | `split(' ')` always returns at least one piece, and no piece contains the separator |
| JsStrings.JoinSplit | server/index.js:46 | joining the pieces of a split with the separator gives the string back |
| JsStrings.SplitJoin | server/index.js:228 | splitting a join of non-empty, separator-free pieces gives the pieces back |
| JsStrings.JoinAppend | server/index.js:225-228 | joining two non-empty lists puts exactly one separator between their joins |
| Chunker.Sentences | server/index.js:36 | `split(/[.!?]+/)` returns at least one piece, and no piece holds a terminator |
| Chunker.SentencesAfterPiece | server/index.js:36 | a terminator-free piece followed by one terminator (any of `.`, `!`, `?`) that is not followed by another is one sentence, and splitting continues after it |
| Chunker.SentencesRoundTrip | server/index.js:36 | the sentences interleaved with the runs of terminators give the text back; the runs are non-empty and made only of terminators, and only the first and last sentence can be empty; a leading terminator gives an empty first sentence |
| Chunker.SentencesUnique | server/index.js:36 | any split of the text into terminator-free pieces between non-empty terminator runs, with non-empty interior pieces, is the one `split(/[.!?]+/)` returns |
| Chunker.SentencesOfPlainText | server/index.js:36 | a text without terminators is a single sentence |
| Chunker.Flush | server/index.js:65-67 | the final push keeps the chunks pushed so far and adds at most one, and adds one exactly when the buffer is not empty |
| Chunker.WordStep | server/index.js:48-53 | one word-loop iteration keeps the chunks pushed so far and pushes one more exactly when the word would take the buffer over the chunk size |
| Chunker.SentenceStep | server/index.js:38-63 | one sentence-loop iteration keeps the chunks pushed so far, and leaves the buffer empty exactly when the sentence does not fit and is itself longer than the chunk size |
| Chunker.Chunks | server/index.js:33-69 | `splitIntoChunks` never returns the empty list, whatever the text |
| Chunker.SplitIntoChunks | server/index.js:33-69 | the loop's output equals the fold specification; it has at least one chunk; every chunk is well formed; the surviving characters of the text are kept in order |
| Chunker.PushWordGroups | server/index.js:44-57 | the word loop appends exactly the word groups of the overlong sentence to the output list |
| Chunker.ChunksWellFormed | server/index.js:33-69 | every chunk is trimmed and has no `!` or `?`; a chunk that holds a space is at most one code unit over the chunk size |
| Chunker.WordChunksShape | server/index.js:44-57 | every word-group chunk is trimmed; it exceeds the chunk size only when it is a single word |
| Chunker.ChunksBound | server/index.js:33-69 | every chunk is at most one code unit over the chunk size, or is a word group of a sentence longer than the chunk size |
| Chunker.SentenceRunBound | server/index.js:38-64 | during the sentence loop, the pushed chunks are bounded as in `ChunksBound`, and the buffer ends in a space and is at most two code units over the chunk size |
| Chunker.SentencePathBound | server/index.js:39-62 | when no sentence exceeds the chunk size, no chunk exceeds it by more than one code unit |
| Chunker.ChunksOfEmptyText | server/index.js:36-67 | the empty text gives exactly `["."]` |
| Chunker.BlankTextWithinSize | server/index.js:36-67 | a whitespace-only text no longer than the chunk size gives exactly `["."]` |
| Chunker.BlankTextOverSize | server/index.js:39-57 | a whitespace-only text longer than the chunk size gives at least one chunk, and every chunk is the empty string |
| Chunker.OverlongSentenceIsolated | server/index.js:39-57 | a sentence longer than the chunk size shares no chunk with its neighbours: the output is the chunks before it, then its word groups, then the chunks after it |
| Chunker.SentenceRunAfter | server/index.js:38-64 | chunks already pushed play no part in what the sentence loop does next |
| Chunker.OverlongFirstWordGivesEmptyChunk | server/index.js:48-53 | when the first word is longer than the chunk size, the word loop first pushes an empty chunk `""` |
| Chunker.WordRunGrows | server/index.js:48-54 | the word loop only appends to the chunks it has pushed |
| Chunker.EmptyChunkBeforeOverlongWord | server/index.js:39-57 | in the whole output, an overlong sentence with an overlong first word starts with an empty chunk |
| Chunker.ChunksKeepContent | server/index.js:33-69 | the chunks, concatenated, hold every character of the text that is neither whitespace nor a terminator, in order, and no other such character |
| Chunker.SentencesContent | server/index.js:36 | the sentences, concatenated, keep every character of the text that is neither whitespace nor a terminator, in order, and no other such character |
| Chunker.WordChunksContent | server/index.js:46-57 | the word groups of a sentence keep its surviving characters in order |
| Chunker.ThreeSentencesExample | server/index.js:33-69 | `"A. B. C."` with chunk size 5 gives `["A.  B.", "C. ."]` |
| Ingest.MessageRecords | server/index.js:83-95 | one message record per chunk, in order: index `i`, the count, the timestamp, and the url or `'unknown'` |
| Ingest.PageRecords | server/index.js:122-135 | one page record per chunk, in order: index `i`, the count, the timestamp, and the url and title as given |
| Ingest.StoreMessage | server/index.js:75-95 | fails exactly when the content is missing; otherwise stores the records of the default-size chunks of the content, at least one |
| Ingest.StorePage | server/index.js:114-135 | the same for pages |
| Ingest.MessageBatchIndices | server/index.js:80-92 | the chunk indices of a message batch are exactly `0..n-1`, each once, and all records share the count and the timestamp |
| Ingest.PageBatchIndices | server/index.js:119-132 | the same for page batches |
| Ingest.EmptyMessageStoresPeriod | server/index.js:79-95 | an empty message is still stored, as one record holding `"."` |
| Rag.Shown | server/index.js:227 | a present value is printed as itself, an absent one as `null` |
| Rag.MessageLine | server/index.js:226 | a message entry starts with `[Message from ` and ends with the message's content |
| Rag.PageLine | server/index.js:227 | a page entry starts with `[Page from `, never like a message entry, and ends with a newline and the page's content |
| Rag.MessageLineUrl | server/index.js:226 | between the tag and the content a message entry holds the localized timestamp, ` at `, the url when it is present and non-empty and `unknown` otherwise, and `]: ` |
| Rag.PageLineUrl | server/index.js:227 | a page entry holds the same head, with `url \|\| 'unknown'`, then the title as printed, a newline and the content |
| Rag.UntitledPageShowsNull | server/index.js:227 | every page stored without a title shows `null` where the title goes, between `]: ` and the newline before the content |
| Rag.MessageLines | server/index.js:226 | one entry per retrieved message, in retrieval order |
| Rag.PageLines | server/index.js:227 | one entry per retrieved page, in retrieval order |
| Rag.ContextLines | server/index.js:225-228 | the message entries come first, then the page entries, each group in retrieval order |
| Rag.Context | server/index.js:225-228 | the context is empty exactly when nothing was retrieved; it opens with a message entry when a message was retrieved, and with a page entry otherwise |
| Rag.MessagesBeforePages | server/index.js:225-228 | an entry is a message entry exactly when it is among the first `\|messages\|`; no message entry follows a page entry |
| Rag.EmptyRetrieval | server/index.js:225-255 | with nothing retrieved, the context is `""` and the prompt is still built |
| Rag.ContextByKind | server/index.js:225-228 | when both kinds were retrieved, the context is the message block, one newline, then the page block |
| Rag.MessageBlockLines | server/index.js:226-228 | for one message or more, none of whose fields holds a newline, splitting the message block on newlines gives one line per message |
| Rag.RagPrompt | server/index.js:255 | the user prompt is the fixed head, the query and the fixed middle, followed by the context built from the retrieved matches |
| Rag.UserPrompt | server/index.js:255 | the prompt opens with the fixed head, then the query, then the fixed middle (which starts with the closing double quote), then the context, and nothing else |
| Rag.PromptDeterminesQueryAndContext | server/index.js:255 | for queries without a double quote, the prompt determines both the query and the context |
| MarkdownLinks.IndexOf | src/content.js:243 | the first position at or after `from` holding the character, or none |
| MarkdownLinks.MatchLinkAt | src/content.js:243 | a match found at the start is a well-formed link (non-empty text without `]`, non-empty url without `)`) spelled out there |
| MarkdownLinks.MatchLinkAtComplete | src/content.js:243 | every well-formed link spelled out at the start is the match found, so the match is unique |
| MarkdownLinks.HasLinkAtIff | src/content.js:243 | a match starts at a position exactly when some well-formed link is spelled out there |
| MarkdownLinks.ReplaceLinks | src/content.js:243 | a global `replace` leaves a text in which nothing matches unchanged |
| MarkdownLinks.ConvertMarkdownLinks | src/content.js:242-244 | the text comes back unchanged exactly when no well-formed link is spelled out anywhere in it |
| MarkdownLinks.CopyUnmatched | src/content.js:243 | a stretch in which no match starts is copied verbatim |
| MarkdownLinks.LinkReplaced | src/content.js:243 | a link at the front is replaced, and scanning resumes right after it |
| MarkdownLinks.LinkRewritten | src/content.js:242-244 | `[T](U)` at the front becomes the anchor with `href` U and body T, inserted verbatim, and the rest is converted on its own |
| MarkdownLinks.FirstLinkRewritten | src/content.js:242-244 | in text before the first link, every character is copied; the first link becomes its anchor |
| MarkdownLinks.UnchangedIffNoLink | src/content.js:242-244 | replacing every link by its anchor leaves the text unchanged exactly when no well-formed link is spelled out anywhere in it |
| MarkdownLinks.FirstMatchChanges | src/content.js:242-244 | if a link is spelled out somewhere, the output differs from the input |
| MarkdownLinks.EmptyPartsNotRewritten | src/content.js:243 | `[]` and `[T]()` are not matches: the `[` is copied and scanning moves on by one |
| MarkdownLinks.NestedBracketExample | src/content.js:243 | the link text runs from the first `[` of a match, so `[a [b](c)` becomes one anchor with text `a [b` |

## Left out

- HTTP handling is not modelled: the Express app, routing, `req`/`res` and the 500 responses. A missing or non-text `content` is modelled only as the `ContentNotText` error.
- The vector-database calls are not modelled: schema setup, `creator().do()`, and `nearText` searches with their limits. Retrieved matches are inputs, in the order the backend returns them.
- `Promise.all` is not modelled. Ingest is modelled as a sequential map over the chunks, and a failing store with partial writes is not represented.
- The completion-service call is not modelled: the `fetch`, the system prompt, the `ok` check and the response parsing. The model stops at the user prompt.
- Clock and locale reads are not modelled. `new Date().toISOString()` is the `timestamp` parameter, and `toLocaleString()` is the `localize` parameter.
- A Dafny `char` is one UTF-16 code unit. A character outside the Basic Multilingual Plane is not counted as two units.
- The DOM, event listeners, extension wiring, build configuration and icon generation are not part of this model.
- Chunker.SplitIntoChunks: the result is a `seq` returned by value, not the JavaScript array pushed in place. Aliasing of that array is not modelled.
