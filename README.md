# situationship-ai: a verified model of the screenshot-analysis core

situationship-ai lets a user pick chat screenshots, up to ten per selection, in a React page,
posts them to an Express server, and shows the relationship analysis that an
OpenAI chat model writes about them. This project models the logic between
those services in Dafny:

- `jsstring.dfy` (module `JsString`): the ECMAScript string operations the
  code relies on, over `seq<char>`. It covers `split` with a string
  separator, `Array.prototype.join`, `trim` (every WhiteSpace and
  LineTerminator code point), `includes`, `startsWith`, `toLowerCase`
  (ASCII letters only), `replace` with a string pattern (first occurrence
  only), and global replace of a literal pattern.
- `format_analysis.dfy` (module `FormatAnalysis`): the client's
  `formatAnalysis`, which turns the reply text into sections. Its output is
  a `Section` value (`Tldr(body)` or `Normal(title, lines)`) instead of JSX.
- `image_upload.dfy` (module `ImageUpload`): the selection rule of
  `handleImageUpload`. A class `ImagePicker` holds the `images` state and has
  a method that updates it.
- `chunking.dfy` (module `Chunking`): the server's `chunkArray` loop. It is
  proved against a recursive specification `Chunks`.
- `analyze_server.dfy` (module `AnalyzeServer`): the per-chunk message
  content (`processImageChunk`), its `data:` URLs, the combiner's prompt
  (`combineAnalyses`), and the control flow of `POST /api/analyze`.

Three outside pieces are parameters of the model:

- `chat: ChatRequest -> Reply` stands for the chat-completion service. A
  `Reply` is either the first choice's text or a thrown error.
- `base64: seq<bv8> -> string` stands for `Buffer#toString('base64')`.
- `URL.createObjectURL` is represented by a `BlobUrl(file)` value that
  records which file the URL resolves to.

`Handle` returns the HTTP response together with every chat request it
issued, in order. That lets the model state which requests happen, how many,
and in what order.

All source paths are under `situationship-ai/`. The server is
`server/index.js` and the client is `src/App.js`.

## Model

| member | source | states |
|---|---|---|
| JsString.Trim | situationship-ai/src/App.js:308 | the result is trimmed (neither end is JS whitespace), it is empty exactly when the input is all whitespace, and it is a slice of the input with only whitespace cut from either end |
| JsString.TrimStart | situationship-ai/src/App.js:308 | the result is a suffix of the input, everything removed is whitespace, and the result does not start with whitespace |
| JsString.TrimEnd | situationship-ai/src/App.js:308 | the result is a prefix of the input, everything removed is whitespace, and the result does not end with whitespace |
| JsString.IndexOfFrom | situationship-ai/src/App.js:287 | a position found is at or after `from` and holds an occurrence of the pattern |
| JsString.IndexOfFromFirst | situationship-ai/src/App.js:287 | the position found is the first occurrence at or after `from`, and nothing is found exactly when the pattern occurs nowhere from there on |
| JsString.Includes | situationship-ai/src/App.js:293 | true exactly when the pattern occurs at some position |
| JsString.ToLower | situationship-ai/src/App.js:293 | same length; every character is lower-cased in place |
| JsString.StartsWith | situationship-ai/src/App.js:311 | `startsWith`: the pattern occurs at position 0; StartsWithChar states the one-character case used for `-` |
| JsString.Join | situationship-ai/src/App.js:297 | `Array.prototype.join`: the parts with the separator between neighbours and none at the ends; see JoinSlot, JoinGap, SplitJoin and JoinSplitPairs |
| JsString.SplitFrom | situationship-ai/src/App.js:287 | the ECMAScript `split` loop with a non-empty string separator from a given position: cut at the next occurrence and resume after it; it yields at least one piece; see SplitJoin, SplitPiecesExclude |
| JsString.Split | situationship-ai/src/App.js:290 | `split` with a non-empty string separator, from position 0; at least one piece; see SplitJoin, SplitPiecesExclude, JoinSplitPairs |
| JsString.ReplaceFirst | situationship-ai/src/App.js:316 | `replace` with a string pattern: only the first occurrence is replaced, and a string without the pattern is unchanged; see ReplaceFirstAtFront |
| JsString.ReplaceAll | situationship-ai/src/App.js:317 | global replace of a literal pattern, scanning left to right without overlap (the split/join identity); see ReplaceAllCharIsWithout, ReplaceAllPairExcludes |
| JsString.SplitJoin | situationship-ai/src/App.js:287 | joining the pieces of a split with the separator gives back the original string |
| JsString.SplitPiecesExclude | situationship-ai/src/App.js:287 | no piece of a split contains the separator |
| JsString.ReplaceFirstAtFront | situationship-ai/src/App.js:316 | when the string starts with the pattern, `replace` removes exactly that leading occurrence |
| JsString.ReplaceAllCharIsWithout | situationship-ai/src/App.js:297 | `replace(/\*/g, '')` deletes every `*` and keeps all other characters in order |
| JsString.ReplaceAllPairExcludes | situationship-ai/src/App.js:317 | after `replace(/\*\*/g, '')` no `**` is left, even where removing one pair brings two `*` together |
| JsString.TrimKeepsExcluded | situationship-ai/src/App.js:318 | trimming cannot create an occurrence of a pattern that was absent |
| JsString.JoinSlot | situationship-ai/server/index.js:164 | each part of a join sits at its computed offset, inside the joined string |
| JsString.JoinGap | situationship-ai/server/index.js:164 | between consecutive parts of a join there is exactly the separator |
| JsString.JoinSplitPairs | situationship-ai/server/index.js:164 | splitting a join on a two-character separator `cc` gives back the parts, when no part contains `cc` and no part but the last ends with `c` |
| FormatAnalysis.CleanedExcludesBold | situationship-ai/src/App.js:315-325 | removing every `**` and then trimming leaves a trimmed text with no `**` |
| FormatAnalysis.FormatLine | situationship-ai/src/App.js:307-330 | a line renders nothing exactly when it is all whitespace; every rendered text is trimmed; bullet and sub-heading texts contain no `**`; a paragraph is the non-empty trimmed line |
| FormatAnalysis.FormatLineKinds | situationship-ai/src/App.js:311-330 | a leading `-` of the trimmed line makes a bullet, a leading `**` without `-` makes a sub-heading, anything else a paragraph; a bullet drops only the first `-`; a sub-heading is the trimmed line with every `**` removed, then trimmed |
| FormatAnalysis.IsTldrTitle | situationship-ai/src/App.js:293 | `title.toLowerCase().includes('tl;dr')`; FormatSection states its use |
| FormatAnalysis.NonBlank | situationship-ai/src/App.js:287 | `filter(section => section.trim())`: the strings that are not all whitespace, in order; see NonBlankMembers, NonBlankAppend |
| FormatAnalysis.FormatLines | situationship-ai/src/App.js:307-331 | `content.map(...)` with the `null` results left out; see FormatLinesByLine, FormatLinesAppend |
| FormatAnalysis.FilterMapByElement | situationship-ai/src/App.js:307-331 | mapping with `null` results left out yields one element per kept input, in order, each the mapped value of its input |
| FormatAnalysis.FilterMapAppend | situationship-ai/src/App.js:307-331 | the filtered map of a concatenation is the concatenation of the filtered maps |
| FormatAnalysis.NonBlankAppend | situationship-ai/src/App.js:287 | the non-blank filter distributes over concatenation |
| FormatAnalysis.NonBlankMembers | situationship-ai/src/App.js:287 | a string is kept by the filter exactly when it is in the input and its trimmed text is non-empty |
| FormatAnalysis.KeptLinesAreNonBlank | situationship-ai/src/App.js:308-309 | the lines that produce an element are exactly the non-blank lines |
| FormatAnalysis.FormatLinesByLine | situationship-ai/src/App.js:307-331 | blank lines produce nothing; the k-th element is the rendering of the k-th non-blank line, so order is kept |
| FormatAnalysis.FormatLinesAppend | situationship-ai/src/App.js:307-331 | rendering a block of lines is rendering its parts one after the other |
| FormatAnalysis.FormatSection | situationship-ai/src/App.js:289-334 | a piece is a TL;DR block exactly when its first line, lower-cased, contains `tl;dr`; a TL;DR body is trimmed and has no `*`; a normal title has no `*` |
| FormatAnalysis.TldrBodyExcludesStar | situationship-ai/src/App.js:297 | deleting every `*` and trimming leaves no `*` |
| FormatAnalysis.FormatSectionParts | situationship-ai/src/App.js:290-306 | a TL;DR body is the other lines joined by single spaces, with every `*` deleted, then trimmed; a normal title is the trimmed first line with every `*` deleted; normal lines are the rendering of the other lines |
| FormatAnalysis.RenderAnalysis | situationship-ai/src/App.js:285-335 | one section per non-blank `####` piece, in input order, each the rendering of that piece |
| FormatAnalysis.RenderAnalysisPieces | situationship-ai/src/App.js:287 | the pieces joined with `####` are the whole text; every rendered piece is a non-blank piece of the split with no marker inside |
| FormatAnalysis.UnmarkedReplyIsOneSection | situationship-ai/src/App.js:287 | a text without `####` renders as a single section, or as nothing when blank |
| ImageUpload.Previews | situationship-ai/src/App.js:241-244 | one preview per file, in selection order, with that file's object URL and name |
| ImageUpload.AfterSelection | situationship-ai/src/App.js:236-246 | a selection of more than ten files leaves the list unchanged; otherwise the old list is kept as a prefix and the new files' previews follow, in order |
| ImageUpload.AfterSelectionKeepsOld | situationship-ai/src/App.js:246 | every entry already in the list keeps its position and value after any selection |
| ImageUpload.LimitIsPerSelection | situationship-ai/src/App.js:236 | two selections of ten files each leave twenty images: the limit is not on the running total |
| ImageUpload.RefusedSelectionLeavesNoTrace | situationship-ai/src/App.js:236-239 | a refused selection followed by another is the same as the other alone |
| ImageUpload.PreviewsAppend | situationship-ai/src/App.js:241-244 | the previews of two selections side by side are the previews of each, in order |
| ImageUpload.SelectionsCompose | situationship-ai/src/App.js:241-246 | two accepted selections give the same list as one selection of both, when that is within the limit |
| ImageUpload.ImagePicker.constructor | situationship-ai/src/App.js:229 | the image list starts empty |
| ImageUpload.ImagePicker.HandleImageUpload | situationship-ai/src/App.js:234-247 | the alert is shown exactly when more than ten files are chosen, and then nothing changes; otherwise the list becomes the old list followed by the new previews |
| Chunking.Chunks | situationship-ai/server/index.js:36-42 | empty input gives no chunks, and non-empty input gives at least one |
| Chunking.ChunksFrom | situationship-ai/server/index.js:38-39 | the chunks of the remaining suffix are its next slice, cut at the end of the input, followed by the chunks of what follows |
| Chunking.FlattenChunks | situationship-ai/server/index.js:38-39 | the chunks concatenated in order give back the input exactly |
| Chunking.ChunksCount | situationship-ai/server/index.js:36-42 | there are ceil(N / K) chunks |
| Chunking.ChunkSizes | situationship-ai/server/index.js:38-39 | every chunk but the last has exactly K items, and the last has between 1 and K |
| Chunking.ChunkBounds | situationship-ai/server/index.js:38-39 | every chunk has between 1 and K items |
| Chunking.ChunksFacts | situationship-ai/server/index.js:36-42 | the chunks concatenate to the input, there are ceil(N / K) of them, and they are well sized: none empty, none longer than K, all but the last full |
| Chunking.ChunkArray | situationship-ai/server/index.js:36-42 | the loop returns the specified chunks: their concatenation is the input, there are ceil(N / K) of them, none is empty, and all but the last are full |
| AnalyzeServer.ParseDataUrl | situationship-ai/server/index.js:96 | a URL it accepts is exactly the data URL of the MIME type and payload it returns, and that MIME type has no `;` |
| AnalyzeServer.DataUrlRoundTrip | situationship-ai/server/index.js:96 | a data URL built from a MIME type without `;` reads back as that MIME type and payload |
| AnalyzeServer.DataUrl | situationship-ai/server/index.js:96 | the template `data:${mimetype};base64,${base64}`; ParseDataUrl and DataUrlRoundTrip read it back |
| AnalyzeServer.ImageParts | situationship-ai/server/index.js:91-99 | one `image_url` part per file, in file order, each holding the `data:` URL of that file's MIME type and encoded buffer |
| AnalyzeServer.ImagePartsAppend | situationship-ai/server/index.js:91-99 | the image parts of two file lists, one after the other, are the parts of their concatenation |
| AnalyzeServer.ChunkContent | situationship-ai/server/index.js:84-99 | the content array has one entry more than the chunk has files: the analysis template text first, then the chunk's image parts |
| AnalyzeServer.ChunkContentImages | situationship-ai/server/index.js:92-96 | the k-th image part of a chunk's content reads back as the MIME type and encoded bytes of the k-th file |
| AnalyzeServer.BuildChunkContent | situationship-ai/server/index.js:84-99 | the `forEach` loop builds exactly the specified content array |
| AnalyzeServer.CombinePromptLayout | situationship-ai/server/index.js:164 | the prompt starts with the fixed prefix; each result appears after it, in order, at its own offset, with exactly a blank line between neighbours |
| AnalyzeServer.CombinePromptTail | situationship-ai/server/index.js:164 | the prompt starts with the fixed prefix, and the text after it, split at blank lines, is exactly the results in order, when no result contains a blank line and none but the last ends with a newline |
| AnalyzeServer.CombinePrompt | situationship-ai/server/index.js:164 | the fixed combine instruction followed by the results joined with a blank line; see CombinePromptLayout, CombinePromptTail |
| AnalyzeServer.UploadChunks | situationship-ai/server/index.js:181 | `chunkArray(req.files, 2)`: the uploads cut by Chunking.Chunks into pairs; see HandleAnalysesInChunkOrder, EveryFileSentOnce |
| AnalyzeServer.AnalysisRequests | situationship-ai/server/index.js:181-184 | one analysis request per chunk, in chunk order, each carrying that chunk's content |
| AnalyzeServer.Replies | situationship-ai/server/index.js:186 | the replies are kept in request order, one per request |
| AnalyzeServer.Texts | situationship-ai/server/index.js:186 | the results are the replies' texts, in order |
| AnalyzeServer.Handle | situationship-ai/server/index.js:175-202 | status 400 exactly when files are missing or empty, and then the body is `No images provided` and no request is made; a response is always 200, 400 or 500; 200 carries an analysis; 500 carries the generic processing error |
| AnalyzeServer.HandleAnalysesInChunkOrder | situationship-ai/server/index.js:181-186 | with images present there are ceil(N / 2) chunks of one or two files, and the first requests are their analyses, in chunk order |
| AnalyzeServer.HandleCombinesOnce | situationship-ai/server/index.js:186-187 | the combiner is asked exactly once, after all analyses, exactly when every analysis completed, and it receives the analyses' texts in chunk order |
| AnalyzeServer.HandleSucceeds | situationship-ai/server/index.js:186-192 | the response is 200 exactly when every analysis and the combine step complete, and its analysis is the combiner's reply |
| AnalyzeServer.HandleFailedAnalysis | situationship-ai/server/index.js:186-201 | one failed analysis gives the 500 processing error, and the combiner is never asked |
| AnalyzeServer.AnalysisImages | situationship-ai/server/index.js:181-184 | the image parts of the requests for a list of chunks, concatenated, are the image parts of all their files in order |
| AnalyzeServer.EveryFileSentOnce | situationship-ai/server/index.js:181-184 | across the analysis requests every uploaded file is sent exactly once, in upload order |
| AnalyzeServer.FiveFiles | situationship-ai/server/index.js:181-187 | five files are cut into chunks of two, two and one; when the analyses complete there are three analysis requests and one combine request |

## Left out

- `chat`: the chat-completion calls are an external service. The model
  name, the system prompts, `max_tokens` and `temperature` are constants of
  each request. The model records only the user message.
- Concurrency: the `p-limit` cap of three concurrent calls is not modelled.
  The analyses are modelled as a sequential map; `Promise.all` keeps results
  in request order, which is what the model states. All analysis requests are
  issued even when one fails: the map queues every task with `p-limit`, which
  runs three at a time and keeps starting queued tasks after a rejection.
- `chat` is a function of the request alone, so the model gives identical
  requests identical replies. The real service samples at temperature 0.7
  over the network, so two identical requests can get different replies,
  or one can fail while the other completes. No stated property relies on
  equal replies to equal requests.
- `ProcessingFailed`: the `details` field of the 500 body is not modelled.
  It is the message of whichever rejection `Promise.all` sees first, and
  that depends on timing.
- A reply whose message content is `null` and a response with no choices
  are not modelled. A `Reply` is either a text or an error.
- `base64`: base64 encoding is a parameter, not an encoder.
- `ImageUpload.Previews`: the object URL is a value naming its file. The
  model does not capture that each `createObjectURL` call yields a fresh,
  distinct URL, or that the URLs are never revoked.
- Express, multer, CORS, the error middleware, the health endpoint and
  `listen` are HTTP plumbing. Multer's limit of ten files per request and the
  file-size limit are enforced by the library.
- `analyzeImages` in the client (fetch, blobs, `FormData`) is network I/O.
  server/config.js holds only environment lookups and constants.
- The styled components, animations and JSX are markup. `Section` and `Line`
  stand for what is rendered. React keys and the fixed `TL;DR` heading are
  not recorded.
- `JsString.ToLower`: lower-cases ASCII letters only. Only the letters of
  `tl;dr` matter to the TL;DR test, and no non-ASCII character lower-cases
  to one of them, so the test is decided exactly.
- `FormatAnalysis.RenderAnalysis`: the server's template asks for `###`
  headings, but the client splits on `####`. A reply that follows the
  template therefore renders as one section (`UnmarkedReplyIsOneSection`).
  Its TL;DR line becomes a paragraph rather than a TL;DR block. The model
  follows the code here.
