/** The image-analysis endpoint of server/index.js: the per-chunk message
    content, the combiner's prompt, and the control flow of
    `POST /api/analyze` (reject an empty upload, cut the files into chunks of
    two, ask for one analysis per chunk, then combine the results once).
    The chat-completion service and base64 encoding are parameters: the
    model says which requests are made, in which order, and how the replies
    decide the HTTP response. */
module AnalyzeServer {
  import opened JsString
  import Chunking

  /** A file as multer hands it over: its MIME type and its bytes. */
  datatype UploadedFile = UploadedFile(mimetype: string, buffer: seq<bv8>)

  /** One entry of a user message's `content` array. */
  datatype ContentPart = Text(text: string) | ImageUrl(url: string)

  /** The user message of a chat-completion request. The model name, the
      fixed system prompt, `max_tokens` and `temperature` of each kind of
      request are constants and are not recorded. */
  datatype ChatRequest =
    | AnalyzeChunk(content: seq<ContentPart>)
    | CombineResults(prompt: string)

  /** What a chat-completion call gives back: the first choice's message
      text, or a thrown error. */
  datatype Reply = Completed(text: string) | Failed(message: string)

  /** The JSON body of a response. */
  datatype Body =
    | ErrorOnly(error: string)              // { error }
    | Analysis(analysis: string)            // { success: true, analysis }
    | ProcessingFailed(error: string)       // { success: false, error, ... }

  datatype Response = Response(status: nat, body: Body)

  /** A response together with every chat request made to produce it, in
      the order they were issued. */
  datatype Exchange = Exchange(response: Response, requests: seq<ChatRequest>)

  const ChunkSize: nat := 2
  const NoImages: string := "No images provided"
  const ProcessingError: string := "Error processing images"
  const DataScheme: string := "data:"
  const Base64Marker: string := ";base64,"
  const ResultSeparator: string := "\n\n"
  const CombinePrefix: string :=
    "Combine these analyses into one coherent summary, maintaining the exact formatting structure shown above:\n\n"

  /** The instructions sent in front of the images of every chunk. */
  const AnalysisTemplate: string := @"Please analyze these conversation screenshots and provide a detailed relationship analysis, including an objective judgment on who was more in the wrong. 
Format your response EXACTLY as follows:

### Relationship Analysis

Communication Patterns:
- [Analyze directness, tone, and communication style of each person]
- [Note any patterns in how they express themselves]
- [Identify specific communication behaviors with examples]

Emotional Undertones:
- [Identify emotional states and reactions]
- [Note any defensive or dismissive behavior]
- [Analyze emotional intelligence and awareness]

Potential Red Flags:
- [List any concerning patterns or behaviors]
- [Identify boundary issues or mismatches]
- [Note communication or emotional misalignments]

Potential Green Flags:
- [List positive aspects of the interaction]
- [Note healthy communication patterns]
- [Identify growth potential]

Overall Dynamics:
- [Provide overall assessment of relationship potential]
- [Suggest areas for improvement or growth]
- [Give balanced perspective on compatibility]

Objective Judgment:
- Who was more in the wrong: [State which person was more at fault and why]
- What could have been done better: [Provide specific suggestions for both parties]
- Key misunderstandings: [Identify critical points where communication broke down]

TL;DR:
[Write a single, clear sentence that captures the essence of the situation and indicates who was more in the wrong.]"

  // ---------------------------------------------------------------------------
  // Data URLs
  // ---------------------------------------------------------------------------

  /** `data:${mimetype};base64,${encoded}` */
  function DataUrl(mimetype: string, encoded: string): string {
    DataScheme + mimetype + Base64Marker + encoded
  }

  /** Reads a base64 data URL back into its MIME type and payload; the MIME
      type ends at the first `;`. */
  function ParseDataUrl(url: string): (r: Option<(string, string)>)
    ensures r.Some? ==> url == DataUrl(r.value.0, r.value.1) && ';' !in r.value.0
  {
    if !StartsWith(url, DataScheme) then None
    else match IndexOfFrom(url, ";", |DataScheme|)
      case None => None
      case Some(k) =>
        if OccursAt(url, Base64Marker, k) then
          var m := url[|DataScheme|..k];
          assert ';' !in m by {
            IndexOfFromFirst(url, ";", |DataScheme|);
            forall j | 0 <= j < |m| ensures m[j] != ';' {
              assert !OccursAt(url, ";", |DataScheme| + j);
            }
          }
          Some((m, url[k + |Base64Marker|..]))
        else None
  }

  /** A data URL gives back the MIME type and payload it was built from,
      as long as the MIME type has no `;` (nothing after the first `;` can
      be told apart from the marker). */
  lemma DataUrlRoundTrip(mimetype: string, encoded: string)
    requires ';' !in mimetype
    ensures ParseDataUrl(DataUrl(mimetype, encoded)) == Some((mimetype, encoded))
  {
    var url := DataUrl(mimetype, encoded);
    var p := |DataScheme| + |mimetype|;
    assert url[..|DataScheme|] == DataScheme;
    assert url[p..p + |Base64Marker|] == Base64Marker;
    assert OccursAt(url, ";", p);
    forall j | |DataScheme| <= j < p ensures !OccursAt(url, ";", j) {
      assert url[j] == mimetype[j - |DataScheme|];
    }
    IndexOfFromFirst(url, ";", |DataScheme|);
    var k := IndexOfFrom(url, ";", |DataScheme|);
    assert k == Some(p);
    assert url[|DataScheme|..p] == mimetype;
    assert url[p + |Base64Marker|..] == encoded;
  }

  // ---------------------------------------------------------------------------
  // Per-chunk message content (`processImageChunk`)
  // ---------------------------------------------------------------------------

  /** One `image_url` part per file, in file order. */
  function ImageParts(files: seq<UploadedFile>, base64: seq<bv8> -> string): (r: seq<ContentPart>)
    ensures |r| == |files|
    ensures forall k :: 0 <= k < |files| ==> r[k] == ImageUrl(DataUrl(files[k].mimetype, base64(files[k].buffer)))
  {
    seq(|files|, k requires 0 <= k < |files| => ImageUrl(DataUrl(files[k].mimetype, base64(files[k].buffer))))
  }

  lemma ImagePartsAppend(a: seq<UploadedFile>, b: seq<UploadedFile>, base64: seq<bv8> -> string)
    ensures ImageParts(a + b, base64) == ImageParts(a, base64) + ImageParts(b, base64)
  {
  }

  /** The `content` array of a chunk's request: the template text first, then
      the chunk's images. */
  function ChunkContent(files: seq<UploadedFile>, base64: seq<bv8> -> string): (r: seq<ContentPart>)
    ensures |r| == |files| + 1
    ensures r[0] == Text(AnalysisTemplate)
    ensures r[1..] == ImageParts(files, base64)
  {
    [Text(AnalysisTemplate)] + ImageParts(files, base64)
  }

  /** Every image part of a chunk's content decodes to the MIME type and the
      encoded bytes of the file at the same position. */
  lemma ChunkContentImages(files: seq<UploadedFile>, base64: seq<bv8> -> string, k: nat)
    requires k < |files| && ';' !in files[k].mimetype
    ensures ChunkContent(files, base64)[k + 1].ImageUrl?
    ensures ParseDataUrl(ChunkContent(files, base64)[k + 1].url) == Some((files[k].mimetype, base64(files[k].buffer)))
  {
    assert ChunkContent(files, base64)[k + 1] == ImageParts(files, base64)[k];
    DataUrlRoundTrip(files[k].mimetype, base64(files[k].buffer));
  }

  /** The `forEach` loop of `processImageChunk` that pushes one part per file
      after the template text. */
  method BuildChunkContent(images: seq<UploadedFile>, base64: seq<bv8> -> string) returns (content: seq<ContentPart>)
    ensures content == ChunkContent(images, base64)
  {
    content := [Text(AnalysisTemplate)];
    var i := 0;
    while i < |images|
      invariant i <= |images|
      invariant content == [Text(AnalysisTemplate)] + ImageParts(images[..i], base64)
    {
      var file := images[i];
      var base64Image := base64(file.buffer);
      assert images[..i + 1] == images[..i] + [file];
      ImagePartsAppend(images[..i], [file], base64);
      content := content + [ImageUrl(DataUrl(file.mimetype, base64Image))];
      i := i + 1;
    }
    assert images[..i] == images;
  }

  // ---------------------------------------------------------------------------
  // The combiner's prompt (`combineAnalyses`)
  // ---------------------------------------------------------------------------

  /** The user message of the combine request. */
  function CombinePrompt(results: seq<string>): string {
    CombinePrefix + Join(results, ResultSeparator)
  }

  /** The prompt is the fixed prefix followed by every result in order, each
      at its own offset, with exactly a blank line between neighbours. */
  lemma CombinePromptLayout(results: seq<string>, i: nat)
    requires i < |results|
    ensures CombinePrompt(results)[..|CombinePrefix|] == CombinePrefix
    ensures |CombinePrefix| + JoinOffset(results, ResultSeparator, i) + |results[i]| <= |CombinePrompt(results)|
    ensures CombinePrompt(results)[|CombinePrefix| + JoinOffset(results, ResultSeparator, i)..
                                   |CombinePrefix| + JoinOffset(results, ResultSeparator, i) + |results[i]|] == results[i]
    ensures i + 1 < |results| ==>
      |CombinePrefix| + JoinOffset(results, ResultSeparator, i + 1) <= |CombinePrompt(results)|
    ensures i + 1 < |results| ==>
      CombinePrompt(results)[|CombinePrefix| + JoinOffset(results, ResultSeparator, i) + |results[i]|..
                             |CombinePrefix| + JoinOffset(results, ResultSeparator, i + 1)] == ResultSeparator
  {
    PrefixedJoin(CombinePrefix, results, ResultSeparator, i);
  }

  /** The layout of any fixed prefix followed by a join. */
  lemma PrefixedJoin(prefix: string, parts: seq<string>, sep: string, i: nat)
    requires i < |parts|
    ensures (prefix + Join(parts, sep))[..|prefix|] == prefix
    ensures |prefix| + JoinOffset(parts, sep, i) + |parts[i]| <= |prefix + Join(parts, sep)|
    ensures (prefix + Join(parts, sep))[|prefix| + JoinOffset(parts, sep, i)..
                                        |prefix| + JoinOffset(parts, sep, i) + |parts[i]|] == parts[i]
    ensures i + 1 < |parts| ==> |prefix| + JoinOffset(parts, sep, i + 1) <= |prefix + Join(parts, sep)|
    ensures i + 1 < |parts| ==>
      (prefix + Join(parts, sep))[|prefix| + JoinOffset(parts, sep, i) + |parts[i]|..
                                  |prefix| + JoinOffset(parts, sep, i + 1)] == sep
  {
    var j := Join(parts, sep);
    var n := |prefix|;
    JoinSlot(parts, sep, i);
    var a := JoinOffset(parts, sep, i);
    SliceAfter(prefix, j, n + a, n + a + |parts[i]|);
    if i + 1 < |parts| {
      JoinGap(parts, sep, i);
      var b := JoinOffset(parts, sep, i + 1);
      SliceAfter(prefix, j, n + a + |parts[i]|, n + b);
    }
  }

  /** The combiner can recover the chunk analyses from the prompt: what
      follows the prefix, split at blank lines, is the results in order,
      as long as no result holds a blank line and none but the last ends
      with a newline. */
  lemma CombinePromptTail(results: seq<string>)
    requires |results| >= 1
    requires forall j :: 0 <= j < |results| ==> !Includes(results[j], ResultSeparator)
    requires forall j :: 0 <= j < |results| - 1 ==> !EndsWithChar(results[j], '\n')
    ensures CombinePrompt(results)[..|CombinePrefix|] == CombinePrefix
    ensures Split(CombinePrompt(results)[|CombinePrefix|..], ResultSeparator) == results
  {
    assert ResultSeparator == ['\n', '\n'];
    assert CombinePrompt(results)[|CombinePrefix|..] == Join(results, ResultSeparator);
    JoinSplitPairs(results, '\n');
  }

  // ---------------------------------------------------------------------------
  // The `/api/analyze` handler
  // ---------------------------------------------------------------------------

  /** The chunk of two files (or one, at the end) that each analysis covers. */
  function UploadChunks(files: seq<UploadedFile>): (r: seq<seq<UploadedFile>>) {
    Chunking.Chunks(files, ChunkSize)
  }

  /** One analysis request per chunk, in chunk order. */
  function AnalysisRequests(chunks: seq<seq<UploadedFile>>, base64: seq<bv8> -> string): (r: seq<ChatRequest>)
    ensures |r| == |chunks|
    ensures forall i :: 0 <= i < |chunks| ==> r[i] == AnalyzeChunk(ChunkContent(chunks[i], base64))
  {
    seq(|chunks|, i requires 0 <= i < |chunks| => AnalyzeChunk(ChunkContent(chunks[i], base64)))
  }

  /** The replies to a list of requests, kept in request order whatever
      order they arrive in (`Promise.all`). */
  function Replies(requests: seq<ChatRequest>, chat: ChatRequest -> Reply): (r: seq<Reply>)
    ensures |r| == |requests|
    ensures forall i :: 0 <= i < |requests| ==> r[i] == chat(requests[i])
  {
    seq(|requests|, i requires 0 <= i < |requests| => chat(requests[i]))
  }

  predicate AllCompleted(replies: seq<Reply>) {
    forall i :: 0 <= i < |replies| ==> replies[i].Completed?
  }

  function Texts(replies: seq<Reply>): (r: seq<string>)
    requires AllCompleted(replies)
    ensures |r| == |replies|
    ensures forall i :: 0 <= i < |replies| ==> r[i] == replies[i].text
  {
    seq(|replies|, i requires 0 <= i < |replies| => replies[i].text)
  }

  predicate HasImages(files: Option<seq<UploadedFile>>) {
    files.Some? && |files.value| > 0
  }

  /** `POST /api/analyze`. `files` is `req.files` (possibly absent), `chat`
      answers a chat-completion request, `base64` encodes a buffer. */
  function Handle(files: Option<seq<UploadedFile>>, chat: ChatRequest -> Reply, base64: seq<bv8> -> string): (ex: Exchange)
    ensures !HasImages(files) <==> ex.response.status == 400
    ensures !HasImages(files) ==> ex == Exchange(Response(400, ErrorOnly(NoImages)), [])
    ensures ex.response.status in {200, 400, 500}
    ensures ex.response.status == 200 <==> ex.response.body.Analysis?
    ensures ex.response.status == 500 <==> ex.response.body == ProcessingFailed(ProcessingError)
  {
    if !HasImages(files) then
      Exchange(Response(400, ErrorOnly(NoImages)), [])
    else
      var analyses := AnalysisRequests(UploadChunks(files.value), base64);
      var replies := Replies(analyses, chat);
      if !AllCompleted(replies) then
        Exchange(Response(500, ProcessingFailed(ProcessingError)), analyses)
      else
        var combine := CombineResults(CombinePrompt(Texts(replies)));
        match chat(combine)
        case Completed(analysis) => Exchange(Response(200, Analysis(analysis)), analyses + [combine])
        case Failed(_) => Exchange(Response(500, ProcessingFailed(ProcessingError)), analyses + [combine])
  }

  /** With images present, the first requests are the chunk analyses, in
      chunk order: one per chunk of at most two files, ceil(N / 2) in all. */
  lemma HandleAnalysesInChunkOrder(files: seq<UploadedFile>, chat: ChatRequest -> Reply, base64: seq<bv8> -> string)
    requires |files| > 0
    ensures |UploadChunks(files)| == (|files| + 1) / 2
    ensures forall i :: 0 <= i < |UploadChunks(files)| ==> 1 <= |UploadChunks(files)[i]| <= ChunkSize
    ensures |UploadChunks(files)| <= |Handle(Some(files), chat, base64).requests|
    ensures Handle(Some(files), chat, base64).requests[..|UploadChunks(files)|]
            == AnalysisRequests(UploadChunks(files), base64)
  {
    var chunks := UploadChunks(files);
    Chunking.ChunksCount(files, ChunkSize);
    Chunking.ChunkSizes(files, ChunkSize);
    var analyses := AnalysisRequests(chunks, base64);
    var ex := Handle(Some(files), chat, base64);
    assert ex.requests == analyses || ex.requests[..|chunks|] == analyses;
  }

  /** The combiner is asked exactly once, after every analysis, if and only
      if every analysis completed, and it gets the analyses' texts in chunk
      order. */
  lemma HandleCombinesOnce(files: seq<UploadedFile>, chat: ChatRequest -> Reply, base64: seq<bv8> -> string)
    requires |files| > 0
    ensures |Handle(Some(files), chat, base64).requests| == |UploadChunks(files)| + 1
            <==> AllCompleted(Replies(AnalysisRequests(UploadChunks(files), base64), chat))
    ensures |Handle(Some(files), chat, base64).requests| == |UploadChunks(files)|
            <==> !AllCompleted(Replies(AnalysisRequests(UploadChunks(files), base64), chat))
    ensures forall i :: 0 <= i < |UploadChunks(files)| ==> Handle(Some(files), chat, base64).requests[i].AnalyzeChunk?
    ensures AllCompleted(Replies(AnalysisRequests(UploadChunks(files), base64), chat)) ==>
      Handle(Some(files), chat, base64).requests[|UploadChunks(files)|]
      == CombineResults(CombinePrompt(Texts(Replies(AnalysisRequests(UploadChunks(files), base64), chat))))
  {
    HandleAnalysesInChunkOrder(files, chat, base64);
    var chunks := UploadChunks(files);
    var ex := Handle(Some(files), chat, base64);
    forall i | 0 <= i < |chunks| ensures ex.requests[i].AnalyzeChunk? {
      assert ex.requests[i] == ex.requests[..|chunks|][i];
    }
  }

  /** The response is 200 exactly when every analysis and the combine step
      completed, and its analysis is then the combiner's reply. */
  lemma HandleSucceeds(files: seq<UploadedFile>, chat: ChatRequest -> Reply, base64: seq<bv8> -> string)
    requires |files| > 0
    ensures Handle(Some(files), chat, base64).response.status == 200
            <==> AllCompleted(Replies(AnalysisRequests(UploadChunks(files), base64), chat))
                 && chat(CombineResults(CombinePrompt(Texts(Replies(AnalysisRequests(UploadChunks(files), base64), chat))))).Completed?
    ensures Handle(Some(files), chat, base64).response.status == 200 ==>
      Handle(Some(files), chat, base64).response.body.analysis
      == chat(CombineResults(CombinePrompt(Texts(Replies(AnalysisRequests(UploadChunks(files), base64), chat))))).text
  {
  }

  /** A failed analysis ends the request with the generic 500 body, and the
      combiner is never asked: no partial analysis is returned. */
  lemma HandleFailedAnalysis(files: seq<UploadedFile>, chat: ChatRequest -> Reply, base64: seq<bv8> -> string, i: nat)
    requires i < |UploadChunks(files)|
    requires chat(AnalysisRequests(UploadChunks(files), base64)[i]).Failed?
    ensures Handle(Some(files), chat, base64).response == Response(500, ProcessingFailed(ProcessingError))
    ensures Handle(Some(files), chat, base64).requests == AnalysisRequests(UploadChunks(files), base64)
  {
    var replies := Replies(AnalysisRequests(UploadChunks(files), base64), chat);
    assert !replies[i].Completed?;
  }

  /** Across the analysis requests, in order, the image parts are exactly one
      per uploaded file, in upload order: no file is skipped, repeated or
      moved to another position. */
  lemma {:induction false} EveryFileSentOnce(files: seq<UploadedFile>, chat: ChatRequest -> Reply, base64: seq<bv8> -> string)
    requires |files| > 0
    ensures Chunking.Flatten(RequestImages(Handle(Some(files), chat, base64).requests[..|UploadChunks(files)|]))
            == ImageParts(files, base64)
  {
    var chunks := UploadChunks(files);
    HandleAnalysesInChunkOrder(files, chat, base64);
    AnalysisImages(chunks, base64);
    Chunking.FlattenChunks(files, ChunkSize);
  }

  /** The image parts of each analysis request (everything after the text). */
  function RequestImages(requests: seq<ChatRequest>): (r: seq<seq<ContentPart>>)
    ensures |r| == |requests|
  {
    seq(|requests|, i requires 0 <= i < |requests| =>
      if requests[i].AnalyzeChunk? && |requests[i].content| > 0 then requests[i].content[1..] else [])
  }

  lemma {:induction false} AnalysisImages(chunks: seq<seq<UploadedFile>>, base64: seq<bv8> -> string)
    ensures Chunking.Flatten(RequestImages(AnalysisRequests(chunks, base64))) == ImageParts(Chunking.Flatten(chunks), base64)
    decreases |chunks|
  {
    if chunks != [] {
      AnalysisImages(chunks[1..], base64);
      var rs := AnalysisRequests(chunks, base64);
      assert RequestImages(rs)[0] == ImageParts(chunks[0], base64);
      assert RequestImages(rs)[1..] == RequestImages(AnalysisRequests(chunks[1..], base64));
      ImagePartsAppend(chunks[0], Chunking.Flatten(chunks[1..]), base64);
    }
  }

  /** Five screenshots are analysed as two pairs and a single, then combined. */
  lemma FiveFiles(files: seq<UploadedFile>, chat: ChatRequest -> Reply, base64: seq<bv8> -> string)
    requires |files| == 5
    ensures UploadChunks(files) == [files[0..2], files[2..4], files[4..5]]
    ensures AllCompleted(Replies(AnalysisRequests(UploadChunks(files), base64), chat)) ==>
      |Handle(Some(files), chat, base64).requests| == 4
  {
    Chunking.ChunksFrom(files, ChunkSize, 0);
    Chunking.ChunksFrom(files, ChunkSize, 2);
    Chunking.ChunksFrom(files, ChunkSize, 4);
    assert files[0..] == files;
    assert files[5..] == [];
    HandleCombinesOnce(files, chat, base64);
  }
}
