# Audiobook Generator: a verified model of its core

Audiobook Generator turns text, or an uploaded `.txt` or `.epub` book, into speech. The text is cut into segments of about 4000 characters. Each segment is sent in turn to a text-to-speech provider. The audio replies are then joined into one WAV file. The server (`app/main.py`) does all of this itself. The browser client (`static/js/main.js`) can do it on its own side too.

This project models the logic at the centre of both and proves properties of it:

- **The segmenter.** `split_text_into_segments` and its JavaScript twin `splitTextIntoSegments` split on `". "` and pack sentences greedily into segments. Modules `Text` and `Segmenter` hold the specification. `Server.SplitTextIntoSegments` and `Client.SplitTextIntoSegments` are the two loops, proved equal to it.
  - The two runtimes see whitespace differently, which matters to `strip()` versus `trim()`. `Text.IsSpace` models both, and the two versions are proved to return the same list.
- **The provider call.** The request sent and the classification of the reply are modelled in module `Tts`. The network call itself is a function parameter: from the call's position and its request to the reply.
- **The server endpoints** (module `Server`). The upload's dispatch on the file extension is modelled, and so is the fail-fast loop that sends one request per segment.
- **The browser's queue** (class `Client.AudiobookJob`). `processQueue` shifts the next segment off the queue, fills the slot of each answered segment, and merges once every slot is filled.
- **The whitespace normaliser** `removeWhitespace`, in module `Client`.
- **WAV concatenation** (module `Wav`). `concatenateWAVBuffers` copies the first file's 44-byte canonical PCM header and rewrites its two little-endian size fields. It then copies every file's samples behind the header at a running offset, into a byte array.
  - The RIFF chunk size is 36 plus the data length; the data chunk size is the data length.
  - Bytes are the newtype `Octets.Byte` (0..255), the value a `Uint8Array` element holds.

Where a reader might expect otherwise, the model follows the code:

- Splitting the empty text gives `[""]` in both runtimes, not `[]`. The empty text therefore yields the single segment `". "`.
- The length test ignores the `". "` appended after each sentence. A segment of several sentences can therefore reach `max_length + 2` characters, not `max_length`.
- A first sentence longer than the limit makes the first segment the empty string.

The model treats strings as sequences of Unicode code points in both runtimes. JavaScript actually counts UTF-16 code units; see the last general line under "Left out".

## Model

| member | source | states |
|---|---|---|
| Text.IsSpace | app/main.py:60 | Definition: the characters Python's `str.isspace` accepts and the ECMAScript WhiteSpace and LineTerminator characters that `trim()` and `\s` match, as two sets that differ by U+001C..U+001F, U+0085 and U+FEFF. |
| Text.Trim | app/main.py:60 | Definition: `strip()` / `trim()` is the start trim followed by the end trim. Its meaning is stated by `Text.TrimEmptyIff`, `Text.TrimEnds`, `Text.TrimStartAt` and `Text.TrimEndAt`. |
| Text.TrimStart | app/main.py:60 | Leading whitespace removed. The result is a suffix of the input, does not start with whitespace, and everything dropped was whitespace. |
| Text.TrimEnd | static/js/main.js:170 | Trailing whitespace removed. The result is a prefix of the input, does not end with whitespace, and everything dropped was whitespace. |
| Text.TrimEmptyIff | app/main.py:60 | `strip()` / `trim()` leaves nothing exactly when every character is whitespace. This is the test that decides whether the last buffer becomes a segment. |
| Text.Split | app/main.py:55 | `text.split('. ')` returns at least one piece. The pieces joined with `". "` give the text back, and no piece contains the separator. |
| Text.SplitJoin | static/js/main.js:161 | Splitting the join of separator-free pieces gives back exactly those pieces, so the split is the unique such decomposition. |
| Text.TrimEnds | static/js/main.js:304 | A trimmed string neither starts nor ends with whitespace. |
| Text.TrimStartAt | static/js/main.js:304 | The start trim cuts at exactly the first character that is not whitespace, or at the end. |
| Text.TrimEndAt | static/js/main.js:304 | The end trim cuts right after exactly the last character that is not whitespace, or at the start. |
| Text.SplitAtFirstSeparator | app/main.py:55 | Where the first `". "` starts at i, the split is `s[..i]` followed by the split of everything after that separator. |
| Text.SplitCons | app/main.py:55 | A separator-free piece, then `". "`, then a rest: the split is that piece followed by the split of the rest. |
| Text.EndsWith | app/main.py:125-127 | Definition: `str.endswith`, the case-sensitive suffix test that decides the upload dispatch: the last `|suffix|` characters equal the suffix. |
| Segmenter.Pack | app/main.py:55-58 | Definition: the sentences are read in order. The buffer is closed as a segment when its length plus the next sentence's length exceeds the limit; then the sentence joins the buffer. Its properties are the Pack lemmas below. |
| Segmenter.Segments | app/main.py:52-62 | Definition: the closed buffers, then the last buffer unless `strip()` / `trim()` leaves it empty. Its properties are the Segments lemmas below. |
| Segmenter.PackPartition | app/main.py:55-59 | The greedy walk puts every sentence into exactly one group, in the original order, and the open buffer is never empty after a sentence. |
| Segmenter.PackEmptyGroups | app/main.py:56-58 | Only the first closed group can be empty, and it is exactly when the first sentence alone is longer than the limit. |
| Segmenter.PackFits | app/main.py:56 | When a sentence joined a buffer, the buffer's length plus the sentence's length was within the limit. |
| Segmenter.PackGreedy | app/main.py:56-58 | A buffer is closed only when adding the next sentence would exceed the limit. |
| Segmenter.SegmentsAreGroups | app/main.py:59-61 | The segments are the groups written out, each sentence followed by `". "`. The last group is kept because it always contains `". "`. |
| Segmenter.RuntimesAgree | static/js/main.js:170-172 | Python's `strip()` test and JavaScript's `trim()` test keep the same last segment, so both runtimes return the same list. |
| Segmenter.SegmentsConcat | app/main.py:55-61 | The segments concatenated give exactly `text + ". "`. |
| Segmenter.SegmentsNonEmpty | app/main.py:59-61 | The result is never empty, and its last segment ends with `". "`. |
| Segmenter.SegmentsOfEmptyText | app/main.py:55 | The empty text gives `[". "]` for every non-negative limit, and `["", ". "]` for a negative one. |
| Segmenter.SegmentsEmptyOnlyFirst | app/main.py:56-59 | The first segment is `""` exactly when the first sentence is longer than the limit. Every other segment is non-empty and ends with `". "`. |
| Segmenter.SegmentsLengthBound | app/main.py:56-59 | A segment of two or more sentences is at most `max_length + 2` long. A longer segment is one sentence followed by `". "`. |
| Segmenter.SegmentsKeepSentenceOrder | app/main.py:55-59 | Across the segments, the sentences of the split appear whole, once each, and in order. |
| Segmenter.SegmentsGreedy | app/main.py:56-58 | Each segment after the first was started because the previous segment plus its first sentence exceeded the limit. |
| Server.SplitTextIntoSegments | app/main.py:52-62 | The loop returns the specification's segments under Python's whitespace. The list is non-empty and concatenates to `text + ". "`. |
| Client.SplitTextIntoSegments | static/js/main.js:157-175 | The JavaScript loop returns the specification's segments under JavaScript's whitespace. This is the same list Python returns. |
| Tts.SpeechRequest | app/main.py:64-74 | The request goes to the speech URL with `Bearer <key>` and the body `{model: "tts-1", input: segment, voice}`. |
| Tts.Classify | app/main.py:76-78 | Status 200 yields the body unchanged. Any other status yields an error with the same status code and the detail `OpenAI API error: <text>`. |
| Server.UploadFormat | app/main.py:125-130 | `.txt` is read as text and `.epub` as a book. Any other name is refused with 400 and the fixed detail. The checks are made in that order. |
| Server.UploadRefusesPdfAndDocx | app/main.py:125-130 | `.pdf` and `.docx` uploads are refused with 400. |
| Server.SynthesizeSegments | app/main.py:95-98 | One request per segment, in segment order. Every call before the last succeeded. On success, the blobs are the replies' bodies, one per segment, in order. On failure, the last call is the one that failed, its error is the result, and no later segment was sent. |
| Server.GenerateAudiobook | app/main.py:88-98 | The endpoint sends the segments of the text (limit 4000), and at least one call is always made. |
| Server.UploadFile | app/main.py:121-140 | An unsupported name is refused with 400 before any segmentation or call. Otherwise the decoded or extracted text is segmented and sent as in the synthesis loop. |
| Client.CollapseRuns | static/js/main.js:304 | `replace(/\s+/g, ' ')` gives an empty result only for an empty input, keeps whether the first character is whitespace, and leaves only single plain spaces. `Client.CollapseRunsAsWords` states what it does to the words. |
| Client.RemoveWhitespace | static/js/main.js:303-305 | Definition: the replace, then `trim()`. Its meaning is stated by `Client.RemoveWhitespaceIsUnwords` and the lemmas after it. |
| Client.Word | static/js/main.js:304 | The word at the start of a text is its longest prefix free of whitespace: a prefix, with no whitespace, followed by whitespace or by the end. |
| Client.Words | static/js/main.js:304 | The words of a text, its maximal runs of characters that are not whitespace, are each non-empty and free of whitespace. |
| Client.CollapseRunsAsWords | static/js/main.js:304 | On a text that does not start with whitespace, the replace gives the text's words with one space between neighbours, plus one space when the text ends in whitespace. |
| Client.RemoveWhitespaceIsUnwords | static/js/main.js:303-305 | `removeWhitespace` returns the input's words joined by single spaces. So `"a  b"` gives `"a b"`, and whitespace between two words is never dropped. |
| Client.WordsOfUnwords | static/js/main.js:303-305 | Words joined by single spaces read back as the same words. |
| Client.RemoveWhitespaceKeepsWords | static/js/main.js:303-305 | The output's words are exactly the input's words, in order. |
| Client.RemoveWhitespaceNormalized | static/js/main.js:303-305 | The output has no leading or trailing whitespace, no whitespace other than `' '`, and no two adjacent whitespace characters. |
| Client.RemoveWhitespaceKeepsVisible | static/js/main.js:303-305 | The non-whitespace characters of the output are those of the input, in order. |
| Client.CollapseRunsOfCollapsed | static/js/main.js:304 | Text already made of single plain spaces is unchanged by the replace. |
| Client.RemoveWhitespaceFixedPoints | static/js/main.js:303-305 | The output equals the input exactly when the input is already normalized. |
| Client.RemoveWhitespaceIdempotent | static/js/main.js:303-305 | Normalizing twice is the same as normalizing once. |
| Client.CountFilled | static/js/main.js:141-143 | `audioBlobs.filter(Boolean).length` is at most the number of slots. It equals that number exactly when every slot is filled. |
| Client.CountFilledBelow | static/js/main.js:136-143 | When exactly the first n slots are filled, the count is n. |
| Client.EmptySlots | static/js/main.js:122 | `new Array(segments.length)` gives one slot per segment, none of them filled. |
| Client.AudiobookJob.constructor | static/js/main.js:118-131 | The job starts with the text's segments (limit 4000), every slot empty, and the queue a copy of the segments. |
| Client.AudiobookJob.ProcessQueue | static/js/main.js:133-149 | The queue stays a suffix of the segments. The shifted segment is `segments[index]`, with `index = segments.length - queue.length`, and a 200 reply fills exactly slot `index`. A non-200 reply stops the chain with nothing filled. The merge fires exactly when the queue has run out, and then every slot is filled. |
| Client.AudiobookJob.Run | static/js/main.js:133-153 | The chain merges exactly when every segment's reply is 200. It then hands over the replies' bodies in segment order. |
| Wav.Uint32 | static/js/main.js:41-51 | Definition: the reduction of a number to 32 bits that JavaScript's `>>` and `&` apply first, as the value modulo 2^32. |
| Wav.RiffChunkSize | static/js/main.js:40 | Definition: `totalSize = 36 + dataLength`, reduced to 32 bits as the byte stores see it. |
| Wav.LittleEndian | static/js/main.js:41-44 | Definition: the n low bytes of a value, least significant first, byte k being `(x >> 8k) & 0xff`. Its meaning is stated by `Wav.LittleEndianRoundTrip`. |
| Wav.Le32 | static/js/main.js:41-51 | Definition: the four bytes stored for a 32-bit size field. Its meaning is stated by `Wav.Le32Bytes` and `Wav.Le32RoundTrip`. |
| Wav.LittleEndianRoundTrip | static/js/main.js:41-44 | A value that fits in n bytes, written least significant byte first, reads back as the same value. |
| Wav.Le32Bytes | static/js/main.js:41-44 | The four stored bytes are `(x >> 8k) & 0xff` for k = 0..3. |
| Wav.Le32RoundTrip | static/js/main.js:40-44 | A 32-bit size field decodes to the value written. |
| Wav.DataLength | static/js/main.js:31 | Definition: the `reduce` that sums every buffer's length less 44. |
| Wav.Payloads | static/js/main.js:31 | The samples of all buffers together are as long as the summed data length. |
| Wav.PayloadsPrefix | static/js/main.js:60-64 | The samples of the first i buffers are a prefix of those of the first j buffers, for i ≤ j. |
| Wav.Header | static/js/main.js:37-51 | The output header is 44 bytes: the first buffer's bytes 0..3 and 8..39, with `Le32` of the RIFF size at 4..7 and `Le32` of the data size at 40..43. |
| Wav.Concatenated | static/js/main.js:29-70 | Definition: the output header followed by every buffer's samples. Its properties are `Wav.ConcatenatedLength` through `Wav.PayloadsDisjoint`. |
| Wav.ConcatenatedLength | static/js/main.js:31-34 | The output is `44 + Σ(len(b) − 44)` bytes long. |
| Wav.HeaderKept | static/js/main.js:37 | Bytes 0..3 and 8..39 of the output are the first buffer's. |
| Wav.RiffSizeField | static/js/main.js:40-44 | Bytes 4..7 hold `(36 + dataLength) mod 2^32`, least significant byte first. |
| Wav.DataSizeField | static/js/main.js:47-51 | Bytes 40..43 hold `dataLength mod 2^32`, least significant byte first. |
| Wav.OffsetStep | static/js/main.js:54-62 | The offset starts at 44 and advances by each buffer's length less 44. After the last buffer it equals the output length. |
| Wav.PayloadPlacement | static/js/main.js:60-62 | Buffer i's bytes from 44 on appear in the output from offset `44 + Σ_{j<i}(len(b_j) − 44)`, in order. |
| Wav.PayloadsDisjoint | static/js/main.js:60-62 | An earlier buffer's samples end no later than a later buffer's begin, so copies never overlap. |
| Wav.Set | static/js/main.js:37 | `Uint8Array.set` copies the source in at the offset and leaves every other byte as it was. |
| Wav.SetLe32 | static/js/main.js:41-44 | The four byte stores write the field's little-endian encoding and leave every other byte as it was. |
| Wav.HeaderWritten | static/js/main.js:37-51 | The header copy, followed by the RIFF-size store and the data-size store, leaves exactly `Header` in bytes 0..43. |
| Wav.WriteHeader | static/js/main.js:37-51 | The copy of the first header and the eight byte stores leave `Header(first, dataLength)` in bytes 0..43 and every later byte as it was. |
| Wav.CopySamples | static/js/main.js:54-64 | The `forEach` leaves the header and puts every buffer's samples behind it, in order. |
| Wav.ConcatenateWavBuffers | static/js/main.js:29-70 | The result is a newly allocated array. Its bytes are the first buffer's header, with both size fields rewritten, followed by every buffer's samples in order. |

## Left out

- Framework and application setup: the FastAPI routes and templates, static files, temporary files and `FileResponse`. This is I/O and framework glue.
- The HTTP calls themselves (`requests.post`, `XMLHttpRequest`). They become the provider function. Transport errors and exceptions raised by the request library are not modelled.
- Pacing between calls (`time.sleep`, `setTimeout`). Only the constant is recorded: `Tts.DelayBetweenCallsMs`, 60000 / 50 = 1200 ms.
- Audio decoding and encoding: pydub's `merge_audio_files`, `AudioContext.decodeAudioData`, `audioBufferToWav`, and the rest of `mergeAudioBlobsAndDownload`. These are codec libraries. `Client.AudiobookJob.Run` ends where the merged blobs are handed over, and `Server.GenerateAudiobook` ends before the merge.
- Decoding an upload as UTF-8 and extracting an EPUB's text (ebooklib, BeautifulSoup, JSZip, the DOM). These become function parameters of `Server.UploadFile`. UTF-8 decoding errors are not modelled.
- `filterUnwantedContent`: its behaviour rests on regular-expression engine semantics, including a lazy `[\s\S]*?`.
- `calculateCost`: floating point.
- The progress bars, console output, the error indicator and the rest of the page's UI flow (`handleFileUpload`, `generateAudiobookServer`, `triggerDownload`).
- Duration-bounded splitting into several files and zip packaging. A test imports `merge_audio_files_with_limit`, but no such function exists in `app/main.py`, so there is nothing to model.
- The health route and the `run.py` launcher.
- String lengths are counted in code points. JavaScript counts UTF-16 code units, so the two runtimes' length tests differ for characters outside the Basic Multilingual Plane.
- Segmenter.SegmentsLengthBound: requires a limit of at least −2. With a lower limit, the empty first segment would already be longer than the limit plus two, so the second half of the bound does not hold there.
- Wav.ConcatenateWavBuffers: requires at least one buffer, each at least 44 bytes long. Its only caller passes the WAV encodings of the decoded replies, and there is at least one reply because the segment list is never empty. Shorter buffers are not modelled. With them, `new Uint8Array` throws when `44 + Σ(len − 44)` is negative, and otherwise `set` can throw a RangeError: buffers of 0, 0 and 200 bytes give a 112-byte array, and the third buffer is then set at offset −44. Otherwise the copies overlap: buffers of 20 and 100 bytes give `dataLength` 32, and the second buffer's samples are copied from offset 20, over the header's data-size field.
- Client.AudiobookJob.ProcessQueue: the request's callback runs at once, as a sequential step. Interleavings with other events on the page are not modelled. The voice is fixed when the job is built, while `callOpenAIAPI` reads the voice selector again on every call, so a change of voice during the run is not modelled.
