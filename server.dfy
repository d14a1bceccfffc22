/** The server side (app/main.py): the segmenter, the upload's file-type dispatch, and the
    loop of both endpoints that sends each segment to the provider in turn and collects the
    audio blobs that are then merged. The provider is a function from the call's position
    and its request to the reply; merging, temporary files and the HTTP framework are not
    part of this model. */
module Server {
  import opened Text
  import opened Octets
  import opened Segmenter
  import opened Tts

  /** The limit both endpoints use (the default of split_text_into_segments). */
  const DefaultMaxLength: int := 4000

  /** split_text_into_segments: split on ". ", then pack greedily. */
  method SplitTextIntoSegments(text: string, maxLength: int) returns (segments: seq<string>)
    ensures segments == Segments(text, maxLength, Python)
    ensures |segments| >= 1 && Concat(segments) == text + Separator
  {
    var sentences := Split(text);
    segments := [];
    var currentSegment := "";
    for i := 0 to |sentences|
      invariant segments == Render(Pack(sentences[..i], maxLength).closed)
      invariant currentSegment == Terminated(Pack(sentences[..i], maxLength).open)
    {
      var sentence := sentences[i];
      assert sentences[..i + 1][..i] == sentences[..i];
      TerminatedSnoc(Pack(sentences[..i], maxLength).open, sentence);
      TerminatedSnoc([], sentence);
      if |currentSegment| + |sentence| > maxLength {
        segments := segments + [currentSegment];
        currentSegment := "";
      }
      currentSegment := currentSegment + sentence + Separator;
    }
    assert sentences[..|sentences|] == sentences;
    if Trim(Python, currentSegment) != "" {
      segments := segments + [currentSegment];
    }
    SegmentsNonEmpty(text, maxLength, Python);
    SegmentsConcat(text, maxLength, Python);
  }

  /** The two kinds of upload the server reads. */
  datatype Format = PlainText | Epub

  const UnsupportedDetail: string := "Unsupported file type. Only .txt and .epub files are supported."

  /** The upload's dispatch on the file name: ".txt" is read as text, ".epub" as a book, and
      every other name, ".pdf" included, is refused with status 400. */
  function UploadFormat(filename: string): (r: Result<Format>)
    ensures r == Ok(PlainText) <==> EndsWith(filename, ".txt")
    ensures r == Ok(Epub) <==> !EndsWith(filename, ".txt") && EndsWith(filename, ".epub")
    ensures r.Err? <==> !EndsWith(filename, ".txt") && !EndsWith(filename, ".epub")
    ensures r.Err? ==> r.error == HttpError(400, UnsupportedDetail)
  {
    if EndsWith(filename, ".txt") then Ok(PlainText)
    else if EndsWith(filename, ".epub") then Ok(Epub)
    else Err(HttpError(400, UnsupportedDetail))
  }

  /** PDF and Word documents are refused, although the client's own check lets PDF through. */
  lemma UploadRefusesPdfAndDocx(filename: string)
    requires EndsWith(filename, ".pdf") || EndsWith(filename, ".docx")
    ensures UploadFormat(filename) == Err(HttpError(400, UnsupportedDetail))
  {
    var n := |filename|;
    assert filename[n - 1] == 'f' || filename[n - 1] == 'x';
  }

  /** What a run of the synthesis loop over the segments did: the calls made were for the
      segments in order, one each, every call before the last succeeded; the run succeeded
      exactly when every segment was sent and answered with status 200, and then the blobs
      are the replies' bodies in segment order; otherwise the last call made is the one that
      failed, and its error is the run's. */
  ghost predicate SynthesisRun(segments: seq<string>, apiKey: string, voice: string,
                               provider: (nat, Request) -> Response,
                               result: Result<seq<Bytes>>, calls: seq<Request>)
  {
    && |calls| <= |segments|
    && (forall k :: 0 <= k < |calls| ==> calls[k] == SpeechRequest(segments[k], apiKey, voice))
    && (forall k :: 0 <= k < |calls| - 1 ==> Classify(provider(k, calls[k])).Ok?)
    && (result.Ok? ==>
          && |calls| == |segments| == |result.value|
          && forall k :: 0 <= k < |calls| ==> Classify(provider(k, calls[k])) == Ok(result.value[k]))
    && (result.Err? ==>
          && |calls| >= 1
          && Classify(provider(|calls| - 1, calls[|calls| - 1])) == Err(result.error))
  }

  /** The loop of both endpoints: one call per segment, in order, stopping at the first
      error (the raised HTTPException). The pause after each call is timing only. */
  method SynthesizeSegments(segments: seq<string>, apiKey: string, voice: string,
                            provider: (nat, Request) -> Response)
    returns (result: Result<seq<Bytes>>, calls: seq<Request>)
    ensures SynthesisRun(segments, apiKey, voice, provider, result, calls)
    ensures result.Err? ==> result.error.status != 200
  {
    var audioBlobs: seq<Bytes> := [];
    calls := [];
    for i := 0 to |segments|
      invariant |calls| == i && |audioBlobs| == i
      invariant forall k :: 0 <= k < i ==> calls[k] == SpeechRequest(segments[k], apiKey, voice)
      invariant forall k :: 0 <= k < i ==> Classify(provider(k, calls[k])) == Ok(audioBlobs[k])
    {
      var request := SpeechRequest(segments[i], apiKey, voice);
      calls := calls + [request];
      var reply := Classify(provider(i, request));
      if reply.Err? {
        result := Err(reply.error);
        return;
      }
      audioBlobs := audioBlobs + [reply.value];
    }
    result := Ok(audioBlobs);
  }

  /** The /generate-audiobook endpoint up to the merge: the text's segments, each sent in
      turn. Since the segmenter never returns an empty list, at least one call is made. */
  method GenerateAudiobook(text: string, apiKey: string, voice: string,
                           provider: (nat, Request) -> Response)
    returns (result: Result<seq<Bytes>>, calls: seq<Request>)
    ensures SynthesisRun(Segments(text, DefaultMaxLength, Python), apiKey, voice, provider, result, calls)
    ensures |calls| >= 1
  {
    var segments := SplitTextIntoSegments(text, DefaultMaxLength);
    result, calls := SynthesizeSegments(segments, apiKey, voice, provider);
  }

  /** The /upload-file endpoint up to the merge. The file name is checked first: an
      unsupported name is refused with status 400 before any segmentation or call. Decoding
      the bytes as UTF-8 and extracting an EPUB's text are library work, given as
      functions. */
  method UploadFile(filename: string, content: Bytes, apiKey: string, voice: string,
                    decodeUtf8: Bytes -> string, extractEpub: Bytes -> string,
                    provider: (nat, Request) -> Response)
    returns (result: Result<seq<Bytes>>, calls: seq<Request>)
    ensures UploadFormat(filename).Err? ==> result == Err(HttpError(400, UnsupportedDetail)) && calls == []
    ensures UploadFormat(filename) == Ok(PlainText) ==>
      SynthesisRun(Segments(decodeUtf8(content), DefaultMaxLength, Python), apiKey, voice, provider, result, calls)
    ensures UploadFormat(filename) == Ok(Epub) ==>
      SynthesisRun(Segments(extractEpub(content), DefaultMaxLength, Python), apiKey, voice, provider, result, calls)
    ensures UploadFormat(filename).Ok? ==> |calls| >= 1
  {
    var text: string;
    match UploadFormat(filename) {
      case Err(e) =>
        return Err(e), [];
      case Ok(PlainText) =>
        text := decodeUtf8(content);
      case Ok(Epub) =>
        text := extractEpub(content);
    }
    var segments := SplitTextIntoSegments(text, DefaultMaxLength);
    result, calls := SynthesizeSegments(segments, apiKey, voice, provider);
  }
}
