/** The text-to-speech provider as the application sees it: one request per segment, and
    the classification of the provider's reply into audio bytes or an HTTP error. The call
    itself is network I/O and is represented by its reply. */
module Tts {
  import opened Octets

  /** The speech endpoint and the fixed model identifier of every request. */
  const SpeechUrl: string := "https://api.openai.com/v1/audio/speech"
  const SpeechModel: string := "tts-1"

  /** Pacing between calls: 50 calls per minute, that is 60000 / 50 = 1200 milliseconds. */
  const RateLimitPerMinute: nat := 50
  const DelayBetweenCallsMs: nat := 60000 / RateLimitPerMinute

  /** A POST to the speech endpoint: the bearer credential in the Authorization header and
      the JSON body {model, input, voice}. */
  datatype Request = Request(url: string, authorization: string, model: string, input: string, voice: string)

  /** What the provider sends back: the status code, the raw body, and the body as text. */
  datatype Response = Response(status: int, content: Bytes, text: string)

  /** An HTTP error as the application raises it: a status code and a detail message. */
  datatype HttpError = HttpError(status: int, detail: string)

  datatype Result<T> = Ok(value: T) | Err(error: HttpError)

  /** The request sent for one segment. */
  function SpeechRequest(segment: string, apiKey: string, voice: string): (r: Request)
    ensures r.url == SpeechUrl && r.authorization == "Bearer " + apiKey
    ensures r.model == "tts-1" && r.input == segment && r.voice == voice
  {
    Request(SpeechUrl, "Bearer " + apiKey, SpeechModel, segment, voice)
  }

  /** The reply's classification: only status 200 is a success, and it yields the body
      exactly as received; any other status, 201 and 204 included, becomes an error that
      keeps the provider's status code and quotes the body's text. */
  function Classify(reply: Response): (r: Result<Bytes>)
    ensures r.Ok? <==> reply.status == 200
    ensures r.Ok? ==> r.value == reply.content
    ensures r.Err? ==> r.error.status == reply.status && r.error.status != 200
    ensures r.Err? ==> r.error.detail == "OpenAI API error: " + reply.text
  {
    if reply.status != 200 then Err(HttpError(reply.status, "OpenAI API error: " + reply.text))
    else Ok(reply.content)
  }
}
