/** llm/gemini.go: a client for the generative endpoint with a configurable
    model, strict error reporting, and a convenience entry point that takes the
    key from the environment. The shared HTTP client is not modelled; each call
    is given the outcome of its exchange. */
module Gemini {
  import opened Wrappers
  import opened Types
  import opened Environment
  import Strconv

  const DefaultModel: string := "gemini-2.0-flash"
  const ApiKeyVariable: string := "GEMINI_API_KEY"

  datatype GeminiOptions = GeminiOptions(apiKey: string, model: string)

  datatype Gemini = Gemini(apiKey: string, model: string)

  /** `NewGemini`: an empty model name falls back to the default model. */
  function NewGemini(options: GeminiOptions): (g: Gemini)
    ensures g.apiKey == options.apiKey
    ensures options.model != "" ==> g.model == options.model
    ensures options.model == "" ==> g.model == DefaultModel
    ensures g.model != ""
  {
    Gemini(options.apiKey, if options.model == "" then DefaultModel else options.model)
  }

  /** The URL `GenerateContent` posts to. */
  function Endpoint(g: Gemini): string {
    "https://generativelanguage.googleapis.com/v1beta/models/" + g.model + ":generateContent?key=" + g.apiKey
  }

  /** The request `GenerateContent` sends for `prompt`. */
  function RequestFor(g: Gemini, prompt: string): Outbound {
    Outbound(Endpoint(g), SingleTurn(prompt))
  }

  /** Every way `GenerateContent` and `GenerateContentWithEnvKey` fail. */
  datatype GeminiError =
    | RequestFailed(cause: string)
    | ReadBodyFailed(cause: string)
    | BadStatus(status: int, body: string)
    | UnmarshalFailed(cause: string)
    | NoCandidates
    | NoContentParts
    | MissingApiKey

  const StatusPrefix: string := "API request failed with status "

  /** The text of each error, as the client formats it: a wrapped error keeps
      its cause at the end. */
  function ErrorText(e: GeminiError): (r: string)
    ensures |r| > 0
    ensures e.RequestFailed? || e.ReadBodyFailed? || e.UnmarshalFailed? ==>
      |r| > |e.cause| && r[|r| - |e.cause|..] == e.cause
  {
    match e
    case RequestFailed(cause) => "failed to make request: " + cause
    case ReadBodyFailed(cause) => "failed to read response body: " + cause
    case BadStatus(status, body) => StatusPrefix + Strconv.Decimal(status) + ": " + body
    case UnmarshalFailed(cause) => "failed to unmarshal response: " + cause
    case NoCandidates => "no candidates in response"
    case NoContentParts => "no content parts in response"
    case MissingApiKey => "GEMINI_API_KEY environment variable not set"
  }

  /** A status error's text is the fixed prefix, the status in decimal (which
      reads back as the status) and `": "` followed by the reply body. */
  lemma BadStatusText(status: int, body: string)
    requires Strconv.IntMin <= status <= Strconv.IntMax
    ensures var t, i := ErrorText(BadStatus(status, body)), |StatusPrefix|;
      var j := |t| - |body| - 2;
      i <= j && t[..i] == StatusPrefix && Strconv.Atoi(t[i..j]) == Some(status) && t[j..] == ": " + body
  {
    var t, d := ErrorText(BadStatus(status, body)), Strconv.Decimal(status);
    assert t == StatusPrefix + d + (": " + body);
    assert t[|StatusPrefix|..|t| - |body| - 2] == d;
    Strconv.AtoiDecimal(status);
  }

  /** `GenerateContent`: the text of the first part of the first candidate of a
      200 reply that decodes; the checks run in the order transport, read,
      status, decode, candidates, parts, and the first that fails decides the
      error. */
  function GenerateContent(g: Gemini, prompt: string, outcome: HttpOutcome): (r: Result<string, GeminiError>)
    ensures r.Success? <==>
      outcome.Answered? && outcome.status == 200 && outcome.decoded.Success? &&
      FirstCandidateText(outcome.decoded.value).Some?
    ensures r.Success? ==> r.value == FirstCandidateText(outcome.decoded.value).value
    ensures outcome.TransportFailed? ==> r == Failure(RequestFailed(outcome.cause))
    ensures outcome.ReadFailed? ==> r == Failure(ReadBodyFailed(outcome.cause))
    ensures outcome.Answered? && outcome.status != 200 ==> r == Failure(BadStatus(outcome.status, outcome.body))
    ensures outcome.Answered? && outcome.status == 200 && outcome.decoded.Success? ==>
      (|outcome.decoded.value.candidates| == 0 ==> r == Failure(NoCandidates)) &&
      (|outcome.decoded.value.candidates| > 0 && |outcome.decoded.value.candidates[0].content.parts| == 0 ==>
        r == Failure(NoContentParts))
    ensures outcome.Answered? && outcome.status == 200 && outcome.decoded.Failure? ==>
      r == Failure(UnmarshalFailed(outcome.decoded.error))
  {
    match outcome
    case TransportFailed(cause) => Failure(RequestFailed(cause))
    case ReadFailed(cause) => Failure(ReadBodyFailed(cause))
    case Answered(status, body, decoded) =>
      if status != 200 then Failure(BadStatus(status, body))
      else if decoded.Failure? then Failure(UnmarshalFailed(decoded.error))
      else if |decoded.value.candidates| == 0 then Failure(NoCandidates)
      else if |decoded.value.candidates[0].content.parts| == 0 then Failure(NoContentParts)
      else Success(decoded.value.candidates[0].content.parts[0].text)
  }

  /** A call: the request sent, if any, and what the caller gets back. */
  datatype Call = Call(request: Option<Outbound>, result: Result<string, GeminiError>)

  /** `GenerateContentWithEnvKey`: an unset or empty `GEMINI_API_KEY` fails before
      any request; otherwise a client with that key and the default model makes
      the call. */
  function GenerateContentWithEnvKey(prompt: string, env: map<string, string>, outcome: HttpOutcome): (c: Call)
    ensures Getenv(env, ApiKeyVariable) == "" ==> c == Call(None, Failure(MissingApiKey))
    ensures Getenv(env, ApiKeyVariable) != "" ==>
      var g := NewGemini(GeminiOptions(Getenv(env, ApiKeyVariable), ""));
      c.request == Some(RequestFor(g, prompt)) && c.result == GenerateContent(g, prompt, outcome)
    ensures c.request.Some? ==> c.request.value.url == Endpoint(Gemini(env[ApiKeyVariable], DefaultModel))
  {
    var apiKey := Getenv(env, ApiKeyVariable);
    if apiKey == "" then Call(None, Failure(MissingApiKey))
    else
      var g := NewGemini(GeminiOptions(apiKey, ""));
      Call(Some(RequestFor(g, prompt)), GenerateContent(g, prompt, outcome))
  }
}
