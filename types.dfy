/** types.go: the decoded shapes of the commit-listing reply, the commit the
    tool keeps, and the generative endpoint's request and response bodies. */
module Types {
  import opened Wrappers

  /** `Commit`: one commit as the tool displays and summarises it. */
  datatype Commit = Commit(sha: string, message: string, author: string, date: int, repoName: string, htmlUrl: string)

  datatype CommitMessage = CommitMessage(message: string)

  /** The author block of a listed commit; its date is the raw RFC 3339 text. */
  datatype CommitAuthor = CommitAuthor(name: string, email: string, date: string)

  datatype CommitDetails = CommitDetails(message: CommitMessage, author: CommitAuthor)

  /** The platform account linked to a commit, when there is one. */
  datatype CommitUser = CommitUser(login: string)

  /** `CommitResponse`: one element of the commit listing reply. */
  datatype CommitResponse = CommitResponse(sha: string, commit: CommitDetails, htmlUrl: string, author: Option<CommitUser>)

  datatype GeminiPart = GeminiPart(text: string)

  datatype GeminiContent = GeminiContent(parts: seq<GeminiPart>)

  /** `{contents: [{parts: [{text: …}]}]}` */
  datatype GeminiRequest = GeminiRequest(contents: seq<GeminiContent>)

  datatype GeminiCandidate = GeminiCandidate(content: GeminiContent)

  /** `{candidates: [{content: {parts: [{text: …}]}}]}` */
  datatype GeminiResponse = GeminiResponse(candidates: seq<GeminiCandidate>)

  /** The request body both generation paths build: one content holding one
      part whose text is the prompt. */
  function SingleTurn(prompt: string): (r: GeminiRequest)
    ensures |r.contents| == 1 && |r.contents[0].parts| == 1 && r.contents[0].parts[0].text == prompt
  {
    GeminiRequest([GeminiContent([GeminiPart(prompt)])])
  }

  /** The text of the first part of the first candidate, when both exist. */
  function FirstCandidateText(resp: GeminiResponse): (r: Option<string>)
    ensures r.Some? <==> |resp.candidates| > 0 && |resp.candidates[0].content.parts| > 0
    ensures r.Some? ==> r.value == resp.candidates[0].content.parts[0].text
  {
    if |resp.candidates| > 0 && |resp.candidates[0].content.parts| > 0 then
      Some(resp.candidates[0].content.parts[0].text)
    else
      None
  }

  /** A POST the tool sends to the generative endpoint: where, and what body. */
  datatype Outbound = Outbound(url: string, body: GeminiRequest)

  /** How one exchange with the generative endpoint ended: the request could not
      be made, the body could not be read, or an answer arrived with its status,
      its raw body and the outcome of decoding that body. */
  datatype HttpOutcome =
    | TransportFailed(cause: string)
    | ReadFailed(cause: string)
    | Answered(status: int, body: string, decoded: Result<GeminiResponse, string>)
}
