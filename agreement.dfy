/** How the two paths to the generative endpoint relate: the summary service of
    llm.go, which has the model fixed in its URL and does not check the status,
    and the client of llm/gemini.go. */
module Agreement {
  import opened Wrappers
  import opened Types
  import Summary
  import Gemini

  /** On a 200 reply that decodes, the summary is the client's text when the
      client succeeds, and the fixed fallback exactly when the client reports a
      missing candidate or part. */
  lemma SameText(g: Gemini.Gemini, prompt: string, body: string, resp: GeminiResponse)
    ensures var r := Gemini.GenerateContent(g, prompt, Answered(200, body, Success(resp)));
      (r.Success? ==> Summary.ExtractSummary(resp) == r.value) &&
      (r.Failure? <==> FirstCandidateText(resp).None?) &&
      (r.Failure? ==> Summary.ExtractSummary(resp) == Summary.Fallback && r.error in {Gemini.NoCandidates, Gemini.NoContentParts})
  {
  }
}
