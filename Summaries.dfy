/** The decision logic of backend/src/controllers/nlp.controller.js once the
    API key is known to be configured: the text guard, the cache check, the
    truncated prompt, and what a reply from the generative-text service does.
    The service itself is an outcome supplied from outside. */
module Summaries {
  import opened Wrappers
  import opened Http
  import opened PdfModel

  /** At most this many characters of the text go into the prompt. */
  const PromptLimit: nat := 15000

  /** The instruction placed before the text. */
  const Instruction: string :=
    "Summarize the following text concisely and extract the 5 most important key phrases. Here is the text:\n\n"

  /** `text.substring(0, 15000)`. */
  function Truncate(text: string): (r: string)
    ensures |r| <= PromptLimit && r <= text
    ensures |text| <= PromptLimit ==> r == text
    ensures |text| > PromptLimit ==> |r| == PromptLimit
  {
    if |text| <= PromptLimit then text else text[..PromptLimit]
  }

  /** The prompt sent to the service: the instruction, then a bounded prefix of the text. */
  function Prompt(text: string): (r: string)
    ensures Instruction <= r && |r| <= |Instruction| + PromptLimit
    ensures r[|Instruction|..] <= text
  {
    Instruction + Truncate(text)
  }

  /** What the service call yields: a parsed `{ summary, keyPhrases }`, or a
      failure (a non-ok response, or a payload that does not parse). */
  datatype Reply = Answered(summary: string, keyPhrases: seq<string>) | Failed

  /** The response body `{ summary, keyPhrases }`. */
  datatype Body = Body(summary: string, keyPhrases: seq<string>)

  /** The status and body of one summarise request, the prompt when the
      service was called, and the record to save when one is written. */
  datatype Summarized = Summarized(status: Status, body: Option<Body>, prompt: Option<string>, saved: Option<Pdf>)

  /** The guards and the cache in the source's order, given the looked-up record. */
  function Respond(found: Option<Pdf>, reply: Reply): (r: Summarized)
    // a missing or unowned record, or one without text, is not found, and nothing else happens
    ensures r.status == NotFound <==> found.None? || found.value.fullText == ""
    ensures r.status == NotFound ==> r.body.None? && r.prompt.None? && r.saved.None?
    // the service is called exactly when the record has text and no cached summary
    ensures r.prompt.Some? <==> found.Some? && found.value.fullText != "" && found.value.summary == ""
    ensures r.prompt.Some? ==> r.prompt == Some(Prompt(found.value.fullText))
    // a cached summary is returned as it is
    ensures found.Some? && found.value.fullText != "" && found.value.summary != "" ==>
      r.status == Ok && r.body == Some(Body(found.value.summary, found.value.keyPhrases)) && r.saved.None?
    // a reply is written to the record exactly when the service answered
    ensures r.saved.Some? <==> r.prompt.Some? && reply.Answered?
    ensures r.saved.Some? ==>
      && r.saved == Some(found.value.(summary := reply.summary, keyPhrases := reply.keyPhrases))
      && r.status == Ok && r.body == Some(Body(reply.summary, reply.keyPhrases))
    // a failed call is a server error that leaves the record as it was
    ensures r.prompt.Some? && reply.Failed? ==> r.status == ServerError && r.body.None? && r.saved.None?
  {
    if found.None? || found.value.fullText == "" then
      Summarized(NotFound, None, None, None)
    else if found.value.summary != "" then
      Summarized(Ok, Some(Body(found.value.summary, found.value.keyPhrases)), None, None)
    else
      var prompt := Some(Prompt(found.value.fullText));
      match reply
      case Failed => Summarized(ServerError, None, prompt, None)
      case Answered(s, k) =>
        Summarized(Ok, Some(Body(s, k)), prompt, Some(found.value.(summary := s, keyPhrases := k)))
  }

  /** Once a call has stored a non-empty summary, a later call on the saved
      record makes no service call, writes nothing and answers the same body,
      whatever the service would reply. */
  lemma SecondCallIsCached(p: Pdf, first: Reply, later: Reply)
    requires Respond(Some(p), first).saved.Some?
    requires Respond(Some(p), first).saved.value.summary != ""
    ensures var r1 := Respond(Some(p), first);
      var r2 := Respond(r1.saved, later);
      r2.prompt.None? && r2.saved.None? && r2.status == Ok && r2.body == r1.body
  {
  }

  /** A record as upload creates it has no text, so summarising it is "not found". */
  lemma FreshUploadIsNotSummarised(uuid: string, name: string, path: string, userId: UserId, now: int, reply: Reply)
    ensures Respond(Some(NewPdf(uuid, name, path, userId, now)), reply).status == NotFound
  {
  }
}
