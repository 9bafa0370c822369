/**
 * The hosted chat-completion API as the handlers see it: the reply they get back
 * from one POST, and the user message they send for a bulk correction.
 */
module Groq {
  import opened Wrappers
  import opened Text

  /** The JSON body of a reply, as far as any handler reads it: the `choices` key
      (absent, or the message contents of the listed choices, in order) and the
      `error` key (absent, or an object with or without a `message`). */
  datatype Body = Body(choices: Option<seq<string>>, error: Option<Option<string>>)

  /** What one `client.post` yields: a response with its HTTP status and body,
      or an `httpx.RequestError` (connection refused, timeout, ...) with its text. */
  datatype Upstream = Responded(status: int, body: Body) | RequestFailed(detail: string)

  /** The completion API during one request handler: the reply to the `k`-th
      call it makes (counting from 0), whose user message is the given text. */
  type Service = (nat, string) -> Upstream

  const CORRECTION_INSTRUCTION := "Correct the grammar of this text: "
  const UNEXPECTED_RESPONSE := "Unexpected response"
  const ERROR_PREFIX := "[Error] Groq API: "
  const REQUEST_ERROR_PREFIX := "[Request Error] "

  /** `"choices" in data and len(data["choices"]) > 0` */
  predicate HasChoice(b: Body) {
    b.choices.Some? && |b.choices.value| > 0
  }

  /** `data["choices"][0]["message"]["content"]` */
  function FirstChoice(b: Body): string
    requires HasChoice(b)
  {
    b.choices.value[0]
  }

  /** `data.get('error', {}).get('message', 'Unexpected response')` */
  function ErrorMessage(b: Body): (msg: string)
    ensures b.error == Some(Some(msg)) || msg == UNEXPECTED_RESPONSE
    ensures msg == UNEXPECTED_RESPONSE <== (b.error.None? || b.error == Some(None))
    ensures b.error.Some? && b.error.value.Some? ==> msg == b.error.value.value
  {
    match b.error
    case Some(Some(m)) => m
    case _ => UNEXPECTED_RESPONSE
  }

  /** The user message of a bulk-correction request: the instruction followed by
      the text, unchanged. */
  function CorrectionPrompt(text: string): (prompt: string)
    ensures |prompt| == |CORRECTION_INSTRUCTION| + |text|
    ensures CORRECTION_INSTRUCTION <= prompt && EndsWith(prompt, text)
  {
    CORRECTION_INSTRUCTION + text
  }

  /** Recovers the text from a bulk-correction user message. */
  function TextOfPrompt(prompt: string): (text: Option<string>)
    ensures text.Some? <==> CORRECTION_INSTRUCTION <= prompt
    ensures text.Some? ==> CorrectionPrompt(text.value) == prompt
  {
    if CORRECTION_INSTRUCTION <= prompt then Some(prompt[|CORRECTION_INSTRUCTION|..]) else None
  }

  /** The text a bulk correction is about can be read back from the message sent:
      nothing is lost or added around it. */
  lemma PromptRoundTrip(text: string)
    ensures TextOfPrompt(CorrectionPrompt(text)) == Some(text)
  {
    var prompt := CorrectionPrompt(text);
    assert CORRECTION_INSTRUCTION <= prompt;
    assert prompt[|CORRECTION_INSTRUCTION|..] == text;
  }
}
