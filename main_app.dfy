/**
 * The API in `main.py`: its bulk-correction helper, which writes any unexpected
 * reply into the text it returns but lets a request failure escape, the chat
 * endpoint's reply handling, and the document upload built on them.
 */
module MainApp {
  import opened Wrappers
  import opened Text
  import opened Groq
  import opened Pipeline

  const UNSUPPORTED_FORMAT := "Unsupported file format."
  const INVALID_RESPONSE := "Invalid response from Groq API"
  /** `str()` of the `IndexError` raised by `data["choices"][0]` on an empty list. */
  const INDEX_OUT_OF_RANGE := "list index out of range"

  /** `correct_with_groq`: the first choice's content, stripped; without a choice,
      the error text from the body; a request failure is raised, not caught. */
  function Correct(reply: Upstream): (r: Result<string, string>)
    ensures r.Failure? <==> reply.RequestFailed?
    ensures r.Failure? ==> r.error == reply.detail
    ensures reply.Responded? && HasChoice(reply.body) ==> r == Success(Strip(FirstChoice(reply.body)))
    ensures reply.Responded? && !HasChoice(reply.body) ==>
      r == Success(ERROR_PREFIX + ErrorMessage(reply.body))
  {
    match reply
    case RequestFailed(detail) => Failure(detail)
    case Responded(_, body) =>
      if HasChoice(body) then Success(Strip(FirstChoice(body)))
      else Success(ERROR_PREFIX + ErrorMessage(body))
  }

  /** The helper as the upload handler uses it: its `k`-th call asks the service to
      correct the given text. */
  function GroqCorrector(service: Service): Corrector {
    (k: nat, text: string) => Correct(service(k, CorrectionPrompt(text)))
  }

  /** An answer that says nothing useful is still a successful correction: the error
      text takes the paragraph's place instead of stopping the upload. */
  lemma ErrorTextIsWrittenIn(service: Service, paras: seq<string>, i: nat)
    requires i < |paras|
    requires service(i, CorrectionPrompt(Strip(paras[i]))).Responded?
    requires !HasChoice(service(i, CorrectionPrompt(Strip(paras[i]))).body)
    ensures Correction(paras, GroqCorrector(service), i).Success?
    ensures Correction(paras, GroqCorrector(service), i).value ==
      ERROR_PREFIX + ErrorMessage(service(i, CorrectionPrompt(Strip(paras[i]))).body)
  {
    assert Correction(paras, GroqCorrector(service), i)
      == Correct(service(i, CorrectionPrompt(Strip(paras[i]))));
  }

  /** What `grammar_coach_chat` returns. */
  datatype ChatResponse = Reply(reply: string) | ChatError(status: int, error: string)

  /** `grammar_coach_chat` once the reply is in: the first choice's content, as is,
      when the body has `choices`; every exception becomes a 500 with its text. */
  function ChatReply(reply: Upstream): (r: ChatResponse)
    ensures r.Reply? <==> reply.Responded? && HasChoice(reply.body)
    ensures r.Reply? ==> r.reply == FirstChoice(reply.body)
    ensures r.ChatError? ==> r.status == 500
    ensures reply.RequestFailed? ==> r.error == reply.detail
    ensures reply.Responded? && reply.body.choices.None? ==> r.error == INVALID_RESPONSE
    ensures reply.Responded? && reply.body.choices == Some([]) ==> r.error == INDEX_OUT_OF_RANGE
  {
    match reply
    case RequestFailed(detail) => ChatError(500, detail)
    case Responded(_, body) =>
      match body.choices
      case None => ChatError(500, INVALID_RESPONSE)
      case Some(contents) =>
        if |contents| == 0 then ChatError(500, INDEX_OUT_OF_RANGE) else Reply(contents[0])
  }

  /** `upload_document`: a Word document is corrected paragraph by paragraph in
      place, a text file in one call; a request failure escapes the handler. */
  method UploadDocument(upload: Upload, service: Service)
      returns (response: Response, ghost sent: seq<string>)
    ensures FormatOf(upload.filename) == Unsupported ==>
      response == JsonError(400, UNSUPPORTED_FORMAT) && sent == []
    ensures FormatOf(upload.filename) == Txt ==>
      var r := Correct(service(0, CorrectionPrompt(upload.text)));
      sent == [upload.text]
      && response == (if r.Success? then TextFile(r.value) else Unhandled(r.error))
    ensures FormatOf(upload.filename) == Docx ==>
      var r := DocumentResult(upload.paragraphs, GroqCorrector(service));
      sent == Sent(upload.paragraphs, GroqCorrector(service))
      && response == (if r.Success? then DocxFile(r.value) else Unhandled(r.error))
  {
    match FormatOf(upload.filename)
    case Docx =>
      var r;
      r, sent := CorrectDocument(upload.paragraphs, GroqCorrector(service));
      response := if r.Success? then DocxFile(r.value) else Unhandled(r.error);
    case Txt =>
      sent := [upload.text];
      var r := TextCorrection(upload.text, GroqCorrector(service));
      response := if r.Success? then TextFile(r.value) else Unhandled(r.error);
    case Unsupported =>
      sent := [];
      response := JsonError(400, UNSUPPORTED_FORMAT);
  }
}
