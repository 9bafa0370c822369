/**
 * The API in `abc.py`: its bulk-correction helper never raises, since a request
 * failure is turned into text as well, so every upload of a Word document completes.
 */
module AbcApp {
  import opened Wrappers
  import opened Text
  import opened Groq
  import opened Pipeline

  const UNSUPPORTED_FORMAT := "Unsupported file format. Upload a .docx or .txt file."

  /** `correct_with_groq`: the first choice's content, stripped; without a choice,
      the error text from the body; on a request failure, the failure's text. */
  function Correct(reply: Upstream): (r: string)
    ensures reply.RequestFailed? ==> r == REQUEST_ERROR_PREFIX + reply.detail
    ensures reply.Responded? && HasChoice(reply.body) ==> r == Strip(FirstChoice(reply.body))
    ensures reply.Responded? && !HasChoice(reply.body) ==> r == ERROR_PREFIX + ErrorMessage(reply.body)
  {
    match reply
    case RequestFailed(detail) => REQUEST_ERROR_PREFIX + detail
    case Responded(_, body) =>
      if HasChoice(body) then Strip(FirstChoice(body)) else ERROR_PREFIX + ErrorMessage(body)
  }

  /** The helper as the upload handler uses it: its `k`-th call asks the service to
      correct the given text, and it always returns. */
  function GroqCorrector(service: Service): Corrector {
    (k: nat, text: string) => Success(Correct(service(k, CorrectionPrompt(text))))
  }

  /** Every paragraph's correction returns, whatever the service does. */
  lemma CorrectionsReturn(service: Service, paras: seq<string>)
    ensures forall i :: 0 <= i < |paras| ==>
      Correction(paras, GroqCorrector(service), i)
        == Success(Correct(service(i, CorrectionPrompt(Strip(paras[i])))))
  {
    forall i | 0 <= i < |paras|
      ensures Correction(paras, GroqCorrector(service), i)
        == Success(Correct(service(i, CorrectionPrompt(Strip(paras[i])))))
    {
    }
  }

  /** `upload_document`: a Word document is corrected paragraph by paragraph in
      place and always comes back whole; a text file is corrected in one call. */
  method UploadDocument(upload: Upload, service: Service)
      returns (response: Response, ghost sent: seq<string>)
    ensures FormatOf(upload.filename) == Unsupported ==>
      response == JsonError(400, UNSUPPORTED_FORMAT) && sent == []
    ensures FormatOf(upload.filename) == Txt ==>
      response == TextFile(Correct(service(0, CorrectionPrompt(upload.text)))) && sent == [upload.text]
    ensures FormatOf(upload.filename) == Docx ==>
      var paras := upload.paragraphs;
      && response.DocxFile? && |response.paragraphs| == |paras| && |sent| == |paras|
      && (forall i :: 0 <= i < |paras| ==>
            response.paragraphs[i] == Correct(service(i, CorrectionPrompt(Strip(paras[i])))))
      && (forall i :: 0 <= i < |paras| ==> sent[i] == Strip(paras[i]))
  {
    match FormatOf(upload.filename)
    case Docx =>
      var r;
      CorrectionsReturn(service, upload.paragraphs);
      r, sent := CorrectDocument(upload.paragraphs, GroqCorrector(service));
      response := DocxFile(r.value);
    case Txt =>
      sent := [upload.text];
      var r := TextCorrection(upload.text, GroqCorrector(service));
      response := TextFile(r.value);
    case Unsupported =>
      sent := [];
      response := JsonError(400, UNSUPPORTED_FORMAT);
  }
}
