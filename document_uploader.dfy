/**
 * The stand-alone upload handler in `document_uploader.py`: it corrects with the
 * first-line helper, and any exception, its own rejection of the format included,
 * becomes a 500 whose detail is the exception's text.
 */
module DocumentUploader {
  import opened Groq
  import opened Pipeline
  import Utils

  const UNSUPPORTED_FORMAT := "Unsupported file format. Upload a .docx or .txt file."
  /** `str()` of the `HTTPException(status_code=400, ...)` raised inside the `try`:
      the status code, a colon and a space, then the detail. */
  const REJECTION_TEXT := "400: " + UNSUPPORTED_FORMAT

  /** The helper as this handler uses it: its `k`-th call asks the service to
      correct the given text and keeps the cleaned first line. */
  function GroqCorrector(service: Service): Corrector {
    (k: nat, text: string) => Utils.Correct(service(k, CorrectionPrompt(text)))
  }

  /** `upload_document`: a document comes back only if every correction returned;
      otherwise the first exception's text is reported with status 500. */
  method UploadDocument(upload: Upload, service: Service)
      returns (response: Response, ghost sent: seq<string>)
    ensures FormatOf(upload.filename) == Unsupported ==>
      response == HttpError(500, REJECTION_TEXT) && sent == []
    ensures FormatOf(upload.filename) == Txt ==>
      var r := Utils.Correct(service(0, CorrectionPrompt(upload.text)));
      sent == [upload.text]
      && response == (if r.Success? then TextFile(r.value) else HttpError(500, r.error))
    ensures FormatOf(upload.filename) == Docx ==>
      var r := DocumentResult(upload.paragraphs, GroqCorrector(service));
      sent == Sent(upload.paragraphs, GroqCorrector(service))
      && response == (if r.Success? then DocxFile(r.value) else HttpError(500, r.error))
    ensures response.DocxFile? ==>
      forall i :: 0 <= i < |upload.paragraphs| ==>
        Correction(upload.paragraphs, GroqCorrector(service), i).Success?
  {
    match FormatOf(upload.filename)
    case Docx =>
      var r;
      r, sent := CorrectDocument(upload.paragraphs, GroqCorrector(service));
      response := if r.Success? then DocxFile(r.value) else HttpError(500, r.error);
    case Txt =>
      sent := [upload.text];
      var r := TextCorrection(upload.text, GroqCorrector(service));
      response := if r.Success? then TextFile(r.value) else HttpError(500, r.error);
    case Unsupported =>
      sent := [];
      response := HttpError(500, REJECTION_TEXT);
  }
}
