/**
 * What the three `upload_document` handlers share: the choice of format by file
 * name, and the loop that overwrites each paragraph of a Word document, in place
 * and in order, with the correction of its stripped text.
 */
module Pipeline {
  import opened Wrappers
  import opened Text

  const DOCX_SUFFIX := ".docx"
  const TXT_SUFFIX := ".txt"

  datatype Format = Docx | Txt | Unsupported

  /** `.docx` is tested before `.txt`; anything else is rejected. */
  function FormatOf(filename: string): (f: Format)
    ensures f == Docx <==> EndsWith(filename, DOCX_SUFFIX)
    ensures f == Txt <==> EndsWith(filename, TXT_SUFFIX)
    ensures f == Unsupported <==> !EndsWith(filename, DOCX_SUFFIX) && !EndsWith(filename, TXT_SUFFIX)
  {
    if EndsWith(filename, DOCX_SUFFIX) then
      assert filename[|filename| - 1] == 'x';
      Docx
    else if EndsWith(filename, TXT_SUFFIX) then Txt
    else Unsupported
  }

  /** An uploaded file, read both ways the handlers may read it: the paragraph texts
      `python-docx` finds in it, and its bytes decoded as UTF-8. */
  datatype Upload = Upload(filename: string, paragraphs: seq<string>, text: string)

  /** What a handler sends back. */
  datatype Response =
    | DocxFile(paragraphs: seq<string>)      // the corrected document, streamed
    | TextFile(text: string)                 // the corrected text, streamed
    | JsonError(status: int, error: string)  // a `JSONResponse` with an `error` key
    | HttpError(status: int, detail: string) // a raised `HTTPException`
    | Unhandled(exception: string)           // an exception no handler catches

  /** One correction request: the `k`-th call of the handler, on the given text, either
      returns the corrected text or raises with a message. */
  type Corrector = (nat, string) -> Result<string, string>

  /** What the corrector makes of paragraph `i`: call `i`, on the paragraph stripped. */
  function Correction(paras: seq<string>, correct: Corrector, i: nat): Result<string, string>
    requires i < |paras|
  {
    correct(i, Strip(paras[i]))
  }

  /** The first paragraph, from `k` on, whose correction raises, or the paragraph
      count if none does. */
  function FirstFailure(paras: seq<string>, correct: Corrector, k: nat): (j: nat)
    requires k <= |paras|
    ensures k <= j <= |paras|
    ensures forall i :: k <= i < j ==> Correction(paras, correct, i).Success?
    ensures j < |paras| ==> Correction(paras, correct, j).Failure?
    decreases |paras| - k
  {
    if k == |paras| || Correction(paras, correct, k).Failure? then k
    else
      var j := FirstFailure(paras, correct, k + 1);
      SucceedsFrom(paras, correct, k, j);
      j
  }

  /** A success at `k` followed by successes up to `j` is a run of successes from `k`. */
  lemma SucceedsFrom(paras: seq<string>, correct: Corrector, k: nat, j: nat)
    requires k < j <= |paras| && Correction(paras, correct, k).Success?
    requires forall i :: k + 1 <= i < j ==> Correction(paras, correct, i).Success?
    ensures forall i :: k <= i < j ==> Correction(paras, correct, i).Success?
  {
  }

  /** The paragraphs `after` and the outcome `failure` of the loop below, run on
      `before`: every paragraph up to the first failing one is replaced by its
      correction, the rest are untouched, the failure's message is reported, and
      the corrector received the stripped paragraphs up to and including that one. */
  ghost predicate LoopOutcome(before: seq<string>, correct: Corrector, after: seq<string>,
                              failure: Option<string>, sent: seq<string>)
  {
    var j := FirstFailure(before, correct, 0);
    && |after| == |before|
    && failure == (if j == |before| then None else Some(Correction(before, correct, j).error))
    && (forall i :: 0 <= i < j ==> Correction(before, correct, i) == Success(after[i]))
    && (forall i :: j <= i < |before| ==> after[i] == before[i])
    && sent == Sent(before, correct)
  }

  /** The texts the corrector receives: the stripped paragraphs, in order, up to and
      including the first one whose correction raises. */
  function Sent(paras: seq<string>, correct: Corrector): (sent: seq<string>)
    ensures var j := FirstFailure(paras, correct, 0);
      |sent| == (if j == |paras| then j else j + 1)
    ensures forall i :: 0 <= i < |sent| ==> sent[i] == Strip(paras[i])
  {
    var j := FirstFailure(paras, correct, 0);
    var m := if j == |paras| then j else j + 1;
    seq(m, i requires 0 <= i < m => Strip(paras[i]))
  }

  /** The first failure is the one index before which every correction succeeds
      and at which one raises (or the end). */
  lemma {:induction false} FirstFailureIs(paras: seq<string>, correct: Corrector, k: nat, j: nat)
    requires k <= j <= |paras|
    requires forall i :: k <= i < j ==> Correction(paras, correct, i).Success?
    requires j < |paras| ==> Correction(paras, correct, j).Failure?
    ensures FirstFailure(paras, correct, k) == j
    decreases j - k
  {
    if k < j {
      FirstFailureIs(paras, correct, k + 1, j);
    }
  }

  /** The loop's state before paragraph `i`: the paragraphs before it hold their
      corrections, the rest are untouched, and the corrector has received the first
      `i` paragraphs, stripped. */
  ghost predicate Progress(before: seq<string>, correct: Corrector, after: seq<string>,
                           i: nat, sent: seq<string>)
  {
    && i <= |before| == |after|
    && (forall k :: 0 <= k < i ==> Correction(before, correct, k) == Success(after[k]))
    && (forall k :: i <= k < |before| ==> after[k] == before[k])
    && |sent| == i && (forall k :: 0 <= k < i ==> sent[k] == Strip(before[k]))
  }

  lemma ProgressStep(before: seq<string>, correct: Corrector, after: seq<string>,
                     i: nat, sent: seq<string>)
    requires Progress(before, correct, after, i, sent) && i < |before|
    requires Correction(before, correct, i).Success?
    ensures Progress(before, correct, after[i := Correction(before, correct, i).value], i + 1,
                     sent + [Strip(before[i])])
  {
    var after' := after[i := Correction(before, correct, i).value];
    var sent' := sent + [Strip(before[i])];
    forall k | 0 <= k < i + 1
      ensures Correction(before, correct, k) == Success(after'[k])
    {
    }
    forall k | 0 <= k < i + 1
      ensures sent'[k] == Strip(before[k])
    {
      if k < i { assert sent'[k] == sent[k]; }
    }
  }

  /** `for para in doc.paragraphs: para.text = await correct(para.text.strip())`.
      Paragraph `i` is corrected by call `i`; an exception ends the loop, leaving the
      paragraphs before it corrected and the rest as they were. `sent` is the texts
      the corrector received, in order. */
  method CorrectParagraphs(doc: array<string>, correct: Corrector)
      returns (failure: Option<string>, ghost sent: seq<string>)
    modifies doc
    ensures LoopOutcome(old(doc[..]), correct, doc[..], failure, sent)
  {
    ghost var original := doc[..];
    var i := 0;
    sent := [];
    while i < doc.Length
      invariant Progress(original, correct, doc[..], i, sent)
    {
      var text := Strip(doc[i]);
      assert text == Strip(original[i]);
      var result := correct(i, text);
      assert result == Correction(original, correct, i);
      if result.Failure? {
        FailedAt(original, correct, doc[..], i, sent);
        return Some(result.error), sent + [text];
      }
      ProgressStep(original, correct, doc[..], i, sent);
      doc[i] := result.value;
      sent := sent + [text];
      i := i + 1;
    }
    FinishedAll(original, correct, doc[..], sent);
    failure := None;
  }

  /** Where a correction raises, the loop's state is the outcome it promises. */
  lemma FailedAt(before: seq<string>, correct: Corrector, after: seq<string>,
                 j: nat, sent: seq<string>)
    requires Progress(before, correct, after, j, sent) && j < |before|
    requires Correction(before, correct, j).Failure?
    ensures LoopOutcome(before, correct, after, Some(Correction(before, correct, j).error),
                        sent + [Strip(before[j])])
  {
    FirstFailureIs(before, correct, 0, j);
    SentMatches(before, correct, sent + [Strip(before[j])]);
  }

  lemma SentMatches(paras: seq<string>, correct: Corrector, sent: seq<string>)
    requires var j := FirstFailure(paras, correct, 0);
      |sent| == (if j == |paras| then j else j + 1)
    requires forall i :: 0 <= i < |sent| ==> sent[i] == Strip(paras[i])
    ensures sent == Sent(paras, correct)
  {
  }

  /** When every correction returns, the loop's state is the outcome it promises. */
  lemma FinishedAll(before: seq<string>, correct: Corrector, after: seq<string>, sent: seq<string>)
    requires Progress(before, correct, after, |before|, sent)
    ensures LoopOutcome(before, correct, after, None, sent)
  {
    FirstFailureIs(before, correct, 0, |before|);
    SentMatches(before, correct, sent);
  }

  /** The paragraphs after a loop in which no correction raised. */
  function CorrectedAll(paras: seq<string>, correct: Corrector): (r: seq<string>)
    requires FirstFailure(paras, correct, 0) == |paras|
    ensures |r| == |paras|
    ensures forall i :: 0 <= i < |r| ==> r[i] == Correction(paras, correct, i).value
  {
    seq(|paras|, i requires 0 <= i < |paras| && Correction(paras, correct, i).Success? =>
      Correction(paras, correct, i).value)
  }

  /** A loop in which no correction raised leaves every paragraph corrected. */
  lemma CompletedDocument(before: seq<string>, correct: Corrector, after: seq<string>,
                          sent: seq<string>)
    requires LoopOutcome(before, correct, after, None, sent)
    ensures FirstFailure(before, correct, 0) == |before|
    ensures after == CorrectedAll(before, correct)
  {
  }

  /** The outcome of correcting a whole document: every paragraph corrected, or the
      message of the first correction that raised. */
  function DocumentResult(paras: seq<string>, correct: Corrector): (r: Result<seq<string>, string>)
    ensures r.Success? <==> forall i :: 0 <= i < |paras| ==> Correction(paras, correct, i).Success?
    ensures r.Success? ==>
      |r.value| == |paras| && forall i :: 0 <= i < |paras| ==> Correction(paras, correct, i) == Success(r.value[i])
    ensures r.Failure? ==> var j := FirstFailure(paras, correct, 0);
      j < |paras| && Correction(paras, correct, j) == Failure(r.error)
  {
    var j := FirstFailure(paras, correct, 0);
    if j == |paras| then Success(CorrectedAll(paras, correct))
    else Failure(Correction(paras, correct, j).error)
  }

  /** The `.docx` branch: load the paragraphs into a fresh document, run the loop
      over it, and hand back what it holds, or the exception that ended the loop. */
  method CorrectDocument(paras: seq<string>, correct: Corrector)
      returns (result: Result<seq<string>, string>, ghost sent: seq<string>)
    ensures result == DocumentResult(paras, correct)
    ensures sent == Sent(paras, correct)
  {
    var doc := new string[|paras|](i requires 0 <= i < |paras| => paras[i]);
    assert doc[..] == paras;
    var failure;
    failure, sent := CorrectParagraphs(doc, correct);
    if failure.None? {
      CompletedDocument(paras, correct, doc[..], sent);
      result := Success(doc[..]);
    } else {
      result := Failure(failure.value);
    }
  }

  /** The `.txt` branch: the first and only call, on the whole decoded text as it is. */
  function TextCorrection(text: string, correct: Corrector): Result<string, string> {
    correct(0, text)
  }
}
