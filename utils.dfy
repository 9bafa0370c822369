/**
 * The bulk-correction helper shared by the document uploader: it keeps only the
 * first line of the model's answer, after deleting a boilerplate preamble.
 */
module Utils {
  import opened Wrappers
  import opened Text
  import opened Groq

  const PREAMBLE := "Here is the corrected text:"
  const UNEXPECTED_FROM_GROQ := "Unexpected response from Groq API"

  /** Strip the content, delete every preamble, strip again and keep the first line. */
  function CleanCorrection(content: string): (r: string)
    ensures var cleaned := Strip(Replace(Strip(content), PREAMBLE, ""));
      r <= cleaned && '\n' !in r && (|r| < |cleaned| ==> cleaned[|r|] == '\n')
    ensures r == [] || !IsSpace(r[0])
  {
    var cleaned := Strip(Replace(Strip(content), PREAMBLE, ""));
    FirstLineOfStripped(cleaned);
    FirstLine(cleaned)
  }

  /** `correct_with_groq`: a request failure and a reply without choices are both
      raised (`Failure` carries the exception's message); otherwise the cleaned first
      line of the first choice is returned. The status code is never looked at. */
  function Correct(reply: Upstream): (r: Result<string, string>)
    ensures r.Success? <==> reply.Responded? && HasChoice(reply.body)
    ensures r.Success? ==> r.value == CleanCorrection(FirstChoice(reply.body))
    ensures reply.RequestFailed? ==> r == Failure(REQUEST_ERROR_PREFIX + reply.detail)
    ensures reply.Responded? && !HasChoice(reply.body) ==> r == Failure(UNEXPECTED_FROM_GROQ)
  {
    match reply
    case RequestFailed(detail) => Failure(REQUEST_ERROR_PREFIX + detail)
    case Responded(_, body) =>
      if HasChoice(body) then Success(CleanCorrection(FirstChoice(body)))
      else Failure(UNEXPECTED_FROM_GROQ)
  }

  /** A preamble anywhere in the answer is deleted, not only a leading one: the text
      before it is kept and the text after it is cleaned the same way. */
  lemma PreambleDeletedAnywhere(s: string, j: nat)
    requires Occurs(s, PREAMBLE, j)
    requires forall i :: 0 <= i < j ==> !Occurs(s, PREAMBLE, i)
    ensures Replace(s, PREAMBLE, "") == s[..j] + Replace(s[j + |PREAMBLE|..], PREAMBLE, "")
  {
    ReplaceFirst(s, PREAMBLE, "", j);
    assert s[..j] + "" == s[..j];
  }

  /** Text without a capital H cannot hold the preamble. */
  lemma NoPreambleWithoutH(s: string)
    requires 'H' !in s
    ensures !Contains(s, PREAMBLE)
  {
    forall i | 0 <= i && i + |PREAMBLE| <= |s|
      ensures !Occurs(s, PREAMBLE, i)
    {
      assert s[i..i + |PREAMBLE|][0] == s[i];
    }
  }

  const EXAMPLE_SENTENCE := "She goes to school."
  const EXAMPLE_LINES := EXAMPLE_SENTENCE + "\n" + "Explanation: ..."
  const EXAMPLE_REST := "\n" + EXAMPLE_LINES
  const EXAMPLE_ANSWER := PREAMBLE + EXAMPLE_REST

  /** The answer the cleaning is written for: the preamble, the corrected sentence,
      then an explanation that is dropped. */
  lemma CleanCorrectionExample()
    ensures CleanCorrection(EXAMPLE_ANSWER) == EXAMPLE_SENTENCE
  {
    ExampleStrippedAlready();
    ExampleReplace();
    ExampleStripRest();
    ExampleFirstLine();
  }

  lemma ExampleStrippedAlready()
    ensures Strip(EXAMPLE_ANSWER) == EXAMPLE_ANSWER
  {
    var content := EXAMPLE_ANSWER;
    assert content[0] == PREAMBLE[0] == 'H';
    assert content[|content| - 1] == '.';
    StripSurrounded([], content, []);
    assert [] + content + [] == content;
  }

  lemma ExampleReplace()
    ensures Replace(EXAMPLE_ANSWER, PREAMBLE, "") == EXAMPLE_REST
  {
    LeadingPreambleOnly(EXAMPLE_ANSWER, EXAMPLE_REST);
  }

  /** A single leading preamble is all that goes when the rest has no capital H. */
  lemma LeadingPreambleOnly(content: string, rest: string)
    requires content == PREAMBLE + rest && 'H' !in rest
    ensures Replace(content, PREAMBLE, "") == rest
  {
    assert content[..|PREAMBLE|] == PREAMBLE;
    ReplaceAtStart(content, PREAMBLE, "");
    assert content[|PREAMBLE|..] == rest;
    NoPreambleWithoutH(rest);
    ReplaceAbsent(rest, PREAMBLE, "");
  }

  lemma ExampleStripRest()
    ensures Strip(EXAMPLE_REST) == EXAMPLE_LINES
  {
    var body := EXAMPLE_LINES;
    assert EXAMPLE_REST == "\n" + body + [];
    assert body[0] == 'S' && body[|body| - 1] == '.';
    StripSurrounded("\n", body, []);
  }

  lemma ExampleFirstLine()
    ensures FirstLine(EXAMPLE_LINES) == EXAMPLE_SENTENCE
  {
    FirstLineBeforeNewline(EXAMPLE_SENTENCE, "Explanation: ...");
  }
}
