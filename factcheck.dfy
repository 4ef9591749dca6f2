/** The hosted-model judge's front end: the parsed response, its raw-text
    fallback, and the evidence deep link. */
module Factcheck {
  import opened Wrappers
  import opened Text
  import opened Models
  import UrlQuote
  import LocalFactcheckFull

  /** `find_answer_in_article`. `call` is the model call: its `output_text`
      (absent as `None`) or the exception it raised; `validate` stands for
      `ClaimResult.model_validate_json`. */
  function FindAnswerInArticle(call: Attempt<Option<string>>, validate: string -> Option<ClaimResult>)
    : (answer: Option<ClaimResult>)
    ensures answer.Some? ==> call.Done? && HasText(call.value)
  {
    match call
    case Raised(_) => None
    case Done(text) =>
      if !HasText(text) then None
      else match validate(text.value)
        case Some(c) => Some(c)
        case None => Some(ClaimResult("False", text.value))
  }

  /** There is an answer exactly when the call returned a non-empty text: an
      exception never propagates and an empty output gives nothing. */
  lemma AnswerIff(call: Attempt<Option<string>>, validate: string -> Option<ClaimResult>)
    ensures FindAnswerInArticle(call, validate).Some? <==> (call.Done? && HasText(call.value))
  {
  }

  /** A text that validates is answered with its own parse; one that does not is
      kept verbatim as the evidence of a `"False"` verdict. */
  lemma AnswerFromText(text: string, validate: string -> Option<ClaimResult>)
    requires text != []
    ensures validate(text).Some? ==>
      FindAnswerInArticle(Done(Some(text)), validate) == validate(text)
    ensures validate(text).None? ==>
      FindAnswerInArticle(Done(Some(text)), validate) == Some(ClaimResult("False", text))
  {
  }

  /** Every answer either comes from the validator or carries the raw text. */
  lemma AnswerOrigin(call: Attempt<Option<string>>, validate: string -> Option<ClaimResult>)
    requires FindAnswerInArticle(call, validate).Some?
    ensures var c := FindAnswerInArticle(call, validate).value;
      Some(c) == validate(call.value.value)
      || (validate(call.value.value).None? && c == ClaimResult("False", call.value.value))
  {
  }

  /** `build_text_fragment_link`, written again in this file of the source. */
  function BuildTextFragmentLink(url: string, evidence: Option<string>): (link: string)
    ensures !HasText(evidence) ==> link == url
    ensures HasText(evidence) ==> StartsWith(link, url)
  {
    if !HasText(evidence) then url
    else
      var link := url + "#:~:text=" + UrlQuote.Quote(evidence.value);
      assert link[..|url|] == url;
      link
  }

  /** The two copies of the link builder agree on every input. */
  lemma LinksAgree(url: string, evidence: Option<string>)
    ensures BuildTextFragmentLink(url, evidence) == LocalFactcheckFull.BuildTextFragmentLink(url, evidence)
  {
  }
}
