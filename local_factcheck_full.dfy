/** The local-model judge's front end: turning the client's decoded answer into a
    `ClaimResult`, and the evidence deep link. */
module LocalFactcheckFull {
  import opened Wrappers
  import opened Text
  import opened Json
  import opened Models
  import UrlQuote
  import LocalClient

  // ------------------------------------------------------------ deep link

  /** The text directive that starts a URL fragment text selector. */
  const TextDirective: string := "#:~:text="

  /** `build_text_fragment_link`: the bare URL without evidence, otherwise the URL
      with a text directive selecting the percent-encoded evidence. */
  function BuildTextFragmentLink(url: string, evidence: Option<string>): (link: string)
    ensures !HasText(evidence) ==> link == url
    ensures HasText(evidence) ==> link == url + TextDirective + UrlQuote.Quote(evidence.value)
  {
    if !HasText(evidence) then url
    else url + TextDirective + UrlQuote.Quote(evidence.value)
  }

  /** The encoded evidence carried by a link, after the URL and the directive. */
  function Selector(url: string, link: string): string
    requires |url| + |TextDirective| <= |link|
  {
    link[|url| + |TextDirective|..]
  }

  /** The link always begins with the URL it was built from. */
  lemma LinkExtendsUrl(url: string, evidence: Option<string>)
    ensures StartsWith(BuildTextFragmentLink(url, evidence), url)
  {
    var link := BuildTextFragmentLink(url, evidence);
    if HasText(evidence) {
      assert link[..|url|] == url;
    }
  }

  /** The selector holds only what `quote` emits (unreserved characters, `/`, `%`
      and upper-case hex digits), so no space, `#` or `&` can end or split it; each
      safe character is copied and every other one becomes its UTF-8 triplets. */
  lemma SelectorAlphabet(url: string, e: string)
    requires e != []
    ensures var link := BuildTextFragmentLink(url, Some(e));
      |url| + |TextDirective| <= |link|
      && Selector(url, link) == UrlQuote.QuoteEach(e)
      && forall i :: 0 <= i < |Selector(url, link)| ==>
           UrlQuote.IsQuotedChar(Selector(url, link)[i])
           && Selector(url, link)[i] !in " #&"
  {
    var link := BuildTextFragmentLink(url, Some(e));
    assert Selector(url, link) == UrlQuote.Quote(e);
    UrlQuote.QuoteAlphabet(e);
    UrlQuote.QuoteIsPerChar(e);
  }

  /** Percent-decoding the selector gives back exactly the evidence. */
  lemma SelectorDecodes(url: string, e: string)
    requires e != []
    ensures var link := BuildTextFragmentLink(url, Some(e));
      |url| + |TextDirective| <= |link|
      && UrlQuote.Unquote(Selector(url, link)) == e
  {
    var link := BuildTextFragmentLink(url, Some(e));
    assert Selector(url, link) == UrlQuote.Quote(e);
    UrlQuote.UnquoteQuote(e);
  }

  /** Different evidence gives different links for the same URL. */
  lemma LinkDeterminesEvidence(url: string, e1: string, e2: string)
    requires e1 != [] && e2 != []
    requires BuildTextFragmentLink(url, Some(e1)) == BuildTextFragmentLink(url, Some(e2))
    ensures e1 == e2
  {
    SelectorDecodes(url, e1);
    SelectorDecodes(url, e2);
  }

  // ------------------------------------------------------------ result conversion

  /** The first line of the validation error the record raises on a non-string
      field. */
  const ValidationError: string := "1 validation error for ClaimResult"

  /** `ClaimResult(label=result["label"], evidence=result["evidence"])`: a missing
      key or a value that is not a string raises. */
  function ToClaimResult(fields: map<string, Value>): (r: Attempt<ClaimResult>)
    ensures r.Done? <==> ("label" in fields && fields["label"].JStr?
                          && "evidence" in fields && fields["evidence"].JStr?)
    ensures r.Done? ==> r.value == ClaimResult(fields["label"].s, fields["evidence"].s)
  {
    if "label" !in fields then Raised("'label'")
    else if "evidence" !in fields then Raised("'evidence'")
    else match (fields["label"], fields["evidence"])
      case (JStr(l), JStr(e)) => Done(ClaimResult(l, e))
      case _ => Raised(ValidationError)
  }

  /** The handler's `ClaimResult(label="False", evidence=result.get("evidence", ""))`:
      it raises in turn when the evidence is present but not a string. */
  function FallbackClaimResult(fields: map<string, Value>): Attempt<ClaimResult>
  {
    if "evidence" !in fields then Done(ClaimResult("False", ""))
    else match fields["evidence"]
      case JStr(e) => Done(ClaimResult("False", e))
      case _ => Raised(ValidationError)
  }

  /** `find_answer_in_article`, given what `factcheck_claim` returned: nothing for a
      missing or empty dict, the converted record, or the `"False"` fallback. */
  function FindAnswerInArticle(result: Option<map<string, Value>>): (answer: Attempt<Option<ClaimResult>>)
    ensures answer == Done(None) ==> result.None? || result.value == map[]
    ensures answer.Raised? ==> result.Some? && "evidence" in result.value && !result.value["evidence"].JStr?
  {
    if result.None? || result.value == map[] then Done(None)
    else
      match ToClaimResult(result.value)
      case Done(c) => Done(Some(c))
      case Raised(_) =>
        match FallbackClaimResult(result.value)
        case Done(c) => Done(Some(c))
        case Raised(m) => Raised(m)
  }

  /** Nothing is found exactly when the client gave no dict or an empty one. */
  lemma NothingFoundIff(result: Option<map<string, Value>>)
    ensures FindAnswerInArticle(result) == Done(None)
      <==> (result.None? || result.value == map[])
  {
  }

  /** When both keys hold strings they are carried over unchanged. */
  lemma StringFieldsKept(fields: map<string, Value>, l: string, e: string)
    requires "label" in fields && fields["label"] == JStr(l)
    requires "evidence" in fields && fields["evidence"] == JStr(e)
    ensures FindAnswerInArticle(Some(fields)) == Done(Some(ClaimResult(l, e)))
  {
  }

  /** When conversion fails, the verdict is `"False"` and the evidence is the dict's
      own string evidence, or `""` when there is none. */
  lemma FailedConversionFallsBack(fields: map<string, Value>)
    requires fields != map[]
    requires ToClaimResult(fields).Raised?
    requires "evidence" !in fields || fields["evidence"].JStr?
    ensures FindAnswerInArticle(Some(fields)) == Done(Some(ClaimResult("False",
      if "evidence" in fields then fields["evidence"].s else "")))
  {
  }

  /** The call raises exactly when the dict carries an evidence value that is not a
      string. */
  lemma RaisesIff(fields: map<string, Value>)
    requires fields != map[]
    ensures FindAnswerInArticle(Some(fields)).Raised?
      <==> ("evidence" in fields && !fields["evidence"].JStr?)
  {
  }

  /** The whole local judge: the client's answer followed by the conversion. */
  function Judge(reply: Option<string>, loadsObject: string -> Option<map<string, Value>>)
    : (answer: Attempt<Option<ClaimResult>>)
    ensures !HasText(reply) ==> answer == Done(None)
  {
    FindAnswerInArticle(LocalClient.FactcheckClaim(reply, loadsObject))
  }

  /** A reply with no decodable object still yields a verdict: `"True"` or `"False"`
      by the heuristic, with the heuristic's evidence, and nothing is raised. */
  lemma UndecodedReplyIsJudged(reply: Option<string>, loadsObject: string -> Option<map<string, Value>>)
    requires HasText(reply)
    requires var span := LocalClient.ObjectSpan(reply.value);
      span.None? || loadsObject(span.value).None?
    ensures Judge(reply, loadsObject) == Done(Some(ClaimResult(
      LocalClient.FallbackLabel(reply.value), LocalClient.FallbackEvidence(reply.value))))
    ensures Judge(reply, loadsObject).value.value.verdict in {"True", "False"}
  {
    var fb := LocalClient.FallbackResult(reply.value);
    assert LocalClient.FactcheckClaim(reply, loadsObject) == Some(fb);
    assert fb["label"] == JStr(LocalClient.FallbackLabel(reply.value));
    assert fb["evidence"] == JStr(LocalClient.FallbackEvidence(reply.value));
    StringFieldsKept(fb, LocalClient.FallbackLabel(reply.value), LocalClient.FallbackEvidence(reply.value));
  }

  /** Without a reply the judge finds nothing. */
  lemma NoReplyNoAnswer(reply: Option<string>, loadsObject: string -> Option<map<string, Value>>)
    requires !HasText(reply)
    ensures Judge(reply, loadsObject) == Done(None)
  {
  }
}
