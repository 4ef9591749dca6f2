/** The local OpenAI-compatible client: what it makes of the text a locally
    served model returns. The request itself is not modelled; each operation
    takes the model's reply (`None` when the request failed or the reply had no
    choices) and, where the source decodes JSON, the decoder as a parameter that
    gives `None` when `json.loads` raises. */
module LocalClient {
  import opened Wrappers
  import opened Text
  import opened Json

  // ------------------------------------------------------------ the client

  const DefaultBaseUrl: string := "http://localhost:1234"
  const DefaultModel: string := "local-model"

  class LocalOpenAIClient {
    var baseUrl: string
    var model: string

    /** `__init__`: the base address loses its trailing slashes; both
        parameters have the source's defaults. */
    constructor (baseUrl: string := DefaultBaseUrl, model: string := DefaultModel)
      ensures this.baseUrl == RStripChar(baseUrl, '/')
      ensures this.model == model
    {
      this.baseUrl := RStripChar(baseUrl, '/');
      this.model := model;
    }
  }

  /** The stored base address ends in no slash, and what was dropped was only
      slashes, so normalising it again changes nothing. */
  lemma BaseUrlNormalised(baseUrl: string)
    ensures var b := RStripChar(baseUrl, '/');
      (b == [] || b[|b| - 1] != '/')
      && StartsWith(baseUrl, b)
      && (forall i :: |b| <= i < |baseUrl| ==> baseUrl[i] == '/')
      && RStripChar(b, '/') == b
  {
    var b := RStripChar(baseUrl, '/');
    assert baseUrl[..|b|] == b;
  }

  // ------------------------------------------------------------ fallbacks

  /** `optimize_claim` and `get_wiki_article_name`: the reply when there is one
      and it is not empty, else the claim itself. */
  function ReplyOrClaim(reply: Option<string>, claim: string): (r: string)
    ensures HasText(reply) ==> r == reply.value
    ensures !HasText(reply) ==> r == claim
  {
    if HasText(reply) then reply.value else claim
  }

  /** The fallback never produces an empty text from a non-empty claim. */
  lemma ReplyOrClaimNotEmpty(reply: Option<string>, claim: string)
    requires claim != []
    ensures ReplyOrClaim(reply, claim) != []
  {
  }

  // ------------------------------------------------------ `extract_claims`

  /** What `\[.*?\]` matches: a `[`, then no `]` and no line feed, then `]`. */
  predicate IsLineSpan(u: string)
  {
    |u| >= 2 && u[0] == '[' && u[|u| - 1] == ']'
    && forall m :: 0 < m < |u| - 1 ==> u[m] != ']' && u[m] != '\n'
  }

  /** The index of the first `]` of `t`, unless a line feed comes before it. */
  function LineClose(t: string): (k: Option<nat>)
    ensures k.Some? ==> (k.value < |t| && t[k.value] == ']'
      && forall m :: 0 <= m < k.value ==> t[m] != ']' && t[m] != '\n')
    ensures k.None? ==> forall m :: 0 <= m < |t| && t[m] == ']' ==> '\n' in t[..m]
  {
    if t == [] then None
    else if t[0] == ']' then Some(0)
    else if t[0] == '\n' then
      assert forall m :: 0 < m < |t| ==> t[..m][0] == '\n';
      None
    else
      var k := LineClose(t[1..]);
      if k.None? then
        assert forall m :: 0 < m < |t| ==> t[..m][1..] == t[1..][..m - 1];
        None
      else Some(k.value + 1)
  }

  /** `re.search(r'\[.*?\]', s)`: computed as the leftmost `[` that a `]`
      closes on the same line, up to the first such `]`. The contract states
      the shape and that it is a substring; leftmost-ness is not stated. */
  function BracketSpan(s: string): (r: Option<string>)
    ensures r.Some? ==> IsLineSpan(r.value) && Contains(s, r.value)
    decreases |s|
  {
    if s == [] then None
    else if s[0] == '[' && LineClose(s[1..]).Some? then
      var k := LineClose(s[1..]).value;
      var u := s[..k + 2];
      assert OccursAt(s, u, 0);
      assert forall m :: 0 < m < |u| - 1 ==> u[m] == s[1..][m - 1];
      Some(u)
    else
      var r := BracketSpan(s[1..]);
      if r.Some? then
        var i :| OccursAt(s[1..], r.value, i);
        OccursAtTail(s, r.value, i + 1);
        r
      else r
  }

  /** No span is found exactly when no substring of the reply has the shape. */
  lemma {:induction false} BracketSpanNone(s: string)
    ensures BracketSpan(s).None? <==> forall i, j :: 0 <= i <= j <= |s| ==> !IsLineSpan(s[i..j])
    decreases |s|
  {
    if BracketSpan(s).Some? {
      var u := BracketSpan(s).value;
      var i :| OccursAt(s, u, i);
      assert s[i..i + |u|] == u;
    } else if s != [] {
      BracketSpanNone(s[1..]);
      forall i, j | 0 <= i <= j <= |s| ensures !IsLineSpan(s[i..j]) {
        if i > 0 {
          TailSlice(s, i, j);
        } else {
          LineSpanAtStart(s, j);
        }
      }
    }
  }

  /** A slice that does not start at 0 is a slice of the tail. */
  lemma TailSlice(s: string, i: int, j: int)
    requires 0 < i <= j <= |s|
    ensures s[i..j] == s[1..][i - 1..j - 1]
  {
    forall m | 0 <= m < j - i ensures s[i..j][m] == s[1..][i - 1..j - 1][m] {
      assert s[i..j][m] == s[i + m];
      assert s[1..][i - 1..j - 1][m] == s[1..][i - 1 + m];
    }
  }

  /** A span at the very start is what the first branch of `BracketSpan` finds. */
  lemma LineSpanAtStart(s: string, j: int)
    requires 0 <= j <= |s|
    ensures IsLineSpan(s[..j]) ==> s[0] == '[' && LineClose(s[1..]).Some?
  {
    if IsLineSpan(s[..j]) {
      var u := s[..j];
      var t := s[1..];
      assert t[j - 2] == u[j - 1];
      forall m | 0 <= m < j - 2 ensures t[m] != '\n' && t[m] != ']' {
        assert t[m] == u[m + 1];
      }
      LineCloseFinds(t, j - 2);
    }
  }

  /** A `]` with no line feed before it is found. */
  lemma {:induction false} LineCloseFinds(t: string, k: nat)
    requires k < |t| && t[k] == ']'
    requires forall m :: 0 <= m < k ==> t[m] != '\n'
    ensures LineClose(t).Some?
  {
    if t[0] != ']' && t[0] != '\n' {
      LineCloseFinds(t[1..], k - 1);
    }
  }

  /** `extract_claims`: the decoded list when the bracketed span decodes to one,
      and `[]` when there is no reply, no span, nothing decodable or not a list. */
  function ExtractClaims(reply: Option<string>, loads: string -> Option<Value>): (claims: seq<Value>)
    ensures !HasText(reply) ==> claims == []
    ensures claims != [] ==> (BracketSpan(reply.value).Some?
      && loads(BracketSpan(reply.value).value) == Some(JArr(claims)))
    ensures HasText(reply) && BracketSpan(reply.value).Some?
      && loads(BracketSpan(reply.value).value).Some?
      && loads(BracketSpan(reply.value).value).value.JArr?
      ==> claims == loads(BracketSpan(reply.value).value).value.items
  {
    if !HasText(reply) then []
    else
      match BracketSpan(reply.value)
      case None => []
      case Some(span) =>
        match loads(span)
        case Some(JArr(items)) => items
        case _ => []
  }

  // ------------------------------------------------------ `factcheck_claim`

  const LabelKey: string := "\"label\""
  const EvidenceKey: string := "\"evidence\""

  /** Inside one pair of braces: `"label"` and, after it, `"evidence"`. */
  function LabelThenEvidence(b: string): (r: bool)
    ensures r <==> exists p, q :: OccursAt(b, LabelKey, p) && OccursAt(b, EvidenceKey, q) && p + |LabelKey| <= q
  {
    var p := Find(b, LabelKey);
    if p < 0 then false
    else
      EvidenceAfterLabel(b, p);
      Contains(b[p + |LabelKey|..], EvidenceKey)
  }

  /** After the leftmost `"label"` is as good as after any. */
  lemma EvidenceAfterLabel(b: string, p: int)
    requires p == Find(b, LabelKey) && p >= 0
    ensures Contains(b[p + |LabelKey|..], EvidenceKey)
      <==> exists p0, q0 :: OccursAt(b, LabelKey, p0) && OccursAt(b, EvidenceKey, q0) && p0 + |LabelKey| <= q0
  {
    var d := p + |LabelKey|;
    var rest := b[d..];
    if Contains(rest, EvidenceKey) {
      var i :| OccursAt(rest, EvidenceKey, i);
      OccursAtDrop(b, EvidenceKey, d, i);
      assert OccursAt(b, LabelKey, p) && OccursAt(b, EvidenceKey, i + d);
    }
    forall p0, q0 | OccursAt(b, LabelKey, p0) && OccursAt(b, EvidenceKey, q0) && p0 + |LabelKey| <= q0
      ensures Contains(rest, EvidenceKey)
    {
      assert p <= p0;
      OccursAtDrop(b, EvidenceKey, d, q0 - d);
    }
  }

  /** What `\{[^}]*"label"[^}]*"evidence"[^}]*\}` matches: a `{`, text without
      `}` holding `"label"` and then `"evidence"`, and the `}` that ends it. */
  predicate IsObjectSpan(u: string)
  {
    |u| >= 2 && u[0] == '{' && u[|u| - 1] == '}' && '}' !in u[1..|u| - 1]
    && LabelThenEvidence(u[1..|u| - 1])
  }

  /** The regular expression's match, computed from the first `{` whose brace
      pair holds the two keys in order to the first `}` after it. The contract
      states the shape and that it is a substring; leftmost-ness is not stated. */
  function ObjectSpan(s: string): (r: Option<string>)
    ensures r.Some? ==> IsObjectSpan(r.value) && Contains(s, r.value)
    decreases |s|
  {
    if s == [] then None
    else if s[0] == '{' && '}' in s[1..] && LabelThenEvidence(s[1..][..FindChar(s[1..], '}')]) then
      var k := FindChar(s[1..], '}');
      var u := s[..k + 2];
      assert OccursAt(s, u, 0);
      assert u[1..|u| - 1] == s[1..][..k];
      Some(u)
    else
      var r := ObjectSpan(s[1..]);
      if r.Some? then
        var i :| OccursAt(s[1..], r.value, i);
        OccursAtTail(s, r.value, i + 1);
        r
      else r
  }

  const EvidenceField: string := "\"evidence\":"

  /** After optional whitespace, a double-quoted string: its contents. */
  function QuotedAfterSpaces(t: string): (r: Option<string>)
    ensures r.Some? ==> '"' !in r.value
  {
    Quoted(LStrip(t))
  }

  /** A double-quoted string at the start: its contents. */
  function Quoted(u: string): (r: Option<string>)
    ensures r.Some? ==> '"' !in r.value
  {
    if u != [] && u[0] == '"' && '"' in u[1..] then Some(u[1..][..FindChar(u[1..], '"')])
    else None
  }

  /** `re.search(r'"evidence":\s*"([^"]*)"', s).group(1)`, or `None` without a
      match; computed at the leftmost match, which the contract does not state. */
  function EvidenceValue(s: string): (e: Option<string>)
    ensures e.Some? ==> '"' !in e.value && Contains(s, EvidenceField)
    decreases |s|
  {
    if s == [] then None
    else if StartsWith(s, EvidenceField) && QuotedAfterSpaces(s[|EvidenceField|..]).Some? then
      assert OccursAt(s, EvidenceField, 0);
      QuotedAfterSpaces(s[|EvidenceField|..])
    else
      var e := EvidenceValue(s[1..]);
      if e.Some? then
        var i :| OccursAt(s[1..], EvidenceField, i);
        OccursAtTail(s, EvidenceField, i + 1);
        e
      else e
  }

  /** A reply that writes `"evidence":`, some whitespace and a quoted text without
      quotes gives back that text. */
  lemma EvidenceValueReadsField(s: string, ws: string, e: string, rest: string)
    requires s == EvidenceField + ws + (['"'] + e + ['"'] + rest)
    requires AllSpace(ws) && '"' !in e
    ensures EvidenceValue(s) == Some(e)
  {
    var u := ['"'] + e + ['"'] + rest;
    assert StartsWith(s, EvidenceField);
    assert s[|EvidenceField|..] == ws + u;
    QuotedReads(ws, u, e, rest);
  }

  lemma QuotedReads(ws: string, u: string, e: string, rest: string)
    requires u == ['"'] + e + ['"'] + rest
    requires AllSpace(ws) && '"' !in e
    ensures QuotedAfterSpaces(ws + u) == Some(e)
  {
    LStripSpacePrefix(ws, u);
    QuotedOf(u, e, rest);
  }

  lemma QuotedOf(u: string, e: string, rest: string)
    requires u == ['"'] + e + ['"'] + rest
    requires '"' !in e
    ensures Quoted(u) == Some(e)
  {
    var v := u[1..];
    assert v == e + (['"'] + rest);
    FindCharAfter(e, ['"'] + rest, '"');
    assert v[..|e|] == e;
  }

  /** The label of the fallback: "True" exactly when the lower-cased reply
      contains "true". */
  function FallbackLabel(reply: string): (verdict: string)
    ensures verdict == "True" <==> Contains(Lower(reply), "true")
    ensures verdict == "True" || verdict == "False"
  {
    if Contains(Lower(reply), "true") then "True"
    else if Contains(Lower(reply), "false") then "False"
    else "False"
  }

  /** The evidence of the fallback: the quoted `"evidence"` value when there is
      one, else the first 200 characters of the reply. */
  function FallbackEvidence(reply: string): (evidence: string)
    ensures EvidenceValue(reply).Some? ==> evidence == EvidenceValue(reply).value && '"' !in evidence
    ensures EvidenceValue(reply).None? ==>
      |evidence| <= 200 && StartsWith(reply, evidence) && (|reply| <= 200 ==> evidence == reply)
  {
    match EvidenceValue(reply)
    case Some(e) => e
    case None => Take(reply, 200)
  }

  /** The dictionary the fallback builds. */
  function FallbackResult(reply: string): (d: map<string, Value>)
    ensures d.Keys == {"label", "evidence"}
    ensures d["label"] == JStr(FallbackLabel(reply)) && d["evidence"] == JStr(FallbackEvidence(reply))
  {
    map["label" := JStr(FallbackLabel(reply)), "evidence" := JStr(FallbackEvidence(reply))]
  }

  /** `factcheck_claim` after the request: `None` without a reply; the decoded
      object when the braced span decodes; the fallback dictionary otherwise. */
  function FactcheckClaim(reply: Option<string>, loadsObject: string -> Option<map<string, Value>>)
    : (result: Option<map<string, Value>>)
    ensures result.Some? <==> HasText(reply)
    ensures HasText(reply) ==>
      var span := ObjectSpan(reply.value);
      if span.Some? && loadsObject(span.value).Some? then result == loadsObject(span.value)
      else result == Some(FallbackResult(reply.value))
  {
    if !HasText(reply) then None
    else
      var parsed := match ObjectSpan(reply.value)
        case Some(span) => loadsObject(span)
        case None => None;
      if parsed.Some? then parsed else Some(FallbackResult(reply.value))
  }
}
