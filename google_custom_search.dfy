/** Post-processing of a Custom Search response into a list of result links. */
module GoogleCustomSearch {
  import opened Wrappers
  import opened Text
  import opened Json

  /** Every item is a dict, so `item.get("link")` cannot raise. */
  predicate AllObjects(items: seq<Value>)
  {
    forall i :: 0 <= i < |items| ==> items[i].JObj?
  }

  /** `[item.get("link") for item in items if item.get("link")]`, in item order. */
  function Links(items: seq<Value>): (links: seq<Value>)
    requires AllObjects(items)
    ensures |links| <= |items|
    ensures forall i :: 0 <= i < |links| ==> Truthy(links[i])
  {
    if items == [] then []
    else
      var link := Get(items[0].fields, "link");
      (if Truthy(link) then [link] else []) + Links(items[1..])
  }

  /** `get_first_n_results_urls` after the request. `response` is the decoded body
      or the exception raised by the request, the status check or the decoding.
      A body that is not a dict, an `"items"` value that is not a list and an item
      that is not a dict all raise, and the handler turns that into `None`. */
  function GetFirstNResultsUrls(response: Attempt<Value>, n: int): (urls: Option<seq<Value>>)
    ensures urls.Some? ==> response.Done? && response.value.JObj?
    ensures urls.Some? ==> forall i :: 0 <= i < |urls.value| ==> Truthy(urls.value[i])
  {
    match response
    case Raised(_) => None
    case Done(data) =>
      if !data.JObj? then None
      else
        var items := if "items" in data.fields then data.fields["items"] else JArr([]);
        if !items.JArr? || !AllObjects(items.items) then None
        else
          var links := Links(items.items);
          if links == [] then None else Some(SliceTo(links, n))
  }

  /** Filtering distributes over concatenation, so links keep the items' order. */
  lemma {:induction false} LinksAppend(a: seq<Value>, b: seq<Value>)
    requires AllObjects(a) && AllObjects(b)
    ensures AllObjects(a + b) && Links(a + b) == Links(a) + Links(b)
  {
    if a == [] {
      assert a + b == b;
    } else {
      assert (a + b)[0] == a[0] && (a + b)[1..] == a[1..] + b;
      assert AllObjects(a[1..]);
      LinksAppend(a[1..], b);
    }
  }

  /** An item contributes its link exactly when that link is truthy. */
  lemma LinksOfOne(item: map<string, Value>)
    ensures Links([JObj(item)]) == if Truthy(Get(item, "link")) then [Get(item, "link")] else []
  {
    assert [JObj(item)][1..] == [];
  }

  /** Every returned link is the truthy link of some item. */
  lemma {:induction false} LinksFromItems(items: seq<Value>)
    requires AllObjects(items)
    ensures forall i :: 0 <= i < |Links(items)| ==>
      exists j :: 0 <= j < |items| && Links(items)[i] == Get(items[j].fields, "link")
  {
    if items != [] {
      LinksFromItems(items[1..]);
      var links := Links(items);
      var head := if Truthy(Get(items[0].fields, "link")) then [Get(items[0].fields, "link")] else [];
      assert links == head + Links(items[1..]);
      forall i | 0 <= i < |links|
        ensures exists j :: 0 <= j < |items| && links[i] == Get(items[j].fields, "link")
      {
        if i < |head| {
          assert links[i] == Get(items[0].fields, "link");
          assert 0 <= 0 < |items|;
        } else {
          var j :| 0 <= j < |items[1..]| && Links(items[1..])[i - |head|] == Get(items[1..][j].fields, "link");
          assert links[i] == Get(items[j + 1].fields, "link");
          assert 0 <= j + 1 < |items|;
        }
      }
      assert forall i :: 0 <= i < |Links(items)| ==>
        exists j :: 0 <= j < |items| && Links(items)[i] == Get(items[j].fields, "link");
    } else {
      assert Links(items) == [];
    }
  }

  /** With `n >= 0` the answer is the first `n` links of the filtered list. */
  lemma FirstNLinks(response: Attempt<Value>, n: int)
    requires n >= 0
    requires GetFirstNResultsUrls(response, n).Some?
    ensures var urls := GetFirstNResultsUrls(response, n).value;
      var links := Links(response.value.fields["items"].items);
      |urls| <= n && urls == links[..|urls|] && (|urls| < n ==> urls == links)
      && (n == 0 ==> urls == [])
  {
  }

  /** `None` rather than `[]` when no usable link remains, including a body
      with no `"items"` at all. */
  lemma NoLinksGiveNone(response: Attempt<Value>, n: int)
    requires response.Done? && response.value.JObj?
    requires "items" !in response.value.fields
      || (response.value.fields["items"].JArr?
          && AllObjects(response.value.fields["items"].items)
          && Links(response.value.fields["items"].items) == [])
    ensures GetFirstNResultsUrls(response, n) == None
  {
  }

  /** A failed request or decoding gives `None`. */
  lemma FailureGivesNone(message: string, n: int)
    ensures GetFirstNResultsUrls(Raised(message), n) == None
  {
  }

  /** Two items with links and `n = 1` give the first link only. */
  lemma FirstOfTwo()
    ensures GetFirstNResultsUrls(Done(JObj(map["items" := JArr([
      JObj(map["link" := JStr("http://a")]), JObj(map["link" := JStr("http://b")])])])), 1)
      == Some([JStr("http://a")])
  {
    var a := JObj(map["link" := JStr("http://a")]);
    var b := JObj(map["link" := JStr("http://b")]);
    LinksOfOne(map["link" := JStr("http://a")]);
    LinksOfOne(map["link" := JStr("http://b")]);
    LinksAppend([a], [b]);
    assert [a] + [b] == [a, b];
  }
}
