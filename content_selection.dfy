/** `LocalOpenAIClient._select_relevant_content`: shorten an article for the
    fact-checking prompt by keeping the paragraphs that mention the claim's key
    terms, most mentions first, and filling what room is left with the start of
    the article. */
module ContentSelection {
  import opened Text

  // ------------------------------------------------------------ key terms

  predicate IsDigit(c: char) { '0' <= c <= '9' }

  /** A character of `\w` (ASCII letters, digits and `_`). */
  predicate IsWordChar(c: char)
  {
    ('A' <= c <= 'Z') || ('a' <= c <= 'z') || IsDigit(c) || c == '_'
  }

  /** `\b\d{4}\b` matches at `i`: four digits with no word character on either side. */
  predicate DateAt(s: string, i: int)
  {
    0 <= i && i + 4 <= |s|
    && (forall k :: i <= k < i + 4 ==> IsDigit(s[k]))
    && (i == 0 || !IsWordChar(s[i - 1]))
    && (i + 4 == |s| || !IsWordChar(s[i + 4]))
  }

  /** `re.findall(r'\b\d{4}\b', s[i:])` with word boundaries judged in all of `s`. */
  function DatesFrom(s: string, i: nat): (dates: seq<string>)
    ensures forall k :: 0 <= k < |dates| ==> |dates[k]| == 4
    decreases |s| - i
  {
    if i >= |s| then []
    else (if DateAt(s, i) then [s[i..i + 4]] else []) + DatesFrom(s, i + 1)
  }

  /** `re.findall(r'\b\d{4}\b', s)`: every standalone run of exactly four digits. */
  function Dates(s: string): seq<string> { DatesFrom(s, 0) }

  /** The found dates are exactly the standalone four-digit runs. */
  lemma {:induction false} DatesFromMembers(s: string, i: nat)
    ensures forall d :: d in DatesFrom(s, i) <==> exists j :: i <= j && DateAt(s, j) && d == s[j..j + 4]
    decreases |s| - i
  {
    if i < |s| {
      DatesFromMembers(s, i + 1);
      var head := if DateAt(s, i) then [s[i..i + 4]] else [];
      assert DatesFrom(s, i) == head + DatesFrom(s, i + 1);
    } else {
      forall j | i <= j ensures !DateAt(s, j) { }
    }
  }

  /** A claim word that becomes a key term: longer than 3 characters and starting
      with an upper-case letter. */
  predicate IsKeyWord(w: string) { |w| > 3 && 'A' <= w[0] <= 'Z' }

  /** The lower-cased key words, in order. */
  function KeyWords(words: seq<string>): seq<string>
  {
    if words == [] then []
    else
      var w := words[|words| - 1];
      KeyWords(words[..|words| - 1]) + (if IsKeyWord(w) then [Lower(w)] else [])
  }

  /** The key terms of a claim: its dates, then its lower-cased key words. */
  function KeyTerms(claim: string): seq<string>
  {
    Dates(claim) + KeyWords(SplitWhitespace(claim))
  }

  /** Exactly the key words are kept, lower-cased. */
  lemma {:induction false} KeyWordsMembers(words: seq<string>)
    ensures forall t :: t in KeyWords(words) <==> exists w :: w in words && IsKeyWord(w) && t == Lower(w)
  {
    if words != [] {
      var init := words[..|words| - 1];
      KeyWordsMembers(init);
      assert words == init + [words[|words| - 1]];
    }
  }

  /** Every key term is a date or a lower-cased key word of the claim. */
  lemma KeyTermsMembers(claim: string)
    ensures forall t :: t in KeyTerms(claim) <==>
      (exists j :: 0 <= j && DateAt(claim, j) && t == claim[j..j + 4])
      || (exists w :: w in SplitWhitespace(claim) && IsKeyWord(w) && t == Lower(w))
  {
    DatesFromMembers(claim, 0);
    KeyWordsMembers(SplitWhitespace(claim));
  }

  // ------------------------------------------------------------ scoring

  /** How many key-term entries occur in the lower-cased paragraph (a term listed
      twice counts twice). */
  function Score(terms: seq<string>, lowered: string): (n: nat)
    ensures n <= |terms|
  {
    if terms == [] then 0
    else Score(terms[..|terms| - 1], lowered) + (if Contains(lowered, terms[|terms| - 1]) then 1 else 0)
  }

  datatype Section = Section(score: nat, paragraph: string)

  /** The scored paragraphs, in article order. */
  function Relevant(terms: seq<string>, paragraphs: seq<string>): seq<Section>
  {
    if paragraphs == [] then []
    else
      var p := paragraphs[|paragraphs| - 1];
      var n := Score(terms, Lower(p));
      Relevant(terms, paragraphs[..|paragraphs| - 1]) + (if n > 0 then [Section(n, p)] else [])
  }

  /** Every kept section is a paragraph with its true, positive score, and every
      paragraph with a positive score is kept. */
  lemma {:induction false} RelevantMembers(terms: seq<string>, paragraphs: seq<string>)
    ensures forall x :: x in Relevant(terms, paragraphs) <==>
      x.paragraph in paragraphs && x.score == Score(terms, Lower(x.paragraph)) && x.score > 0
  {
    if paragraphs != [] {
      var init := paragraphs[..|paragraphs| - 1];
      RelevantMembers(terms, init);
      assert paragraphs == init + [paragraphs[|paragraphs| - 1]];
    }
  }

  // ------------------------------------------------------------ ordering

  /** Descending by score. */
  predicate SortedByScore(s: seq<Section>)
  {
    forall i, j :: 0 <= i < j < |s| ==> s[i].score >= s[j].score
  }

  /** Place `x` before the first element whose score is not above its own. */
  function Insert(x: Section, s: seq<Section>): (r: seq<Section>)
    ensures multiset(r) == multiset(s) + multiset{x}
    ensures |r| == |s| + 1
  {
    if s == [] || x.score >= s[0].score then [x] + s
    else
      assert s == [s[0]] + s[1..];
      [s[0]] + Insert(x, s[1..])
  }

  /** `sections.sort(key=score, reverse=True)`: Python's sort is stable, and
      `reverse=True` keeps equal scores in their original order. */
  function SortByScore(s: seq<Section>): (r: seq<Section>)
    ensures multiset(r) == multiset(s)
    ensures |r| == |s|
  {
    if s == [] then []
    else
      assert s == [s[0]] + s[1..];
      Insert(s[0], SortByScore(s[1..]))
  }

  lemma {:induction false} InsertSorted(x: Section, s: seq<Section>)
    requires SortedByScore(s)
    ensures SortedByScore(Insert(x, s))
    ensures Insert(x, s) != [] && (Insert(x, s)[0] == x || (s != [] && Insert(x, s)[0] == s[0]))
  {
    if s != [] && x.score < s[0].score {
      InsertSorted(x, s[1..]);
      var t := Insert(x, s[1..]);
      assert forall j :: 0 <= j < |t| ==> s[0].score >= t[j].score by {
        forall j | 0 <= j < |t| ensures s[0].score >= t[j].score {
          assert t[j] in multiset(t);
          assert t[j] in multiset(s[1..]) + multiset{x};
          if t[j] != x {
            assert t[j] in multiset(s[1..]);
            assert t[j] in s[1..];
          }
        }
      }
    }
  }

  /** The sort puts higher scores first. */
  lemma {:induction false} SortIsSorted(s: seq<Section>)
    ensures SortedByScore(SortByScore(s))
  {
    if s != [] {
      SortIsSorted(s[1..]);
      InsertSorted(s[0], SortByScore(s[1..]));
    }
  }

  /** The sections of one score, in order. */
  function WithScore(s: seq<Section>, v: nat): seq<Section>
  {
    if s == [] then []
    else (if s[0].score == v then [s[0]] else []) + WithScore(s[1..], v)
  }

  lemma {:induction false} WithScoreAppend(a: seq<Section>, b: seq<Section>, v: nat)
    ensures WithScore(a + b, v) == WithScore(a, v) + WithScore(b, v)
  {
    if a == [] {
      assert a + b == b;
    } else {
      assert (a + b)[0] == a[0] && (a + b)[1..] == a[1..] + b;
      WithScoreAppend(a[1..], b, v);
    }
  }

  lemma {:induction false} InsertStable(x: Section, s: seq<Section>, v: nat)
    requires SortedByScore(s)
    ensures WithScore(Insert(x, s), v) == (if x.score == v then [x] else []) + WithScore(s, v)
  {
    if s != [] && x.score < s[0].score {
      InsertStable(x, s[1..], v);
      if x.score == v {
        assert s[0].score != v;
      }
      assert Insert(x, s) == [s[0]] + Insert(x, s[1..]);
    }
  }

  /** The sort is stable: the sections of each score keep their article order. */
  lemma {:induction false} SortIsStable(s: seq<Section>, v: nat)
    ensures WithScore(SortByScore(s), v) == WithScore(s, v)
  {
    if s != [] {
      SortIsStable(s[1..], v);
      SortIsSorted(s[1..]);
      InsertStable(s[0], SortByScore(s[1..]), v);
    }
  }

  // ------------------------------------------------------------ packing

  const ParagraphBreak: string := "\n\n"

  /** The packing loop from accumulated text `acc`: append each paragraph and a
      paragraph break while the paragraph still fits, and stop at the first that
      does not. */
  function PackFrom(sections: seq<Section>, acc: string, max: nat): string
    decreases |sections|
  {
    if sections == [] then acc
    else if |acc| + |sections[0].paragraph| <= max then
      PackFrom(sections[1..], acc + sections[0].paragraph + ParagraphBreak, max)
    else acc
  }

  /** The paragraphs of `sections`, each followed by a paragraph break. */
  function Terminated(sections: seq<Section>): string
  {
    if sections == [] then []
    else sections[0].paragraph + ParagraphBreak + Terminated(sections[1..])
  }

  lemma {:induction false} TerminatedSnoc(sections: seq<Section>, x: Section)
    ensures Terminated(sections + [x]) == Terminated(sections) + x.paragraph + ParagraphBreak
  {
    if sections == [] {
      assert sections + [x] == [x];
    } else {
      assert (sections + [x])[1..] == sections[1..] + [x];
      TerminatedSnoc(sections[1..], x);
    }
  }

  /** Packing takes a prefix of the sections: each taken paragraph fitted when it
      was reached, and the first one left out did not. */
  lemma {:induction false} PackShape(sections: seq<Section>, acc: string, max: nat)
    ensures exists k :: (0 <= k <= |sections|
      && PackFrom(sections, acc, max) == acc + Terminated(sections[..k])
      && (k < |sections| ==> |acc + Terminated(sections[..k])| + |sections[k].paragraph| > max))
    decreases |sections|
  {
    if sections == [] {
      assert acc + Terminated(sections[..0]) == acc;
    } else if |acc| + |sections[0].paragraph| <= max {
      var x := sections[0];
      var acc' := acc + x.paragraph + ParagraphBreak;
      PackShape(sections[1..], acc', max);
      var k :| 0 <= k <= |sections[1..]|
        && PackFrom(sections[1..], acc', max) == acc' + Terminated(sections[1..][..k])
        && (k < |sections[1..]| ==> |acc' + Terminated(sections[1..][..k])| + |sections[1..][k].paragraph| > max);
      assert sections[..k + 1] == [x] + sections[1..][..k];
      assert Terminated(sections[..k + 1]) == x.paragraph + ParagraphBreak + Terminated(sections[1..][..k]);
      assert acc + Terminated(sections[..k + 1]) == acc' + Terminated(sections[1..][..k]);
    } else {
      assert acc + Terminated(sections[..0]) == acc;
    }
  }

  // ------------------------------------------------------------ the selection

  /** The scored paragraphs of the article, highest score first. */
  function Ranked(claim: string, content: string): seq<Section>
  {
    SortByScore(Relevant(KeyTerms(claim), Split(content, ParagraphBreak)))
  }

  /** The ranking is the scored paragraphs reordered: highest score first, and
      paragraphs of equal score in article order. */
  lemma RankedOrder(claim: string, content: string, v: nat)
    ensures var relevant := Relevant(KeyTerms(claim), Split(content, ParagraphBreak));
      SortedByScore(Ranked(claim, content))
      && multiset(Ranked(claim, content)) == multiset(relevant)
      && WithScore(Ranked(claim, content), v) == WithScore(relevant, v)
  {
    var relevant := Relevant(KeyTerms(claim), Split(content, ParagraphBreak));
    SortIsSorted(relevant);
    SortIsStable(relevant, v);
  }

  /** The prefix fill and the final cut: when the packed text is shorter than
      `max`, the start of the article and a paragraph break go in front of it;
      then everything is cut to `max` characters. */
  function Fill(content: string, selected: string, max: nat): (r: string)
    ensures |r| <= max
    ensures |selected| < max ==> StartsWith(r, Take(content, max - |selected|))
    ensures |selected| >= max ==> r == selected[..max]
  {
    var filled := if |selected| < max then Take(content, max - |selected|) + ParagraphBreak + selected else selected;
    Take(filled, max)
  }

  /** What `_select_relevant_content(claim, content, max_length)` returns. */
  function Select(claim: string, content: string, max: nat): (r: string)
    ensures |r| <= max
    ensures |content| <= max ==> r == content
  {
    if |content| <= max then content
    else Fill(content, PackFrom(Ranked(claim, content), [], max), max)
  }

  /** With no paragraph mentioning a key term, a long article is cut to its first
      `max` characters. */
  lemma NothingRelevantIsPrefix(claim: string, content: string, max: nat)
    requires |content| > max
    requires Relevant(KeyTerms(claim), Split(content, ParagraphBreak)) == []
    ensures Select(claim, content, max) == content[..max]
  {
    assert |Ranked(claim, content)| == 0;
    assert PackFrom(Ranked(claim, content), [], max) == [];
    FillNothing(content, max);
  }

  lemma FillNothing(content: string, max: nat)
    requires |content| > max
    ensures Fill(content, [], max) == content[..max]
  {
    if max > 0 {
      var filled := Take(content, max) + ParagraphBreak + [];
      assert filled[..max] == content[..max];
    }
  }

  // ------------------------------------------------------------ the method

  /** `_select_relevant_content`, step by step as the source does it; each loop
      of the source is one of the methods below. */
  method SelectRelevantContent(claim: string, content: string, max: nat) returns (r: string)
    ensures r == Select(claim, content, max)
    ensures |r| <= max
    ensures |content| <= max ==> r == content
  {
    if |content| <= max {
      return content;
    }
    var terms := CollectKeyTerms(claim);
    var paragraphs := Split(content, ParagraphBreak);
    var sections := ScoreParagraphs(terms, paragraphs);
    var sorted := SortByScore(sections);
    assert sorted == Ranked(claim, content);
    var selected := Pack(sorted, max);
    ghost var packed := selected;
    if |selected| < max {
      var remaining := max - |selected|;
      var beginning := Take(content, remaining);
      selected := beginning + ParagraphBreak + selected;
    }
    r := Take(selected, max);
    assert r == Fill(content, packed, max);
  }

  /** The key-term loop: the dates, then each capitalised word lower-cased. */
  method CollectKeyTerms(claim: string) returns (terms: seq<string>)
    ensures terms == KeyTerms(claim)
  {
    terms := Dates(claim);
    var words := SplitWhitespace(claim);
    var i := 0;
    while i < |words|
      invariant 0 <= i <= |words|
      invariant terms == Dates(claim) + KeyWords(words[..i])
    {
      var word := words[i];
      assert words[..i + 1][..i] == words[..i];
      if |word| > 3 && 'A' <= word[0] <= 'Z' {
        terms := terms + [Lower(word)];
      }
      i := i + 1;
    }
    assert words[..|words|] == words;
  }

  /** The paragraph loop: score each paragraph and keep those that score. */
  method ScoreParagraphs(terms: seq<string>, paragraphs: seq<string>) returns (sections: seq<Section>)
    ensures sections == Relevant(terms, paragraphs)
  {
    sections := [];
    var j := 0;
    while j < |paragraphs|
      invariant 0 <= j <= |paragraphs|
      invariant sections == Relevant(terms, paragraphs[..j])
    {
      var paragraph := paragraphs[j];
      var lowered := Lower(paragraph);
      var score := ParagraphScore(terms, lowered);
      assert paragraphs[..j + 1][..j] == paragraphs[..j];
      if score > 0 {
        sections := sections + [Section(score, paragraph)];
      }
      j := j + 1;
    }
    assert paragraphs[..|paragraphs|] == paragraphs;
  }

  /** The packing loop, with its `break`. */
  method Pack(sorted: seq<Section>, max: nat) returns (selected: string)
    ensures selected == PackFrom(sorted, [], max)
  {
    selected := "";
    var k := 0;
    while k < |sorted|
      invariant 0 <= k <= |sorted|
      invariant PackFrom(sorted[k..], selected, max) == PackFrom(sorted, [], max)
    {
      var paragraph := sorted[k].paragraph;
      if |selected| + |paragraph| <= max {
        assert sorted[k..][1..] == sorted[k + 1..];
        selected := selected + paragraph + ParagraphBreak;
      } else {
        break;
      }
      k := k + 1;
    }
  }

  /** The inner scoring loop: one point per key-term entry found. */
  method ParagraphScore(terms: seq<string>, lowered: string) returns (score: nat)
    ensures score == Score(terms, lowered)
  {
    score := 0;
    var t := 0;
    while t < |terms|
      invariant 0 <= t <= |terms|
      invariant score == Score(terms[..t], lowered)
    {
      assert terms[..t + 1][..t] == terms[..t];
      if Contains(lowered, terms[t]) {
        score := score + 1;
      }
      t := t + 1;
    }
    assert terms[..|terms|] == terms;
  }
}
