/**
 * `ArticleProcessingService` (src/services/articleProcessingService.ts): wraps every
 * occurrence of the keyword "Google" in the content of an article's text elements
 * in a fixed hyperlink.
 *
 * Articles and their elements are values: the deep copy the service makes before
 * editing is implicit, and the input article can never be changed.
 */
module ArticleProcessing {
  import opened Wrappers
  import opened Replace

  /** The keyword that is replaced, matched case-sensitively. */
  const Keyword: string := "Google"

  /** The anchor tag that replaces each occurrence of the keyword. */
  const GoogleLink: string := "<a href=\"https://www.google.com/\" target=\"_blank\">Google</a>"

  /** A content element: its `_id`, its `type`, its optional `content` string, and the
      element's other fields (`url`, `caption`, ...), which the service never reads. */
  datatype Element = Element(id: string, kind: string, content: Option<string>, other: map<string, string>)

  /** An article: its top-level fields other than `content_elements`, and its element
      list. `None` stands for a `content_elements` property that is absent or is not an
      array; the service copies both cases unchanged. */
  datatype Article = Article(fields: map<string, string>, contentElements: Option<seq<Element>>)

  /** "Google" has no proper suffix that is also a prefix, so its occurrences never overlap. */
  lemma KeywordSelfOverlapFree()
    ensures SelfOverlapFree(Keyword)
  {
    forall k | 0 < k < |Keyword|
      ensures Keyword[k..] != Keyword[..|Keyword| - k]
    {
      assert Keyword[k..][0] == Keyword[k] != 'G' == Keyword[..|Keyword| - k][0];
    }
  }

  /** The anchor tag is 60 characters long and contains the keyword at index 50. */
  lemma GoogleLinkShape()
    ensures |GoogleLink| == 60
    ensures GoogleLink[50..56] == Keyword
  {
  }

  /**
   * replaceGoogleWithHyperlink(content): `content.replace(/Google/g, googleLink)`.
   * Each occurrence adds 54 characters; the content comes back unchanged exactly when
   * it does not mention the keyword (the empty string included).
   */
  function ReplaceGoogleWithHyperlink(content: string): (r: string)
    ensures |r| == |content| + 54 * CountOccurrences(content, Keyword)
    ensures r == content <==> CountOccurrences(content, Keyword) == 0
  {
    KeywordSelfOverlapFree();
    GoogleLinkShape();
    ReplaceAllLength(content, Keyword, GoogleLink);
    UnchangedIffNoOccurrence(content, Keyword, GoogleLink);
    ReplaceAll(content, Keyword, GoogleLink)
  }

  /** Every occurrence of the keyword is replaced by the anchor in place, and the text
      on either side of it is processed as it would be on its own. */
  lemma ReplaceGoogleSplit(x: string, y: string)
    ensures ReplaceGoogleWithHyperlink(x + Keyword + y)
         == ReplaceGoogleWithHyperlink(x) + GoogleLink + ReplaceGoogleWithHyperlink(y)
  {
    KeywordSelfOverlapFree();
    ReplaceAllSplit(x, Keyword, GoogleLink, y);
  }

  /** The anchor itself contains the keyword, so processing already-processed content
      that mentioned the keyword changes it again (the links get nested). */
  lemma ReplaceGoogleNotIdempotent(content: string)
    requires CountOccurrences(content, Keyword) > 0
    ensures ReplaceGoogleWithHyperlink(ReplaceGoogleWithHyperlink(content)) != ReplaceGoogleWithHyperlink(content)
  {
    KeywordSelfOverlapFree();
    GoogleLinkShape();
    assert OccursAt(GoogleLink, Keyword, 50);
    ReplaceAgainChanges(content, Keyword, GoogleLink, 50);
  }

  /** The element is one the service rewrites: of type "text", with a content string
      that is present and non-empty (a truthy `element.content`). */
  predicate IsProcessedText(e: Element)
  {
    e.kind == "text" && e.content.Some? && e.content.value != ""
  }

  /** The callback of `content_elements.map`: a text element with non-empty content
      gets `{...element, content: replaceGoogleWithHyperlink(element.content)}`, every
      other element is returned as it is. Only `content` may change, and the element
      changes exactly when it is such a text element and its content mentions the
      keyword. */
  function ProcessElement(e: Element): (r: Element)
    ensures r.id == e.id && r.kind == e.kind && r.other == e.other
    ensures r.content == if IsProcessedText(e) then Some(ReplaceGoogleWithHyperlink(e.content.value)) else e.content
    ensures r != e <==> IsProcessedText(e) && CountOccurrences(e.content.value, Keyword) > 0
  {
    if IsProcessedText(e) then e.(content := Some(ReplaceGoogleWithHyperlink(e.content.value)))
    else e
  }

  /**
   * processArticle(article). The top-level fields are kept; an element list keeps its
   * length and order; in each element only `content` may change, and only for text
   * elements with non-empty content, whose content is replaced; an element changes
   * exactly when it is such a text element that mentions the keyword.
   */
  function ProcessArticle(article: Article): (r: Article)
    ensures r.fields == article.fields
    ensures r.contentElements.None? <==> article.contentElements.None?
    ensures article.contentElements.None? ==> r == article
    ensures article.contentElements == Some([]) ==> r == article
    ensures article.contentElements.Some? ==>
      var before, after := article.contentElements.value, r.contentElements.value;
      && |after| == |before|
      && (forall i :: 0 <= i < |before| ==>
            && after[i].id == before[i].id
            && after[i].kind == before[i].kind
            && after[i].other == before[i].other
            && after[i].content == (if IsProcessedText(before[i])
                                    then Some(ReplaceGoogleWithHyperlink(before[i].content.value))
                                    else before[i].content))
      && (forall i :: 0 <= i < |before| ==>
            (after[i] != before[i] <==>
               IsProcessedText(before[i]) && CountOccurrences(before[i].content.value, Keyword) > 0))
  {
    match article.contentElements
    case None => article
    case Some(elements) =>
      var processed := seq(|elements|, i requires 0 <= i < |elements| => ProcessElement(elements[i]));
      assert elements == [] ==> processed == elements;
      article.(contentElements := Some(processed))
  }

  /** An article none of whose text elements mentions the keyword comes back unchanged. */
  lemma ProcessArticleWithoutKeyword(article: Article)
    requires article.contentElements.Some? ==>
      forall e :: e in article.contentElements.value && IsProcessedText(e) ==>
        CountOccurrences(e.content.value, Keyword) == 0
    ensures ProcessArticle(article) == article
  {
    var r := ProcessArticle(article);
    if article.contentElements.Some? {
      var before, after := article.contentElements.value, r.contentElements.value;
      forall i | 0 <= i < |before|
        ensures after[i] == before[i]
      {
        assert before[i] in before;
      }
      assert after == before;
    }
  }
}
