/**
 * The scenarios of the end-to-end test of `GET /wikipedia/search`, with
 * the upstream answers it mocks: each answer the test expects follows from
 * the model of the controller and the service.
 */
module ServiceExamples {
  import opened Wrappers
  import opened JsValues
  import opened Markup
  import opened Extractor
  import opened ExtractorExamples
  import opened Service
  import Controller

  const Description: string := "Réseau informatique mondial"
  const Extract: string := "Internet est le réseau informatique mondial..."
  const ThumbnailUrl: string :=
    "https://upload.wikimedia.org/wikipedia/commons/thumb/d/d2/Internet_map.jpg/200px-Internet_map.jpg"
  const PageUrl: string := "https://fr.wikipedia.org/wiki/Internet"

  /** The mocked summary of `Internet`. */
  const InternetSummary: SummaryPayload :=
    SummaryPayload(Str(Description), Str(Extract), Some(Thumbnail(Str(ThumbnailUrl))),
                   Some(ContentUrls(Some(Desktop(Str(PageUrl))))))

  /** The mocked upstream: `Internet` is the first hit, with its summary and its introduction. */
  function FixtureUpstream(): Upstream
  {
    Upstream(
      _ => Sent(Ok(SearchPayload(Some([SearchHit(Str("Internet"))])))),
      _ => Sent(Ok(InternetSummary)),
      _ => Sent(Ok(ParsePayload(IntroHtml))))
  }

  /** `t` occurs in `s`, as `toContain` checks on a string. */
  ghost predicate Contains(s: string, t: string)
  {
    exists i :: OccursAt(s, t, i)
  }

  /** The summary fields of `Internet` pass through `getSummary` as mocked. */
  lemma InternetSummaryFields()
    ensures GetSummary(Ok(InternetSummary)) ==
      Summary(Str(Description), Str(Extract), Str(ThumbnailUrl), Str(PageUrl))
  {
  }

  /** Asked for four paragraphs, the introduction of `Internet` gives its three. */
  lemma InternetParagraphs()
    ensures GetFirstParagraphs(Ok(ParsePayload(IntroHtml)), ParagraphCount) == [Lead + Bold + Tail, Second, Third]
  {
    IntroParagraphs();
  }

  /** A text occurs in any text it is the middle of. */
  lemma MiddleOccurs(lead: string, bold: string, tail: string)
    ensures Contains(lead + bold + tail, bold)
  {
    var s := lead + bold + tail;
    assert OccursAt(s, bold, |lead|) by { assert s[|lead|..|lead| + |bold|] == bold; }
  }

  /**
   * `?query=internet`: the article of `Internet`, its summary fields as
   * mocked, and the introduction's three paragraphs, the first of which
   * holds "réseau informatique mondial".
   */
  lemma InternetArticle()
    ensures var b := Controller.Search(Str("internet"), FixtureUpstream());
      b == ArticleBody("Internet", Str(Description), Str(Extract), Str(ThumbnailUrl), Str(PageUrl),
                       [Lead + Bold + Tail, Second, Third]) &&
      |b.firstParagraphs| <= 3 && Contains(b.firstParagraphs[0], Bold)
  {
    InternetSummaryFields();
    InternetParagraphs();
    MiddleOccurs(Lead, Bold, Tail);
  }

  /** No `query` parameter: the guard's error object. */
  lemma MissingQueryAnswered(u: Upstream)
    ensures Controller.Search(Undefined, u).error == Controller.MissingQueryMessage
  {
  }

  /** An upstream whose search finds nothing. */
  function NoHitUpstream(): Upstream
  {
    FixtureUpstream().(searchEndpoint := _ => Sent(Ok(SearchPayload(Some([])))))
  }

  /** A search without hits: the "no result" object. */
  lemma NoHitAnswered()
    ensures Controller.Search(Str("termequinapasdecorrespondance"), NoHitUpstream()).error == NoResultMessage
  {
  }

  /** An upstream whose search request throws an `Error('API Error')`. */
  function ThrowingUpstream(): Upstream
  {
    FixtureUpstream().(searchEndpoint := _ => Threw(Value(Str("API Error"))))
  }

  /** A search request that throws fails the answer (status 500). */
  lemma ThrowingSearchFails()
    ensures Controller.Search(Str("internet"), ThrowingUpstream()) == Errored
  {
  }
}
