/**
 * `WikipediaService`: the three upstream mappers (`searchTitle`,
 * `getSummary`, `getFirstParagraphs`), each of which degrades to a neutral
 * value when its request fails, and `search`, which chains them and turns
 * what they let through into an error object, or into a failed answer.
 *
 * The HTTP calls are not modelled; what the pipelines see of them is an
 * input. Issuing a request either returns an observable (`Sent`) or throws
 * (`Threw`). The observable either emits a response whose payload the
 * mapper can read (`Ok`), or emits an error that the mapper's own
 * `catchError` absorbs (`Failed`: a network or HTTP error, or a payload
 * missing the object the mapper dereferences). The search request is
 * issued by `search` itself, so a throw there escapes `search`; the summary
 * and parse requests are issued inside `switchMap`, so a throw there
 * reaches the catch-all of `search`.
 */
module Service {
  import opened Wrappers
  import opened JsValues
  import opened Markup
  import opened Extractor

  datatype Fetch<T> = Ok(payload: T) | Failed

  datatype Request<T> = Sent(response: Fetch<T>) | Threw(thrown: Thrown)

  /**
   * What a throw carries: `null` or `undefined`, which have no `message`
   * property to read, or any other value, whose `message` is read.
   */
  datatype Thrown = Nullish | Value(message: JsString)

  /** `response.data.query.search` of the action API's `list=search` query. */
  datatype SearchHit = SearchHit(title: JsString)
  datatype SearchPayload = SearchPayload(search: Option<seq<SearchHit>>)

  /**
   * The fields of the REST summary that `getSummary` reads; an absent or
   * null object is `None`, as `?.` treats both alike.
   */
  datatype Thumbnail = Thumbnail(source: JsString)
  datatype Desktop = Desktop(page: JsString)
  datatype ContentUrls = ContentUrls(desktop: Option<Desktop>)
  datatype SummaryPayload = SummaryPayload(
    description: JsString,
    extract: JsString,
    thumbnail: Option<Thumbnail>,
    contentUrls: Option<ContentUrls>)

  /** `response.data.parse.text['*']` of the action API's `action=parse` query. */
  datatype ParsePayload = ParsePayload(html: string)

  /** The four-field record `getSummary` emits. */
  datatype Summary = Summary(
    description: JsString,
    extract: JsString,
    thumbnail: JsString,
    url: JsString)

  /** What each upstream endpoint answers for a search text or a page title. */
  datatype Upstream = Upstream(
    searchEndpoint: string -> Request<SearchPayload>,
    summaryEndpoint: string -> Request<SummaryPayload>,
    parseEndpoint: string -> Request<ParsePayload>)

  /**
   * What the endpoint answers with: a JSON object (its `Undefined` fields
   * left out), or `Errored`, an observable or a call that fails, which the
   * framework answers with status 500.
   */
  datatype Body =
    | ErrorBody(error: string, query: JsString, details: JsString)
    | ArticleBody(
        title: string,
        description: JsString,
        extract: JsString,
        thumbnail: JsString,
        url: JsString,
        firstParagraphs: seq<string>)
    | Errored

  const NoResultMessage: string := "Aucun résultat trouvé"
  const SearchFailedMessage: string := "Une erreur est survenue lors de la recherche"

  /** How many paragraphs `search` asks `getFirstParagraphs` for. */
  const ParagraphCount: int := 4

  /**
   * `searchTitle`: the title of the first search hit, verbatim; null when
   * the hits are missing or empty, and when the request fails.
   */
  function SearchTitle(response: Fetch<SearchPayload>): (title: JsString)
    ensures response.Failed? ==> title == Null
    ensures response.Ok? && (response.payload.search.None? || response.payload.search.value == []) ==>
      title == Null
    ensures response.Ok? && response.payload.search.Some? && response.payload.search.value != [] ==>
      title == response.payload.search.value[0].title
  {
    match response
    case Failed => Null
    case Ok(payload) =>
      match payload.search
      case Some(hits) => if |hits| > 0 then hits[0].title else Null
      case None => Null
  }

  /** `response.data.thumbnail?.source || null`: a non-empty source, or null. */
  function ThumbnailSource(thumbnail: Option<Thumbnail>): (r: JsString)
    ensures r.Str? <==> thumbnail.Some? && Truthy(thumbnail.value.source)
    ensures r.Str? ==> r == thumbnail.value.source && r.value != []
    ensures !r.Str? ==> r == Null
  {
    match thumbnail
    case None => Null
    case Some(t) => OrNull(t.source)
  }

  /** `response.data.content_urls?.desktop?.page || null`: a non-empty page URL, or null. */
  function DesktopPage(urls: Option<ContentUrls>): (r: JsString)
    ensures r.Str? <==> urls.Some? && urls.value.desktop.Some? && Truthy(urls.value.desktop.value.page)
    ensures r.Str? ==> r == urls.value.desktop.value.page && r.value != []
    ensures !r.Str? ==> r == Null
  {
    match urls
    case None => Null
    case Some(u) =>
      match u.desktop
      case None => Null
      case Some(d) => OrNull(d.page)
  }

  /**
   * `getSummary`: description and extract passed through (`undefined` when
   * the payload lacks them), the thumbnail's source and the desktop page's
   * URL when present and not empty, otherwise null, and all four fields
   * null when the request fails.
   */
  function GetSummary(response: Fetch<SummaryPayload>): (s: Summary)
    ensures response.Failed? ==> s == Summary(Null, Null, Null, Null)
    ensures response.Ok? ==>
      s.description == response.payload.description && s.extract == response.payload.extract
    ensures response.Ok? ==>
      (s.thumbnail.Str? <==>
        response.payload.thumbnail.Some? && Truthy(response.payload.thumbnail.value.source)) &&
      (s.thumbnail.Str? ==> s.thumbnail == response.payload.thumbnail.value.source) &&
      (!s.thumbnail.Str? ==> s.thumbnail == Null)
    ensures response.Ok? ==>
      (s.url.Str? <==>
        response.payload.contentUrls.Some? && response.payload.contentUrls.value.desktop.Some? &&
        Truthy(response.payload.contentUrls.value.desktop.value.page)) &&
      (s.url.Str? ==> s.url == response.payload.contentUrls.value.desktop.value.page) &&
      (!s.url.Str? ==> s.url == Null)
  {
    match response
    case Failed => Summary(Null, Null, Null, Null)
    case Ok(p) => Summary(p.description, p.extract, ThumbnailSource(p.thumbnail), DesktopPage(p.contentUrls))
  }

  /**
   * `Array.prototype.slice(0, end)`: a negative `end` counts back from the
   * length, and `end` is clamped to `0..|s|`.
   */
  function SliceTo<T>(s: seq<T>, end: int): (r: seq<T>)
    ensures 0 <= end ==> |r| == if end < |s| then end else |s|
    ensures end < 0 ==> |r| == if |s| + end < 0 then 0 else |s| + end
    ensures r == s[..|r|]
  {
    var stop := if end < 0 then (if |s| + end < 0 then 0 else |s| + end)
                else if end < |s| then end else |s|;
    s[..stop]
  }

  /**
   * `getFirstParagraphs`: the first `count` paragraphs of the introduction's
   * HTML, all of them when there are fewer, and none when the request fails.
   */
  function GetFirstParagraphs(response: Fetch<ParsePayload>, count: int): (ps: seq<string>)
    ensures response.Failed? ==> ps == []
    ensures response.Ok? ==>
      var all := Paragraphs(response.payload.html);
      |ps| <= |all| && ps == all[..|ps|] && (0 <= count ==> |ps| == if count < |all| then count else |all|)
  {
    match response
    case Failed => []
    case Ok(p) => SliceTo(Paragraphs(p.html), count)
  }

  /** Every paragraph `getFirstParagraphs` returns has visible text and no complete tag. */
  lemma FirstParagraphsHaveText(response: Fetch<ParsePayload>, count: int)
    ensures forall k :: 0 <= k < |GetFirstParagraphs(response, count)| ==>
      |Trim(GetFirstParagraphs(response, count)[k])| > 0 &&
      IsParagraphText(GetFirstParagraphs(response, count)[k])
  {
    if response.Ok? {
      var all := Paragraphs(response.payload.html);
      var ps := GetFirstParagraphs(response, count);
      ParagraphsHaveText(response.payload.html);
      forall k | 0 <= k < |ps| ensures |Trim(ps[k])| > 0 && IsParagraphText(ps[k]) {
        assert ps[k] == all[k];
      }
    }
  }

  /**
   * The catch-all of `search`: the error object carrying the thrown value's
   * `message`; reading `message` of `null` or `undefined` throws in turn,
   * and the answer fails.
   */
  function CatchAll(query: string, thrown: Thrown): (b: Body)
    ensures thrown.Nullish? <==> b == Errored
    ensures thrown.Value? ==>
      b.ErrorBody? && b.error == SearchFailedMessage && b.query == Str(query) && b.details == thrown.message
  {
    match thrown
    case Nullish => Errored
    case Value(message) => ErrorBody(SearchFailedMessage, Str(query), message)
  }

  /**
   * `search`: a throw while issuing the search request fails the answer; no
   * truthy title gives the "no result" object; otherwise the summary and
   * the first paragraphs of that title are merged into one article, unless
   * issuing one of their requests throws, which the catch-all handles.
   */
  function Search(query: string, u: Upstream): (b: Body)
    ensures u.searchEndpoint(query).Threw? ==> b == Errored
    ensures u.searchEndpoint(query).Sent? ==>
      var title := SearchTitle(u.searchEndpoint(query).response);
      (!Truthy(title) <==> b == ErrorBody(NoResultMessage, Str(query), Undefined)) &&
      (Truthy(title) ==>
        match u.summaryEndpoint(title.value)
        case Threw(thrown) => b == CatchAll(query, thrown)
        case Sent(summary) =>
          match u.parseEndpoint(title.value)
          case Threw(thrown) => b == CatchAll(query, thrown)
          case Sent(parsed) =>
            var s := GetSummary(summary);
            b == ArticleBody(title.value, s.description, s.extract, s.thumbnail, s.url,
                             GetFirstParagraphs(parsed, ParagraphCount)))
  {
    match u.searchEndpoint(query)
    case Threw(_) => Errored
    case Sent(found) =>
      var title := SearchTitle(found);
      if !Truthy(title) then
        ErrorBody(NoResultMessage, Str(query), Undefined)
      else
        match u.summaryEndpoint(title.value)
        case Threw(thrown) => CatchAll(query, thrown)
        case Sent(summary) =>
          match u.parseEndpoint(title.value)
          case Threw(thrown) => CatchAll(query, thrown)
          case Sent(parsed) =>
            var s := GetSummary(summary);
            ArticleBody(title.value, s.description, s.extract, s.thumbnail, s.url,
                        GetFirstParagraphs(parsed, ParagraphCount))
  }

  /** The title `search` looks up, when the search request was issued and found a truthy one. */
  function FoundTitle(query: string, u: Upstream): (title: JsString)
    ensures u.searchEndpoint(query).Threw? ==> title == Undefined
    ensures u.searchEndpoint(query).Sent? ==> title == SearchTitle(u.searchEndpoint(query).response)
  {
    match u.searchEndpoint(query)
    case Threw(_) => Undefined
    case Sent(found) => SearchTitle(found)
  }

  /**
   * `search` answers with one of four shapes: the "no result" object or the
   * catch-all's error object, both echoing the query; the article of the
   * first hit's title with at most four paragraphs, each with visible text;
   * or a failure.
   */
  lemma SearchShapes(query: string, u: Upstream)
    ensures var b := Search(query, u);
      b.ErrorBody? ==>
        b.query == Str(query) && (b.error == NoResultMessage || b.error == SearchFailedMessage)
    ensures var b := Search(query, u);
      b.ArticleBody? ==>
        Str(b.title) == FoundTitle(query, u) && b.title != [] &&
        |b.firstParagraphs| <= ParagraphCount &&
        forall k :: 0 <= k < |b.firstParagraphs| ==>
          |Trim(b.firstParagraphs[k])| > 0 && IsParagraphText(b.firstParagraphs[k])
  {
    var title := FoundTitle(query, u);
    if u.searchEndpoint(query).Sent? && Truthy(title) &&
       u.summaryEndpoint(title.value).Sent? && u.parseEndpoint(title.value).Sent? {
      FirstParagraphsHaveText(u.parseEndpoint(title.value).response, ParagraphCount);
    }
  }

  /**
   * A failed summary or paragraph request does not fail the search: the
   * article is still built, with all-null summary fields or no paragraphs.
   */
  lemma PartialFailureKeepsArticle(query: string, u: Upstream)
    requires Truthy(FoundTitle(query, u))
    requires var t := FoundTitle(query, u).value;
      u.summaryEndpoint(t).Sent? && u.parseEndpoint(t).Sent?
    ensures var t := FoundTitle(query, u).value;
      var b := Search(query, u);
      b.ArticleBody? && b.title == t &&
      (u.summaryEndpoint(t).response.Failed? ==>
        b.description == Null && b.extract == Null && b.thumbnail == Null && b.url == Null) &&
      (u.parseEndpoint(t).response.Failed? ==> b.firstParagraphs == [])
  {
  }

  /** Only a throw fails the answer: a search request that throws, or a nullish throw caught by the catch-all. */
  lemma ErroredOnlyOnThrow(query: string, u: Upstream)
    ensures Search(query, u) == Errored <==>
      u.searchEndpoint(query).Threw? ||
      (var t := FoundTitle(query, u);
       Truthy(t) &&
       (u.summaryEndpoint(t.value) == Threw(Nullish) ||
        (u.summaryEndpoint(t.value).Sent? && u.parseEndpoint(t.value) == Threw(Nullish))))
  {
  }

  /** Five plain paragraphs in the introduction. */
  const FiveParagraphs: seq<string> := ["a", "b", "c", "d", "e"]

  /** An upstream whose first hit is `Internet` and whose introduction holds five paragraphs. */
  function FiveParagraphUpstream(): Upstream
  {
    Upstream(
      _ => Sent(Ok(SearchPayload(Some([SearchHit(Str("Internet"))])))),
      _ => Sent(Ok(SummaryPayload(Undefined, Undefined, None, None))),
      _ => Sent(Ok(ParsePayload(Wrap(FiveParagraphs)))))
  }

  /**
   * The article can carry four paragraphs: `search` asks for four, although
   * the comment beside the call and the end-to-end test expect at most three.
   */
  lemma FourParagraphsReachable()
    ensures var b := Search("internet", FiveParagraphUpstream());
      b.ArticleBody? && |b.firstParagraphs| == 4
  {
    var ps := FiveParagraphs;
    forall k | 0 <= k < |ps| ensures IsPlain(ps[k]) && HasText(ps[k]) {
      assert !IsJsWhitespace(ps[k][0]);
    }
    WrapRoundTrip(ps);
  }
}
