/**
 * `WikipediaController.search`, the handler of `GET /wikipedia/search`: a
 * falsy `query` parameter is answered with an error object before the
 * service is reached; any other value is handed to `WikipediaService.search`
 * as it is. A query parameter that is not sent is `undefined`.
 */
module Controller {
  import opened JsValues
  import opened Markup
  import Service

  const MissingQueryMessage: string := "Le paramètre \"query\" est requis"

  /** The error object of the guard: only an `error` field. */
  const MissingQueryBody: Service.Body := Service.ErrorBody(MissingQueryMessage, Undefined, Undefined)

  /** `!query`: the parameter is absent, null or the empty string. */
  predicate Falsy(query: JsString)
    ensures Falsy(query) <==> query == Undefined || query == Null || query == Str("")
  {
    !Truthy(query)
  }

  /** `search(@Query('query') query)`. */
  function Search(query: JsString, u: Service.Upstream): (b: Service.Body)
    ensures Falsy(query) ==> b == MissingQueryBody
    ensures !Falsy(query) ==> b == Service.Search(query.value, u)
  {
    if Falsy(query) then MissingQueryBody else Service.Search(query.value, u)
  }

  /**
   * The guard's error object is never something the service answers with,
   * so the two outcomes are told apart: the guard answered exactly when the
   * query is falsy.
   */
  lemma GuardOrDelegate(query: JsString, u: Service.Upstream)
    ensures Search(query, u) == MissingQueryBody <==> Falsy(query)
  {
    if !Falsy(query) {
      Service.SearchShapes(query.value, u);
    }
  }

  /** With a falsy query the answer does not depend on the upstream: the service is not called. */
  lemma GuardIgnoresUpstream(query: JsString, u: Service.Upstream, v: Service.Upstream)
    requires Falsy(query)
    ensures Search(query, u) == Search(query, v)
  {
  }

  /** A query of white space only is truthy and reaches the service unchanged. */
  lemma WhitespaceQueryDelegated(query: string, u: Service.Upstream)
    requires query != [] && !HasText(query)
    ensures Search(Str(query), u) == Service.Search(query, u)
    ensures Search(Str(query), u) != MissingQueryBody
  {
    GuardOrDelegate(Str(query), u);
  }
}
