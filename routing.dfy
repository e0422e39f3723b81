/**
 * The decision taken by `handle_route` (sqli_crawler/crawler.py:110-142) for
 * each request a crawled page issues: whether a copy is forwarded to the check
 * queue, and whether the browser aborts or continues the request.
 */
module Routing {

  datatype Action = Abort | Continue

  datatype Decision = Decision(forwarded: bool, action: Action)

  /** The resource types whose same-host requests are handed to the checkers. */
  const FORWARDED_TYPES: set<string> := {"document", "xhr", "fetch", "other"}

  /**
   * `sameHost`: the request's network location equals the page's;
   * `pageIsBlank`: the page's URL is still `about:blank`.
   */
  function HandleRoute(resourceType: string, sameHost: bool, isNavigation: bool, pageIsBlank: bool): (d: Decision)
    // images are dropped before anything else is considered
    ensures resourceType == "image" ==> d == Decision(false, Abort)
    // forwarding depends only on the resource type and the host
    ensures d.forwarded <==> resourceType in FORWARDED_TYPES && sameHost
    // a navigation away from a loaded page is aborted, forwarded or not
    ensures d.action == Abort <==> resourceType == "image" || (isNavigation && !pageIsBlank)
  {
    if resourceType == "image" then Decision(false, Abort)
    else
      var forwarded := resourceType in FORWARDED_TYPES && sameHost;
      if isNavigation && !pageIsBlank then Decision(forwarded, Abort)
      else Decision(forwarded, Continue)
  }

  /**
   * A same-host form submission that navigates the page is both forwarded
   * for checking and stopped in the browser.
   */
  lemma NavigationForwardedAndAborted(resourceType: string)
    requires resourceType in FORWARDED_TYPES
    ensures HandleRoute(resourceType, true, true, false) == Decision(true, Abort)
  {
  }
}
