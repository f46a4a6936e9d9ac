/**
 * Smooth scrolling for in-page anchors: the click listener attached to every
 * `a` whose `href` attribute starts with `#`.
 */
module Anchors {

  /**
   * What `document.querySelector(href)` does with the href used as a CSS
   * selector: it finds an element, finds none, or throws because the text is
   * not a valid selector (for example `#1st`, an id starting with a digit).
   */
  datatype Lookup = Found | NotFound | InvalidSelector

  /** What the listener does to the click event and the page. */
  datatype ClickEffect = ClickEffect(preventDefault: bool, scrollToTarget: bool)

  /** The listener only runs on anchors matched by `a[href^="#"]`. */
  predicate IsFragmentHref(href: string)
  {
    |href| > 0 && href[0] == '#'
  }

  /**
   * The listener's decision.  A bare `#` is suppressed without a lookup; an
   * element found by the selector is scrolled to and the default navigation
   * suppressed; otherwise the browser's default navigation happens, also when
   * the lookup throws, since the exception ends the listener before it calls
   * `preventDefault`.
   */
  function OnAnchorClick(href: string, lookup: Lookup): (e: ClickEffect)
    requires IsFragmentHref(href)
    ensures e.preventDefault <==> href == "#" || lookup == Found
    ensures e.scrollToTarget <==> href != "#" && lookup == Found
    ensures e.scrollToTarget ==> e.preventDefault
  {
    if href == "#" then ClickEffect(true, false)
    else match lookup
      case Found => ClickEffect(true, true)
      case NotFound => ClickEffect(false, false)
      case InvalidSelector => ClickEffect(false, false)
  }

  /** The bare `#` link does not depend on the document at all. */
  lemma BareHashIgnoresLookup(l1: Lookup, l2: Lookup)
    ensures OnAnchorClick("#", l1) == OnAnchorClick("#", l2) == ClickEffect(true, false)
  {
  }
}
