# social.i Consultancy site script, modelled in Dafny

The site's one script, `assets/js/main.js`, wires a marketing page to the
browser. Beneath its event listeners sit a few decision rules and small state
machines. This project states them in Dafny and proves what they guarantee:

- the **mobile menu** (`menu.dfy`, module `Menu`): the nav's `hidden`/`flex`
  classes and the toggle button's icon, changed by three click listeners;
- the **anchor-click rule** (`anchors.dfy`, module `Anchors`): when an in-page
  link's default navigation is suppressed and when the page scrolls;
- the **scroll spy** (`scroll_spy.dfy`, module `ScrollSpy`): which section is
  current, and which navigation links are marked `active`;
- the **contact form** (`js_strings.dfy`, module `JsStrings`, and
  `contact_form.dfy`, module `ContactForm`): trimming, the empty-field check,
  the e-mail pattern and the resulting alert;
- the **statistics counters** (`counters.dfy`, module `Counters`): which
  rendering `formatNumber` picks, and the `data-animated` marker that starts
  each counter's animation at most once.

State that the script changes in place is a class: `Menu.NavMenu` holds the
nav's two classes and the icon, `Counters.CounterElement` holds an element's
marker and the number of animations started on it, and the navigation links
are an `array` of records rewritten by `ScrollSpy.Highlight`. Most methods are
proved against a function on values (`Menu.Toggled`, `Counters.OnEntry`,
`ScrollSpy.CurrentId`), and the properties are lemmas about those functions.
Two are stated by properties instead: `ScrollSpy.Highlight` by the active
flag each link ends with (its href is `#` followed by the current id), and
`Counters.OnEntries` by the marker and run facts of each element in the
batch.

The parts of the DOM the listeners consult become parameters:
- where a click landed (`Menu.Click`, or the two booleans of
  `NavMenu.ClickDocument`);
- what `document.querySelector` returns for an anchor (`Anchors.Lookup`,
  including the exception it throws on an invalid selector);
- the sections' `offsetTop`, `clientHeight` and `id`, and `window.pageYOffset`;
- the raw values of the form fields;
- the `isIntersecting` flag of each observer entry.

Whitespace is one predicate, `JsStrings.IsWs`. It is the ECMAScript
WhiteSpace and LineTerminator set, which both `String.prototype.trim` and the
regular-expression class `\s` use. The test `suffix.includes('%')` searches
for a one-character string, so it is written as `'%' in suffix`.

## Model

| member | source | states |
|---|---|---|
| `Menu.ToggleKeepsExactlyOneClass` | assets/js/main.js:13-14 | flipping both classes keeps "exactly one of `hidden`/`flex`" exactly when it held before |
| `Menu.PathData` | assets/js/main.js:22-25 | the icon's `d` attribute: the X path exactly for the X icon and the three-bar path exactly for the hamburger |
| `Menu.Toggled` | assets/js/main.js:12-26 | the toggle listener's effect on the nav: `hidden` is flipped, openness (`flex` present) is flipped, and the icon is set from `flex` |
| `Menu.ToggleSetsIcon` | assets/js/main.js:12-26 | after a toggle both classes are flipped and the icon is the X exactly when `flex` is present |
| `Menu.ToggleTwice` | assets/js/main.js:12-26 | two toggles restore both classes; they restore the whole state exactly when the icon agreed with `flex` beforehand |
| `Menu.LinkClicked` | assets/js/main.js:32-40 | the link listener's effect: `hidden` on, menu not open, and the state consistent |
| `Menu.DocumentClicked` | assets/js/main.js:44-57 | the document listener's effect: the state changes only for a click outside both nav and toggle on an open menu, and such a click always closes it |
| `Menu.LinkClickCloses` | assets/js/main.js:32-40 | a nav-link click leaves `hidden` on, `flex` off and the hamburger icon, and a second one changes nothing |
| `Menu.DocumentClickRule` | assets/js/main.js:44-57 | a document click changes the state only if the target is outside both the nav and the toggle and the menu is open, and then it closes the menu exactly as a link click does |
| `Menu.Dispatch` | assets/js/main.js:12-57 | one click on a given target, the target's listener first and then the document's; a consistent state stays consistent |
| `Menu.DispatchOutcome` | assets/js/main.js:12-57 | with the document listener running after the target's own listener, a toggle click toggles, a link click closes, a click elsewhere in the nav changes nothing and an outside click closes an open menu |
| `Menu.RunKeepsConsistent` | assets/js/main.js:12-57 | from a state with exactly one class and a matching icon, any sequence of clicks keeps that invariant |
| `Menu.NavMenu.Toggle` | assets/js/main.js:12-27 | the toggle listener updates the nav and icon to the toggled state |
| `Menu.NavMenu.ClickLink` | assets/js/main.js:32-40 | the link listener updates the nav and icon to the closed state |
| `Menu.NavMenu.ClickDocument` | assets/js/main.js:44-57 | the document listener updates the nav and icon as the outside-click rule says |
| `Menu.NavMenu.Click` | assets/js/main.js:12-57 | one click runs the target's listener and then the document's, reaching the dispatched state, and keeps the nav consistent when it was |
| `ScrollSpy.CurrentId` | assets/js/main.js:89-98 | the id the section scan settles on: `""` or the id of some reached section |
| `Anchors.OnAnchorClick` | assets/js/main.js:63-81 | the default is prevented iff the href is `#` or a target is found; the page scrolls iff the href is not `#` and a target is found; a missing target or a selector that throws keeps the default |
| `Anchors.BareHashIgnoresLookup` | assets/js/main.js:66-70 | for href `#` the outcome is "prevent, do nothing" whatever the document holds |
| `ScrollSpy.CurrentIdIsLastReached` | assets/js/main.js:89-98 | the scan yields `""` when no section has `pageYOffset >= offsetTop - 150`, and otherwise the id of the last such section in document order |
| `ScrollSpy.NoneReachedGivesEmpty` | assets/js/main.js:89-98 | with no section reached the scan keeps `""` |
| `ScrollSpy.LastReachedGivesId` | assets/js/main.js:92-97 | the scan settles on the id of the last reached section |
| `ScrollSpy.LastReachedExists` | assets/js/main.js:92-97 | when some section is reached there is a last reached one, at or after it |
| `ScrollSpy.HeightIsIrrelevant` | assets/js/main.js:92-95 | sections that agree on ids and offsets give the same current id, whatever their heights |
| `ScrollSpy.FindCurrent` | assets/js/main.js:89-98 | the section loop computes the current id |
| `ScrollSpy.Highlight` | assets/js/main.js:100-105 | after the link loop every href is unchanged and a link is active iff its href is `#` followed by the current id, whatever it was before |
| `ScrollSpy.OnScroll` | assets/js/main.js:85-106 | after the scroll listener every href is unchanged and a link is active iff its href is `#` followed by `CurrentId`: the last reached section's id, or `""` when none is reached, so only `#` links are active then |
| `ScrollSpy.NoSectionActivatesBareHash` | assets/js/main.js:89-105 | when no section is reached, the links made active are exactly those whose href is `#` |
| `JsStrings.IsWs` | assets/js/main.js:116-127 | the ECMAScript whitespace set shared by `trim()` and `\s`; it contains neither `@` nor `.` |
| `JsStrings.WsInBasicPlane` | assets/js/main.js:116-127 | every whitespace character is one UTF-16 code unit |
| `JsStrings.Strip` | assets/js/main.js:116-118 | removing the characters passing a test from both ends leaves a slice with only such characters around it and none at its ends, empty iff every character passes |
| `JsStrings.SliceIsUnique` | assets/js/main.js:116-118 | two slices that each have only passing characters around them and none at their ends are equal |
| `JsStrings.StripIsUnique` | assets/js/main.js:116-118 | any such slice is the result of stripping |
| `JsStrings.StripPadded` | assets/js/main.js:116-118 | passing characters added at either end are stripped again |
| `JsStrings.Trim` | assets/js/main.js:116-118 | `trim()` yields a slice with only whitespace around it and none at its ends, and yields `""` iff the input is all whitespace |
| `JsStrings.TrimIsUnique` | assets/js/main.js:116-118 | any slice with only whitespace around it and none at its ends is the result of `trim()` |
| `JsStrings.TrimPadded` | assets/js/main.js:116-118 | whitespace added at either end is removed again by `trim()` |
| `ContactForm.MatchesEmailPattern` | assets/js/main.js:127-128 | the pattern test, run by run; an accepted address has at least five characters, an `@` and a `.` |
| `ContactForm.EmailPatternMeaning` | assets/js/main.js:127-128 | `/^[^\s@]+@[^\s@]+\.[^\s@]+$/` accepts s iff s has no whitespace, exactly one `@`, a non-empty part before it, and a `.` strictly inside the part after it |
| `ContactForm.AlertText` | assets/js/main.js:120-134 | each alert has its own message: the fill-in, invalid-address and thank-you texts, one per alert |
| `ContactForm.Submit` | assets/js/main.js:112-136 | "fill in all fields" iff some field is all whitespace; "invalid e-mail" iff every field has content and the trimmed address fails the pattern; success otherwise; only success resets the form |
| `ContactForm.SurroundingWsIgnored` | assets/js/main.js:116-128 | whitespace around the e-mail address never changes the outcome |
| `Counters.FormatBranch` | assets/js/main.js:193-204 | millions iff target >= 1000000; grouped iff 1000 <= target < 1000000 and the suffix has no `%`; plain otherwise |
| `Counters.FormatNumber` | assets/js/main.js:191-205 | prefix and suffix wrap the number verbatim, the rendering is chosen from target and suffix, and the millions rendering formats the value divided by 1000000 |
| `Counters.FormatKindIgnoresLiveValue` | assets/js/main.js:193-199 | the rendering chosen never depends on the live value |
| `Counters.FormatExamples` | assets/js/main.js:191-205 | 2500000 renders as 2.5 millions, 4200 grouped, 87 with `%` plain, 5000 with `%` plain, `$` with 1000000 as 1.0 millions |
| `Counters.OnEntry` | assets/js/main.js:242-249 | an entry starts an animation iff it intersects and the element is unmarked; after it the element is marked iff it was marked or the entry intersects |
| `Counters.Starts` | assets/js/main.js:241-251 | the number of animations a sequence of entries starts on one element: at most one, and none once marked |
| `Counters.AnimatedAfter` | assets/js/main.js:241-251 | the marker after a sequence of entries: a marked element stays marked, and it becomes marked only through an intersecting entry |
| `Counters.AtMostOnce` | assets/js/main.js:240-251 | any sequence of entries for one element starts at most one animation, exactly one iff it was unmarked and some entry intersects, and leaves it marked iff it was marked or some entry intersects |
| `Counters.StartsNoneOnceMarked` | assets/js/main.js:246-249 | a marked element never starts an animation again |
| `Counters.CounterElement.OnIntersection` | assets/js/main.js:242-249 | one entry updates the marker as `OnEntry` says, counts the animation it starts, and keeps "at most one run, and a run implies marked" |
| `Counters.OnEntries` | assets/js/main.js:240-251 | over one batch of entries, possibly repeating an element, every element with an intersecting entry ends marked; the started elements are distinct, each unmarked before and from an intersecting entry; every other element is unchanged |

Three predicates and one function model a piece of the source but carry no contract of their
own; the rows of the members that use them cover them:
- `ScrollSpy.Reached` is the test `pageYOffset >= sectionTop - 150`
  (assets/js/main.js:95), used by `CurrentId` and `FindCurrent`.
- `Anchors.IsFragmentHref` is the selector `a[href^="#"]`
  (assets/js/main.js:62), the precondition of `OnAnchorClick`.
- `ContactForm.IsAddressChar` is the class `[^\s@]` (assets/js/main.js:127),
  used by `MatchesEmailPattern`.
- `Menu.Run` is a sequence of clicks dispatched one after another
  (assets/js/main.js:12-57), used by `RunKeepsConsistent`.

## Left out

- Browser I/O is not modelled: querying the DOM, registering listeners, `alert`, `scrollIntoView`, `preventDefault` itself and the internals of `form.reset()`. These become parameters and returned outcome values (`Anchors.ClickEffect`, `ContactForm.Outcome`).
- The fade-in observer and its style writes (assets/js/main.js:140-160), and the counter observer's threshold and root margin (assets/js/main.js:252-260). Visibility is a browser service, so an entry's `isIntersecting` is an input.
- The counter animation loop in `animateCounter` (assets/js/main.js:207-237). It is `requestAnimationFrame` scheduling against `performance.now` with a 2500 ms duration. Starting it is modelled as incrementing `CounterElement.runs`.
- `easeOutCubic` and `interpolateColor` (assets/js/main.js:163-189), and `Math.round` of the live value. They are IEEE-754 double arithmetic, which a model over `real` would misrepresent.
- Counters.FormatNumber: does not produce the text of `toFixed(1)` or `toLocaleString()`, because they are float formatting and a locale-dependent library call; it yields the rendering chosen and the quantity rendered. The millions quantity is the exact real quotient `number / 1000000`, while assets/js/main.js:194 divides in IEEE-754 doubles before `toFixed(1)` rounds, so the model does not capture that rounding.
- `parseFloat` of `data-target`: the target is a `real`, so NaN and the infinities are not modelled.
- The regular-expression engine. Its behaviour on this one pattern is stated directly as `ContactForm.MatchesEmailPattern`.
- Strings are sequences of Unicode scalar values rather than UTF-16 code units. Every whitespace character lies in the Basic Multilingual Plane, so trimming and `\s` are unaffected.
- `window.pageYOffset` is a `real` and `offsetTop` an `int`, as the browser reports them; there is no wrap-around to model.
