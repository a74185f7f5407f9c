# Vijay Classes site script: decision rules and slot updates

This project models the parts of the tutoring website's `app.js` that are more than DOM plumbing, and proves
properties of that model. The parts are:

- **Navigation** (`navigation.dfy`). A nav-link click scrolls to `max(0, offsetTop - (navHeight || 80) - 10)`.
  This happens only when the target section exists. The click also marks the clicked link active and closes the
  mobile menu. On scroll, the page keeps the *last* section whose span contains `scrollY + 150`, then rewrites
  every link's `active` class: first it clears the class, then it sets it back when the href equals
  `'#' + current`. The header gets the `scrolled` class above a page offset of 50.
- **Notifications** (`notifications.dfy`). The page is a class holding the document body and the pending timer
  callbacks. `showNotification` removes every existing notification and appends exactly one. For a positive
  duration it also schedules a dismissal, which acts only while its element is still attached. An unknown type
  falls back to the `info` background.
- **Debounce** (`debounce.dfy`). A state machine with at most one pending call. Every call replaces the pending
  call, and a quiet period runs the function once with the latest arguments. A specification function `Run`
  replays a sequence of events. The `Debouncer` class is the closure with its captured `timeout`.
- **Counter** (`counter.dfy`). The statistics counter's final text: the target, then `%` for 95, `+` for 15 and
  500, and nothing otherwise. Reading that text back with `parseInt` returns the target.
- **Floating buttons** (`floating_buttons.dfy`). A click is classified by href, in priority order `tel:`, then
  `wa.me`, then `#enquiry`. Each recognised class shows its own three-second `info` notification.
- **Mobile menu** (`mobile_menu.dfy`). The menu's `mobile-active` class and the toggle's `active` class start
  false. They are always flipped or cleared together, so they stay equal, and closing leaves both false.

`wrappers.dfy` holds the `Option` type.

The active section (app.js:549-559) is the *last* section whose span contains `scrollY + 150`; the lookahead is
a fixed 150. When no section matches, `current` stays `''` and the links are marked for the target `'#'`, so only
a link whose href is exactly `#` would become active. The model keeps this behaviour.

Browser time is abstract. A timer is a pending entry that fires when the environment chooses, and the debounce
quiet period is an `Elapse` event. The section geometry, scroll offsets, link hrefs and click targets are
parameters of the operations.

## Model

| member | source | states |
|---|---|---|
| Navigation.ActiveSection | app.js:549-559 | a non-empty current id belongs to a section whose span `[top, top+height)` contains the position |
| Navigation.ActiveSectionNone | app.js:549-559 | when no section's span contains the position, the current id is `''` |
| Navigation.ActiveSectionLastMatch | app.js:552-559 | a matching section with no matching section after it in document order is the current one |
| Navigation.ActiveSectionIsMatch | app.js:549-559 | conversely, a non-empty current id is that of a matching section with no later match |
| Navigation.LaterMatchWins | app.js:552-559 | a later matching section overrides every earlier section, whatever comes before it |
| Navigation.ResolveActiveSection | app.js:549-559 | the forEach scan that overwrites `current` yields the last section spanning `scrollY + 150`, or `''` |
| Navigation.Mark | app.js:537-542 | one link keeps its href and ends active iff its href equals the target, whatever its old flag |
| Navigation.MarkActive | app.js:561-566 | marking all links keeps their number |
| Navigation.MarkActiveExactly | app.js:535-543 | after marking, a link is active iff its href equals the target; hrefs are unchanged |
| Navigation.MarkActiveForgetsOldFlags | app.js:561-566 | every link is cleared first, so the result does not depend on the old active flags |
| Navigation.MarkActiveIdempotent | app.js:535-543 | marking twice with the same target equals marking once |
| Navigation.MarkActiveSingle | app.js:535-543 | with distinct hrefs at most one link is active, and exactly one when the target is among the hrefs |
| Navigation.UpdateActiveNavLink | app.js:535-543 | the marking loop leaves the links array equal to the marked old links |
| Navigation.HighlightActiveNavItem | app.js:545-567 | the links are marked for the target `'#' + current`, with `current` the last section spanning `scrollY + 150` |
| Navigation.FindSection | app.js:48-51 | the lookup gives the first section whose `'#' + id` is the href, or none when no section has it |
| Navigation.NavHeight | app.js:52 | the header height is the measured one when it is positive and 80 when it is 0; never 0 |
| Navigation.ScrollTarget | app.js:52-55 | the scroll target is non-negative, at least `top - h - 10`, and equal to 0 or to `top - h - 10` |
| Navigation.ScrollTargetClamp | app.js:53-55 | the clamped target is 0 exactly when `top <= h + 10` |
| Navigation.NavClick | app.js:45-61 | a missing section changes nothing; an existing one yields the clamped target, marks the links for the href and closes the menu |
| Navigation.Scrolled | app.js:69-74 | the header is `scrolled` exactly when the page offset is at least 51 |
| Navigation.ScrolledThresholdMonotone | app.js:68-75 | the `scrolled` class is off at offset 50 and on at 51, and stays on at every larger offset |
| MobileMenu.Menu.constructor | app.js:374-377 | both classes start off, so they start equal |
| MobileMenu.Menu.ToggleClick | app.js:375-379 | a toggle click flips both classes and keeps them equal |
| MobileMenu.Menu.DocumentClick | app.js:382-387 | a click outside both toggle and menu clears both; any other click changes nothing |
| MobileMenu.Menu.Close | app.js:393-401 | after `closeMobileMenu` both classes are off |
| Notifications.Background | app.js:442-463 | the background is always one of the four colours: the type's own, or info's for an unknown type |
| Notifications.WithoutToasts | app.js:436-437 | removing the existing notifications leaves no notification and keeps exactly the markup nodes |
| Notifications.WithoutToastsNone | app.js:436-437 | a body without notifications is left as it is |
| Notifications.Detached | app.js:485 | `remove()` takes out just that element, and it changes nothing when the element is already detached |
| Notifications.WithoutToastsAppend | app.js:436-437 | removing the notifications of two consecutive parts of the body removes them from each part, so the other nodes keep their order |
| Notifications.WithoutToastsCounts | app.js:436-437 | every notification goes, and every other node keeps its number of occurrences |
| Notifications.DetachedAppend | app.js:485 | `remove()` acts on each part of the body separately, so the other nodes stay where they were, in order |
| Notifications.DetachedCounts | app.js:485 | only the removed element goes; every other node keeps its number of occurrences |
| Notifications.DetachedKeepsAtMostOne | app.js:485 | removing an element never adds one, so at most one notification stays attached |
| Notifications.OnlyToast | app.js:436-475 | a body with no notification plus one appended notification holds exactly that one |
| Notifications.Page.ShowNotification | app.js:434-491 | afterwards the body holds exactly one notification, the one returned; a dismissal is queued iff `duration > 0`; every timer queued before targets an element no longer attached |
| Notifications.Page.FireTimer | app.js:481-488 | a dismissal acts only while its element is attached; the removal it queues detaches that element or does nothing |
| Notifications.Page.Close | app.js:452 | the close button detaches its notification and touches no timer |
| Notifications.LaterCallDisarmsEarlierDismissal | app.js:436-488 | two notifications in a row, then the first one's dismissal fires: the second stays the only notification and only its own dismissal is left |
| Debounce.Step | app.js:571-577 | a call replaces the pending call with its own arguments; a quiet period runs the pending call and clears it |
| Debounce.Run | app.js:569-579 | replaying events runs `func` at most once per event |
| Debounce.RunsAtMostOncePerElapse | app.js:569-579 | over any run of events, `func` runs at most once per quiet period |
| Debounce.RunsAtMostOncePerCall | app.js:569-579 | the runs of `func` plus the call left pending number at most the calls, counting the one pending at the start |
| Debounce.PendingIsLatestCall | app.js:576-577 | the pending call is the latest event's arguments when that event is a call, else there is none |
| Debounce.RunSnoc | app.js:569-579 | replaying one more event continues from the state the replay of the earlier events left |
| Debounce.RunIsFired | app.js:569-579 | `func` runs exactly with the arguments of each call directly followed by a quiet period, in order, plus the start's pending call when the events begin with a quiet period |
| Debounce.BurstRunsOnceWithLatest | app.js:569-579 | a burst of calls followed by a quiet period runs `func` exactly once, with the last call's arguments |
| Debounce.Debouncer.constructor | app.js:570 | a fresh closure has no pending timeout |
| Debounce.Debouncer.Invoke | app.js:571-578 | `executedFunction` makes its own arguments the single pending call |
| Debounce.Debouncer.Elapse | app.js:572-575 | `later` returns the pending arguments for `func` and leaves nothing pending |
| Counter.Suffix | app.js:290 | the suffix is `%` iff the target is 95, `+` iff it is 15 or 500, and empty otherwise |
| Counter.IntToDecimal | app.js:290 | `String(n)` is non-empty, starts with `-` iff `n` is negative, and is otherwise all digits |
| Counter.FinalText | app.js:290 | the final text starts with `-` iff the target is negative and ends in `%` iff the target is 95, in `+` iff it is 15 or 500, and in a digit otherwise |
| Counter.ParseInt | app.js:280 | `parseInt` of an empty text or of one starting with neither a digit nor a sign is NaN; a leading digit gives a non-negative number; a negative result needs a leading `-` |
| Counter.NatToDecimalValue | app.js:290 | the decimal digits written for a number read back as that number |
| Counter.FinalTextParsesBack | app.js:280-290 | `parseInt` of the final counter text gives back the target, because the suffix never starts with a digit |
| Counter.FinalTextExamples | app.js:286-290 | the final texts for 95, 15, 500, 42 and 0 are `95%`, `15+`, `500+`, `42` and `0` |
| FloatingButtons.Includes | app.js:417-423 | the empty text is always included, and an included text is no longer than the href |
| FloatingButtons.IncludesIff | app.js:417-423 | `includes` holds exactly when the text occurs at some index |
| FloatingButtons.Classify | app.js:417-426 | a click is Call iff `tel:` occurs, WhatsApp iff `wa.me` but not `tel:` occurs, Enquiry iff `#enquiry` but neither of the others occurs |
| FloatingButtons.Message | app.js:417-426 | exactly the recognised actions have a notification text |
| FloatingButtons.FloatingButtonClick | app.js:407-427 | an untracked href changes nothing; a recognised one shows its message as the single `info` notification with the next handle, queues its dismissal, and leaves every earlier timer aimed at a detached element |

## Left out

- Styling, `innerHTML` templates, the injected CSS, the loading indicator and the 100 ms entrance transition of a
  notification. They are presentation only.
- `IntersectionObserver` wiring, `requestAnimationFrame` loops and real timer delays. They are browser scheduling.
  Timers are modelled only as pending entries, and the debounce quiet period only as an event.
- The easing curves and the counter's intermediate values. They are floating point. Only the exact endpoint at
  progress 1 is modelled, where the eased factor is exactly 1.
- Counter.IntToDecimal: `String(n)` is modelled on unbounded integers. It is exact only for |target| <= 2^53
  (`Number.MAX_SAFE_INTEGER` + 1). Past that a JavaScript number is a double, and `String` prints the
  shortest digits that read back as that double: 2^64 prints as `18446744073709552000`, not as its exact digits.
  From 10^21 up JavaScript also switches to exponent form. A `NaN` target from a non-numeric `data-count` is
  not modelled either.
- Counter.ParseInt: at app.js:280 `parseInt` reads the page author's `data-count` attribute. That read is not
  modelled: `FinalText` takes the target as a parameter, and `ParseInt` serves only to read the final text back.
  Leading white space, which `parseInt` skips, and the `0x`/`0X` prefix, which makes it read hexadecimal, are not
  modelled, so on a `data-count` such as ` 95` or `0x5F` the model (NaN, 0) and the source (95, 95) differ.
  The result is an unbounded integer. JavaScript rounds a value past 2^53 to the nearest double, so the model
  is exact only for |value| <= 2^53.
- The Google Form iframe handling (app.js:81-260), performance logging (app.js:494-508), console output, the
  `window.VijayClasses` export (app.js:633-643), and the quick-contact link tracking and delayed welcome
  notification (app.js:582-630). They are I/O, foreign APIs, or plain callers of `showNotification`.
- Notifications.Background: the lookup is a plain map. The JavaScript object literal would also answer for
  inherited property names such as `constructor`; that case is not modelled.
- Notifications.Page: markup elements are assumed not to carry the `notification` class, so only notifications
  this function created are removed.
- Navigation.FindSection: `document.querySelector(href)` is modelled as a lookup by id among the page's sections.
  Section ids are assumed to be plain CSS identifiers. An id with selector characters, such as `a.b`, is found
  by the model for the href `#a.b`, while `querySelector('#a.b')` looks for id `a` with class `b`. Other elements
  with that id are not modelled. Hrefs that are valid selectors of another form, such as `.x` or
  `about`, return some other element or null; the model treats them as not found. An invalid selector makes
  `querySelector` throw, which is not modelled either. A missing `.navigation` element is not modelled.
- Scroll positions and element offsets are modelled as integers; browsers may report fractional `scrollY`.
- Form validation, phone formatting and relay submission do not appear in `app.js`, so there is no source to
  model them against.
