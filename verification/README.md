# Hytale launch countdown — a Dafny model

This project models the behaviour of the Hytale countdown site. The site is a React
page that counts down to the launch of 13 January 2026, 15:00 UTC. It is built from
the following parts:

- **App**: the main page. It splits the milliseconds left into days, hours, minutes
  and seconds, ticks once a second, and derives the campaign progress from the
  announcement (13 December 2018) to launch. It also picks its language from the
  browser, and a toggle switches between English and Spanish.
- **PopupApp**: the pop-out window. It takes its language from a `?lang=` query
  parameter and runs the same countdown, except that it resets to zero after launch.
- **ProgressBar**: the zoomable timeline.
  - Date-to-position projection.
  - Wheel zoom with clamping and a snap back to 1×.
  - Eased zoom animation.
  - Drag to scroll, with a low-pass velocity filter.
  - Inertial scrolling with friction.
  - The rules that fade, scale and label the milestone markers.
- **useDynamicFavicon**: the text, font size and ring colour the hook would draw on the
  favicon. No file of the site calls the hook, so the shipped page never shows this favicon;
  the model covers the hook as written.
- **CountdownTimer**: the four two-digit numbers, each with the initial of its unit
  name.
- **FloatingWidget**: the draggable corner widget.
  - Close and restore, remembered across reloads.
  - Grab offset.
  - Keeping the widget on screen while it is dragged.

Each part is one module of pure functions over immutable records. The system's
environment becomes explicit parameters:

- the current time `now` and `performance.now()`;
- `navigator.language`;
- the `lang` query parameter;
- the `hytale_widget_closed` entry of local storage;
- window and element sizes;
- pointer coordinates.

JavaScript numbers are modelled as exact reals. The module `JsNum` defines `Math.floor`
(`.Floor`) and the truncating `%` operator (`JsRem`) over them. It proves that the page's
real-valued formulas agree with integer division and remainder on whole milliseconds.
Animation loops driven by `requestAnimationFrame` become one-frame step functions.
Each also has a loop method that runs the step until the source's own stopping test
holds. Each loop's termination measure is derived from the step's contraction factor
(0.88 for zoom, 0.95 for inertia).

The model follows the code where it differs from a plain reading of the site's intent:

- After the target, the main page keeps the last countdown it showed instead of
  clearing it. `App.FrozenAfterTarget` and `App.StaleSecondAfterTarget` state this.
  The pop-out window resets to zero, as `PopupApp.DivergesAfterTarget` states.
- The wheel zoom first clamps the scaled zoom to [1, 80], and then turns every result
  below 1.1 into exactly 1. So a zoom-out step from any zoom under 1.375 lands on 1.
- The timeline does not clamp its scroll offset. The browser clamps `scrollLeft` to
  the scrollable width, and that clamp is left out (see below).

## Model

| member | source | states |
|---|---|---|
| JsNum.Trunc | App.tsx:88-90 | the quotient JavaScript's `%` uses is truncated toward zero: within one below a non-negative number, within one above a negative one |
| JsNum.JsRem | App.tsx:88-90 | JavaScript's `%` by a positive modulus leaves a remainder in [0, m) for a non-negative dividend and in (−m, 0] for a negative one |
| JsNum.FloorOfQuotient | App.tsx:87 | `Math.floor(d / 86400000)` on a whole number of milliseconds equals integer division |
| JsNum.FloorOfRemainder | App.tsx:88-90 | `Math.floor((d / k) % m)` with JS's truncating `%` equals `(d / k) mod m` in integers, for positive `d` |
| App.JsBreakdown | App.tsx:86-91 | the page's real-valued field formulas give, for a non-negative difference, exactly the integer quotient and remainders: days = d div 86400000, hours = (d div 3600000) mod 24, minutes = (d div 60000) mod 60, seconds = (d div 1000) mod 60 |
| App.BreakdownCorrect | App.tsx:85-91 | for a positive difference, the page's formula yields days = d div 86400000, hours < 24, minutes < 60, seconds < 60. The fields add back up to the difference, to within the dropped milliseconds |
| App.BreakdownUnique | App.tsx:85-91 | any in-range breakdown that adds back up to the difference is the one the formula produces, so the breakdown is the unique mixed-radix decomposition |
| App.CalculateTimeLeft | App.tsx:82-94 | zero once the target is reached. Before it, the result is in range and reconstructs the time left |
| App.OneDayBeforeLaunch | App.tsx:82-94 | exactly 24 h before the launch instant the countdown reads 1 day, 0 h, 0 min, 0 s |
| App.Progress | App.tsx:101-109 | the progress is clamped to [0, 100]. It is 0 at or before the start and 100 at or after the target. In between it is the elapsed share: progress × (target − start) = (now − start) × 100 |
| App.ProgressMonotone | App.tsx:107-108 | progress never decreases as time advances |
| App.ToggleLang | App.tsx:24-26 | the toggle always changes the language |
| App.ToggleInvolution | App.tsx:24-26 | toggling twice restores the language |
| App.FirstSegment | App.tsx:18 | the part of the locale before the first `-`: a prefix with no `-`, ended by a `-` when shorter than the locale |
| App.InitialLang | App.tsx:17-21 | the page starts in Spanish exactly when the browser locale is `es` or begins with `es-`, and in English otherwise |
| App.EsPrimarySubtag | App.tsx:18-19 | the primary subtag of a locale is `es` exactly for the locale `es` and locales beginning with `es-` |
| App.Mount | App.tsx:96-97 | the page mounts with progress 0, the browser's language, and a countdown that is zero at or after the target and otherwise reconstructs the time left |
| App.Tick | App.tsx:99-118 | a tick keeps the language and sets progress to the clamped elapsed share at `now`, which lies in [0, 100]. Before the target it sets a reconstructing countdown. After it, the countdown is left unchanged and progress reads 100 |
| App.FrozenAfterTarget | App.tsx:111-118 | every tick at or after the target leaves the displayed countdown and the language as they were |
| App.StaleSecondAfterTarget | App.tsx:111-118 | when the last tick falls 1.5 s before launch, `0 d 0 h 0 min 1 s` stays on screen after launch while progress reads 100 |
| PopupApp.LangFromQuery | PopupApp.tsx:13-17 | the pop-out window is Spanish exactly when the `lang` parameter is `es` |
| PopupApp.QueryRoundTrip | PopupApp.tsx:13-17 | passing a language's code in `?lang=` opens the window in that language |
| PopupApp.Mount | PopupApp.tsx:8-17 | the window mounts with a zero countdown and the query's language |
| PopupApp.Calculate | PopupApp.tsx:24-38 | keeps the language. Resets to zero once the target is reached, and before it sets a reconstructing countdown |
| PopupApp.SynchronisedWithApp | PopupApp.tsx:22-35 | before launch the window shows exactly what the main page's tick shows |
| PopupApp.DivergesAfterTarget | PopupApp.tsx:36-38 | after launch the window shows zero while the main page keeps its last value |
| ProgressBar.GetPosition | components/ProgressBar.tsx:56-59 | a date's position on the bar is in [0, 100]. It is 0 at or before the start and 100 at or after the end. In between it is the date's share of the span: position × (end − start) = (date − start) × 100 |
| ProgressBar.PositionIsProgress | components/ProgressBar.tsx:56-59 | the bar's projection agrees with the page's progress at the same instant |
| ProgressBar.PositionMonotone | components/ProgressBar.tsx:56-59 | later dates are never placed to the left of earlier ones |
| ProgressBar.ZoomFactor | components/ProgressBar.tsx:76-78 | the factor is 1.25 exactly when the wheel scrolls up, and 0.8 otherwise |
| ProgressBar.ZoomStep | components/ProgressBar.tsx:77-83 | a new zoom is in [1, 80] and is either exactly 1 or at least 1.1. It is the scaled zoom when that lies in [1.1, 80], 1 below 1.1, and 80 above 80 |
| ProgressBar.ZoomStepDirection | components/ProgressBar.tsx:76-83 | scrolling up never zooms out, and scrolling down never zooms in |
| ProgressBar.ZoomInThenOut | components/ProgressBar.tsx:76-83 | one notch in and one out returns to the same zoom for zooms in [1.1, 64] |
| ProgressBar.ZoomOutThenIn | components/ProgressBar.tsx:76-83 | one notch out and one in returns to the same zoom for zooms in [1.375, 80] |
| ProgressBar.WheelScenario | components/ProgressBar.tsx:76-83 | from 1×, two notches in then one out give 1.25× (1.5625 × 0.8) |
| ProgressBar.Wheel | components/ProgressBar.tsx:61-84 | a wheel event always stops inertia and zeroes velocity. A horizontal swipe leaves the target zoom alone, and otherwise the target takes one zoom step. Nothing else changes |
| ProgressBar.EaseStep | components/ProgressBar.tsx:91-96 | an easing frame never overshoots and strictly shrinks the gap to the target. It lands on the target when within 0.01, and otherwise keeps 88 % of the gap |
| ProgressBar.EaseFrame | components/ProgressBar.tsx:87-101 | while the zoom is at least 0.001 off target, a frame takes one easing step; otherwise it leaves the viewport unchanged. Only the current zoom ever changes |
| ProgressBar.SettleZoom | components/ProgressBar.tsx:87-101 | the easing loop stops with the zoom on its target (or never starts when already within 0.001). It changes only the zoom, within a frame count bounded by the initial gap |
| ProgressBar.MouseDown | components/ProgressBar.tsx:124-138 | a press on an interactive milestone marker (the marker stops its propagation, `components/ProgressBar.tsx:330`) or at zoom ≤ 1.05 changes nothing. Otherwise it starts a drag, kills inertia and records the anchor (press position, scroll, last x, time) |
| ProgressBar.FilterVelocity | components/ProgressBar.tsx:150-160 | when time has advanced, the new velocity is 0.6 × the sampled dx/dt plus 0.4 × the old velocity, so it lies between the two; when it has not, the velocity is unchanged |
| ProgressBar.MouseMove | components/ProgressBar.tsx:140-164 | while dragging, the scroll is the anchor's scroll minus 1.5× the pointer's travel, and velocity and last sample are updated. Otherwise nothing changes |
| ProgressBar.DragFollowsPointer | components/ProgressBar.tsx:124-149 | after a press and any non-empty run of moves, the scroll depends only on the press and the last pointer position |
| ProgressBar.MouseUp | components/ProgressBar.tsx:166-188 | releasing ends the drag and starts inertia, changing nothing else |
| ProgressBar.MouseLeave | components/ProgressBar.tsx:190-192 | leaving acts as a release while dragging, and does nothing otherwise |
| ProgressBar.InertiaFrame | components/ProgressBar.tsx:169-184 | below 0.05 the loop zeroes velocity and stops. Otherwise it scrolls by 14 × velocity and multiplies velocity by 0.95 |
| ProgressBar.DecayedGeometric | components/ProgressBar.tsx:179-182 | after n frames the velocity is v₀·0.95ⁿ, keeping its sign and never growing |
| ProgressBar.InertiaBudgetDrops | components/ProgressBar.tsx:170-182 | each moving frame lowers the frame budget by at least one, so the inertia loop terminates |
| ProgressBar.RunInertia | components/ProgressBar.tsx:166-187 | the inertia loop ends with inertia off and velocity 0. It stops at n, the first frame at which abs(v₀·0.95ⁿ) < 0.05: every earlier frame moved at or above that speed. n is within the frame budget. It changes only scroll and velocity. The total travel is 280·(v₀ − v₀·0.95ⁿ), never more than 280·abs(v₀) |
| ProgressBar.ViewMilestone | components/ProgressBar.tsx:293-312 | major markers are fully opaque, full size and clickable. Minor ones fade with zoom and are not clickable below opacity 0.1. A marker is past exactly when it is at or left of the progress. Labels show for majors above 1.5× and for all above 6×, alternating above and below |
| ProgressBar.MinorFadeIn | components/ProgressBar.tsx:302-306 | a minor marker is invisible up to 1.1×, fully visible from 2.6×, and clickable exactly from 1.25× |
| ProgressBar.FadeMonotone | components/ProgressBar.tsx:298-306 | zooming in never makes a marker fainter or smaller |
| ProgressBar.ReachedMilestoneIsPast | components/ProgressBar.tsx:294-295 | when the displayed percentage is the progress at `now`, a milestone dated at or before `now` is drawn as past. The page passes its `progress` state, which is 0 until the first tick and up to one second stale afterwards |
| ProgressBar.IsMajor | components/ProgressBar.tsx:296 | `!!m.major`: a milestone is major only when its flag is present and true; a missing or false flag is minor |
| ProgressBar.EventsPreserveValid | components/ProgressBar.tsx:61-192 | every event and frame keeps the viewport invariant: zoom and target in [1, 80], and no drag during inertia |
| Favicon.TierOf | hooks/useDynamicFavicon.ts:67-83 | the five display tiers (over 999 days, 100–999, 1–99, hours only, under an hour), each as an if-and-only-if on days and hours |
| Favicon.FaviconLabel | hooks/useDynamicFavicon.ts:27-83 | the ring is gold exactly when days is 0. Each tier shows its text (`999+`, the day count, `Nh`, `!`) in its font size (18, 20, 26, 24, 32 px) |
| Favicon.LabelFits | hooks/useDynamicFavicon.ts:65-83 | for a valid countdown the favicon text is at most four characters, and a shown day count reads back as the days |
| Favicon.LaunchDayLabels | hooks/useDynamicFavicon.ts:27-83 | one day out: blue `1` at 26 px. Five hours out: gold `5h`. At launch: gold `!` |
| NumberText.ParseNatToString | hooks/useDynamicFavicon.ts:65 | the decimal text of a natural number reads back as that number |
| NumberText.PadStart | components/CountdownTimer.tsx:10 | `padStart` keeps the string as the suffix, fills the front with the fill character, and yields length max(target, original) |
| NumberText.NatToString | hooks/useDynamicFavicon.ts:65 | `toString` of a non-negative integer is a non-empty run of decimal digits with no leading zero |
| NumberText.IntToString | components/CountdownTimer.tsx:10 | `toString` of an integer is the digits of a non-negative one, and a minus sign before the digits of the magnitude otherwise |
| NumberText.TwoDigits | components/CountdownTimer.tsx:10 | values 0–9 get one leading zero and larger ones are unchanged. The text is at least two digits and reads back as the value |
| CountdownTimer.Initial | components/CountdownTimer.tsx:19 | `charAt(0)` is the first character, or empty for an empty name |
| CountdownTimer.Item | components/CountdownTimer.tsx:10-21 | one item shows the value's decimal text padded to two digits with leading zeros and no more ("07", "12", "123"), reading back as the value, with the unit's initial |
| CountdownTimer.Items | components/CountdownTimer.tsx:24-31 | exactly four items in the order days, hours, minutes, seconds, each with its unit's initial and, for a valid countdown, its field's text padded to exactly two digits ("02 D") |
| CountdownTimer.EnglishSuffixes | components/CountdownTimer.tsx:19 | in English the suffixes are D, H, M, S |
| FloatingWidget.Mount | components/FloatingWidget.tsx:11-23 | the widget starts hidden exactly when the stored flag is `"true"`, in its default corner, not dragging |
| FloatingWidget.Close | components/FloatingWidget.tsx:25-29 | closing hides the widget and stores the flag, changing nothing else |
| FloatingWidget.Restore | components/FloatingWidget.tsx:31-34 | restoring shows the widget and removes the flag, changing nothing else |
| FloatingWidget.ChoiceSurvivesReload | components/FloatingWidget.tsx:18-34 | a closed widget stays hidden after a reload and a restored one is shown. Restore undoes close |
| FloatingWidget.PointerDown | components/FloatingWidget.tsx:38-56 | presses on a hidden widget or on the close button are ignored. Otherwise a drag starts with the grab offset from the widget's corner |
| JsNum.Clamp | components/FloatingWidget.tsx:74-75 | `Math.max(lo, Math.min(hi, x))` is never below lo and never above hi when lo ≤ hi. It is the identity inside the range, lo at or below lo, and hi at or above hi. It is lo when hi ≤ lo, so the widget goes to 0 in a window too small for it. The same clamp places timeline dates and fades minor markers |
| FloatingWidget.SizeOr | components/FloatingWidget.tsx:71-72 | `offsetWidth \|\| 200`: a non-zero measured size is used as is, a zero size falls back to the default |
| FloatingWidget.PointerMove | components/FloatingWidget.tsx:59-78 | without an active drag nothing changes. Otherwise the new position is the pointer minus the grab offset, clamped to the window less the widget size (200 × 100 when unmeasured) |
| FloatingWidget.DragStaysOnScreen | components/FloatingWidget.tsx:67-75 | while dragging, the widget's corner stays inside the window whenever the widget fits |
| FloatingWidget.DragMovesWithPointer | components/FloatingWidget.tsx:38-77 | for any rendered widget size (0 falls back to 200 × 100), a move that keeps the widget inside the window moves it by exactly the pointer's displacement since the press |
| FloatingWidget.PointerUp | components/FloatingWidget.tsx:80-83 | releasing ends the drag and forgets the offset, keeping the position |
| FloatingWidget.EventsPreserveValid | components/FloatingWidget.tsx:25-83 | every event keeps "dragging exactly when a grab offset is recorded" |
| FloatingWidget.StaysInCornerUntilDragged | components/FloatingWidget.tsx:14-77 | the widget keeps its default corner, and its visibility, through any run of events without a drag move |
| FloatingWidget.Readout | components/FloatingWidget.tsx:155-174 | the widget's compact readout shows the same four items as the large countdown |
| FloatingWidget.Substring01 | components/FloatingWidget.tsx:158 | `substring(0, 1)` gives the same initial as `charAt(0)` |

## Left out

- Rendering: JSX, styling classes, `getCategoryStyles`, the edition cards, the navbar, the pop-out content layout and the particle background. They are presentation only.
- Canvas drawing of the favicon (arc, colours other than the ring, the `<link>` element). The model keeps only the text, font size and ring colour the hook selects.
- SEO title and JSON-LD injection in `App.tsx`. It is document metadata with no state.
- Timers and storage as mechanisms: `setInterval`, `requestAnimationFrame`, `cancelAnimationFrame` and `localStorage`. Time and the stored flag are parameters, and a frame loop is a step function plus a loop method.
- IEEE-754 rounding: numbers are exact reals, so float rounding in the easing and inertia products is not modelled.
- ISO date parsing: dates are millisecond integers. `StartMs` and `TargetMs` are the two constants in that form, and `constants.ts` and the milestone list are not part of this model beyond the record shape.
- The timeline's focus-centering effect (`components/ProgressBar.tsx:103-122`) and the `zoomFocus` update in the wheel handler. Both read and write DOM scroll geometry.
- The year and month markers of the timeline. They are drawing of the same projection `GetPosition` models.
- The browser's own clamp of `scrollLeft` to [0, scrollWidth − clientWidth]. The modelled scroll is the value the code assigns.
- Touch against mouse coordinates in the floating widget, and `preventDefault`. The model takes client coordinates directly. The one `stopPropagation` that changes behaviour, on the interactive milestone markers, is the `onMarker` input of `ProgressBar.MouseDown`.
- Strings are sequences of Unicode scalar values. JavaScript's `charAt(0)` and `substring(0, 1)` (`components/CountdownTimer.tsx:19`, `components/FloatingWidget.tsx:158`) index UTF-16 code units instead. The two differ only when a name starts with a character outside the Basic Multilingual Plane, and no unit name does.
- `index.tsx`, the router between the page and the pop-out window.
- FloatingWidget.PointerDown: a missing element reference (`widgetRef.current` null) is modelled as the widget being hidden, since the element is only rendered while visible.
- App.Progress: requires start < target. The site's constants satisfy it, and with equal dates the source would divide by zero.
- App.Tick: requires start < target, for the same reason as `App.Progress`.
- ProgressBar.GetPosition: requires start < end, for the same reason.
- ProgressBar.ViewMilestone: requires start < end, for the same reason.
- ProgressBar.RunInertia: states the travel through the recursive decay `Decayed`. The closed form v₀·0.95ⁿ is `ProgressBar.DecayedGeometric`.
