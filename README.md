# becomes-visible, modelled in Dafny

A model of the jQuery "becomes visible" plugin (`jquery.becomesvisible.js`).
The plugin watches a set of elements. It hands each element to a callback once
the element has stayed in the browser's viewport for a dwell time (`delay`,
1000 ms by default). Each call of the plugin opens a session, and each session
keeps its own side data on its elements:

- the time the element appeared in the viewport;
- the id of the dwell timer armed for it;
- the is-visible mark set when it was delivered.

Every window event (load, resize, scroll, or the plugin's own refresh
trigger) polls every session. A session's dwell timer polls it again and then
delivers the batch of elements whose dwell has elapsed.

The project has three modules:

- `Viewport` (`viewport.dfy`) is the viewport test `isElementInViewport` with
  its two policies (any part visible, completely visible). It proves how the
  test relates to reference definitions: rectangle containment and shared area.
- `Tracking` (`tracking.dfy`) is the state machine as values. It holds:
  - one pass of the poll loop (`Step`);
  - the loop over a session's elements (`Walk`);
  - `checkElements` (`Check`) and `checkVisibleElements` (`CheckVisible`);
  - runs of events (`Run`).

  The lemmas state what one poll does to each element, what delivery does, and
  that a delivered element is never handed over again.
- `Sessions` (`sessions.dfy`) holds the mutable objects. A `Session` class has
  the options object's fields and one collection per kind of side data. Its
  `CheckElements` and `CheckVisibleElements` methods update those fields in
  place and are proved equal to `Tracking.Check` and `Tracking.CheckVisible`.
  A `Registry` class stands for the plugin's `allOptions`. It has `Track`
  (init), `Broadcast` (a window event reaching every session) and `Refresh`.

The browser is an input, `Tracking.Env`, with these parts:

- the window size;
- every element's bounding rectangle, in whole pixels;
- the clock reading for the poll;
- what each selector resolves to at the moment.

The callback is reduced to two facts: whether one is configured, and whether it
throws. A timer firing is a call of `Session.CheckVisibleElements`.

The model follows the code as written, including these behaviours that a
reader might not expect:

- **No second notification.** A delivered element keeps its is-visible mark
  forever (jquery.becomesvisible.js:91-93, and the promise at line 24 that an
  element is given to the callback only once). Every later poll skips it, even
  after it leaves the viewport and comes back (`Tracking.NeverHandedAgain`).
  A tracker that notified again for each new visibility episode would behave
  differently.
- **No timer is cancelled.** Leaving the viewport only drops the recorded
  timer id, so a stale timer still fires and re-polls. It hands nothing over
  for an element that has left (`Tracking.StaleTimerSkipsExited`), unless a
  poll after its dwell had already added it to the batch.
- **Leaving does not empty the batch.** A scroll poll after the dwell adds the
  element to the batch (line 107). A later poll that finds it outside the
  viewport clears only its side data (line 111), not its place in the batch.
  The timer then marks it and hands it to the callback while it is out of the
  viewport (`Tracking.StaleTimerHandsBatchedLeaver`).
- **Zero-area rectangles count.** The any-part test is strict on every edge
  (`Viewport.AnyPartIsStrict`). It is the same as a shared positive area only
  for rectangles of positive size. A zero-height element inside the window
  passes it (`Viewport.FlatElementCountsAsVisible`).
- **The batch can repeat an element.** A scroll poll after the dwell adds the
  element to the batch without delivering it. The timer's own poll then adds
  it again, so one callback call can receive the element twice
  (`Tracking.OneCallCanRepeat`). The batch is therefore a sequence.
- **A throwing callback loses the clear.** When the callback throws, the
  statement that empties the batch is never reached. The next timer hands the
  same, already marked, elements over again
  (`Tracking.RaisingCallbackIsRepeated`). At most once per element is proved
  for runs whose callback returns normally (`Tracking.AtMostOnce`).
- **Side data outlives a refresh.** A refresh re-resolves the elements
  (line 80) but leaves the data on elements it drops. An element that one
  refresh drops and a later one brings back keeps its old appeared time, so
  its first poll back can add it to the batch with no new dwell
  (`Tracking.ReturningElementSkipsDwell`).
- **A zero timestamp counts as unset.** The appeared time is tested for
  truthiness, so a timestamp of 0 counts as "not appeared" (`Tracking.Appeared`).

## Model

| member | source | states |
|---|---|---|
| `Viewport.AnyPartIsEdgeTest` | jquery.becomesvisible.js:146-152 | the any-part test, written through height and width, holds exactly when top < window height, bottom > 0, left < window width and right > 0 |
| `Viewport.AnyPartIsStrict` | jquery.becomesvisible.js:147-152 | an element whose bottom or right is 0, or whose top or left is the window's height or width, is not in the viewport under the any-part policy |
| `Viewport.FrameIsCompletelyVisible` | jquery.becomesvisible.js:136-143 | the test is inclusive at the edges: the window's own rectangle, which touches all four, is completely visible |
| `Viewport.PastRightEdgeIsNotCompletelyVisible` | jquery.becomesvisible.js:136-143 | an element whose right edge is one pixel past the window's width is not completely visible, whatever its other edges |
| `Viewport.CompletelyVisibleIsContainment` | jquery.becomesvisible.js:136-143 | for a proper rectangle, completely visible means every point of the element is a point of the window |
| `Viewport.AnyPartIsSharedArea` | jquery.becomesvisible.js:146-152 | for an element and a window of positive size, the any-part test means they share a positive area |
| `Viewport.FlatElementCountsAsVisible` | jquery.becomesvisible.js:147-152 | a zero-height element inside the window passes the any-part test although it shares no area with the window |
| `Viewport.CompletelyImpliesAnyPart` | jquery.becomesvisible.js:136-152 | an element of positive width and height that is completely visible is also visible in part |
| `Tracking.Merge` | jquery.becomesvisible.js:47-59 | an absent delay becomes 1000 and an absent completelyVisible becomes false; given options win; a given completelyVisible option is used as it is |
| `Tracking.Initial` | jquery.becomesvisible.js:59-63 | a new session has no side data on any element, an empty batch, the re-select flag off, and the given elements |
| `Tracking.WalkFrame` | jquery.becomesvisible.js:84-113 | a poll never changes the is-visible marks or the element list; the batch only grows, and only by polled elements that are unmarked and in the viewport |
| `Tracking.WalkOthers` | jquery.becomesvisible.js:84-113 | an element the poll does not visit keeps its appeared time, timer id and mark |
| `Tracking.SkipsMarked` | jquery.becomesvisible.js:90-93 | an element marked is-visible keeps its appeared time and timer id exactly and is not added to the batch |
| `Tracking.ClearsOnExit` | jquery.becomesvisible.js:109-112 | an unmarked element polled outside the viewport ends the poll with no appeared time and no timer id, and is not added to the batch |
| `Tracking.ArmsOnlyOnAppearance` | jquery.becomesvisible.js:95-103 | a timer id is newly recorded only for an element that is polled unmarked, inside the viewport and without an appeared time; it then has appeared now; so an element that already had an appeared time never gets a new timer |
| `Tracking.KeepsAppeared` | jquery.becomesvisible.js:95-108 | while an element stays in the viewport its set appeared time is never changed |
| `Tracking.FirstSightingArms` | jquery.becomesvisible.js:95-103 | an element polled once, unmarked, in the viewport and without an appeared time ends the poll appeared now, with a timer id, and not added to the batch |
| `Tracking.AddsAfterDwell` | jquery.becomesvisible.js:95-108 | an element polled once is added to the batch if and only if it is unmarked, in the viewport and appeared at least delay before now; it is then added once, loses its timer id and keeps its appeared time |
| `Tracking.CheckReselects` | jquery.becomesvisible.js:78-82 | after a refresh the poll takes the elements the selector resolves to now and clears the flag; otherwise it keeps its elements |
| `Tracking.DeliveryRules` | jquery.becomesvisible.js:116-126 | the timer callback calls the callback at most once, exactly when one is configured and the batch after its poll is non-empty, with that batch; exactly the handed elements become marked, and appeared times, timer ids and elements stay as the poll left them; if the batch held no marked element, no handed element was marked before; afterwards the batch is empty, except after a throw, when it is still the batch that was handed over |
| `Tracking.TimerDeliversAfterDwell` | jquery.becomesvisible.js:104-122 | a timer firing for an element that is unmarked, in the viewport and past its dwell hands it to a configured callback and marks it |
| `Tracking.ReturningElementSkipsDwell` | jquery.becomesvisible.js:78-107 | an element dropped by one refresh and brought back by a later one keeps its appeared time and is added to the batch on its first poll back, with no new dwell |
| `Tracking.StaleTimerSkipsExited` | jquery.becomesvisible.js:109-126 | a timer firing after its element left the viewport clears that element's appeared time and timer id and does not hand it over, provided no earlier poll after its dwell had already put it in the batch |
| `Tracking.StaleTimerHandsBatchedLeaver` | jquery.becomesvisible.js:104-122 | an element added to the batch by a scroll after its dwell, then found outside the viewport by a later scroll, is still handed to the callback and marked when the stale timer fires |
| `Tracking.StaysMarked` | jquery.becomesvisible.js:78-126 | any single event keeps a marked element that is not in the batch marked, out of the batch and out of the callback's argument |
| `Tracking.NeverHandedAgain` | jquery.becomesvisible.js:90-93 | a marked element that is not in the batch is never handed to the callback again, whatever window events, refreshes and timers follow |
| `Tracking.KeepsBatchUnmarked` | jquery.becomesvisible.js:104-125 | window events, refreshes and timers whose callback returns keep every element of the batch unmarked |
| `Tracking.AtMostOnce` | jquery.becomesvisible.js:24 | over any run of events whose callback returns, no element is handed to the callback in two different calls, an element marked at the start is never handed over, and no call gets an empty batch |
| `Tracking.RaisingCallbackIsRepeated` | jquery.becomesvisible.js:119-125 | if the callback throws, the next timer hands the same batch over again, as the start of its own batch |
| `Tracking.OneCallCanRepeat` | jquery.becomesvisible.js:104-124 | a scroll after the dwell followed by the timer hands the same element twice in one callback call |
| `Sessions.Session.constructor` | jquery.becomesvisible.js:58-63 | a new session carries the merged options and the initial state |
| `Sessions.Session.CheckElements` | jquery.becomesvisible.js:78-114 | the in-place poll leaves the session in exactly the state `Tracking.Check` gives for its old state |
| `Sessions.Session.CheckVisibleElements` | jquery.becomesvisible.js:116-126 | the in-place timer callback leaves the session in the state, and hands over the batch, that `Tracking.CheckVisible` gives |
| `Sessions.Registry.constructor` | jquery.becomesvisible.js:43 | the registry starts with no sessions |
| `Sessions.Registry.Track` | jquery.becomesvisible.js:58-69 | init registers one fresh session with the merged options, after every existing one, and polls it once from the initial state |
| `Sessions.Registry.Broadcast` | jquery.becomesvisible.js:65-67 | a window event polls every registered session once, each as `Tracking.Check` says |
| `Sessions.Registry.Refresh` | jquery.becomesvisible.js:70-75 | refresh sets every session's re-select flag and then polls every session, so each re-resolves its elements first |

## Left out

- The plugin's entry point (`$.fn.becomesVisible`) is left out. It dispatches by method name and writes an error message into unknown callers' HTML. This is jQuery plumbing, and `Registry.Track` and `Registry.Refresh` stand for its two methods.
- Binding the window events is left out. Each load, resize, scroll or refresh event is a call of `Registry.Broadcast`. The registration itself is not modelled.
- `setTimeout` is left out. Arming a timer records the element in `armed`. A timer firing is a call of `Session.CheckVisibleElements` that the environment may make at any time. The model does not track which timers are pending or when they fire.
- Reading the clock is reduced to one `now` per poll. The source reads the clock afresh for each element, so the model does not capture time passing within one poll.
- `getBoundingClientRect` and the window's size are inputs in whole pixels. The browser reports floating-point values.
- The random session uid is left out. Each `Session` keeps its own side data, which replaces the data keys namespaced by the uid. A uid collision would replace an `allOptions` entry while its handler stays bound. That case is not modelled.
- Re-querying the stored selector is the `resolve` function of the environment. What jQuery's `.selector` property holds for an arbitrary collection is not modelled.
- Option merging is modelled only for `delay` and `completelyVisible`. `completelyVisible` is a boolean in the model. The source tests it with `=== true`, so a truthy value that is not a boolean (`1`, `"yes"`) selects the any-part policy there; the model cannot express such a value. The callback is modelled only by its presence (`typeof ... === 'function'`) and by whether it throws.
- What the callback does is left out. A callback that calls back into the plugin (a refresh, say) before it returns is not modelled.
- jQuery's data store is reduced to three collections per session. Its other behaviour, such as reading `data-*` attributes, is not modelled.
