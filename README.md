# Gallery lightbox: navigation and keyboard lifecycle

A Dafny model of the core of `components/gallery-lightbox.tsx`, the modal image
viewer of a summer-camp website's gallery. The component owns no state: its
owner passes the image list, the current index and an open flag, and gets back
calls to `onClose()` and `onNavigate(index)`. The model covers the three pieces
of logic in the component:

- **Wrap-around navigation** (module `Navigation`, `navigation.dfy`):
  `goToPrevious` and `goToNext` as the pure functions `Prev` and `Next` over
  `[0, n)`. Each is proved equal to a Euclidean-remainder reference definition.
  The lemmas cover range, both wrap points, mutual inverse, and repeated
  presses: `k` presses move `k` places around the cycle, `n` presses return to
  the start, and every image can be reached.
- **Key dispatch** (module `KeyDispatch`, `keys.dfy`): `handleKeyDown` as
  `HandleKeyDown`. It returns the sequence of owner callbacks fired by one key,
  which is `[Close]`, `[Navigate(Prev)]`, `[Navigate(Next)]` or `[]`.
- **Rendering guard and counter** (module `View`, `view.dfy`): `null` while
  closed; otherwise the current image and the counter `currentIndex + 1` of
  `images.length`.
- **Effect lifecycle** (module `KeyboardEffect`, `effect.dfy`): the `useEffect`
  as class `Page`. Its fields are the document's keydown listeners, the body's
  `overflow` style, the callbacks fired so far, and the teardown that React
  holds between renders. `Activate` is the effect body and `Cleanup` is the
  teardown it returns. `Commit` is a re-render that re-runs the effect, which
  means the held teardown runs first and then the body. `Unmount` runs the held
  teardown. `KeyDown` is a document keypress. `Valid()` is the invariant every
  commit keeps: at most one listener, and while one is registered, scroll is
  locked.

`Option` lives in module `Wrappers` (`wrappers.dfy`).

Decisions in the model:
- The owner's callbacks are recorded rather than executed. `onNavigate(j)`
  becomes the event `Navigate(j)` and `onClose()` becomes `Close`.
- Each run of the effect creates a new `handleKeyDown` closure. The model gives
  each closure a fresh `id`, so "the teardown removes the same listener it
  added" is a checkable statement.
- The component does not guard an out-of-range `currentIndex` or an empty image
  list. While open, the model therefore requires `0 <= currentIndex < n`.
- The teardown resets `overflow` to `""`. It does not restore the value the
  page had before the lightbox opened. The model keeps this behaviour, and
  `OverflowNotRestored` shows it.

## Model

| member | source | states |
|---|---|---|
| `Navigation.Prev` | components/gallery-lightbox.tsx:29-31 | the proposed previous index lies in `[0, n)` and equals the cyclic predecessor `(i - 1) mod n` |
| `Navigation.Next` | components/gallery-lightbox.tsx:33-35 | the proposed next index lies in `[0, n)` and equals the cyclic successor `(i + 1) mod n` |
| `Navigation.WrapAround` | components/gallery-lightbox.tsx:30-34 | previous from index 0 proposes `n - 1`; next from the last index proposes `0` |
| `Navigation.Interior` | components/gallery-lightbox.tsx:30-34 | away from the wrap points, previous proposes `i - 1` and next proposes `i + 1` |
| `Navigation.MutuallyInverse` | components/gallery-lightbox.tsx:29-35 | `Next(Prev(i, n), n) == i` and `Prev(Next(i, n), n) == i` for every valid index |
| `Navigation.NextTimes` | components/gallery-lightbox.tsx:33-35 | any number of "next" presses stays within `[0, n)` |
| `Navigation.PrevTimes` | components/gallery-lightbox.tsx:29-31 | any number of "previous" presses stays within `[0, n)` |
| `Navigation.NextTimesShifts` | components/gallery-lightbox.tsx:33-35 | `k` presses of "next" from `i` land on `(i + k) mod n` |
| `Navigation.PrevTimesShifts` | components/gallery-lightbox.tsx:29-31 | `k` presses of "previous" from `i` land on `(i - k) mod n` |
| `Navigation.FullCycle` | components/gallery-lightbox.tsx:29-35 | `n` presses in either direction return to the starting image |
| `Navigation.EveryImageReachable` | components/gallery-lightbox.tsx:33-35 | every image `j` is reached from every image `i` by fewer than `n` presses of "next" |
| `KeyDispatch.HandleKeyDown` | components/gallery-lightbox.tsx:41-53 | at most one callback per key; Escape fires exactly `onClose` and never `onNavigate`; ArrowLeft fires `onNavigate(Prev(i, n))`; ArrowRight fires `onNavigate(Next(i, n))`; every other key fires nothing; every proposed index is in range |
| `KeyDispatch.ThreeImagesFromFirst` | components/gallery-lightbox.tsx:29-35 | with three images at index 0, ArrowLeft proposes 2 and ArrowRight proposes 1 |
| `KeyDispatch.ThreeImagesFromLast` | components/gallery-lightbox.tsx:33-35 | with three images at index 2, ArrowRight proposes 0 |
| `View.Render` | components/gallery-lightbox.tsx:65-97 | renders nothing exactly when closed; when open, shows `images[currentIndex]` with the counter `currentIndex + 1 / images.length`, so the position is in `1..total` and names the image shown |
| `View.CounterAfterNext` | components/gallery-lightbox.tsx:96 | after "next" the counter advances by one and wraps from `n / n` to `1 / n` |
| `View.CounterAfterPrev` | components/gallery-lightbox.tsx:96 | after "previous" the counter goes back by one and wraps from `1 / n` to `n / n` |
| `KeyboardEffect.Without` | components/gallery-lightbox.tsx:60 | removing a listener keeps every other listener and drops that one |
| `KeyboardEffect.WithoutAbsent` | components/gallery-lightbox.tsx:60 | removing a listener that is not registered leaves the list unchanged |
| `KeyboardEffect.WithoutAfterAdd` | components/gallery-lightbox.tsx:55-60 | the teardown's removal undoes exactly the effect's add of a fresh listener |
| `KeyboardEffect.Dispatch` | components/gallery-lightbox.tsx:41-55 | one keypress fires at most one callback per registered listener, and none for an unhandled key |
| `KeyboardEffect.DispatchSingle` | components/gallery-lightbox.tsx:55 | with only the lightbox's listener registered, a keypress fires exactly what `handleKeyDown` fires |
| `KeyboardEffect.Page.Activate` | components/gallery-lightbox.tsx:38-58 | closed: no listener is added and `overflow` is unchanged; open: exactly one listener bound to the current index is added, one that was not registered before (given every registered listener is older than the next closure), and `overflow` becomes `"hidden"` |
| `KeyboardEffect.Page.Cleanup` | components/gallery-lightbox.tsx:59-62 | the teardown removes its listener and sets `overflow` to `""` whatever it was before |
| `KeyboardEffect.Page.Commit` | components/gallery-lightbox.tsx:38-63 | re-running the effect keeps at most one listener and preserves `Valid()`; afterwards the only listener is the new one when open and there is none when closed; `overflow` is `"hidden"` when open, `""` when an open lightbox was closed, and unchanged otherwise; no callback fires |
| `KeyboardEffect.Page.Unmount` | components/gallery-lightbox.tsx:59-62 | unmounting leaves no listener and releases the scroll lock if it was held |
| `KeyboardEffect.Page.KeyDown` | components/gallery-lightbox.tsx:41-55 | a keypress fires at most one callback: nothing while closed, and `handleKeyDown` of the current listener while open |
| `KeyboardEffect.ReopenFiresOnce` | components/gallery-lightbox.tsx:38-63 | after open, close and open again, one Escape press fires `onClose` exactly once |
| `KeyboardEffect.NavigateRebinds` | components/gallery-lightbox.tsx:33-63 | after a navigation re-runs the effect, the new listener proposes from the new index |
| `KeyboardEffect.OverflowNotRestored` | components/gallery-lightbox.tsx:57-61 | after an open and a close, `overflow` is `""` whatever the page had before |
| `KeyboardEffect.ClosedIsInert` | components/gallery-lightbox.tsx:39 | while closed, a keypress fires nothing and `overflow` keeps its earlier value |

## Left out

- JSX markup, CSS classes and layout (components/gallery-lightbox.tsx:69-147) are left out. The only behaviour stated about them is the counter and the image shown, both in `View.Render`.
- The backdrop, the close button and the previous/next buttons (lines 82, 87, 101, 110) call `onClose`, `goToPrevious` and `goToNext`. These are the callbacks `Close`, `Prev` and `Next` already model. Click dispatch itself is not modelled.
- framer-motion animation, `next/image` loading and scaling, and `lucide-react` icons are foreign library calls whose behaviour is not visible.
- React's `useCallback` memoisation and dependency-array comparison are left out. `Page.Commit` re-runs the effect on every render it models. A render whose dependencies did not change keeps the old listener, and that listener is bound to the same values.
- Real DOM dispatch, `document` and `body` are abstracted to the listener list and the `overflow` string. `addEventListener` ignores a duplicate callback, but every closure here is fresh, so the model simply appends. `Without` drops every copy of a listener; with no duplicates, that is the same as the DOM's single removal.
- What the owner does with `onNavigate` and `onClose` is not modelled. The callbacks are only recorded.
- Out-of-range `currentIndex` and an empty image list are excluded by preconditions, because the source reads past the end (line 67) instead of handling them.
- JavaScript numbers are modelled as unbounded integers. Fractional or non-finite indices are not modelled.
