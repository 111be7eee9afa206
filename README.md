# Swipeable pet-image deck: a verified model

The app shows pet photos. It has two screens, and this model covers the logic behind both.

- **The swipe card** (`components/SwipeableImage.js`, module `SwipeCard` in `swipe_card.dfy`). It shows one image of a non-empty deck.
  - Dragging the card moves it horizontally. It also lights a green "check" indicator (rightward drag) or a red "cross" indicator (leftward drag), in proportion to the drag distance and saturating at 40 % of the window width.
  - Releasing the card past that threshold commits the swipe. The card is sent to plus or minus one window width, and when the animation finishes the next image is shown. On the last image the parent's end-of-deck callback is invoked instead.
  - Releasing the card short of the threshold snaps it back to the centre.
  - The card tilts by 20 degrees per window width of displacement.
  - The handlers are modelled twice:
    - as pure step functions over a `CardState` value, which carry the properties;
    - as the class `SwipeableImage`, whose fields `currentIndex`, `position`, `checkOpacity` and `crossOpacity` its methods `Update`, `Release` and `Complete` update in place, each proved equal to the corresponding step function.
- **The slideshow** (`App.js`, module `Slideshow` in `slideshow.dfy`).
  - The fetched pet list is mapped to each pet's first image URL.
  - The URLs are shuffled in place with Fisher–Yates: `ShuffleArray`, a loop on an `array<T>` proved against the specification function `Shuffled`.
  - A timer advances the displayed index `(prev + 1) % len`, and the screen shows a "Loading..." placeholder until the list is non-empty.

Inputs the model cannot see are parameters:

- the window width `w`, always with `w > 0`;
- the random draws of the shuffle, an oracle sequence `draws` with `draws[i]` in `[0, i]`;
- the decoded HTTP payload, a sequence of `Pet` records.

Offsets and the width are `real`, and `withTiming(target)` sets the animated value to `target`.

On the last image `onSwipeComplete` does not advance the index and does not enter a terminal state. It keeps the index and position and calls `onEnd`, and every further committed swipe calls `onEnd` again (`SwipeCard.EndOfDeckRepeats`).

## Model

| member | source | states |
|---|---|---|
| SwipeCard.Threshold | components/SwipeableImage.js:59 | the commit threshold `0.4 w` lies strictly between 0 and the window width |
| SwipeCard.Intensity | components/SwipeableImage.js:50 | `min(1, m / (0.4 w))` lies in [0, 1]; it is 1 exactly when `m >= 0.4 w`, 0 exactly when `m == 0`, and below saturation it is proportional to the drag |
| SwipeCard.IntensityMonotone | components/SwipeableImage.js:50 | a longer drag never gives a dimmer indicator |
| SwipeCard.CheckIntensity | components/SwipeableImage.js:49-51 | the check indicator lies in [0, 1], is lit exactly for rightward drags, saturates exactly when `tx >= 0.4 w`, and below saturation equals `tx / (0.4 w)` |
| SwipeCard.CrossIntensity | components/SwipeableImage.js:52-54 | the cross indicator lies in [0, 1], is lit exactly for leftward drags, saturates exactly when `-tx >= 0.4 w`, and below saturation equals `-tx / (0.4 w)` |
| SwipeCard.Resolve | components/SwipeableImage.js:59-69 | a release commits if and only if `abs(tx) > 0.4 w` (a release exactly at the threshold cancels); a commit targets `+w` or `-w` with the sign of `tx` |
| SwipeCard.Rotation | components/SwipeableImage.js:78 | the tilt is `position / w * 20` (stated as `deg * w == position * 20`), has the sign of the position (both directions), is at most 20 degrees whenever `abs(position) <= w`, and is exactly 20 at a full window width |
| SwipeCard.RotationAdditive | components/SwipeableImage.js:78 | the tilt of a sum of displacements is the sum of their tilts |
| SwipeCard.ReleaseTiltBounded | components/SwipeableImage.js:59-69 | every position a release animates to (`+w`, `-w` or 0) tilts the card by at most 20 degrees |
| SwipeCard.AfterUpdate | components/SwipeableImage.js:46-56 | an update sets the position to `tx`, keeps the index, leaves both intensities in [0, 1] with at most one lit, lights check exactly for `tx > 0` and cross exactly for `tx < 0`, saturates one exactly when `abs(tx) >= 0.4 w`, and below saturation the lit one equals `abs(tx) / (0.4 w)` |
| SwipeCard.AfterRelease | components/SwipeableImage.js:57-72 | a release keeps the index and turns both indicators off; a cancel targets 0, and a commit targets a full width in the direction of the drag |
| SwipeCard.AfterComplete | components/SwipeableImage.js:30-42 | with `index + 1 < len` the index advances by one and the position resets to 0; at the last card nothing changes; the indicators are untouched |
| SwipeCard.Step | components/SwipeableImage.js:30-72 | each event preserves the controller invariant (index in the deck, intensities in [0, 1], at most one lit), and only a completion moves the index, by exactly one |
| SwipeCard.RunStaysConsistent | components/SwipeableImage.js:16-72 | from a consistent state, any sequence of update, release and completion events keeps the index inside the deck and the indicator invariant |
| SwipeCard.RunAdvancesByCompletions | components/SwipeableImage.js:30-42 | over any event sequence the index never decreases and grows by at most the number of completions |
| SwipeCard.RunConcat | components/SwipeableImage.js:30-72 | processing two event sequences in turn is processing their concatenation |
| SwipeCard.InitialConsistent | components/SwipeableImage.js:16-27 | the mounted state (index 0, centred, indicators off) satisfies the invariant for any deck of at least one image |
| SwipeCard.DirectionIrrelevant | components/SwipeableImage.js:61-64 | committing to the right or to the left and then completing gives the same index and indicators, and the same state unless the deck has ended |
| SwipeCard.EndOfDeckRepeats | components/SwipeableImage.js:33-37 | on the last card a committed swipe leaves the index unchanged and reaches the end-of-deck branch again (so `onEnd` is not once-only) |
| SwipeCard.ThreeCardWalkthrough | components/SwipeableImage.js:30-72 | on a three-image deck, swipes released at +0.5w then -0.5w show the third image centred, and a third commit reaches the end of the deck |
| SwipeCard.RunThree | components/SwipeableImage.js:30-72 | three events processed as a run are the three steps composed |
| SwipeCard.SwipeableImage.constructor | components/SwipeableImage.js:14-27 | mounting on a non-empty deck gives index 0, position 0 and both indicators off, satisfying the invariant |
| SwipeCard.SwipeableImage.Update | components/SwipeableImage.js:46-56 | the handler sets `position` to the drag offset and the two opacities to the check and cross intensities, keeps the index, preserves the invariant, and equals `AfterUpdate` on the state |
| SwipeCard.SwipeableImage.Release | components/SwipeableImage.js:57-72 | the handler returns the commit/cancel decision, moves `position` to its target, zeroes both opacities, keeps the index, and equals `AfterRelease` |
| SwipeCard.SwipeableImage.Complete | components/SwipeableImage.js:30-42 | `deckEnded` (the `onEnd` branch) holds exactly when `index + 1 >= len`; otherwise the index advances and the position resets; the state equals `AfterComplete` and stays valid |
| Slideshow.ImageUrls | App.js:22 | the extraction succeeds exactly when every pet has an image; it then has one URL per pet, in order, entry k being pet k's first image URL |
| Slideshow.LoadedImages | App.js:19-28 | the stored list is a permutation of the extracted URLs, or stays empty when the extraction throws |
| Slideshow.Swap | App.js:13 | a swap keeps the length |
| Slideshow.SwapAt | App.js:13 | after the swap, slot i holds the old `s[j]`, slot j the old `s[i]`, and every other slot is unchanged |
| Slideshow.SwapPermutes | App.js:13 | a swap keeps the multiset of elements |
| Slideshow.Before | App.js:11-14 | the contents before the iteration for i have the input's length |
| Slideshow.StepPermutes | App.js:11-14 | one loop iteration permutes the contents |
| Slideshow.BeforePermutes | App.js:11-14 | every state the loop passes through is a permutation of the input |
| Slideshow.Shuffled | App.js:10-16 | the shuffle keeps the length and the multiset, and leaves arrays of length 0 or 1 unchanged |
| Slideshow.SlotsAboveStayFixed | App.js:11-13 | once the iteration for m has run, no later iteration writes a slot above m (the Fisher–Yates fixed suffix) |
| Slideshow.ShuffledSlot | App.js:11-13 | slot i >= 1 of the result holds the element that the iteration for i drew from slots [0, i] |
| Slideshow.ShuffleArray | App.js:10-16 | the loop's in-place swaps leave the array equal to `Shuffled` of its old contents, a permutation of them, and the same array is returned; every swap is in bounds |
| Slideshow.SwapElements | App.js:13 | the destructuring swap on the array equals `Swap` on its contents |
| Slideshow.Tick | App.js:33 | on a non-empty list the tick stays in `[0, len)` and, from a valid index, moves to the next index, wrapping to 0 after the last |
| Slideshow.TicksFromZero | App.js:33 | starting from 0, after k ticks the index is `k mod len` |
| Slideshow.ModUnique | App.js:33 | the remainder is the unique r in `[0, len)` with `x == q * len + r` |
| Slideshow.Render | App.js:41-45 | the placeholder is shown exactly when the list is empty; otherwise the image at the index, or an undefined URI when the index is out of range |
| Slideshow.SlideshowShowsImages | App.js:33-45 | on a loaded list, after k ticks the screen shows image `k mod len` |
| Slideshow.TickAsWritten | App.js:33 | the tick on JavaScript numbers yields a number exactly when the previous index is a number and the list is non-empty, and then agrees with `Tick` |
| Slideshow.EarlyTickStrandsSlideshow | App.js:33-45 | a tick before the list loads makes the index NaN, which no later tick repairs, so the loaded slideshow never shows an image |
| Slideshow.GuardedTick | App.js:33 | the corrected tick keeps the index while the list is empty and stays in `[0, len)` otherwise |
| Slideshow.GuardedTicksShowImages | App.js:33-45 | with the corrected tick, ticks before loading leave the index at 0, and k ticks after loading show image `k mod len` |
| Slideshow.GuardedMatchesTick | App.js:33 | on a non-empty list the corrected tick agrees with the original tick |

## Left out

- React rendering, styles, icons and the status bar: these have no behaviour beyond the render choice of `Render`.
- The HTTP request and the `.catch` logging (App.js:19-28). The model starts from the decoded pet list. A failed request leaves the list empty, like a throwing extraction.
- `Math.random` (App.js:12) is replaced by oracle draws in `[0, i]`. That the shuffle is uniform is a probabilistic claim and is not modelled.
- `setInterval` timing, the 10-second period and `clearInterval` on re-render (App.js:31-37). The model has the tick step only, and the effect of its timing is the finding below.
- Slideshow.Tick: requires a non-empty list. The empty-list tick of the code is `TickAsWritten`.
- Reanimated animation: durations, easing, intermediate frames and the `runOnJS` thread hop (components/SwipeableImage.js:61-71). Each `withTiming(target)` sets its target. The commit animation's completion is a separate `Complete` event, which the model allows at any time.
- The `loadError` flag (components/SwipeableImage.js:17): it only records a boolean.
- An empty deck passed to the swipe card: the code has no guard for it, so the constructor requires at least one image.
- `useWindowDimensions`: the width is a parameter `w > 0`, fixed per component.
- JavaScript floating point: offsets, intensities and the tilt are exact reals, so rounding is not modelled.
- SwipeCard.SwipeableImage.Complete: `deckEnded` says that the `onEnd` branch was taken. It does not say whether the optional callback was supplied (`onEnd && onEnd()`).
- The rendered tilt string `${deg}deg` and the indicator scale `1 + 0.2 * opacity` are presentation; only the tilt angle is modelled.

## Findings

| source | as written | input that shows it | evidently intended | confidence | as-written member | corrected member |
|---|---|---|---|---|---|---|
| App.js:33 | the interval runs while `images` is still `[]`, and the tick computes `(prevIndex + 1) % images.length` | the pet request takes longer than 10 s: the first tick computes `(0 + 1) % 0`, which is NaN; `NaN + 1` and `NaN % n` stay NaN, so `images[currentIndex]` is `undefined` for good | the index stays at 0 until images arrive, then cycles through them | high that the code behaves so on a slow request, not executed | Slideshow.EarlyTickStrandsSlideshow | Slideshow.GuardedTicksShowImages |
