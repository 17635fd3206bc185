# Topics: drag, bounds and row parallax of a horizontal chip grid

A Dafny model of the logic inside the `Topics` screen of a React Native app: a
grid of 14 topic chips that wrap into rows, dragged horizontally as one piece,
springing back at its bounds and coasting (decay) in between, with each row
moving at its own speed so that all rows reach their right edge together.

The model has seven modules:

- `Wrappers` (`wrappers.dfy`): `Option`, standing for JavaScript's `undefined`.
- `TopicsConfig` (`config.dfy`): the topic count (14), the chip margin (5), the
  container padding (10) and the left bound (0).
- `Measurer` (`layout.dfy`): the layout accumulator of `handleItemLayout`. The
  class `LayoutAccumulator` keeps the first layout reported for each label, in
  the order the labels first reported. When the number of keys reaches 14, the
  method `ReduceLevelWidths` runs the reduce as a loop and fills `levelWidth`,
  which maps a row's `y` to that row's width. The function `Levels` specifies
  the reduce. The lemmas about `Levels` say which rows get a width and how that
  width relates to the chips' right edges.
- `Release` (`release.dfy`): the pure part of `onEnd`. It computes the right
  bound from the widest row and makes the three-way choice between a spring to
  0, a spring to the right bound, and a clamped decay.
- `Gesture` (`gesture.dfy`): the class `GestureContext`. It holds the gesture
  context (`offset`, `isDecayAnimationRunning`), the shared value `translateX`,
  and the animation currently driving that value. Its methods are the handlers
  `onStart`, `onActive` and `onEnd`, plus the decay's completion callback.
- `RealFacts` (`arith.dfy`): cancellation and sign facts about products of
  reals, used by the parallax proofs.
- `Parallax` (`parallax.dfy`): the style of a chip. It is empty until the row
  widths exist. After that, a chip in a row that fits on the screen follows
  the drag; a chip in an overflowing row moves by the row's overflow times the
  drag, divided by the widest row's overflow.

Coordinates are exact `real` numbers. The width of the screen is a parameter.
The animations are values (`SpringTo(target, velocity)`,
`Decay(velocity, lo, hi)`), not physics.

Three behaviours of the code are easy to miss:

- The code does not compute a row's width as "largest right edge plus margin".
  It compares each chip's right edge with the width stored so far, and that
  stored width already includes the margin. The result therefore depends on the
  order of the chips. When every right edge is positive, as every chip's is,
  it lies between the largest right edge and that edge plus 5 (`LevelWidthWithinMargin`, `LevelWidthDependsOnOrder`).
- The reduce uses the record object itself as its accumulator. So once
  `levelWidth` exists, it is one more key of that object, and the key count is
  the number of labels plus one (`LayoutAccumulator.KeyCount`).
- The gesture context is not thrown away at the end of a gesture. `offset`
  carries the grid's position from one drag to the next.

## Model

| member | source | states |
|---|---|---|
| `Measurer.ReduceLevelWidths` | Topics.js:133-150 | the loop over the recorded layouts, in recording order, yields exactly `Levels` of them, and a row `y` has a width iff some recorded chip lies in it |
| `Measurer.LevelsRows` | Topics.js:138-140 | after the reduce, every row holding a recorded chip has a width and no other row does |
| `Measurer.LevelWidthFacts` | Topics.js:138-147 | a row's width is never negative, no chip of the row reaches past it, and it is either 0 or one chip's right edge plus the margin |
| `Measurer.LevelWidthWithinMargin` | Topics.js:142-146 | with positive right edges, a row's width is at least every right edge in the row and equals some right edge plus 5, so it lies in `[maxEdge, maxEdge + 5]` |
| `Measurer.LevelWidthDependsOnOrder` | Topics.js:142-146 | because the comparison is against the stored width, which already includes the margin, right edges 100 then 103 give 105 and the reverse order gives 108, not the plain maximum plus margin |
| `Measurer.MaxRowWidth` | Topics.js:94 | `Math.max` over the row widths is one of the widths and no width exceeds it |
| `Measurer.LayoutAccumulator.constructor` | Topics.js:76 | the record object starts empty, with no row widths |
| `Measurer.LayoutAccumulator.HandleItemLayout` | Topics.js:128-154 | a label that is already recorded changes nothing; a new label is appended with its layout; the row widths are computed from the recorded layouts only in the call where the key count first reaches 14, and then never change; row widths exist iff at least 14 labels are recorded |
| `Measurer.LayoutAccumulator.RecordedRowsHaveWidths` | Topics.js:159-162 | once row widths exist, the row of every measured topic has a width and the width map is non-empty, so the style lookup and `Math.max` are defined |
| `Release.RightBound` | Topics.js:94-96 | the right bound is screen width minus a row width minus 10 minus 5, for the widest row: it is at most that value for every row and equal to it for one |
| `Release.Settle` | Topics.js:98-117 | release keeps the velocity; it decays iff `rightBound <= offset <= 0`; otherwise it springs to 0 when `offset > 0` and to `rightBound` otherwise; a decay's clamp satisfies `rightBound <= lo <= offset <= hi <= 0`, so the clamp is exactly `[rightBound, offset]` for negative velocity and `[offset, 0]` otherwise |
| `Release.SettleRestsWithinBounds` | Topics.js:98-117 | when the grid is wider than the screen (`rightBound <= 0`), wherever a release may leave the grid lies in `[rightBound, 0]`, and releasing again from there never springs |
| `Gesture.GestureContext.constructor` | Topics.js:78 | `translateX` starts at 0, `offset` is undefined, no decay is flagged and no animation runs |
| `Gesture.GestureContext.OnStart` | Topics.js:81-86 | afterwards the decay flag is false and no decay runs; if the flag was set, the running animation is cancelled; otherwise nothing changes; offset and `translateX` are kept |
| `Gesture.GestureContext.OnActive` | Topics.js:87-89 | `translateX` becomes the stored offset (0 when undefined) plus the finger's translation, unclamped; the context is unchanged |
| `Gesture.GestureContext.OnEnd` | Topics.js:90-125 | the offset is set to `translateX` first; without row widths the handler stops there (throws); otherwise the animation started is `Settle` of the offset, the velocity and `RightBound`; a spring stores its target as the offset; a decay keeps the release offset and raises the flag |
| `Gesture.GestureContext.OnDecayFinish` | Topics.js:119-122 | when the decay completes, the flag is cleared and the offset becomes the final value |
| `Gesture.ResumeAfterDecay` | Topics.js:81-122 | a drag that starts after a decay came to rest continues from the rest position: `translateX` is the final value plus the new translation |
| `Parallax.WidestRowFollowsDrag` | Topics.js:162-166 | the widest row's translation equals the drag value |
| `Parallax.RowTranslationBounded` | Topics.js:162-166 | when the widest row overflows the screen, every row's translation has the sign of the drag (or is 0) and a magnitude of at most the drag's |
| `Parallax.RightEdgesMeet` | Topics.js:162-166 | dragging by the widest row's overflow moves every overflowing row by exactly its own overflow, so all right edges meet the screen edge together |
| `Parallax.ThreeRowExample` | Topics.js:162-166 | rows 650 and 900 wide on a 400-wide screen, with 900 the widest: the 650 row moves at half the drag, the 900 row with it |
| `Parallax.TopicStyle` | Topics.js:158-176 | the style is empty iff the row widths are unknown; once they are known it is the row's `RowTranslation`: the drag value for a row that fits on the screen, and the row's overflow times the drag over the widest row's overflow otherwise; a row that fits on the screen and the widest row is translated by the drag value; when the widest row overflows, the translation is bounded by the drag and has its sign |

## Left out

- App.js is not part of this model: it is an app shell with no logic.
- Rendering, styles and React hooks are left out. `useRef`, `useState` and `useSharedValue` become plain class fields. A single `levelWidth` field stands for both the record object and the `topicPosition` state that `setTopicPosition` publishes.
- The physics of `withSpring` (including its mass 0.6 and stiffness 90) and of `withDecay` is left out. So are the frames between the start and the end of an animation. An animation appears only as its target or its clamp.
- Whether `cancelAnimation` runs the decay's completion callback is library behaviour and is not modelled. The model therefore says nothing about where the grid stands after a decay is cancelled, beyond the offset assigned at release.
- Gesture.GestureContext.OnDecayFinish: the final value is a parameter, and the model does not require it to lie in the decay's clamp. Keeping it there is the animation library's job.
- Gesture.GestureContext.OnEnd: requires the row-width map to be non-empty. On an empty map, `Math.max()` gives -Infinity and the bound becomes +Infinity, which has no `real` counterpart. The measurer never publishes an empty map (`RecordedRowsHaveWidths`).
- Parallax.TopicStyle: requires the widest row's overflow to be non-zero. Otherwise JavaScript divides by zero and yields NaN. It also requires the chip's row to have a width, as `RecordedRowsHaveWidths` guarantees for every measured topic. The style takes the row `y` directly, instead of looking up `topicPosition[text]`.
- Floating-point rounding, NaN and infinities are not modelled; coordinates are exact reals.
- Row `y` values are object keys in JavaScript, so they are converted to strings (`-0` and `0` share a key). The model keys rows by the number itself.
- The recording order is taken to be the object's key order. JavaScript lists integer-like keys first; no topic label is integer-like.
- A topic whose label is `levelWidth` would collide with the row-width key. No topic has that label, and the collision is not modelled.
- The gesture handler is rebuilt when `topicPosition` changes, and it runs as a worklet on the UI thread; neither is modelled. The context is one object that lives for the whole session.
- The contents of the topic list are left out; only its length, 14, matters.
- `Dimensions.get('screen')` is replaced by the `screenWidth` parameter.
