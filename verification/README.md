# TimeWindow in Dafny

A model of the `TimeWindow` value type of the Meteor package
`dispatch:time-window` (`time_window.js`). A time window is a pair of second
offsets from a day origin, `start` and `end`. Its `duration` is always
`end - start`. The model covers:

- how a window is built, from an `"HH:MM:SS - HH:MM:SS"` string or from a
  `{start, end, duration}` record;
- `clone`;
- the two pairwise predicates `intersects` and `containedBy`;
- the two folds over a candidate list, `union` and `difference`;
- the 12-hour renderer `toString`;
- the batch builder `TimeWindow.array`.

The model follows the JavaScript closely:

- A window is the datatype `Windows.TW`. `duration` is the derived
  `Duration()`. On integer bounds the `Math.round` of the original is the
  identity.
- Every operation that accepts "one window or an array of windows" takes a
  sequence. A single window is the one-element sequence.
- Construction returns `Option<TW>`. `None` stands for a window that the
  original builds with a `NaN` bound. This happens in three cases: a string
  without `" - "`, a clock field that is not a run of digits, and a record
  whose missing bound cannot be derived. `None` also covers fields such as
  `"8x"` or `" 8"`, which `parseInt` reads leniently as 8 (see "Left out").
- The record form keeps the JavaScript `||` fallback. A bound of `0` counts
  as absent.
- `clone`, and the pieces `difference` builds, are modelled as the evidently
  intended copy (`Windows.Clone`, `Windows.Span`). The code as written
  rebuilds them through the record constructor, which turns a 0 bound into
  NaN. Module `AsWritten` models that path and proves where the two agree.
- `union` is an explicit left fold. Each candidate is compared with the
  accumulator as it stands when the candidate is visited.
- `difference` is a flat-map against one reference window that never changes.
- `toString` computes hours, minutes and seconds with JavaScript's `%`, whose
  remainder takes the sign of the dividend. It pads minutes and seconds below
  ten with one `0`.
- Strings are `seq<char>`. `indexOf` and `split` are modelled in
  `Strings`, and the decimal text of numbers in `Decimal`.

Modules, one file each:

| file | module | models |
|---|---|---|
| `wrappers.dfy` | `Wrappers` | `Option` |
| `decimal.dfy` | `Decimal` | decimal text of integers, `parseInt` on digit runs, zero padding |
| `strings.dfy` | `Strings` | `String.prototype.indexOf` and `split` |
| `windows.dfy` | `Windows` | the window value, `clone` |
| `construct.dfy` | `Construct` | the constructor |
| `overlap.dfy` | `Overlap` | `intersects`, `containedBy` |
| `merge.dfy` | `Merge` | `union` |
| `subtract.dfy` | `Subtract` | `difference` |
| `render.dfy` | `Render` | `toString` and a reader for its text |
| `batch.dfy` | `Batch` | `TimeWindow.array` |
| `aswritten.dfy` | `AsWritten` | `clone`, `union`, `difference` and `TimeWindow.array` with NaN bounds, as the code stands |

## Model

| member | source | states |
|---|---|---|
| Windows.Clone | time_window.js:63-65 | `clone` gives a window equal to the receiver, with the same duration. |
| Decimal.ShowNat | time_window.js:203-204 | The decimal text of a number is a non-empty digit run. It is one digit exactly when the number is below ten, and it starts with `0` only for zero. |
| Decimal.ShowInt | time_window.js:203-204 | A number concatenated to a string prints as its decimal text, with a leading `-` exactly when it is negative. |
| Decimal.Pad2 | time_window.js:197-201 | Minutes and seconds below 100 print as exactly two digits. From ten upward they print unpadded. |
| Decimal.ParseNat | time_window.js:24-30 | `parseInt` of a digit run whose first digit is not `0` is positive, so only a run starting with `0` can read as the falsy 0. |
| Decimal.ParseShow | time_window.js:24-30 | `parseInt` of the decimal text of a number gives the number back. |
| Decimal.ParseLeadingZero | time_window.js:24-30 | A leading `0` does not change the value `parseInt` reads, so `"08"` reads as 8. |
| Decimal.Pad2Parse | time_window.js:24-30 | A zero-padded field is a digit run, and `parseInt` reads it back as the number it pads. |
| Strings.IndexOf | time_window.js:20-21 | `indexOf` gives the first position holding the pattern, or -1 exactly when no position holds it. |
| Strings.Split | time_window.js:20-22 | `split` gives at least one piece, and no piece holds the delimiter. There is a single piece exactly when the text has no delimiter. |
| Strings.SplitThree | time_window.js:20-22 | `"a:b:c"`, with delimiter-free fields, splits into exactly its three fields. |
| Strings.SeparatorAfter | time_window.js:18-22 | `" - "` is found right after a start text that holds no `-`. |
| Construct.Seconds | time_window.js:24-30 | A bound is defined exactly when the first three `:`-fields are digit runs, and it is then never negative. |
| Construct.FieldsSeconds | time_window.js:20-30 | Any three digit runs joined by `:`, of any width and any range, hold no `-` and read as `a*3600 + b*60 + c`. |
| Construct.Build | time_window.js:16-53 | The constructor dispatches on its argument. A string yields a window only when it holds `" - "`, and then both bounds are non-negative. A record yields a window exactly when each bound is given and non-zero, or is derivable from the other bound and the duration. |
| Construct.FromText | time_window.js:17-30 | The string form yields a window only when `" - "` occurs in the text. Both bounds are then non-negative. |
| Construct.FromRecord | time_window.js:50-51 | The record form yields a window exactly when each bound is either given and non-zero, or derivable from the other bound and the duration. |
| Construct.RecordTwoOfThree | time_window.js:50-56 | Any two of `start`, `end` and `duration` rebuild the window as long as no given bound is 0. A `duration` beside both bounds is ignored. A 0 `start` falls back to `end - duration`, and a 0 `end` given beside the other two falls back to `start + duration`. |
| Construct.Clock24Seconds | time_window.js:20-30 | `"HH:MM:SS"` with zero-padded fields holds no `-`, and its fields read back as `h*3600 + m*60 + s`. |
| Construct.TextRoundTrip | time_window.js:20-30 | For all field values, `"HH:MM:SS - HH:MM:SS"` builds the window with `start = h1*3600 + m1*60 + s1` and `end = h2*3600 + m2*60 + s2`. |
| Construct.EightToThree | time_window_tests.js:5-9 | `"08:00:00 - 15:00:00"` builds 8 h to 15 h, which lasts 7 h. |
| Construct.SpanAsWritten | time_window.js:64 | Rebuilding a window from `{start, end}` through the constructor yields a window exactly when neither bound is 0. That window is then the intended one. |
| Construct.MidnightCloneIsNaN | time_window.js:63-65 | A window starting at `00:00:00` parses, but rebuilding it as `clone` does gives NaN. `Windows.Clone` keeps it unchanged. |
| Overlap.Intersects | time_window.js:142-165 | `intersects(ws, t)` holds exactly when some candidate `c` has neither `end < c.start - t` nor `start > c.end + t`. It is false for no candidates. |
| Overlap.ContainedBy | time_window.js:73-86 | `containedBy(ws, t)` holds exactly when some candidate `c` has `c.start <= start + t` and `c.end >= end - t`. It is false for no candidates. |
| Overlap.MeetsSymmetric | time_window.js:155-156 | Intersection is symmetric. At slack 0, touching endpoints intersect and one second apart do not. At slack 1, one second apart does. |
| Overlap.ThresholdMonotone | time_window.js:142-165 | A larger slack never loses an intersection or a containment. |
| Overlap.OrderFree | time_window.js:79-85 | Both predicates depend only on which candidates there are, not on their order or repetition. |
| Overlap.ContainedIntersects | time_window.js:73-86 | A forward-running window contained by some candidate also intersects it. |
| Overlap.EnclosesOrder | time_window.js:81-82 | At zero overlap, containment is reflexive and transitive. |
| Overlap.TestedBoundaries | time_window_tests.js:72-106 | The boundary cases of the tests hold: touching, one second apart, slack 1, containment in both directions, and no candidates. |
| Merge.Extend | time_window.js:235-236 | Absorbing a candidate gives a window enclosing both. Each bound comes from one of the two. |
| Merge.UnionFold | time_window.js:228-237 | The final accumulator encloses the initial one. Its bounds come from the initial one or some candidate. At most every candidate is passed through, and each passed-through window is one of the candidates. |
| Merge.Union | time_window.js:220-243 | `union` returns the merged window first, enclosing the receiver, followed by at most every candidate. The merged bounds come from the receiver or a candidate, and every later entry is one of the candidates. |
| Merge.UnionSnoc | time_window.js:228-237 | Appending a candidate either grows the final accumulator by it, when it meets the accumulator as built from all earlier candidates, or appends it unchanged to the passed-through list. |
| Merge.UnionCovered | time_window.js:220-243 | Every candidate is passed through or lies inside the merged window. |
| Merge.UnionLosesNothing | time_window.js:220-243 | Every second of the receiver or of a candidate is covered by the result. |
| Merge.UnionAddsNothing | time_window.js:220-243 | With slack at most 0 and forward-running windows, the result covers no other seconds. |
| Merge.TestedUnion | time_window_tests.js:111-123 | 8:15-10:30 with 9:00-11:00 and 12:00-13:00 gives 8:15-11:00, lasting 9900 s, then 12:00-13:00. |
| Merge.UnionSinglePass | time_window.js:228-237 | A candidate passed through is not revisited when the accumulator later grows to touch it. |
| Merge.UnionNextSecond | time_window.js:257-259 | Windows one second apart join into one at slack 1 and stay apart at slack 0. |
| Subtract.Pieces | time_window.js:103-130 | A candidate contributes the reference window when they do not meet at slack 1. It contributes two pieces exactly when it lies strictly inside, and at most two in any case. Pieces of forward-running windows run forward and stay within one second of the reference window. |
| Subtract.DiffFold | time_window.js:101-131 | The fold gives at most two windows per candidate. When no candidate meets, it gives one copy of the reference window per candidate. |
| Subtract.Difference | time_window.js:93-134 | `difference` gives `[]` for no candidates and at most two windows per candidate. When no candidate meets, it gives one unchanged copy of the receiver per candidate. Pieces stay within one second of the receiver. |
| Subtract.DifferenceAppend | time_window.js:99-131 | The reference window never changes, so the difference against `a + b` is the difference against `a` followed by the difference against `b`. |
| Subtract.PiecesSound | time_window.js:108-130 | Against a candidate that genuinely overlaps, every covered second lies in the receiver and outside the candidate's interior. |
| Subtract.PiecesComplete | time_window.js:108-130 | Every second of the receiver outside the candidate is kept, unless the two share an edge. |
| Subtract.DifferenceWithin | time_window.js:93-134 | When every candidate genuinely overlaps the receiver, the difference reaches no second outside it. |
| Subtract.TestedDifference | time_window_tests.js:78-92 | 9-11 minus 10-12 and 12-13 gives 9-10, then 9-11 again. |
| Subtract.DifferenceEdges | time_window.js:103-113 | A candidate one second past the end gives a piece one second longer than the receiver. A candidate sharing the receiver's end gives nothing. |
| Render.JsRem | time_window.js:177-179 | JavaScript's `%` by a positive divisor: the quotient is rounded toward zero, and the remainder has the sign of the dividend. |
| Render.PartsOf | time_window.js:177-186 | The hour, minute and second parts add back up to the offset. For a non-negative offset, minutes and seconds are below sixty. |
| Render.PartsUnique | time_window.js:177-186 | Whole hours, minutes below sixty and seconds below sixty are exactly the parts `toString` recovers. |
| Render.PartsText | time_window.js:188-209 | A clock text ends in `pm` exactly when the hour is above 11, and otherwise in `am`. |
| Render.ToString | time_window.js:173-212 | The text ends in `pm` exactly when a non-negative end is noon or later. The text is read back into the window by Render.ToStringRoundTrip, and its clock parts are given by Render.ClockText and Render.ClockShape. |
| Render.ClockText | time_window.js:173-212 | A non-negative offset renders with `pm` exactly from noon on, and otherwise with `am`. |
| Render.ClockShape | time_window.js:177-209 | A clock reading renders as the hour (13 and later less twelve, 0 and 12 unchanged), `:`, the padded minutes, the padded seconds only in the seconds format, then `am` before noon or `pm` after. |
| Render.ClockRoundTrip | time_window.js:173-212 | Within a day the clock text holds no `-` and reads back as the offset. Without the seconds format it reads back rounded down to the minute. |
| Render.ToStringRoundTrip | time_window.js:173-212 | Within a day, `toString('HH:MM:SS')` can be read back into the window it renders. |
| Render.TestedToString | time_window_tests.js:59-68 | The eight renderings of the tests hold. |
| Render.TestedEightToThree | time_window.js:188-211 | An afternoon hour other than 12 prints less twelve with `pm`, so 8 h to 15 h renders as `8:00am - 3:00pm`. |
| Batch.BuildAll | time_window.js:264-267 | Building every input succeeds exactly when each one builds. The windows then come in input order. |
| Batch.Array | time_window.js:254-272 | `TimeWindow.array` gives `[]` for no inputs. Otherwise its first window encloses the first input's window, it has at most one window per input, and every later window is one of the other inputs' windows. It is defined exactly when every input builds. |
| Batch.ArrayLosesNothing | time_window.js:254-272 | Every second of an input window is covered by the result. |
| Batch.ArrayAddsNothing | time_window.js:254-272 | With slack at most 0 and forward-running windows, the result covers no other seconds. |
| Batch.ArrayOfOne | time_window.js:269-271 | A single input gives exactly its own window. |
| AsWritten.Rebuild | time_window.js:50-51 | `new TimeWindow({start, end})` keeps both bounds exactly when neither is 0. A 0 or NaN bound becomes NaN. |
| AsWritten.CloneAsWritten | time_window.js:63-65 | `clone` as written returns the receiver unchanged exactly when neither bound is 0. A 0 bound becomes NaN. |
| AsWritten.MeetsAsWritten | time_window.js:142-165 | On integer bounds, `intersects` of a rebuilt window is `Overlap.Meets`. A window whose bounds are both NaN meets every candidate, because each comparison with NaN is false. |
| AsWritten.ExtendAsWritten | time_window.js:235-236 | On integer bounds, the accumulator update is `Merge.Extend`. A NaN bound is never replaced. |
| AsWritten.UnionFoldAsWritten | time_window.js:226-237 | The `forEach` of `union` keeps a NaN bound of the accumulator NaN to the end and passes through at most every candidate. |
| AsWritten.UnionAsWritten | time_window.js:220-243 | `union` as written returns the merged window and at most every candidate. A 0 bound of the receiver is NaN in the merged window. |
| AsWritten.UnionFoldAgrees | time_window.js:226-237 | From an accumulator with integer bounds, the fold as written takes exactly the steps of `Merge.UnionFold`. |
| AsWritten.UnionAgrees | time_window.js:220-243 | `union` as written equals `Merge.Union` exactly when the receiver has no 0 bound. |
| AsWritten.UnionMidnight | time_window.js:226-242 | A receiver from 0 to `e`, merged with a candidate overlapping its end, gives a merged window with a NaN start as written. `Merge.Union` gives 0 to the candidate's end. |
| AsWritten.PiecesAsWritten | time_window.js:103-129 | A candidate that does not meet the reference window contributes the reference window itself. When a bound of the reference window is NaN, a candidate that meets contributes nothing. |
| AsWritten.DiffFoldAsWritten | time_window.js:101-131 | The fold gives at most two windows per candidate. When a bound of the reference window is NaN, every window it gives is that reference window. |
| AsWritten.DifferenceAsWritten | time_window.js:93-134 | `difference` as written gives `[]` for no candidates and at most two windows per candidate. When the receiver has a 0 bound, every window left is its NaN clone. |
| AsWritten.PiecesAgrees | time_window.js:103-129 | When neither the reference window nor the candidate has a 0 bound, the pieces as written are `Subtract.Pieces`. |
| AsWritten.DiffFoldAgrees | time_window.js:101-131 | When no bound anywhere is 0, the fold as written is `Subtract.DiffFold`. |
| AsWritten.DifferenceAgrees | time_window.js:93-134 | When no bound anywhere is 0, `difference` as written is `Subtract.Difference`. |
| AsWritten.DifferenceMidnight | time_window.js:99-131 | A receiver from 0 to `e` minus a candidate overlapping its end gives `[]` as written. `Subtract.Difference` gives the part from 0 to the candidate's start. |
| AsWritten.ArrayAsWritten | time_window.js:254-272 | `TimeWindow.array` as written is defined exactly when every input builds, and gives between one window and one per input. With two or more inputs, a 0 bound of the first window is NaN in the result. |
| AsWritten.ArrayAgrees | time_window.js:254-272 | `TimeWindow.array` as written equals `Batch.Array` exactly when there is at most one input or the first window has no 0 bound. |
| Batch.ArrayOfOneText | time_window.js:254-272 | A single `"HH:MM:SS - HH:MM:SS"` input gives the one window the text names. |

## Left out

- `Date` inputs (time_window.js:32-48): they depend on the local calendar and time zone and can give fractional seconds. `Math.round` at line 56 is the identity on the integer bounds modelled here.
- `parseInt` leniency, such as a field with trailing non-digits or a sign. Only fields made entirely of digits are read. Any other field gives `None`, as does a missing `" - "`.
- NaN propagation from construction: when a built bound would be NaN, the original goes on to compare, merge and render it. The model stops with `None` and does not model what follows. Only the NaN that a 0 bound picks up in `clone` and in the pieces of `difference` is carried further, in `AsWritten`.
- The throw for inputs that are neither strings nor objects (time_window.js:53). `Construct.Input` admits only the two accepted shapes.
- `null` or `undefined` candidate lists and inputs (time_window.js:74, 94, 143, 221, 255). A sequence is always present.
- Merge.Union: requires a non-empty candidate list. Given `[]`, the original wraps the empty array itself as a candidate and returns `[clone, []]`, a list whose second entry is not a window (time_window.js:221-222). `TimeWindow.array` never passes an empty list.
- Merge.Union: models `union` with the intended `clone`. The code as written turns a 0 bound of the receiver into NaN; that is AsWritten.UnionAsWritten, and AsWritten.UnionAgrees proves the two equal exactly when the receiver has no 0 bound.
- Subtract.Pieces: rebuilds each piece with the intended `Windows.Span`. As written, a piece with a 0 bound becomes NaN; that is AsWritten.PiecesAsWritten, equal to it when no bound is 0 (AsWritten.PiecesAgrees).
- Subtract.DiffFold: inherits the intended pieces. The fold as written is AsWritten.DiffFoldAsWritten, equal to it when no bound is 0 (AsWritten.DiffFoldAgrees).
- Subtract.Difference: starts from the intended `clone`. As written, a receiver with a 0 bound leaves only NaN copies; that is AsWritten.DifferenceAsWritten, equal to it when no bound is 0 (AsWritten.DifferenceAgrees).
- Batch.Array: merges with the intended `union`. The code as written is AsWritten.ArrayAsWritten, equal to it exactly when there is at most one input or the first window has no 0 bound (AsWritten.ArrayAgrees).
- Number width: JavaScript numbers are doubles, and the model uses unbounded integers. Exponent notation for magnitudes of 10^21 and above (`'' + 1e21` is `"1e+21"`) and `parseInt` rounding above 2^53 are not modelled.
- Render.ClockRoundTrip: the read-back is stated only for offsets within one day. `toString` itself is modelled for every integer offset, negative ones included, using JavaScript's `%`.
- Object identity: `difference` pushes the same clone object for every candidate it does not meet, and `TimeWindow.array` returns the first window itself rather than a copy. Values carry no identity, so the model cannot observe either.
- The receiver is never modified: `union` and `difference` work on a clone. With immutable values this holds by construction, so no contract states it.

## Findings

| source | as written | input that shows it | evidently intended | confidence | as-written member | corrected member |
|---|---|---|---|---|---|---|
| time_window.js:64 | `clone` rebuilds the window as `new TimeWindow({start, end})`, and the constructor's `start \|\| end - duration` treats a 0 bound as absent. A window with a 0 bound therefore clones to NaN. The pieces `difference` builds at lines 110-129 go through the same path. | the window `"00:00:00 - 01:00:00"`: its clone has `start = 3600 - undefined = NaN` (line 50 computes `input.end - input.duration`, and the clone passes no `duration`) | a copy with the same bounds, as the doc comment at line 60 says | not executed | Construct.SpanAsWritten, Construct.MidnightCloneIsNaN, AsWritten.CloneAsWritten, AsWritten.UnionMidnight, AsWritten.DifferenceMidnight | Windows.Clone, Merge.Union, Subtract.Difference, Batch.Array |

`Merge`, `Subtract` and `Batch` use the corrected `Windows.Clone` and `Windows.Span`, so their results are windows for every integer bound. `AsWritten` keeps the code as it stands. Its agreement lemmas (`UnionAgrees`, `DifferenceAgrees`, `ArrayAgrees`) show that the two part only when a bound is 0. `UnionMidnight` and `DifferenceMidnight` exhibit that input: `union` gives a NaN start, and `difference` loses the piece before the candidate.
