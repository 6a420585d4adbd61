# Star trails: a verified model of `trails.py`

`trails.py` turns a series of night-sky photographs into a star-trail image.
The `Trail` constructor selects the photographs. It keeps the paths whose
extension is on an allow-list, sorts them, optionally keeps only the first
`max_images`, and optionally reverses them. `Trail.process` then folds the
selected frames into one image by taking the pixel-wise maximum. With
`--skip N` only every N-th position contributes. Along the way it saves
stills:

- an optional timelapse of the raw frames, last first;
- an optional still after each contributing frame;
- the `final` image;
- with `--save-video`, 90 further copies of the final image, a 3-second hold at 30 frames/second.

The model is split into five modules:

| file | module | what it holds |
|---|---|---|
| `selection.dfy` | `Selection` | the constructor's selection as functions: POSIX `os.path.splitext`, ASCII `lower()`, the filter comprehension, `sorted` (code-point order), truncation and `[::-1]`, with their properties |
| `frames.dfy` | `Frames` | frames as `height × width × 3` nested sequences of integers, `numpy.maximum`, and the maximum-fold `Stack` with its least-upper-bound properties |
| `labels.dfy` | `Labels` | still labels: `f"{n:05}"` and `final`, with the proof that different labels give different file names |
| `schedule.dfy` | `Schedule` | what `process` computes, as functions of the decoded frames: Python's `%`, the skip rule, the accumulator after each position, and the exact sequence of `save_image` calls, with its properties |
| `trail.dfy` | `Trails` | the `Trail` class: a constructor that reassigns `images` step by step, and `Process`, the imperative loops of `process`, proved equal to the functions of `Schedule` |

The decoded pixels of `images[i]` are passed to `Process` as `pixels[i]`.
A call `save_image(frame, suffix)` is recorded as `Save(label, frame)` in
the returned sequence. Its file name is `{prefix}_{Suffix(label)}.jpg`.

## Model

| member | source | states |
|---|---|---|
| Selection.LexLeTotal | trails.py:16 | Python's string order is total, so `sorted` is defined on any list of paths |
| Selection.LexLeTransitive | trails.py:16 | Python's string order is transitive |
| Selection.LexLeAntisymmetric | trails.py:16 | two strings each `<=` the other are equal, so the sorted order is unique |
| Selection.RFind | trails.py:15 | `str.rfind` inside `os.path.splitext`: an index into the string, or -1; `RFindIsLast` shows it is the last occurrence |
| Selection.RFindIsLast | trails.py:15 | `RFind` returns an occurrence of the character, and none occurs after it |
| Selection.ExtStart | trails.py:15 | where `splitext` cuts the path: a position within the path that, unless it is the end, holds a dot (after the last `/`, and not in a leading run of dots; see `SplitExtShape` and `SplitExtNonEmpty`) |
| Selection.SplitExt | trails.py:15 | `os.path.splitext`: root and extension concatenate back to the path |
| Selection.SplitExtShape | trails.py:15 | the extension from `splitext` is empty or a dot followed by characters other than `.` and `/` |
| Selection.SplitExtNonEmpty | trails.py:15 | the extension is non-empty exactly when the last path component has a dot preceded by a non-dot character of that component |
| Selection.LowerChar | trails.py:15 | the per-character step of `str.lower()`: `A`-`Z` become the letter 32 code points higher, in `a`-`z`; every other character is kept |
| Selection.Lower | trails.py:15 | `str.lower()` on the extension: same length, each character lower-cased by `LowerChar` |
| Selection.ExtensionKey | trails.py:15 | `splitext(image)[1].lower()[1:]`: one character shorter than the extension, empty when there is none; `ExtensionKeySpec` gives its characters |
| Selection.ExtensionKeySpec | trails.py:15 | the filter key is the extension after its dot, lower-cased character by character, and holds no `.` and no `/` |
| Selection.KeyOfPlainName | trails.py:15 | for `name.ext` with no `.` or `/` in either part, the key is `ext` lower-cased |
| Selection.PlainNameKept | trails.py:14-15 | such a path passes the filter exactly when the allow-list is empty or holds the lower-cased extension |
| Selection.FilterByExtension | trails.py:14-15 | the comprehension over `Kept` (`extension_filters` empty or holding the key): never longer than its input, and with no allow-list the input itself; `FilterCounts` and `FilterMembership` give exactly what it keeps |
| Selection.FilterCounts | trails.py:14-15 | the filter keeps each passing path as often as it occurs and drops every other path |
| Selection.FilterMembership | trails.py:14-15 | a path is in the filtered list exactly when it is in the input and passes the filter |
| Selection.FilterThenSort | trails.py:14-16 | filtering and then sorting (the order of lines 15-16) selects the same list as sorting and then filtering: the comprehension keeps the relative order of the paths it keeps |
| Selection.NoFilterKeepsAll | trails.py:14 | with no allow-list (`None` or empty), the list is left as it is |
| Selection.Insert | trails.py:16 | inserting adds exactly the one element |
| Selection.InsertSorted | trails.py:16 | inserting into a sorted list keeps it sorted |
| Selection.Sort | trails.py:16 | the sorted list is a permutation of the input |
| Selection.SortIsSortedPermutation | trails.py:16 | `Sort` returns a sorted permutation |
| Selection.SortedPermutationUnique | trails.py:16 | two sorted permutations of the same list are equal |
| Selection.SortIsTheSortedPermutation | trails.py:16 | every sorted permutation equals `Sort`'s result, so any correct sort gives the same list as `sorted` |
| Selection.Truncate | trails.py:17-19 | `images[0:max_images]` applies exactly when `0 < max_images <= len`; the result is a prefix of the input of that length, otherwise the whole list |
| Selection.Reverse | trails.py:20-21 | `[::-1]`: same length, element k is element n-1-k of the input |
| Selection.ReverseInvolution | trails.py:20-21 | reversing twice gives the list back, and reversing keeps the elements |
| Selection.ReverseOfSorted | trails.py:16-21 | a reversed sorted list is in descending order |
| Selection.Select | trails.py:14-21 | the constructor's filter, `sorted`, truncation and optional reversal: never longer than the glob results, nor than `max_images` when that is positive; `SelectSpec` gives the full characterisation |
| Selection.SelectSpec | trails.py:14-21 | the selection has `min(max_images, kept)` entries when truncated, and every entry is an input path that passes the filter; without `reverse` it is the sorted filtered list's prefix, and with `reverse` that prefix reversed, in descending order; untruncated it is a permutation of the filtered list |
| Trails.Trail.constructor | trails.py:14-21 | after construction `images` is `Select(...)` of the expanded paths |
| Frames.Black | trails.py:31 | `numpy.zeros((height, width, 3))`: an 8-bit frame of the given shape, zero in every channel |
| Frames.Maximum | trails.py:48 | `numpy.maximum`: a frame of the same shape whose every channel is the larger of the two arguments' channels |
| Frames.Stack | trails.py:31-48 | the fold of `numpy.maximum` over a list of frames, starting from black: a frame of the common shape; `StackIsMaximum` characterises it |
| Frames.MaximumIsLeastUpperBound | trails.py:48 | the maximum lies above both arguments and below any frame that lies above both |
| Frames.MaximumLaws | trails.py:48 | the maximum is commutative, associative and idempotent |
| Frames.StackIsMaximum | trails.py:31-48 | the fold from black is non-negative, lies above every folded frame, and each channel is 0 or the value of some folded frame |
| Frames.StackIsImage | trails.py:79 | folding 8-bit frames gives an 8-bit frame |
| Frames.StackOrderIndependent | trails.py:48 | the fold depends only on which frames are folded, not on their order or repetition |
| Frames.StackGrows | trails.py:48 | folding one more frame never darkens the stack, and the new stack lies above that frame |
| Frames.StackExample | trails.py:48 | a worked 1×1 example: channels `(10,200,30)` and `(50,5,60)` fold to `(50,200,60)` |
| Labels.Digits | trails.py:39-57 | `str(n)` inside `f"{n:05}"`: at least one character, all decimal digits, with no leading zero when n has two or more digits; `Format05RoundTrip` parses it back |
| Labels.Format05 | trails.py:39-57 | `f"{n:05}"`: the decimal digits of n, zero-padded to five characters and never truncated, so all digits and `max(5, digits)` long |
| Labels.Suffix | trails.py:39-57 | the name passed to `save_image`: a 5-digit number or `final`, at least five characters either way; `SuffixInjective` shows the names never collide |
| Labels.Format05RoundTrip | trails.py:39-57 | `int(f"{n:05}") == n` |
| Labels.Format05Injective | trails.py:39-57 | two numbers get the same 5-digit label exactly when they are equal |
| Labels.SuffixInjective | trails.py:39-57 | two labels give the same file-name suffix exactly when they are the same label; `final` never collides with a number |
| Labels.Format05PadsShort | trails.py:39 | `f"{7:05}" == "00007"` |
| Labels.Format05KeepsLong | trails.py:50 | `f"{123456:05}" == "123456"`: longer numbers are not truncated |
| Schedule.PyMod | trails.py:44 | Python's `%`: the remainder of floor division (`a == (a // b) * b + a % b` with `a // b` rounded down), so it takes the divisor's sign and is 0 exactly when the divisor divides the dividend |
| Schedule.SkipRule | trails.py:44 | position `i` contributes exactly when `not (skip != 0 and i % skip != 0)`, negative `skip` included |
| Schedule.FirstFrameContributes | trails.py:44 | position 0 always contributes |
| Schedule.Positions | trails.py:42-44 | the positions the main loop folds in, each below the number of frames; `PositionsContribute`, `PositionsComplete` and `PositionsIncreasing` pin them down |
| Schedule.PositionsContribute | trails.py:42-48 | every listed position contributes |
| Schedule.PositionsComplete | trails.py:42-48 | every contributing position is listed |
| Schedule.PositionsIncreasing | trails.py:42 | the contributing positions are listed in increasing order |
| Schedule.PositionsExamples | trails.py:44 | without skipping all n positions contribute; `skip=2` over 5 frames gives positions 0, 2, 4 |
| Schedule.AccumulateThrough | trails.py:42-48 | the stack after the first k iterations of the main loop: a frame of the common shape |
| Schedule.Accumulate | trails.py:42-48 | the stack after the main loop, returned as `final`: a frame of the common shape |
| Schedule.MainLoopStep | trails.py:42-50 | one iteration with the guard as written: a skipped frame leaves the stack and the stills unchanged; a kept one is folded in with `numpy.maximum` and the new stack saved as number `offset + counter` |
| Schedule.AccumulateIsFoldOfContributing | trails.py:31-48 | after k iterations the stack is the maximum-fold, from black, of the contributing frames among the first k |
| Schedule.AccumulatorNeverDecreases | trails.py:48 | one more iteration never darkens the stack |
| Schedule.AccumulateIsMaximumOfContributing | trails.py:31-51 | the final stack lies above every contributing frame, is non-negative, and each channel is 0 or the value of a contributing frame |
| Schedule.AccumulateOrderIndependent | trails.py:42-48 | any ordering of the contributing frames folds to the same final stack |
| Schedule.SkippedRunKeepsAccumulator | trails.py:44-46 | a run of skipped positions leaves the stack unchanged |
| Schedule.AccumulateThroughIsImage | trails.py:79 | the stack is an 8-bit frame after every iteration |
| Schedule.TimelapseSaves | trails.py:36-39 | the timelapse stills: one per frame; `TimelapseIsReversedInput` and `TimelapseNumbered` give order and labels |
| Schedule.IntermediateSaves | trails.py:42-50 | the stills of the first k iterations: at most one per iteration; `IntermediatesPerPosition` gives them exactly |
| Schedule.HoldSaves | trails.py:55-57 | the video hold: exactly 90 stills, still c being the given frame numbered `base + c` |
| Schedule.WritesIntermediate | trails.py:33-34 | intermediate stills are written whenever a video is asked for |
| Schedule.WritesTimelapse | trails.py:35 | the timelapse is written only when asked and when intermediate stills are written |
| Schedule.Offset | trails.py:32-40 | the first intermediate number is 0, or the number of frames, the latter only when the timelapse is written |
| Schedule.Stills | trails.py:29-57 | all `save_image` calls of `process`, in order: never fewer than one, and at least 91 with a video; `FinalAlwaysWritten` places `final` with the final stack after the numbered stills, `StillCount` gives the exact count and `VideoHoldFollows` the hold after `final` |
| Schedule.TimelapseNumbered | trails.py:36-39 | the timelapse labels are 0 .. n-1, increasing |
| Schedule.IntermediatesPerPosition | trails.py:42-50 | there is one intermediate still per contributing position, labelled `offset + i` and holding the stack after position i |
| Schedule.IntermediatesNumbered | trails.py:49-50 | intermediate labels lie in `offset .. offset+n-1` and increase |
| Schedule.IntermediatesForContributingOnly | trails.py:44-50 | every contributing position has its intermediate still, and no skipped position has one |
| Schedule.NumberedIncreasing | trails.py:35-50 | all numbered stills before `final` have increasing labels below `offset + n` |
| Schedule.StillNamesDistinct | trails.py:35-57 | no two saved stills share a file name |
| Schedule.TimelapseIsReversedInput | trails.py:35-40 | with timelapse and intermediates, still c is raw frame n-1-c and numbering then starts at n |
| Schedule.TimelapseAloneWritesOnlyFinal | trails.py:33-51 | `--keep-timelapse` alone saves nothing but `final` |
| Schedule.FinalAlwaysWritten | trails.py:48-51 | under every combination of flags, the still right after the numbered ones is `final`, holding the final stack |
| Schedule.NoFlagsWritesOnlyFinal | trails.py:33-51 | with no flags, `process` saves `final`, holding the final stack, and nothing else |
| Schedule.ContributingPositionsGetStills | trails.py:33-50 | with intermediates or a video, each contributing position i has still `offset + i`, holding the stack after i |
| Schedule.SkippedPositionsGetNoStill | trails.py:44-46 | no still is ever numbered `offset + i` for a skipped position i |
| Schedule.VideoHoldFollows | trails.py:51-57 | with a video, `final` is followed by the last 90 stills, copies of the final stack numbered `offset + n` onwards |
| Schedule.StillCount | trails.py:35-57 | the number of stills is the timelapse (n, when written), plus one per contributing position (with intermediates), plus `final`, plus 90 (with a video) |
| Schedule.VideoStillCountExample | trails.py:33-57 | with a video, 10 frames and no skipping, there are 10 + 90 numbered stills plus `final` |
| Schedule.LastIntermediateIsFinal | trails.py:50-51 | the last intermediate still holds the same frame as `final` |
| Schedule.StillsAreImages | trails.py:79 | every saved frame has 8-bit values, so rounding and the `uint8` cast leave it unchanged |
| Trails.WriteTimelapse | trails.py:36-39 | the timelapse loop saves exactly `TimelapseSaves`: raw frame n-1-c as number c |
| Trails.WriteHold | trails.py:56-57 | the hold loop saves exactly `HoldSaves`: 90 copies numbered from the offset |
| Trails.Trail.Process | trails.py:29-57 | the returned stack is `Accumulate`, the saves are exactly `Stills` in call order, and every saved frame is an 8-bit image |

## Left out

- Glob and directory expansion (trails.py:9-13): the file system is outside the model. The constructor receives the expanded paths.
- The output directory (trails.py:22-27): `os.makedirs`, `os.getcwd` and the stored prefix are file-system state.
- Image decoding and JPEG encoding (trails.py:30, 38, 47, 80-82): `Image.open` is replaced by the `pixels` argument. A save is recorded as its label and frame, and `os.path.join` is not modelled.
- Floating point (trails.py:31, 38, 47, 79): frames hold integers. Decoded frames are 8-bit, and the only arithmetic is `numpy.maximum`, so the float promotion changes no value. `Schedule.StillsAreImages` shows that `round` and the `uint8` cast are then the identity.
- The video step (trails.py:58, 60-76): running `ffmpeg` is an external process. The model stops at the stills it reads.
- `main`, argument parsing and all `print` output (trails.py:18, 37, 43, 45, 54, 84-104).
- Selection.LowerChar: only `A`-`Z` are lower-cased. Python's `str.lower` also folds non-ASCII letters.
- Paths with undecodable bytes: a path is a `seq<char>`, and a Dafny `char` is a Unicode scalar value, so the lone surrogates Python's `glob` produces for undecodable file-name bytes (surrogateescape) cannot occur. Such paths, and their place in the code-point sort at trails.py:16, are not modelled.
- Selection.SplitExt: only the POSIX `os.path.splitext` is modelled, with `/` as the only separator. On Windows, `ntpath.splitext` also treats `\` as a separator, so the model does not capture the extension of a Windows path whose last component is delimited by `\`.
- Trails.Trail.constructor: `extension_filters` of `None` and `[]` are both the empty sequence, since both are falsy at trails.py:14.
- Trails.Trail.Process: an empty selection is excluded by a precondition. Python raises `IndexError` at `self.images[0]` (trails.py:30) before doing anything else. The code crashes there rather than checking for an empty selection up front, and the model follows the code.
- Trails.Trail.Process: frames whose size differs from the first frame's are excluded by the precondition `Uniform`. numpy would raise or broadcast at trails.py:48, and the code does not check for this.
- A frame that cannot be decoded is not modelled: `pixels` holds only decoded frames.
- Trails.Trail.Process: `--skip` is not restricted to non-negative values, matching the code. A negative `skip` follows Python's `%` (`Schedule.PyMod`, `Schedule.SkipRule`).
- Trails.WriteTimelapse, Trails.WriteHold: the timelapse and hold loops are separate methods whose results `Process` appends. In the source they append in place inside `process`, and the resulting sequence of calls is the same.
