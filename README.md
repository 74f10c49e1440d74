# ScreenTextExtractor core, modelled in Dafny

ScreenTextExtractor records a screen and runs OCR on sampled frames. The
result is a list of text fragments (`TextData`). Each fragment has a
capture timestamp, a text, a confidence and a bounding box. Two pure
algorithms turn that list into something readable:

- **Temporal deduplication** (`DataCleaner.clean`). Fragments are grouped
  by exact timestamp and the distinct timestamps are walked in ascending
  order. Each frame keeps only the fragments whose text did not occur in
  the frame immediately before it. The first frame is compared against the
  empty set.
- **Reading-order stitching** (`TextStitcher.stitch`). The same grouping
  is used. Each frame is sorted top to bottom; origins closer than 0.01 in
  Y count as one line and are sorted left to right. A frame's texts are
  joined with a space, and the frame blocks with a blank line (`"\n\n"`).

The fragment record is persisted as a keyed container with seven flat
entries. The bounding box is spread over four numeric keys, and the
identifier is not written.

The project has five modules:

- `Fragments` (`fragments.dfy`): the record, its coding keys, and the
  encoder and decoder with their round trips.
- `KeyOrder` and `Timeline` (`timeline.dfy`): grouping by timestamp
  (`Dictionary(grouping:by:)`), the ascending list of distinct timestamps
  (`keys.sorted()`), and the "previous moment" relation.
- `DataCleaner` (`data_cleaner.dfy`): the loop of `clean` as a method. It
  is proved equal to a functional account of the loop (`Cleaned`), and
  that function is proved to meet an independent, loop-free description of
  the policy (`CleanedFrom`).
- `TextStitcher` (`text_stitcher.dfy`): the loop of `stitch` as a method,
  proved equal to `Stitched`. The per-frame sort, the joins, and the
  ordering and permutation lemmas live here too.
- `Scenarios` (`scenarios.dfy`): small symbolic captures. They show the
  behaviour on typical screens and refute laws one might expect but that
  the code does not obey (idempotence, order independence, a transitive
  comparator).

Timestamps and coordinates are exact reals. The confidence is carried
through and never read.

## Model

| member | source | states |
|---|---|---|
| DataCleaner.Clean | ScreenTextExtractor/DataCleaner.swift:15-46 | the loop's result equals the frame-by-frame account `Cleaned`; empty input gives an empty list |
| DataCleaner.CleanStep | ScreenTextExtractor/DataCleaner.swift:28-43 | one iteration keeps the loop invariant: the set difference, the conditional filter and append, and the replacement of the previous set |
| DataCleaner.NewFragmentsAreUnseen | ScreenTextExtractor/DataCleaner.swift:33-39 | filtering a frame by the texts missing from the previous set keeps exactly the fragments whose text is unseen, in frame order; an empty difference adds nothing |
| DataCleaner.PreviousTextsAt | ScreenTextExtractor/DataCleaner.swift:26-42 | at position i of the ascending timestamps, the previous set the loop carries is the text set of position i-1, and the empty set at position 0 |
| DataCleaner.CleanedFrame | ScreenTextExtractor/DataCleaner.swift:28-43 | the output's frame at t is the input frame at t minus the fragments whose text was in the nearest earlier frame, in input order; earlier frames play no role |
| DataCleaner.CleanedCount | ScreenTextExtractor/DataCleaner.swift:30-38 | a fragment is kept, with all its copies, if and only if its text is absent from the nearest earlier frame |
| DataCleaner.CleanedSubMultiset | ScreenTextExtractor/DataCleaner.swift:37-38 | every output fragment is an unchanged input fragment, never more copies than the input has, and the output is never longer |
| DataCleaner.CleanedOrdered | ScreenTextExtractor/DataCleaner.swift:24-28 | output timestamps are non-decreasing |
| DataCleaner.EarliestFrameKept | ScreenTextExtractor/DataCleaner.swift:26-33 | every fragment of the smallest timestamp is kept, in input order |
| DataCleaner.RepeatedFrameDropped | ScreenTextExtractor/DataCleaner.swift:33-38 | a frame whose texts were all in the previous frame contributes nothing |
| DataCleaner.CleanedProperties | ScreenTextExtractor/DataCleaner.swift:15-46 | the cleaned list meets the loop-free description: time ordered, frame by frame the unseen fragments, membership by the previous-frame rule, a sub-multiset of the input |
| Timeline.GroupByTimestamp | ScreenTextExtractor/DataCleaner.swift:21 | one entry per distinct timestamp, holding that moment's fragments in input order, never empty |
| Timeline.FrameCount | ScreenTextExtractor/DataCleaner.swift:21 | a frame holds every copy of every fragment with its timestamp, and nothing else |
| Timeline.Chronology | ScreenTextExtractor/DataCleaner.swift:24 | the distinct timestamps, strictly ascending |
| Timeline.ChronologyOrderFree | ScreenTextExtractor/TextStitcher.swift:17-20 | the ascending timestamp list depends only on which fragments there are, not on their order |
| Timeline.ChronologySplit | ScreenTextExtractor/DataCleaner.swift:21-24 | when every moment of one capture precedes every moment of another, the ascending timestamps of both together are those of the first followed by those of the second |
| Timeline.FrameSplit | ScreenTextExtractor/DataCleaner.swift:21 | in such a capture, each moment's group lies wholly in the part it belongs to |
| Timeline.PreviousInChronology | ScreenTextExtractor/DataCleaner.swift:28-42 | in the ascending list, the entry before position i is the nearest smaller timestamp, and the first entry has none |
| Timeline.PreviousMomentSpec | ScreenTextExtractor/DataCleaner.swift:42 | the one-pass search finds the nearest smaller timestamp, and finds none exactly when no timestamp is smaller |
| KeyOrder.InsertSorted | ScreenTextExtractor/DataCleaner.swift:24 | insertion into a strictly ascending list keeps it strictly ascending, with the element set extended by the new value |
| KeyOrder.SortedUnique | ScreenTextExtractor/DataCleaner.swift:24 | a strictly ascending list is determined by its element set, so the sorted keys are unique |
| TextStitcher.Stitch | ScreenTextExtractor/TextStitcher.swift:13-43 | the loop's result equals `Stitched`; empty input gives the empty string |
| TextStitcher.BlocksExtend | ScreenTextExtractor/TextStitcher.swift:24-40 | each iteration appends the block of the next timestamp's frame |
| TextStitcher.StitchedSplit | ScreenTextExtractor/TextStitcher.swift:17-42 | a capture followed by a strictly later one stitches to the two documents with one blank line between them, whatever the order of fragments within each capture: blocks come one per moment, in time order |
| TextStitcher.BlocksSplit | ScreenTextExtractor/TextStitcher.swift:24-39 | the blocks of two strictly successive captures are the blocks of each, in turn |
| TextStitcher.JoinConcat | ScreenTextExtractor/TextStitcher.swift:42 | joining two non-empty lists puts exactly one separator between their joins |
| TextStitcher.JoinAppend | ScreenTextExtractor/TextStitcher.swift:42 | appending a part to a non-empty list adds exactly one separator before it |
| TextStitcher.SingleMoment | ScreenTextExtractor/TextStitcher.swift:24-42 | a single distinct timestamp gives exactly its own block, with no separator |
| TextStitcher.Insert | ScreenTextExtractor/TextStitcher.swift:28-35 | one insertion step of the sort adds the element once and loses none |
| TextStitcher.SortFrame | ScreenTextExtractor/TextStitcher.swift:28-35 | the per-frame sort is a permutation of the frame |
| TextStitcher.Texts | ScreenTextExtractor/TextStitcher.swift:36 | the text list has one entry per fragment, position by position |
| TextStitcher.BlockWords | ScreenTextExtractor/TextStitcher.swift:28-37 | a block holds every text of its frame exactly as often as the frame does: no filtering, no dedup |
| TextStitcher.SortOrdered | ScreenTextExtractor/TextStitcher.swift:28-35 | where the comparator agrees with one coordinate on a frame, the sort orders the frame by it |
| TextStitcher.OneLineByX | ScreenTextExtractor/TextStitcher.swift:29-31 | when all Y origins are pairwise within 0.01, the sorted frame is in ascending X |
| TextStitcher.SeparateLinesByY | ScreenTextExtractor/TextStitcher.swift:33-34 | when all Y origins are pairwise at least 0.01 apart, the sorted frame is in ascending Y, whatever the X |
| TextStitcher.InsertOrdered | ScreenTextExtractor/TextStitcher.swift:28-35 | inserting into an ordered list, under a comparator that agrees with one coordinate, keeps it ordered |
| TextStitcher.TextsOfInsert | ScreenTextExtractor/TextStitcher.swift:28-36 | one insertion step adds exactly the inserted fragment's text to the text multiset |
| Fragments.Init | ScreenTextExtractor/TextData.swift:50-55 | the memberwise initializer stores its four arguments unchanged, with a fresh identifier |
| Fragments.Encode | ScreenTextExtractor/TextData.swift:27-36 | every coding key is written with a value of its type, nothing else is written, and `id` is not written; timestamp, text, confidence and the box origin are written as stored, width and height as their magnitudes |
| Fragments.EncodeKeys | ScreenTextExtractor/TextData.swift:20-25 | the written keys are exactly the names of the seven coding keys, seven entries in all |
| Fragments.DecodeNumber | ScreenTextExtractor/TextData.swift:40-46 | a numeric decode succeeds exactly when the key holds a number and returns it; otherwise it reports key not found, value not found (null) or type mismatch |
| Fragments.DecodeString | ScreenTextExtractor/TextData.swift:41 | a string decode succeeds exactly when the key holds a string and returns it; otherwise it reports the matching error |
| Fragments.Decode | ScreenTextExtractor/TextData.swift:38-48 | decoding succeeds exactly when all seven keys are readable; on failure it reports the error of the first unreadable key in declaration order; a decoded record carries the fresh identifier and holds each stored value unchanged, the box rebuilt from the four raw flat fields (a negative width stays negative) |
| Fragments.DecodeEncode | ScreenTextExtractor/TextData.swift:27-48 | decoding an encoding rebuilds the payload with the box origin as stored and the size as its magnitude |
| Fragments.RoundTrip | ScreenTextExtractor/TextData.swift:27-48 | the round trip always succeeds, keeps timestamp, text and confidence, and keeps the box if and only if its width and height are non-negative; the identifier is replaced |
| Fragments.EncodeDecode | ScreenTextExtractor/TextData.swift:38-48 | encoding a decoded container gives back each coding key's entry, with a negative width or height replaced by its magnitude |
| Scenarios.StaticScreenDeduplicated | ScreenTextExtractor/DataCleaner.swift:33-42 | two frames of the same two texts clean to the first frame only |
| Scenarios.ReappearanceKept | ScreenTextExtractor/DataCleaner.swift:42 | a text that is missing for one frame and comes back is kept again: the comparison is one frame back only |
| Scenarios.CleanNotIdempotent | ScreenTextExtractor/DataCleaner.swift:26-43 | frames {X,Y}, {Y}, {X} clean to X, Y, X, and cleaning that again drops the last X |
| Scenarios.CleanOrderDependent | ScreenTextExtractor/DataCleaner.swift:21 | two orders of the same fragments at one timestamp clean to different lists |
| Scenarios.SingleFrameKept | ScreenTextExtractor/DataCleaner.swift:26-38 | a capture of one moment is kept whole, in input order, duplicate texts included |
| Scenarios.OneLineStitched | ScreenTextExtractor/TextStitcher.swift:29-31 | two fragments on one line, given right one first, read left text, space, right text |
| Scenarios.LinesByY | ScreenTextExtractor/TextStitcher.swift:33-34 | on different lines the upper origin's text comes first |
| Scenarios.StitchKeepsTieOrder | ScreenTextExtractor/TextStitcher.swift:28-35 | fragments at the same origin keep their input order |
| Scenarios.TwoMomentsStitched | ScreenTextExtractor/TextStitcher.swift:17-42 | two moments, given later one first, give the earlier text, a blank line, the later text |
| Scenarios.ComparatorCycle | ScreenTextExtractor/TextStitcher.swift:29-34 | three origins 0.009 apart in Y form a cycle under the comparator, so it is not transitive |
| Scenarios.CleanTwiceDiffers | ScreenTextExtractor/DataCleaner.swift:26-43 | concrete fragments for which cleaning twice differs from cleaning once |

## Left out

- The app around the core: SwiftUI views, share sheets, temporary files, ReplayKit callbacks, Vision OCR, AVFoundation frame sampling and its concurrent appends, and the JSON file writes.
- The conversion of Vision's bottom-left boxes to top-left coordinates is a CoreGraphics call. Fragments are assumed to arrive in top-left convention.
- Floating point: timestamps, coordinates and confidences are exact reals. NaN timestamps, rounding in `abs(y1 - y2) < 0.01`, and the precision lost when a `Float` confidence or a `CGFloat` goes through JSON are not modelled.
- Texts are compared as sequences of code points. Swift's `String` equality, which `Set<String>`, `subtracting` and `contains` use in `clean`, is Unicode canonical equivalence, so a precomposed "é" and an "e" followed by a combining accent are one text there and two texts in the model. Where a frame shows a text in one form and the previous frame in the other, `clean` drops the fragment and the model keeps it. Unicode normalisation is not modelled.
- `UUID()` is a parameter (`freshId`) of `Init` and `Decode`; its randomness is not modelled.
- The hash order of `Dictionary.keys` is not modelled. It is invisible, because the keys are sorted at once (`Chronology`).
- The `guard let ... else { continue }` lookups in both loops can never take the `continue` branch: every sorted key comes from the dictionary. The model indexes the map directly, which Dafny proves safe.
- TextStitcher.SortFrame: Swift's `sorted(by:)` is modelled as a stable insertion sort with the same comparator. Swift does not specify the result when the comparator is not a strict weak order, and this one is not transitive (`ComparatorCycle`). So only the permutation, the two regular layouts (all on one line, all on separate lines) and tie order are claimed, not general sortedness.
- JSON syntax and the JSONDecoder's number conversions are not modelled. A decoding container is a map from key names to null, boolean, number or string values.
- Idempotence and independence from input order are not claimed for `clean`, and independence from input order is not claimed for `stitch`: the code has none of these properties, and the model follows the code (`CleanNotIdempotent`, `CleanOrderDependent` for `clean`; `StitchKeepsTieOrder` for `stitch`, where fragments at the same origin keep their input order).
- DataCleaner.Clean: its postcondition is the equality with `Cleaned`. The policy itself (`CleanedFrom`) is proved about `Cleaned` in `CleanedProperties` rather than repeated in the method's contract.
