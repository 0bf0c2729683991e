# Audio repeat remover — verified model of the detection and excision core

The program reads a mono recording, cuts it into spectral frames (magnitude
spectra of 1024-sample windows with a 512-sample hop), looks for pairs of
non-overlapping runs of five frames whose frames are pairwise similar, and
writes a copy of the recording without any frame of either run of such a
pair: every copy of a repeat is removed, none is kept. This
project models the core of `AudioRepeatRemover`:

- **Frame similarity** (`dtw.dfy`, module `Dtw`): dynamic time warping over
  the bins of two frames, with the program's own boundary handling (only the
  origin cell of the cost table is seeded; the rest of row 0 and column 0
  stays at +infinity), and the test `distance < 0.8`. Costs are exact reals
  with an explicit infinity (`extended.dfy`, module `Extended`). The
  table-filling method runs over an `array2` and is proved to compute the
  recursive definition `Cell`.
- **Repeat scanner** (`scanner.dfy`, module `RepeatScanner`; properties in
  `scanner_properties.dfy`): the exhaustive nested scan over window pairs
  `(i, j)` with `j >= i + 5`, short-circuit window comparison, and insertion
  of both windows into a set. The similarity relation is a parameter; the
  program's instance uses the DTW test. The loop bound is a parameter of
  `ScanWindowPairs`, so the program's scan and an inclusive-bound scan are the
  same method.
- **Segment excision** (`excision.dfy`, module `Excision`): the audio processor
  with its `frameCount` field, forwarding a frame to the writer only when its
  index is not in the repeated-index set. The writer is the sequence of frames
  handed to it.
- **Output file name** (`output_name.dfy`, module `OutputName`): the name with
  a final `.ext` removed (ext non-empty, without dots), followed by
  `_repremoved.wav`.

Behaviours of the code that a reader might not expect:

- Both runs of a matching pair are marked (`ScanWindowPairs` inserts the
  frames of window `i` and of window `j`), so no copy of a repeated passage
  survives the excision.
- For a block of six frames, no two of them similar, followed by itself,
  the code marks frames 0–4 and 6–10, not the whole of both copies
  (`DoubledBlockExample`, with identity as the similarity); see Findings.
- An empty frame makes the code fail at `dtw[0][0]`; `DtwDistance` returns
  `None` there.

## Model

| member | source | states |
|---|---|---|
| Dtw.ComputeDTWDistance | app/src/main/java/audio/repeat/remover/AudioRepeatRemover.java:108-128 | filling the n×m table (all cells +inf, origin 0, interior rows in order) returns the recursive `Cell(n-1, m-1)`, or None when a frame is empty; the result is never negative |
| Dtw.AreFingerprintsSimilar | app/src/main/java/audio/repeat/remover/AudioRepeatRemover.java:100-106 | similar exactly when the DTW distance is finite and below 0.8; fails (None) exactly when a frame is empty |
| Dtw.CellNonNegative | app/src/main/java/audio/repeat/remover/AudioRepeatRemover.java:113-125 | every cell of the table is +inf or a real at least 0 |
| Dtw.CellSymmetric | app/src/main/java/audio/repeat/remover/AudioRepeatRemover.java:113-125 | cell (i, j) for frames (a, b) equals cell (j, i) for (b, a) |
| Dtw.CellInteriorFinite | app/src/main/java/audio/repeat/remover/AudioRepeatRemover.java:118-125 | every interior cell (i, j ≥ 1) is finite |
| Dtw.CellIgnoresFirstBin | app/src/main/java/audio/repeat/remover/AudioRepeatRemover.java:120-125 | cells do not depend on bin 0 of either frame |
| Dtw.CellWithinDiagonal | app/src/main/java/audio/repeat/remover/AudioRepeatRemover.java:120-125 | a diagonal cell (i, i) is at most the summed bin differences of bins 1..i |
| Dtw.DtwSymmetric | app/src/main/java/audio/repeat/remover/AudioRepeatRemover.java:100-127 | distance(a, b) == distance(b, a), and similarity is symmetric |
| Dtw.DtwByLength | app/src/main/java/audio/repeat/remover/AudioRepeatRemover.java:109-127 | None iff a frame is empty; 0 for two one-bin frames; +inf when exactly one frame has one bin; finite when both have two or more; never negative |
| Dtw.DtwIgnoresFirstBin | app/src/main/java/audio/repeat/remover/AudioRepeatRemover.java:120-127 | frames differing only in bin 0 give the same distance |
| Dtw.SimilarWhenDiagonalClose | app/src/main/java/audio/repeat/remover/AudioRepeatRemover.java:100-106 | equal-length frames whose summed bin differences (from bin 1) are below 0.8 are similar |
| Dtw.SelfDistanceZero | app/src/main/java/audio/repeat/remover/AudioRepeatRemover.java:100-127 | a non-empty frame is at distance 0 from itself and similar to itself |
| RepeatScanner.WindowsAreSimilar | app/src/main/java/audio/repeat/remover/AudioRepeatRemover.java:82-88 | the loop that breaks at the first dissimilar frame pair answers exactly "all five frame pairs are similar" |
| RepeatScanner.ScanWindowPairs | app/src/main/java/audio/repeat/remover/AudioRepeatRemover.java:80-96 | the nested scan's set holds x exactly when some visited pair (i, j), j ≥ i + 5, both starts below the bound, matches and has x in one of its windows |
| RepeatScanner.DetectRepeatedSegments | app/src/main/java/audio/repeat/remover/AudioRepeatRemover.java:76-98 | the scan with bound N - 5 returns exactly the marked indices; every one lies in [0, N-2]; empty when N ≤ 10 |
| RepeatScanner.DetectRepeatedSegmentsDtw | app/src/main/java/audio/repeat/remover/AudioRepeatRemover.java:63-63 | the program's scan, with DTW similarity: the same characterisation, the [0, N-2] bound and the empty result for N ≤ 10 |
| RepeatScanner.DetectRepeatedSegmentsInclusive | app/src/main/java/audio/repeat/remover/AudioRepeatRemover.java:80-81 | the scan with both starts up to N - 5 inclusive marks exactly its matching windows, all inside [0, N) |
| RepeatScanner.MarkedBounds | app/src/main/java/audio/repeat/remover/AudioRepeatRemover.java:80-93 | a marked index lies in [0, N-2]: the last frame is never marked |
| RepeatScanner.NothingMarkedWhenShort | app/src/main/java/audio/repeat/remover/AudioRepeatRemover.java:80-81 | with at most 2·5 frames no index is marked |
| RepeatScanner.WindowsDisjoint | app/src/main/java/audio/repeat/remover/AudioRepeatRemover.java:81-81 | the two windows of a visited pair share no index |
| ScannerProperties.Interval | app/src/main/java/audio/repeat/remover/AudioRepeatRemover.java:90-93 | inserting lo..hi-1 one at a time gives exactly the indices in [lo, hi) |
| ScannerProperties.MarkPairsMembers | app/src/main/java/audio/repeat/remover/AudioRepeatRemover.java:89-94 | inserting the windows of matching pairs in a given order yields x exactly when some listed pair matches with x in its windows |
| ScannerProperties.ScanOrderIrrelevant | app/src/main/java/audio/repeat/remover/AudioRepeatRemover.java:80-94 | visiting the window pairs in any order (with repeats) yields exactly the scanner's set |
| ScannerProperties.DoubledBlockExample | app/src/main/java/audio/repeat/remover/AudioRepeatRemover.java:80-94 | six distinct frames followed by themselves, identity similarity: exactly frames 0..4 and 6..10 are marked |
| ScannerProperties.ExactRepeatMissed | app/src/main/java/audio/repeat/remover/AudioRepeatRemover.java:80-81 | for B ++ B the final windows of both copies match, yet the last frame is not marked; with one-window B nothing is marked |
| ScannerProperties.InclusiveScanMarksWholeRepeat | app/src/main/java/audio/repeat/remover/AudioRepeatRemover.java:80-81 | with the inclusive bound every frame of B ++ B is marked (B at least one window long, frames self-similar) |
| ScannerProperties.ExactRepeatMissedDtw | app/src/main/java/audio/repeat/remover/AudioRepeatRemover.java:80-81 | the same miss with DTW similarity, for non-empty frames |
| ScannerProperties.InclusiveDtwScanMarksWholeRepeat | app/src/main/java/audio/repeat/remover/AudioRepeatRemover.java:80-106 | the same with DTW similarity, for non-empty frames |
| Excision.KeptIndices | app/src/main/java/audio/repeat/remover/AudioRepeatRemover.java:140-143 | the indices below n not in the set, strictly increasing, each exactly once |
| Excision.ExcisionProcessor.constructor | app/src/main/java/audio/repeat/remover/AudioRepeatRemover.java:135-136 | a new processor has frameCount 0 and has written nothing |
| Excision.ExcisionProcessor.Process | app/src/main/java/audio/repeat/remover/AudioRepeatRemover.java:139-145 | the frame is written iff its index is not in the set; frameCount always grows by 1; written stays the filter of all frames received; returns true |
| Excision.RemoveRepeatedSegments | app/src/main/java/audio/repeat/remover/AudioRepeatRemover.java:130-157 | feeding every frame through a fresh processor writes exactly the frames whose index is not in the set, in order |
| Excision.KeepUnrepeatedSelects | app/src/main/java/audio/repeat/remover/AudioRepeatRemover.java:140-143 | output position p holds the input frame at the p-th index not in the set |
| Excision.KeepAllWhenNoneRepeated | app/src/main/java/audio/repeat/remover/AudioRepeatRemover.java:140-143 | an empty set leaves the input unchanged |
| Excision.OutOfRangeIgnored | app/src/main/java/audio/repeat/remover/AudioRepeatRemover.java:140-140 | indices outside [0, N) have no effect |
| Excision.KeepUnrepeatedExtend | app/src/main/java/audio/repeat/remover/AudioRepeatRemover.java:140-143 | one more frame is appended to the output exactly when its index is not in the set |
| Excision.ExcisionExample | app/src/main/java/audio/repeat/remover/AudioRepeatRemover.java:140-143 | removing {2, 3, 4} from ten frames leaves frames 0, 1, 5, 6, 7, 8, 9 |
| OutputName.LastIndexOf | app/src/main/java/audio/repeat/remover/AudioRepeatRemover.java:33-33 | the position of the last dot, or -1, with no dot after it |
| OutputName.StripExtension | app/src/main/java/audio/repeat/remover/AudioRepeatRemover.java:33-33 | where `[.][^.]+$` matches at k the name becomes its first k characters; with no match it is unchanged |
| OutputName.OutputFileName | app/src/main/java/audio/repeat/remover/AudioRepeatRemover.java:33-33 | ends in `_repremoved.wav`, preceded by the name without its final non-empty dot-free extension |
| OutputName.ExtensionUnique | app/src/main/java/audio/repeat/remover/AudioRepeatRemover.java:33-33 | the pattern matches at no more than one position, so the first match is that one |
| OutputName.LastExtensionOnly | app/src/main/java/audio/repeat/remover/AudioRepeatRemover.java:33-33 | `a.b.wav` gives `a.b_repremoved.wav` |
| OutputName.NoExtensionKept | app/src/main/java/audio/repeat/remover/AudioRepeatRemover.java:33-33 | `noext` gives `noext_repremoved.wav` |
| OutputName.TrailingDotKept | app/src/main/java/audio/repeat/remover/AudioRepeatRemover.java:33-33 | `file.` gives `file._repremoved.wav` |

## Left out

- File selection through `JFileChooser`, the batch loop over the selected files and its console messages (lines 18-29, 68): user interface and I/O.
- Decoding the file, framing, and the FFT magnitude spectrum (lines 38-60, 132): library calls and floating-point signal processing. Frames reach the scanner as given sequences of reals; the excision takes the frame stream as a sequence.
- `WaveformWriter` (line 133) is the processor's `written` sequence. Closing it in `processingFinished` (lines 148-150) is not modelled.
- The output directory path built from `getParentFile().getParent()` (line 34): file-system path handling.
- IEEE `float`/`double` rounding in `Math.abs(fp1[i] - fp2[j])` and the widening of `float` to `double`: costs are exact reals with an explicit +infinity. NaN cannot arise from finite spectra and is not modelled.
- Catching and printing exceptions (lines 70-72, 154-156). The empty-frame failure of the DTW is returned as None instead.
- RepeatScanner.DetectRepeatedSegmentsDtw: an empty frame counts as "not similar", where the program would throw and abandon the file. The spectra always have 512 bins, so this case does not arise from the frame source.
- Excision.ExcisionProcessor.Process: `frameCount` is an unbounded integer; the program's 32-bit `int` would wrap after 2^31 frames.
- The Java regular-expression detail that `$` also matches before a final line terminator: file names are taken to contain none.
- The quadratic running time of the scan.

## Findings

| source | as written | input that shows it | evidently intended | confidence | as-written member | corrected member |
|---|---|---|---|---|---|---|
| app/src/main/java/audio/repeat/remover/AudioRepeatRemover.java:80-81 | both window starts must be `< N - 5`, so a window ending on the last frame is never compared | a block B followed by itself: with \|B\| = 5 (N = 10) nothing is marked; with \|B\| = 6 frame 11 is never marked although the last windows of the two copies match | starts up to and including N - 5 (`<=`), so that every frame of an exact repeat can be marked | medium; not executed | ScannerProperties.ExactRepeatMissed | ScannerProperties.InclusiveScanMarksWholeRepeat |

The inclusive scan is `RepeatScanner.DetectRepeatedSegmentsInclusive`: the same
`ScanWindowPairs` with the bound raised by one. `DetectRepeatedSegments` and
`DetectRepeatedSegmentsDtw` keep the program's bound, so the model matches
what the code does.
