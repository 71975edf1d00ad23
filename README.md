# Lucid-TRACE forensic scoring pipeline, modelled in Dafny

Lucid-TRACE decides whether an uploaded image or video is AI-generated or
tampered with. Its scoring pipeline works in five steps:

1. It hashes the file (chain of custody).
2. It turns the file into still samples: the image itself, one video frame per second, evenly spaced face crops, or random frames.
3. It caps the number of samples sent to the paid detection service at ten.
4. It keeps the scores the service returns.
5. It fuses them into a mean and a maximum percentage and classifies them on a four-step risk ladder. A separate two-branch aggregator gives a FAKE/REAL verdict.

This project models that pipeline's decision logic and proves what it promises. The decoders, the face detector, the remote scorer, SHA-256 and the random number generator are parameters:

- a decoded video is a sequence of per-position read results;
- the detector is a function from a frame to its boxes;
- the scorer is a function from a sample to an optional probability;
- the digest is a function of the byte sequence;
- `random.sample` is a nondeterministic draw of distinct positions.

Modules, one per concern of the source:

- `Wrappers`: `Option`.
- `Text`: Python's `str.lower` on ASCII letters and the Kelvin sign, `os.path.splitext` and `basename`, and `str(n)`.
- `PyNum`: `int()` truncation, Python's floored `%`, and `round(x * 100, 2)` as round-half-even on hundredths.
- `Stats`: sum, mean, max and min.
- `Media`: frames and what `cv2.VideoCapture` reports.
- `Sampling`: `random.sample`.
- `Extraction`: `extract_images_from_media`.
- `Custody`: `get_file_hash`, with classes for the hash object and the open file.
- `Budget`: the ten-call budget.
- `Scoring`: the score filter loop.
- `Verdict`: the risk ladder.
- `LucidTrace`: `analyze_media_data`.
- `CliReport`: `analyze_media` of main.py and its report text.
- `FaceCrops`: `extract_frames` of backend/result.py.
- `RandomFrames`: `extract_frames` of backend/video_processor.py.
- `Aggregator`: `final_verdict`.

main.py repeats `extract_images_from_media`, `get_file_hash` and the budgeting of backend/lucid_trace.py line for line (main.py:25-94 and 128-147). Those parts are modelled once and shared by both entry points.

## Model

| member | source | states |
|---|---|---|
| Text.Lower | backend/lucid_trace.py:34 | the lower-cased extension has the same length and each character is lowered: ASCII capitals to small letters, U+212A KELVIN SIGN to 'k' |
| Text.LastIndexOf | backend/lucid_trace.py:33 | the position of the last occurrence of a character, -1 when absent, and no later occurrence |
| Text.LastIndexOfUnique | backend/lucid_trace.py:33 | any position with those three properties is the one returned |
| Text.SplitExt | backend/lucid_trace.py:33 | the extension is empty or a suffix of the path starting with '.', with no further '.' or '/', and not a leading dot of the file name |
| Text.SplitExtOfJoin | backend/lucid_trace.py:33 | a stem without a dot in its last component joined with an extension splits back into that extension |
| Text.Basename | backend/lucid_trace.py:186 | the file name is a suffix of the path containing no '/' |
| Text.NatToString | backend/video_processor.py:23 | `str(idx)` is a non-empty string of digits, one digit exactly when idx < 10 |
| Text.NatToStringInjective | backend/video_processor.py:23 | different frame numbers print differently |
| PyNum.Trunc | backend/lucid_trace.py:71 | `int(x)` truncates toward zero: within one of x, never farther from zero |
| PyNum.PyMod | backend/lucid_trace.py:71 | Python's `%` takes the divisor's sign and lies strictly inside it |
| PyNum.PyModZeroIffDivides | backend/lucid_trace.py:71 | Python's remainder is zero exactly when the divisor divides the number |
| PyNum.RoundHalfEven | backend/lucid_trace.py:161-162 | rounding lands within one half, and ties go to the even neighbour |
| PyNum.RoundHalfEvenMonotone | backend/lucid_trace.py:161-162 | rounding never reverses an order |
| PyNum.PercentHundredths | backend/lucid_trace.py:161-162 | the rounded percentage, in hundredths, lies within one half of 10000p |
| PyNum.Percent | backend/lucid_trace.py:161-162 | `round(p * 100, 2)` lies within 0.005 of 100p |
| PyNum.PercentMonotone | backend/aggregator.py:10-13 | converting to percent never reverses an order |
| Stats.Max | backend/lucid_trace.py:159 | `np.max` is a member of the scores and bounds all of them |
| Stats.Min | backend/lucid_trace.py:158-159 | the least score is a member and a lower bound |
| Stats.SumAppend | backend/lucid_trace.py:158 | the sum of two lists joined is the sum of their sums |
| Stats.Mean | backend/lucid_trace.py:158 | `np.mean` times the number of scores is their sum |
| Stats.SumBounds | backend/lucid_trace.py:158 | scores within [lo, hi] sum to between n·lo and n·hi |
| Stats.MeanWithin | backend/lucid_trace.py:158 | the mean of scores within [lo, hi] lies within [lo, hi] |
| Stats.MeanBetween | backend/lucid_trace.py:158-159 | min(scores) <= mean <= max(scores) |
| Sampling.FreePositionExists | backend/video_processor.py:16 | proof helper: fewer than n positions taken leaves a free position below n |
| Sampling.RandomSample | backend/video_processor.py:16 | `random.sample(range(n), k)` gives exactly k pairwise-distinct positions below n |
| Extraction.ExtensionSetsDisjoint | backend/lucid_trace.py:22-23 | no extension is both an image and a video extension |
| Extraction.KindOfExtension | backend/lucid_trace.py:39-52 | an extension is an image exactly when it is in the image set, a video exactly when it is in the video set, and unsupported exactly when in neither |
| Extraction.KindOfJoin | backend/lucid_trace.py:33-39 | a path is classified by its lower-cased extension |
| Extraction.PlainStemJoin | backend/lucid_trace.py:33-39 | a stem ending in a character other than '.' and '/' joined with an extension is classified by that extension, lower-cased |
| Extraction.VideoExtensionIgnoresCase | backend/lucid_trace.py:33-52 | any such stem with ".MP4" is a video |
| Extraction.ImageIgnoresCase | backend/lucid_trace.py:33-39 | any such stem with ".JpEg", directories included, is an image |
| Extraction.OtherExtensionUnsupported | backend/lucid_trace.py:82-84 | any such stem with ".txt" is unsupported |
| Extraction.KelvinSignVideo | backend/lucid_trace.py:33-52 | any such stem with ".M\u212aV" (a Kelvin sign in place of K) is a video, since Python lowers the Kelvin sign to 'k' |
| Extraction.HiddenFileUnsupported | backend/lucid_trace.py:33 | ".png" has no extension, so it is unsupported |
| Extraction.FractionalFpsRaises | backend/lucid_trace.py:59-71 | at 0.5 fps the test `0 % int(fps)` raises |
| Extraction.FractionalFpsOnly | backend/lucid_trace.py:59-71 | `int(fps)` after the 0 -> 24 fallback is 0 exactly when fps is non-zero and strictly between -1 and 1 |
| Extraction.KeepAsWritten | backend/lucid_trace.py:71 | the test `frame_count % int(fps) == 0` raises exactly when `int(fps)` is 0 |
| Extraction.FrameStep | backend/lucid_trace.py:59-71 | the frame step is at least 1 and equals `int(fps)` up to sign whenever that is non-zero |
| Extraction.FrameStepAgrees | backend/lucid_trace.py:71 | wherever the code does not raise, frame f is kept exactly when the step divides f |
| Extraction.MultipleBetween | backend/lucid_trace.py:71 | proof helper: the only multiple of the step in ((k-1)·step, k·step] is k·step |
| Extraction.PerSecondShape | backend/lucid_trace.py:62-77 | N decoded frames give ceil(N / step) samples, the k-th being frame k·step, in increasing frame order |
| Extraction.FirstFrameKept | backend/lucid_trace.py:71 | frame 0 is kept when any frame decodes |
| Extraction.DecodedRun | backend/lucid_trace.py:65-68 | the loop sees the decoded frames up to the first failed read and no further |
| Extraction.PerSecondAsWrittenAgrees | backend/lucid_trace.py:62-77 | the loop as written raises exactly when `int(fps)` is 0 and a frame decodes; otherwise it keeps the same frames as the per-second rule with the corrected step |
| Extraction.ExtractionCorrected | backend/lucid_trace.py:25-86 | `extract_images_from_media` as written raises exactly when a video opens, `int(fps)` is 0 and a frame decodes; otherwise its result is the expected samples of the corrected rule |
| Extraction.AsWrittenStep | backend/lucid_trace.py:65-77 | one pass of the loop: the frame is appended when the test holds, and a raise stops everything |
| Extraction.SampleVideo | backend/lucid_trace.py:59-79 | the `while cap.isOpened()` loop computes the as-written outcome for the decoded run: the same samples, or the raise |
| Extraction.ExtractionByKind | backend/lucid_trace.py:38-86 | unsupported gives []; an image gives at most one sample; an unopenable video gives []; an open video raises exactly when 0 < abs(fps) < 1 and a frame decodes, and otherwise gives ceil(N / step) samples, the k-th being frame k·step of its decoded run |
| Extraction.ExtractImagesFromMedia | backend/lucid_trace.py:25-86 | the code as written: it raises exactly when a video opens, `int(fps)` is 0 and a frame decodes; otherwise its samples are the expected samples of the classification |
| Custody.Hasher.constructor | backend/lucid_trace.py:89 | a fresh hash object has absorbed nothing |
| Custody.Hasher.Update | backend/lucid_trace.py:93 | `update` appends the block to what was absorbed |
| Custody.BinaryFile.Open | backend/lucid_trace.py:90 | the file opens at offset 0 |
| Custody.BinaryFile.Read | backend/lucid_trace.py:92 | `read(n)` returns the next min(n, remaining) bytes and advances by that many |
| Custody.GetFileHash | backend/lucid_trace.py:88-94 | the digest is that of the whole content; the chunks concatenate to the content, each chunk holds 1 to 4096 bytes, and all but the last are full |
| Budget.SelectFilesToScan | backend/lucid_trace.py:135-139 | more than 10 files give exactly 10, drawn from distinct positions; otherwise the list is passed through unchanged |
| Budget.DrawnFromNoDuplicates | backend/lucid_trace.py:135-139 | drawn files come from the evidence, and distinct evidence gives distinct picks |
| Scoring.Responses | backend/lucid_trace.py:145-146 | one scorer response per scanned file |
| Scoring.Surviving | backend/lucid_trace.py:147-148 | never more scores than responses |
| Scoring.PresentPositions | backend/lucid_trace.py:145-148 | the increasing list of exactly the positions that returned a score |
| Scoring.SurvivingInOrder | backend/lucid_trace.py:143-148 | the kept scores are exactly the non-None responses, in scan order |
| Scoring.SurvivingMembers | backend/lucid_trace.py:147-148 | x is kept exactly when some response was Some(x) |
| Scoring.SurvivingEmpty | backend/lucid_trace.py:155 | no score is kept exactly when every response is None |
| Scoring.CollectScores | backend/lucid_trace.py:143-149 | the loop keeps the non-None scores of the scanned files, in order |
| Verdict.RiskOf | backend/lucid_trace.py:165-181 | CRITICAL iff avg > 50; HIGH iff avg <= 50 and max > 80; MODERATE iff avg <= 50 and 50 < max <= 80; LOW iff both <= 50 |
| Verdict.RiskMonotone | backend/lucid_trace.py:165-181 | higher percentages never give a lower risk |
| Verdict.BoundariesFallThrough | backend/lucid_trace.py:165-181 | the comparisons are strict: 50 and 80 fall through to the next rung |
| Verdict.VerdictLabel | backend/lucid_trace.py:165-181 | each rung has its own verdict string: AI GENERATED, SUSPICIOUS (Tampering), UNCERTAIN, AUTHENTIC MEDIA |
| Verdict.RiskLevel | backend/lucid_trace.py:165-181 | each rung has its own risk name: CRITICAL, HIGH, MODERATE, LOW |
| Verdict.ColorCode | backend/lucid_trace.py:165-181 | red exactly for CRITICAL, orange exactly for HIGH and MODERATE, green exactly for LOW |
| LucidTrace.Conclude | backend/lucid_trace.py:155-194 | no scores is the "Analysis failed" error; otherwise success with the file name, hash, `len(scores)`, the rounded mean and max, min <= avg <= max, max equal to some score's percentage, and the ladder's verdict, risk and colour |
| LucidTrace.AnalyzeMediaData | backend/lucid_trace.py:120-194 | extraction's ZeroDivisionError propagates, before any cleanup; otherwise empty extraction gives "No frames extracted" without cleanup, and else cleanup runs, the budget and score filter are applied, and the result is the conclusion on them; a success carries the file's base name and digest and 1 to 10 analysed frames, no more than were scanned; an error carries one of the two messages |
| LucidTrace.SpikeIsSuspicious | backend/lucid_trace.py:158-173 | scores 0.1, 0.2, 0.1, 0.9, 0.2 give 30.0 and 90.0, so HIGH and orange |
| LucidTrace.HighAverageIsCritical | backend/lucid_trace.py:158-168 | scores 0.6, 0.7, 0.55 give 61.67 and 70.0, so CRITICAL |
| CliReport.FractionDigits | main.py:181-182 | the fraction part of a printed percentage is one or two digits |
| CliReport.CliVerdictLabel | main.py:160-172 | each rung has its own verdict string; HIGH reads "SUSPICIOUS (Potential Tampering)" |
| CliReport.LabelsDifferOnlyOnHigh | main.py:160-172 | the two entry points' verdict strings agree on every rung except HIGH |
| CliReport.FormatHundredthsInjective | main.py:181-182 | different non-negative percentages print differently |
| CliReport.FormatExamples | main.py:181-182 | 30 percent prints "30.0", 61.67 prints "61.67", 90.5 prints "90.5", 0.05 prints "0.05" |
| CliReport.Render | main.py:174-189 | the report starts with the three-line banner |
| CliReport.SuccessReport | main.py:153-189 | the report renders the file name, count, rounded mean and maximum and risk that analyze_media_data concludes for the same scores |
| CliReport.ReportIsNotAnError | main.py:174-191 | a success report differs from both error strings |
| CliReport.AnalyzeMedia | main.py:120-191 | extraction's ZeroDivisionError propagates, before any scan, cleanup or hash; otherwise empty extraction gives the "No evidence extracted" string with no scan, cleanup or hash; no scores give the "Analysis failed" string after cleanup and without hashing; else the report of the kept scores, hash computed; the "No evidence" string comes back exactly when extraction is empty |
| FaceCrops.LargestBox | backend/result.py:35 | `np.argmax` of the areas: the first box of largest area, and the only box that is |
| FaceCrops.FirstLargestUnique | backend/result.py:35 | at most one box is the first of largest area |
| FaceCrops.Area | backend/result.py:35 | a box whose corners are in order has non-negative area |
| FaceCrops.ClampCoord | backend/result.py:36 | `max(0, int(b))`: truncation for non-negative coordinates, 0 for negative ones |
| FaceCrops.Slice | backend/result.py:37 | the slice lies inside [0, n); a range inside the frame is kept whole; an empty or inverted range gives nothing |
| FaceCrops.CropOf | backend/result.py:36-37 | the crop is of that frame and lies inside it |
| FaceCrops.FaceOf | backend/result.py:33-42 | a frame gives at most one crop, of that frame; none without a box; never an empty one |
| FaceCrops.FaceOfLargest | backend/result.py:33-40 | with a box, the frame contributes the crop of its first largest box exactly when that crop is not empty |
| FaceCrops.Linspace | backend/result.py:19 | `np.linspace` gives seq_length positions |
| FaceCrops.LinspaceShape | backend/result.py:19 | seq_length positions, non-decreasing, within [0, total-1], first 0, last total-1 when seq_length >= 2 |
| FaceCrops.FourOfTen | backend/result.py:19 | four positions in ten frames are 0, 3, 6, 9 |
| FaceCrops.SevenOfThree | backend/result.py:19 | seven positions in three frames repeat: 0, 0, 0, 1, 1, 1, 2 |
| FaceCrops.CropsFrom | backend/result.py:22-42 | at most one crop per position, each from a sampled position and non-empty |
| FaceCrops.Padded | backend/result.py:47-48 | a list that is empty or long enough is unchanged; a shorter one becomes seq_length long, its own crops followed by copies of its last |
| FaceCrops.FaceSequence | backend/result.py:11-50 | no frames gives []; the result is empty or exactly seq_length long |
| FaceCrops.FailedReadStops | backend/result.py:24-26 | the first failed read ends the scan; later positions contribute nothing |
| FaceCrops.FaceSequenceShape | backend/result.py:22-50 | the result is empty or exactly seq_length long, empty exactly when no real crop was made, and is the real crops in order followed by copies of the last |
| FaceCrops.NoFaceNoCrops | backend/result.py:33-50 | no face anywhere gives [], not an error |
| FaceCrops.CropsStep | backend/result.py:22-42 | one scanned position contributes its face crop and the scan continues, or a failed read ends it |
| FaceCrops.CropLargestFace | backend/result.py:33-40 | no box gives nothing; otherwise the crop of the first box of largest area, kept exactly when it is not empty |
| FaceCrops.CollectCrops | backend/result.py:22-42 | the loop's crops are those of the sampled positions up to the first failed read |
| FaceCrops.PadToLength | backend/result.py:47-48 | padding repeats the last crop up to seq_length |
| FaceCrops.ExtractFrames | backend/result.py:11-50 | `extract_frames` returns the face sequence; no frames gives [] |
| RandomFrames.FramePath | backend/video_processor.py:5-23 | the path is "frames/frame_" then the number then ".jpg" |
| RandomFrames.FramePathInjective | backend/video_processor.py:23 | different positions are saved under different names |
| RandomFrames.FrameIndices | backend/video_processor.py:19-25 | the positions of the saved frames, one per write |
| RandomFrames.Paths | backend/video_processor.py:23-25 | the returned paths, one per write |
| RandomFrames.Writes | backend/video_processor.py:19-25 | the writes are at most one per drawn position, each of a drawn position and holding the frame read there |
| RandomFrames.AllReadsSaved | backend/video_processor.py:19-25 | when every read succeeds, one file is written per drawn position, in drawing order |
| RandomFrames.WritesDistinct | backend/video_processor.py:16-25 | distinct drawn positions are each written at most once |
| RandomFrames.PathsDistinct | backend/video_processor.py:16-25 | the returned paths are pairwise distinct |
| RandomFrames.SampleSize | backend/video_processor.py:12-13 | the count is lowered to the frame count, and is one of the two |
| RandomFrames.ExtractFrames | backend/video_processor.py:8-28 | a negative count raises; otherwise exactly the clamped count of distinct positions below the frame count are drawn, only the successful reads are saved, in order, and an empty video gives [] |
| Aggregator.Name | backend/aggregator.py:6 | the verdict prints as "FAKE" or "REAL" |
| Aggregator.Get | backend/aggregator.py:2-3 | a missing key reads as 0 |
| Aggregator.Larger | backend/aggregator.py:5 | `max` is one of its arguments and bounds both |
| Aggregator.FinalVerdict | backend/aggregator.py:1-15 | FAKE exactly when some branch is above 0.5; the details are the two branches as percentages; the confidence is the larger branch as a percentage |
| Aggregator.ConfidenceIsLargerBranch | backend/aggregator.py:10-13 | the confidence equals the larger of the two rounded details |
| Aggregator.BranchesSymmetric | backend/aggregator.py:5 | swapping the branches changes neither verdict nor confidence |
| Aggregator.VerdictMonotone | backend/aggregator.py:5-6 | raising a branch never turns FAKE into REAL nor lowers the confidence |
| Aggregator.EmptyScoresAreReal | backend/aggregator.py:2-10 | no scores give REAL with confidence 0 |
| Aggregator.HalfIsReal | backend/aggregator.py:6 | exactly 0.5 is REAL, at 50.0 percent |
| Aggregator.OneBranchDecides | backend/aggregator.py:5-13 | 0.12 and 0.87 give FAKE at 87.0, with details 12.0 and 87.0 |

## Left out

- The remote detection call `check_frame_with_sightengine` (backend/lucid_trace.py:96-118) is network I/O. It is the `scorer` parameter. One call per file is modelled as a deterministic function of the sample.
- Decoding by cv2 and PIL, the BGR-to-RGB conversion and the MTCNN face detector are foreign code. They are the `Decoders`/`Video` values and the `detect` parameter. A failed `Image.open` or save is the still decoder returning None.
- SHA-256 itself is the `sha` parameter. Only the chunked read loop is modelled.
- Filesystem effects are left out: `makedirs`, `imwrite`, `save` and `shutil.rmtree`. Extraction returns `Sample` values (frame position and image) in place of uuid-named paths, so uniqueness of names is not modelled.
- The cleanup's effect is left out. `cleanedUp` records only whether `rmtree` was reached.
- The `print` calls and the per-frame debug line `int(score*100)` are output only.
- The `__main__` blocks of both files are left out. They are console output of the same results.
- Text.Lower: lowers ASCII capitals and U+212A KELVIN SIGN (which Python lowers to 'k') and nothing else. Python's `str.lower` lowers other Unicode capitals too, but none of them lowers to an ASCII letter except U+0130, whose lower form "i\u0307" makes the extension one character longer than any listed one, so no classification changes.
- PyNum.Percent: rounds the exact real value half-to-even. Python rounds the binary float `p * 100`, so a probability whose float product lands just beside a tie may round the other way.
- PyNum.RoundHalfEven: a binary-float result such as 61.67 is represented exactly here.
- FaceCrops.Linspace: uses the exact quotient floor(i·(total-1)/(L-1)). `np.linspace` computes in floating point, which can land just below an exact multiple and truncate one lower.
- CliReport.FormatHundredths: prints a non-negative number of hundredths the way Python prints such a float. Negative scores, `-0.0` and exponent notation for very large or very small values are not modelled.
- FaceCrops.ExtractFrames: `seq_length` is a natural number. A negative length makes `np.linspace` raise, which is not modelled.
- `analyze_media_data` and `analyze_media` take the file's bytes as a parameter. A missing file, where `open` raises, is not modelled.
- The FastAPI route in backend/main.py and the React UI are not part of this model. The route passes a list into `final_verdict`, where `.get` would raise. `final_verdict` is modelled on its own dictionary input with real values.
- backend/detector.py and backend/sendImage.py are not part of this model.
- Global state (`OUTPUT_DIR`, the `mtcnn` singleton) and concurrency are left out.
- Extraction.ExtractImagesFromMedia: divides by `int(fps)`, truncated, as the code does. The ZeroDivisionError of a fractional frame rate is the `None` result.
- FaceCrops.ExtractFrames: a video with no usable face, or with no frames, gives the empty list, as the code does; no error is raised.
- Aggregator.FinalVerdict: fuses the two branch values it is given, as the code does. Nothing averages a branch first.

## Findings

The entry points `Extraction.ExtractImagesFromMedia`, `LucidTrace.AnalyzeMediaData` and `CliReport.AnalyzeMedia` model the code as written, raise included. `Extraction.ExpectedSamples` is the corrected outcome: it is what they return whenever the code does not raise.

| source | as written | input that shows it | evidently intended | confidence | as-written member | corrected member |
|---|---|---|---|---|---|---|
| backend/lucid_trace.py:59-71 | the fallback to 24 fps applies only when fps is exactly 0, and the test is `frame_count % int(fps)` | a video reporting 0.5 fps: `int(0.5)` is 0, so the test on frame 0 raises ZeroDivisionError | keep one frame per `int(fps)` frames with a step of at least 1 | not executed | Extraction.KeepAsWritten, Extraction.PerSecondAsWritten, Extraction.FractionalFpsRaises | Extraction.FrameStep, Extraction.FrameStepAgrees, Extraction.PerSecondAsWrittenAgrees |
