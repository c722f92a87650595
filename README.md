# SIDS monitoring: a Dafny model of the breathing-detection arithmetic

The SIDS monitoring application (`SIDS_monitoring.py`) is a Tkinter window with
two actions of class `SIDSApp`. "Breath Detection (Two Images)"
(`detect_from_images`) compares two still images: it rejects pairs whose mode
or size differ, sums the absolute per-channel differences of their pixels,
turns that sum into a percentage over a fixed denominator of
width × height × 3, and reports "No breathing detected" below 0.5 % and
"Breathing detected" otherwise. "Live Breath Detection (Webcam)"
(`detect_from_webcam`) reads two frames, then loops while the capture is open:
it counts changed pixels between the two buffered frames, reports "No
breathing" below 500 and "Breathing" otherwise, slides the frame buffer
forward by one read, and stops when the key 'q' is pressed.

This project models that decision logic and proves its properties.

| file | module | what it holds |
|---|---|---|
| `labels.dfy` | `Labels` | the two verdicts and what the result label can show |
| `imaging.dfy` | `Imaging` | 8-bit samples, pixels, image modes and their band counts, images, well-formedness |
| `static_comparator.dfy` | `StaticComparator` | the two-image comparison as pure functions (`DiffSum`, `Percentage`, `Classify`, `Compare`) and the lemmas about them |
| `live_detector.dfy` | `LiveDetector` | the movement threshold, the quit-key test, the per-pass environment (`Tick`), the frame stream, the two-slot `FramePair` buffer, and a recursive reference definition `Run` of the loop's control flow |
| `sids_app.dfy` | `SidsApplication` | class `SidsApp`, whose one field is the result label, with the two actions as methods |

Modelling choices:

- A decoded image is a mode, a width, a height and the flat pixel sequence
  the imaging library returns. A pixel is one 8-bit sample per band. A
  single-band pixel, a bare number in the source, is a one-sample pixel here.
  `SingleBandPixelDiff` shows that the per-channel formula of line 119 then
  reduces to the `abs(p1 - p2)` of line 117, so the two branches coincide.
- Both `zip`s are modelled as they behave: the shorter sequence wins.
- The percentage is exact (`real`). `PercentageThreshold` proves that the
  test `percentage < 0.5` is the integer test `diff_sum * 200 < 255 * total_components`.
- A zero denominator makes the source raise a division error before the label
  is touched. `Compare` returns `DivisionByZero` there. In the application
  the images are always resized to 200 × 200 first, so this cannot happen.
- The OpenCV pipeline of lines 145-150 is the parameter `movement`, a
  function from two frames to a pixel count. Frames are a type parameter.
- What the capture device and keyboard supply to each pass is a finite
  sequence of `Tick`s. A tick says whether `isOpened()` holds before the pass,
  which frame the pass reads, and which code `waitKey` returns. The quit test
  `waitKey(10) & 0xFF == ord('q')` is `key % 256 == 113`. Python's `&` on an
  unbounded integer keeps the Euclidean remainder modulo 256, so "no key"
  (-1) never quits.
- The loop in the source never tests the success flag `ret` that
  `cap.read()` returns (line 163). A failed read ends the session only
  through the exception that the next pass's `cv2.absdiff` raises on the
  missing frame (see "Left out"). Otherwise the loop stops when the capture
  closes or 'q' is pressed.

## Model

| member | source | states |
|---|---|---|
| `Imaging.Bands` | SIDS_monitoring.py:116 | every supported mode has between 1 and 4 bands |
| `StaticComparator.Compare` | SIDS_monitoring.py:109-128 | the result is an error exactly when the modes, widths or heights differ; it is a division error exactly when compatible images have no pixels; otherwise the percentage is non-negative and the verdict is "no breathing" exactly when `diff_sum * 200 < 255 * width * height * 3` |
| `StaticComparator.PercentageScaled` | SIDS_monitoring.py:122 | the percentage times 255 × total equals 100 × diff_sum, and it is never negative |
| `StaticComparator.PercentageIs` | SIDS_monitoring.py:122 | the percentage is the unique v with 100 × diff_sum = v × 255 × total |
| `StaticComparator.PercentageThreshold` | SIDS_monitoring.py:122-128 | the test `percentage < 0.5` holds exactly when `diff_sum * 200 < 255 * total` |
| `StaticComparator.ExactThresholdIsBreathing` | SIDS_monitoring.py:125-128 | when `diff_sum * 200 == 255 * total` the percentage is exactly 0.5 and the verdict is "breathing" (the threshold is inclusive on the high side) |
| `StaticComparator.SingleBandPixelDiff` | SIDS_monitoring.py:116-119 | for one-band pixels the per-channel difference is `abs(p1 - p2)`, so the single-band branch agrees with the multi-band one |
| `StaticComparator.PixelDiffSelf` | SIDS_monitoring.py:119 | a pixel differs from itself by 0 |
| `StaticComparator.DiffSumSelf` | SIDS_monitoring.py:115-119 | the difference sum of a pixel sequence with itself is 0 |
| `StaticComparator.PixelDiffSymmetric` | SIDS_monitoring.py:119 | the per-pixel difference does not depend on the order of the two pixels |
| `StaticComparator.DiffSumSymmetric` | SIDS_monitoring.py:115-119 | swapping the two pixel sequences leaves the difference sum unchanged |
| `StaticComparator.PixelDiffBound` | SIDS_monitoring.py:119 | two pixels of n channels differ by at most 255 × n |
| `StaticComparator.DiffSumBound` | SIDS_monitoring.py:115-119 | two sequences of m pixels of n channels have a difference sum of at most 255 × n × m |
| `StaticComparator.PixelDiffOpposite` | SIDS_monitoring.py:119 | two pixels whose every channel differs by 255 differ by exactly 255 × n |
| `StaticComparator.DiffSumOpposite` | SIDS_monitoring.py:115-119 | sequences that differ by 255 in every channel reach the bound 255 × n × m exactly |
| `StaticComparator.PercentageAtMost` | SIDS_monitoring.py:121-122 | a sum of at most 255 × n × (w·h) over the denominator 3 × (w·h) gives at most 100 × n / 3 percent |
| `StaticComparator.PercentageFull` | SIDS_monitoring.py:121-122 | the sum 255 × n × (w·h) over 3 × (w·h) gives exactly 100 × n / 3 percent |
| `StaticComparator.CompareIdentical` | SIDS_monitoring.py:110-128 | a non-empty image compared with itself gives 0 % and "no breathing" |
| `StaticComparator.CompareSymmetric` | SIDS_monitoring.py:110-128 | swapping the two images gives the same outcome: the same error, or the same percentage and verdict |
| `StaticComparator.ComparePercentRange` | SIDS_monitoring.py:116-122 | for decoded n-band images the percentage lies in [0, 100 × n / 3]; for 3-band images in [0, 100] (the ×3 denominator ignores the band count) |
| `StaticComparator.CompareOpposite` | SIDS_monitoring.py:115-128 | images whose every channel differs by 255 give exactly 100 × n / 3 % and "breathing"; 3-band ones give exactly 100 % |
| `LiveDetector.QuitKeyLowByte` | SIDS_monitoring.py:165 | only the low byte of the `waitKey` code decides: "no key" (-1) never quits, 'q' (113) quits, and so does 113 with higher bits set |
| `LiveDetector.Stream` | SIDS_monitoring.py:141-142 | the frames read in a session are the two reads before the loop followed by one read per pass, in order |
| `LiveDetector.RunStops` | SIDS_monitoring.py:144-166 | the recursive definition of the loop stops where `StopsAt` says it does: open before every pass, no 'q' before the last pass, and the exit reason is the one that ended it |
| `LiveDetector.StopsAtUnique` | SIDS_monitoring.py:144-166 | a given observation admits only one number of passes and one exit reason |
| `LiveDetector.StopsAtIsRun` | SIDS_monitoring.py:144-166 | any session described by `StopsAt` is the one `Run` defines |
| `LiveDetector.StopsAtClosed` | SIDS_monitoring.py:144 | a capture closed before pass i ends the session after i passes |
| `LiveDetector.StopsAtQuit` | SIDS_monitoring.py:165-166 | a 'q' read in pass i ends the session after i + 1 passes |
| `LiveDetector.StopsAtEnd` | SIDS_monitoring.py:144-166 | passing every observed tick without a stop ends with the observation exhausted |
| `LiveDetector.FramePair.constructor` | SIDS_monitoring.py:141-142 | the buffer starts with the first read in `frame1` and the second in `frame2` |
| `LiveDetector.FramePair.Slide` | SIDS_monitoring.py:162-163 | after a slide `frame1` holds the previous `frame2` and `frame2` the new read; nothing else changes |
| `SidsApplication.ReportsFollowExtend` | SIDS_monitoring.py:150-159 | appending the report of the next two frames keeps every report equal to the movement of its frames, with "no breathing" exactly below 500 |
| `SidsApplication.PassStep` | SIDS_monitoring.py:145-163 | one pass adds the report of the two buffered frames, with "no breathing" exactly below 500, and leaves the buffer holding the old `frame2` and the newly read frame |
| `SidsApplication.SidsApp.constructor` | SIDS_monitoring.py:80-87 | the result label starts with its placeholder text |
| `SidsApplication.SidsApp.DetectFromImages` | SIDS_monitoring.py:109-130 | the outcome is `Compare` of the two images; a measurement is shown on the label, and an incompatible pair or a division error leaves the label unchanged |
| `SidsApplication.SidsApp.DetectFromWebcam` | SIDS_monitoring.py:141-166 | the number of passes and the exit reason are those of `Run` and satisfy `StopsAt`; pass k reports the movement of frames k and k + 1 of the stream, "no breathing" exactly when it is below 500; the buffer ends holding frames n and n + 1; the label shows the last report, or is unchanged when no pass ran |

## Left out

- The Tkinter window, buttons, labels' fonts and colours, message boxes and file dialogs (lines 23-87, 93-100, 106, 111, 175-178): user interface only. The cancelled selection (lines 98-100) is therefore not modelled.
- Opening and resizing the images (lines 102-107): foreign library calls. The comparator receives decoded images; the load-error path is not modelled.
- Image modes whose samples are not 8-bit (`I`, `F`, `I;16`): the model's samples are 0..255.
- The OpenCV pipeline `absdiff`, `cvtColor`, `GaussianBlur`, `threshold`, `dilate`, `countNonZero` (lines 145-150): a parameter function from two frames to a count.
- `cv2.VideoCapture`, `imshow`, `release` and `destroyAllWindows` (lines 138, 153, 168-169): device and display I/O. `isOpened` and `waitKey` are inputs carried by each `Tick`. Releasing the capture is not modelled.
- A failed `cap.read()` (line 163) hands no frame to the pipeline, which then raises and leaves the loop without releasing the capture. With the pipeline abstract, the model passes whatever the read returned to `movement` and does not model that exception.
- SidsApplication.SidsApp.DetectFromWebcam: observes a finite sequence of ticks, so a session that never ends is represented by its finite prefixes, which end with `TraceExhausted`.
- Floating-point rounding in `diff_sum / 255.0 * 100 / total_components` (line 122): the model uses exact reals; a sum within rounding distance of the boundary could classify differently under IEEE doubles.
- The `:.4f` formatting and the emoji of the result texts (lines 126-128, 157-159): the label holds the number and the verdict.
