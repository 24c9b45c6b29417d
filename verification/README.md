# Interview engagement scoring: a Dafny model

This project models the algorithmic core of a service that scores a recorded
interview video on three behavioural signals: speech disfluency, gaze aversion
and blink rate. It covers three parts of `app.py`:

- the **eye-state hysteresis counters** of `video_process`. Each detected face
  is reduced to a gaze label (`center`, `left`, `right`) and a blink status.
  The faces feed one shared gaze counter (threshold 30) and one shared blink
  counter (threshold 6). Each counter fires once per qualifying run.
- the **audio window loop** of `audiopredict`. It makes 300 windows of 1000 ms,
  100 ms apart. Each window's MFCC matrix is padded to 32x32 and classified.
  Disfluencies are counted on each active-to-inactive transition.
- the **score aggregator** `calc_score`. Python evaluates it with its real
  precedence rules, so the middle disfluency and gaze buckets are unreachable;
  the blink buckets for 8, 9 and 10 do apply. The model also covers
  the orchestration in the `api` route, which passes the gaze and blink counts
  to `calc_score` in swapped order.

Files:

- `hysteresis.dfy` (module `Hysteresis`) holds the run counter `Feed`.
  It also holds an independent reference count `Episodes`: the number of
  maximal qualifying runs that are at least the threshold long.
- `scoring.dfy` (module `Scoring`) models `calc_score`. Python's `&` is
  modelled as `BitAnd` on naturals.
- `eye_tracker.dfy` (module `EyeTracker`) holds the `video_process` loop as
  the method `VideoProcess`.
- `audio.dfy` (module `AudioWindows`) holds the window arithmetic, the padding
  and the debounce loop `AudioPredict`.
- `pipeline.dfy` (module `Pipeline`) holds `Analyze`, the three calls made by
  the route.

Where the code does something other than what its layout or documentation suggests,
the model follows the code:

- The disfluency and gaze sub-scores have only two values. They are 500 below
  5 (resp. 10) and 0 from there on. A guard such as `dis_count < 10 & dis_count > 5`
  means `dis_count < (10 & dis_count) and (10 & dis_count) > 5`, and that
  never holds for a non-negative count. So the buckets the guards seem to
  describe do not exist in the code: for disfluencies, 375 for 6 to 9, 250
  for 11 to 14 and 125 for 16 to 19; for gaze, 375 for 11 to 19, 250 for
  21 to 29 and 125 for 31 to 39. Even under that reading the strict `>`
  leaves holes: 5, 10 and 15 disfluencies, and 10, 20 and 30 gaze
  aversions, would score 0.
- A blink count of 7 scores 0, not 500.
- The blink condition is `status < 0.1`, where `status` is the classifier's
  probability times 100, rounded to three decimals. Before the rounding that
  is a raw probability below about 0.000995.
- Padding does not add zero columns. `np.append` without an axis flattens the
  32xc matrix row by row and appends `32*(32-c)` zeros. The reshape then cuts
  that into rows of 32. For `0 < c < 32` the rows of the original therefore
  wrap across the rows of the classified matrix (`PaddingWrapsRows`).
- The route calls `calc_score(dis_count, gaze_count, blink_count)` against the
  declaration `calc_score(dis_count, blink_count, gaze_count)`. So the gaze
  count is bucketed with the blink thresholds, and the blink count with the
  gaze thresholds.

## Model

| member | source | states |
|---|---|---|
| Hysteresis.FeedCountsEpisodes | app.py:207-223 | Started at zero, the run counter's event count equals the number of maximal qualifying runs of length at least the threshold: one event per run, never one per frame |
| Hysteresis.FeedRunIsTrailingRun | app.py:207-223 | The run counter always equals the length of the current trailing run of qualifying samples, so it is 0 right after any non-qualifying sample |
| Hysteresis.EpisodesBound | app.py:207-223 | threshold times the number of counted runs is at most the number of samples |
| Hysteresis.SteadyRunFiresOnce | app.py:208-210 | An unbroken run of n qualifying samples fires once if n reaches the threshold and never otherwise, however long the run |
| Hysteresis.QuietStreamNeverFires | app.py:215-216 | A stream without a qualifying sample fires nothing |
| Hysteresis.Tick | app.py:207-223 | One sample: a qualifying sample extends the run by one and any other resets it to 0; the event count rises by at most one, and it rises exactly when a qualifying sample brings the run to the threshold |
| Hysteresis.Feed | app.py:207-223 | Feeding samples never lowers the event count and raises it by at most one per sample |
| Hysteresis.LeadingRun | app.py:207-216 | The leading run is the longest all-qualifying prefix: every sample in it qualifies and the next one does not |
| Hysteresis.TrailingRun | app.py:207-216 | The trailing run is the longest all-qualifying suffix: every sample in it qualifies and the one before does not |
| Scoring.BitAnd | app.py:69 | Python's `a & b` on non-negative integers: the lowest bit of the result is set exactly when it is set in both operands |
| Scoring.BitAndExamples | app.py:69 | The masks agree with Python: `10 & 7 == 2`, `12 & 10 == 8`, `20 & 17 == 16`, `30 & 25 == 24`, `15 & 15 == 15` |
| Scoring.BitAndCommutes | app.py:69 | `a & b == b & a` for all non-negative `a`, `b` |
| Scoring.BitAndSelf | app.py:69 | `a & a == a` for every non-negative `a` |
| Scoring.BitAndAtMostLeft | app.py:69 | Python's `a & b` on non-negative integers never exceeds `a` |
| Scoring.BitAndAtMostRight | app.py:69 | Python's `a & b` on non-negative integers never exceeds `b` |
| Scoring.MaskedChain | app.py:69-95 | The guard `n < hi & n > lo` as Python parses it, `n < (hi & n) and (hi & n) > lo` (lines 69, 71, 73, 91, 93, 95); whenever it holds, `n < hi` and `lo < hi` |
| Scoring.MaskedChainNeverHolds | app.py:69-74 | A guard `n < hi & n > lo` is false for every non-negative `n`, whatever `hi` and `lo` |
| Scoring.DisfluencyScore | app.py:67-76 | The disfluency sub-score is one of 0, 125, 250, 375, 500 |
| Scoring.DisfluencyScoreIsStep | app.py:67-76 | The disfluency sub-score is 500 below 5 and 0 for every count from 5 on |
| Scoring.GazeScore | app.py:89-98 | The gaze sub-score is one of 0, 125, 250, 375, 500 |
| Scoring.GazeScoreIsStep | app.py:89-98 | The gaze sub-score is 500 below 10 and 0 for every count from 10 on |
| Scoring.BlinkScore | app.py:78-87 | The blink sub-score is a bucket value. It is 500 exactly below 7, 375 exactly at 8, 250 exactly at 9, 125 exactly at 10, and 0 exactly at 7 or above 10 |
| Scoring.CalcScore | app.py:62-102 | The composite lies between 0 and 495 |
| Scoring.CalcScoreClosedForm | app.py:100 | The composite is 33/100 times the sum of the two step sub-scores and the blink sub-score |
| Scoring.CalcScoreTop | app.py:62-102 | The composite is 495 exactly when disfluencies are below 5, blinks below 7 and gaze aversions below 10 |
| Scoring.UnrewardedCounts | app.py:67-98 | 7 disfluencies, 15 gaze aversions and 7 blinks each score 0, and together they give a composite of 0 |
| EyeTracker.VideoProcess | app.py:176-228 | The nested frame/face loop returns exactly the number of off-centre runs of at least 30 faces and of closed-eye runs of at least 6 faces. It counts over all faces of all frames in order, and 30·gaze and 6·blink are at most the number of faces |
| EyeTracker.Faces | app.py:184-195 | The faces the counters see are the faces of the frames in frame order; a face is in the stream exactly when it is in some frame, so faceless frames contribute nothing |
| EyeTracker.ObserveFace | app.py:207-223 | One face's left/right/centre branches and closed/open branches advance the gaze and blink counters exactly as one step of the reference run counter: extend and fire at the threshold, or reset |
| EyeTracker.NoFaceFrameIsSkipped | app.py:193-195 | Inserting a frame with no detected face leaves the face stream, and so both counts, unchanged |
| EyeTracker.SteadyAversionCountsOnce | app.py:207-216 | n consecutive left- or right-looking faces give one gaze aversion when n is at least 30 (so 30 and 60 both give 1) and none below |
| EyeTracker.SteadyClosureCountsOnce | app.py:218-223 | n consecutive closed-eye faces give one blink when n is at least 6 and none below |
| EyeTracker.AttentiveVideoCountsNothing | app.py:207-223 | A face that always looks at the centre with open eyes gives no gaze aversions and no blinks |
| AudioWindows.WindowAt | app.py:258-269 | Every requested window is 1000 ms long |
| AudioWindows.Pad | app.py:264-267 | The padded data has 1024 values. The first 32·c are the row-major matrix and the rest are zeros; a 32-column matrix is only flattened |
| AudioWindows.Reshape | app.py:270 | The reshape yields 32 rows of 32, where entry (r, k) is value 32·r + k of the flat data |
| AudioWindows.RowMajor | app.py:267 | The flattening inside `np.append` holds exactly the values of the matrix's rows, nothing else |
| AudioWindows.RowMajorLength | app.py:267 | The flattening of a matrix of width c with m rows has m·c values |
| AudioWindows.RowMajorIndex | app.py:267 | In the row-major flattening of a matrix of width c, entry (r, k) sits at offset r·c + k |
| AudioWindows.PaddedEntry | app.py:264-270 | A classified entry at flat offset q·c + j holds original entry (q, j) |
| AudioWindows.PaddedTailIsZero | app.py:264-270 | A classified entry past the row-major data is zero |
| AudioWindows.FullWidthUnchanged | app.py:264-270 | A 32x32 feature matrix reaches the classifier unchanged |
| AudioWindows.PaddingWrapsRows | app.py:264-270 | For a width c with 0 < c < 32, classified entry (0, c) holds original entry (1, 0) rather than a zero |
| AudioWindows.EmptyFeaturesPadToZeros | app.py:264-270 | A feature matrix with no columns becomes a 32x32 matrix of zeros |
| AudioWindows.Detections | app.py:271-272 | There is one activity flag per window, 300 in all |
| AudioWindows.AudioPredict | app.py:257-278 | The loop makes exactly 300 passes and requests window i as [100·i, 100·i + 1000). It returns the number of active-to-inactive transitions among the windows' flags, which is at most 150 |
| AudioWindows.Falls | app.py:272-277 | The debounce count is the number of indices i with window i−1 active and window i inactive |
| AudioWindows.FallsBound | app.py:271-277 | At most half the windows can end a disfluency |
| AudioWindows.FeedFalls | app.py:272-277 | A threshold-1 run counter fires once per active run, which is one more than the debounce count exactly when the last window is active |
| AudioWindows.FallsCountCompletedEpisodes | app.py:272-277 | The debounce count plus one for an active run open at the end equals the number of maximal active runs |
| AudioWindows.OpenEpisodeUncounted | app.py:272-278 | When the last window is active, the count is one less than the number of active runs |
| AudioWindows.DebounceExample | app.py:272-277 | The activity pattern active×3, inactive, active×5, inactive×2 counts two disfluencies |
| Pipeline.Analyze | app.py:132-134 | The route's result holds the three loop counts. Its score is 33/100·(disfluency step + blink buckets applied to the gaze count + gaze step applied to the blink count). It is 495 exactly when disfluencies are below 5, gaze aversions below 7 and blinks below 10 |
| Pipeline.ArgumentSwapChangesScore | app.py:134 | With 8 gaze aversions and no blinks, the swapped call scores lower than a call in declaration order would |
| Pipeline.AttentiveSilentInterview | app.py:132-134 | An interview with one attentive face per frame and no active window counts no disfluencies, gaze aversions or blinks |
| Pipeline.AnalyzeAttentiveSilentInterview | app.py:132-134 | The route's analysis of such an interview returns zero for all three counts and the composite 495 |
| Pipeline.EmptyVideoCountsNothing | app.py:180-183 | A video without frames gives zero gaze aversions and zero blinks |

## Left out

- The Flask routes, the `%xx` URL rewriting, the HTTP download and the per-request directory create/remove. They are request and file I/O.
- `createJSON` is left out. It only serialises the counts with `json.dumps`.
- Keras model loading and the three `predict` calls. The gaze label and blink status of each face are inputs. The disfluency classifier is the function parameter `classify`.
- `detect_gaze`'s `argmax` over the class scores. The label is taken as given.
- dlib face detection, landmark prediction, OpenCV decoding, flipping, grey conversion and resizing, and the `crop_eye` geometry. These are library calls and floating-point image geometry. A frame is modelled as its list of classified faces.
- `detect_blink`'s `round(status, 3)`. The status is taken as an exact real, already scaled by 100.
- MFCC extraction, amplitude normalisation, pydub slicing, the moviepy audio export and `time.sleep`. The extractor is the function parameter `extract`, which receives the requested window; only its results for the 300 requested windows are constrained (`ExtractsMfcc`).
- Feature matrices wider than 32 columns. The code does not pad them and its reshape would fail. `IsMfcc` requires 32 rows of one width of at most 32.
- A video that cannot be opened, or whose decoding fails part-way, is not a separate case. `cap.isOpened()` fails or `cap.read()` returns no frame, and the frame loop ends quietly with the counts so far; an unopenable video gives (0, 0). `frames` stands for the frames read before that point.
- Failures in the audio export (moviepy), in MFCC extraction and in inference. In the code they are uncaught exceptions that abort the request.
- CalcScore: uses exact real arithmetic with weight 33/100. The code multiplies IEEE doubles by the float 0.33, so its results can differ from these in the last bits.

