/**
 The analysis steps of the `api` route: the disfluency count
 from the audio loop, the gaze and blink counts from the video loop, then
 `calc_score(dis_count, gaze_count, blink_count)`. `calc_score` declares its
 parameters as `(dis_count, blink_count, gaze_count)`, so the call passes the
 gaze count where the blink count belongs and the other way round: the gaze
 count is bucketed with the blink thresholds and the blink count with the gaze
 thresholds.
 */
module Pipeline {
  import opened Hysteresis
  import opened Scoring
  import opened EyeTracker
  import opened AudioWindows

  datatype ScoreBreakdown = ScoreBreakdown(disCount: nat, gazeCount: nat, blinkCount: nat, score: real)

  /** One analysis: the decoded frames stand for the video, `extract` and `classify`
      for the audio track's feature extractor and the disfluency classifier. */
  method Analyze(frames: seq<Frame>, extract: Window -> Matrix, classify: Matrix -> real)
    returns (r: ScoreBreakdown)
    requires ExtractsMfcc(extract)
    ensures r.disCount == Falls(Detections(extract, classify))
    ensures r.gazeCount == Episodes(GazeHits(Faces(frames)), FramesToGaze)
    ensures r.blinkCount == Episodes(BlinkHits(Faces(frames)), FramesToBlink)
    ensures r.disCount <= WindowCount / 2
    ensures 0.0 <= r.score <= 495.0
    ensures r.score == (33.0 / 100.0) * (((if r.disCount < 5 then 500 else 0)
                                          + BlinkScore(r.gazeCount)
                                          + (if r.blinkCount < 10 then 500 else 0)) as real)
    ensures r.score == 495.0 <==> r.disCount < 5 && r.gazeCount < 7 && r.blinkCount < 10
  {
    var disCount, _ := AudioPredict(extract, classify);
    var gazeCount, blinkCount := VideoProcess(frames);
    var score := CalcScore(disCount, gazeCount, blinkCount);
    CalcScoreClosedForm(disCount, gazeCount, blinkCount);
    CalcScoreTop(disCount, gazeCount, blinkCount);
    r := ScoreBreakdown(disCount, gazeCount, blinkCount, score);
  }

  /** The swap matters: 8 gaze aversions and no blinks score lower as passed than
      they would with the arguments in declaration order. */
  lemma ArgumentSwapChangesScore()
    ensures CalcScore(0, 8, 0) < CalcScore(0, 0, 8)
  {
    CalcScoreClosedForm(0, 8, 0);
    CalcScoreClosedForm(0, 0, 8);
  }

  /** An interview with one attentive face in every frame and no window the classifier
      marks active yields no events. */
  lemma AttentiveSilentInterview(n: nat, face: Face, extract: Window -> Matrix, classify: Matrix -> real)
    requires face.gaze == Center && !EyeClosed(face)
    requires ExtractsMfcc(extract)
    requires forall m :: classify(m) < ActiveThreshold
    ensures Falls(Detections(extract, classify)) == 0
    ensures Episodes(GazeHits(Faces(SteadyVideo(n, face))), FramesToGaze) == 0
    ensures Episodes(BlinkHits(Faces(SteadyVideo(n, face))), FramesToBlink) == 0
  {
    AttentiveVideoCountsNothing(n, face);
    var active := Detections(extract, classify);
    forall i | 0 <= i < WindowCount
      ensures !active[i]
    {
      assert active[i] == (classify(Reshape(Pad(extract(WindowAt(i))))) >= ActiveThreshold);
    }
    assert active == seq(WindowCount, _ => false);
    QuietStreamNeverFires(WindowCount, 1);
    FallsCountCompletedEpisodes(active);
  }

  /** Such an interview, run through the route's analysis, scores the top composite. */
  method AnalyzeAttentiveSilentInterview(n: nat, face: Face, extract: Window -> Matrix, classify: Matrix -> real)
    returns (r: ScoreBreakdown)
    requires face.gaze == Center && !EyeClosed(face)
    requires ExtractsMfcc(extract)
    requires forall m :: classify(m) < ActiveThreshold
    ensures r == ScoreBreakdown(0, 0, 0, 495.0)
  {
    r := Analyze(SteadyVideo(n, face), extract, classify);
    AttentiveSilentInterview(n, face, extract, classify);
  }

  /** A video with no frames yields no gaze and no blink events. */
  lemma EmptyVideoCountsNothing()
    ensures Episodes(GazeHits(Faces([])), FramesToGaze) == 0
    ensures Episodes(BlinkHits(Faces([])), FramesToBlink) == 0
  {
  }
}
