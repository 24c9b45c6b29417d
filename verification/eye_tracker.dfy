/**
 The counter logic of `video_process`. Face detection, eye
 cropping and the two classifiers are abstracted: each detected face arrives
 already classified as a gaze label and a blink status. A frame is the list of
 faces detected in it, possibly empty. All faces of all frames feed the same
 pair of counters, in order; a frame without faces changes nothing.
 */
module EyeTracker {
  import opened Hysteresis

  datatype Gaze = Center | Left | Right

  /** One detected face: the gaze classifier's label and the blink classifier's
      status (its probability scaled by 100). */
  datatype Face = Face(gaze: Gaze, status: real)

  type Frame = seq<Face>

  const FramesToBlink: nat := 6
  const FramesToGaze: nat := 30

  /** Both "left" and "right" extend the gaze-aversion run. */
  predicate OffCentre(face: Face)
  {
    face.gaze == Left || face.gaze == Right
  }

  /** The blink condition compares the scaled status against 0.1. */
  predicate EyeClosed(face: Face)
  {
    face.status < 0.1
  }

  /** All faces of all frames, in processing order. */
  function Faces(frames: seq<Frame>): (faces: seq<Face>)
    ensures forall f :: f in faces <==> exists i :: 0 <= i < |frames| && f in frames[i]
  {
    if frames == [] then [] else Faces(frames[..|frames| - 1]) + frames[|frames| - 1]
  }

  function GazeHits(faces: seq<Face>): (hits: seq<bool>)
    ensures |hits| == |faces|
  {
    seq(|faces|, i requires 0 <= i < |faces| => OffCentre(faces[i]))
  }

  function BlinkHits(faces: seq<Face>): (hits: seq<bool>)
    ensures |hits| == |faces|
  {
    seq(|faces|, i requires 0 <= i < |faces| => EyeClosed(faces[i]))
  }

  lemma HitsSnoc(faces: seq<Face>, face: Face)
    ensures GazeHits(faces + [face]) == GazeHits(faces) + [OffCentre(face)]
    ensures BlinkHits(faces + [face]) == BlinkHits(faces) + [EyeClosed(face)]
  {
  }

  /** Concatenating frame lists concatenates their faces. */
  lemma {:induction false} FacesAppend(a: seq<Frame>, b: seq<Frame>)
    ensures Faces(a + b) == Faces(a) + Faces(b)
    decreases |b|
  {
    if b == [] {
      assert a + b == a;
    } else {
      var init := b[..|b| - 1];
      assert (a + b)[..|a + b| - 1] == a + init;
      FacesAppend(a, init);
    }
  }

  /** A frame in which no face is detected leaves the counters where they were:
      the face stream, and so both counts, are those of the same video without it. */
  lemma NoFaceFrameIsSkipped(before: seq<Frame>, after: seq<Frame>)
    ensures Faces(before + [[]] + after) == Faces(before + after)
  {
    FacesAppend(before + [[]], after);
    FacesAppend(before, [[]]);
    FacesAppend(before, after);
    assert Faces([[]]) == Faces([]) + [];
  }

  /** The body of the per-face loop: the `left`/`right`/otherwise branches on the gaze
      counter and the `status < 0.1` branch on the blink counter, each one `Tick`. */
  method ObserveFace(gazeFrame: nat, gazeCount: nat, blinkFrame: nat, blinkCount: nat, face: Face)
    returns (gazeFrame': nat, gazeCount': nat, blinkFrame': nat, blinkCount': nat)
    ensures Counter(gazeFrame', gazeCount') == Tick(Counter(gazeFrame, gazeCount), OffCentre(face), FramesToGaze)
    ensures Counter(blinkFrame', blinkCount') == Tick(Counter(blinkFrame, blinkCount), EyeClosed(face), FramesToBlink)
  {
    gazeFrame', gazeCount', blinkFrame', blinkCount' := gazeFrame, gazeCount, blinkFrame, blinkCount;
    if face.gaze == Left {
      gazeFrame' := gazeFrame' + 1;
      if gazeFrame' == FramesToGaze {
        gazeCount' := gazeCount' + 1;
      }
    } else if face.gaze == Right {
      gazeFrame' := gazeFrame' + 1;
      if gazeFrame' == FramesToGaze {
        gazeCount' := gazeCount' + 1;
      }
    } else {
      gazeFrame' := 0;
    }

    if face.status < 0.1 {
      blinkFrame' := blinkFrame' + 1;
      if blinkFrame' == FramesToBlink {
        blinkCount' := blinkCount' + 1;
      }
    } else {
      blinkFrame' := 0;
    }
  }

  /** The counts an idle-started pair of counters reaches over `faces`, as run counts. */
  lemma FeedCounts(faces: seq<Face>)
    ensures Feed(Idle, GazeHits(faces), FramesToGaze).events == Episodes(GazeHits(faces), FramesToGaze)
    ensures Feed(Idle, BlinkHits(faces), FramesToBlink).events == Episodes(BlinkHits(faces), FramesToBlink)
    ensures FramesToGaze * Episodes(GazeHits(faces), FramesToGaze) <= |faces|
    ensures FramesToBlink * Episodes(BlinkHits(faces), FramesToBlink) <= |faces|
  {
    FeedCountsEpisodes(GazeHits(faces), FramesToGaze);
    FeedCountsEpisodes(BlinkHits(faces), FramesToBlink);
    EpisodesBound(GazeHits(faces), FramesToGaze);
    EpisodesBound(BlinkHits(faces), FramesToBlink);
  }

  /** The counters after one more face. */
  lemma FeedFace(seen: seq<Face>, face: Face)
    ensures Feed(Idle, GazeHits(seen + [face]), FramesToGaze)
            == Tick(Feed(Idle, GazeHits(seen), FramesToGaze), OffCentre(face), FramesToGaze)
    ensures Feed(Idle, BlinkHits(seen + [face]), FramesToBlink)
            == Tick(Feed(Idle, BlinkHits(seen), FramesToBlink), EyeClosed(face), FramesToBlink)
  {
    HitsSnoc(seen, face);
    FeedSnoc(Idle, GazeHits(seen), OffCentre(face), FramesToGaze);
    FeedSnoc(Idle, BlinkHits(seen), EyeClosed(face), FramesToBlink);
  }

  /** The `video_process` loop over decoded frames. */
  method VideoProcess(frames: seq<Frame>) returns (gazeCount: nat, blinkCount: nat)
    ensures gazeCount == Episodes(GazeHits(Faces(frames)), FramesToGaze)
    ensures blinkCount == Episodes(BlinkHits(Faces(frames)), FramesToBlink)
    ensures FramesToGaze * gazeCount <= |Faces(frames)|
    ensures FramesToBlink * blinkCount <= |Faces(frames)|
  {
    var blinkFrame: nat := 0;
    var gazeFrame: nat := 0;
    blinkCount := 0;
    gazeCount := 0;
    var i := 0;
    while i < |frames|
      invariant 0 <= i <= |frames|
      invariant Counter(gazeFrame, gazeCount) == Feed(Idle, GazeHits(Faces(frames[..i])), FramesToGaze)
      invariant Counter(blinkFrame, blinkCount) == Feed(Idle, BlinkHits(Faces(frames[..i])), FramesToBlink)
    {
      var faces := frames[i];
      ghost var seen := Faces(frames[..i]);
      var j := 0;
      assert seen + faces[..0] == seen;
      while j < |faces|
        invariant 0 <= j <= |faces|
        invariant Counter(gazeFrame, gazeCount) == Feed(Idle, GazeHits(seen + faces[..j]), FramesToGaze)
        invariant Counter(blinkFrame, blinkCount) == Feed(Idle, BlinkHits(seen + faces[..j]), FramesToBlink)
      {
        assert seen + faces[..j + 1] == (seen + faces[..j]) + [faces[j]];
        FeedFace(seen + faces[..j], faces[j]);
        gazeFrame, gazeCount, blinkFrame, blinkCount := ObserveFace(gazeFrame, gazeCount, blinkFrame, blinkCount, faces[j]);
        j := j + 1;
      }
      assert faces[..|faces|] == faces;
      assert frames[..i + 1][..i] == frames[..i];
      i := i + 1;
    }
    assert frames[..|frames|] == frames;
    FeedCounts(Faces(frames));
  }

  /** A video of `n` frames, each with the single face `face`. */
  function SteadyVideo(n: nat, face: Face): (frames: seq<Frame>)
    ensures |frames| == n
  {
    seq(n, _ => [face])
  }

  lemma {:induction false} SteadyVideoFaces(n: nat, face: Face)
    ensures Faces(SteadyVideo(n, face)) == seq(n, _ => face)
    decreases n
  {
    if n > 0 {
      assert SteadyVideo(n, face)[..n - 1] == SteadyVideo(n - 1, face);
      SteadyVideoFaces(n - 1, face);
    }
  }

  /** Looking away for `n` consecutive faces counts one gaze aversion once `n` reaches 30,
      whether the run is 30 or 60 faces long. */
  lemma SteadyAversionCountsOnce(n: nat, face: Face)
    requires OffCentre(face)
    ensures Episodes(GazeHits(Faces(SteadyVideo(n, face))), FramesToGaze) == if n >= 30 then 1 else 0
  {
    SteadyVideoFaces(n, face);
    assert GazeHits(seq(n, _ => face)) == seq(n, _ => true);
    SteadyRunFiresOnce(n, FramesToGaze);
  }

  /** Closed eyes for `n` consecutive faces count one blink once `n` reaches 6. */
  lemma SteadyClosureCountsOnce(n: nat, face: Face)
    requires EyeClosed(face)
    ensures Episodes(BlinkHits(Faces(SteadyVideo(n, face))), FramesToBlink) == if n >= 6 then 1 else 0
  {
    SteadyVideoFaces(n, face);
    assert BlinkHits(seq(n, _ => face)) == seq(n, _ => true);
    SteadyRunFiresOnce(n, FramesToBlink);
  }

  /** A face that always looks at the centre with open eyes produces no events. */
  lemma AttentiveVideoCountsNothing(n: nat, face: Face)
    requires face.gaze == Center && !EyeClosed(face)
    ensures Episodes(GazeHits(Faces(SteadyVideo(n, face))), FramesToGaze) == 0
    ensures Episodes(BlinkHits(Faces(SteadyVideo(n, face))), FramesToBlink) == 0
  {
    SteadyVideoFaces(n, face);
    assert GazeHits(seq(n, _ => face)) == seq(n, _ => false);
    assert BlinkHits(seq(n, _ => face)) == seq(n, _ => false);
    QuietStreamNeverFires(n, FramesToGaze);
    QuietStreamNeverFires(n, FramesToBlink);
  }
}
