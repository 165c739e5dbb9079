/**
 * The pose page: a start/stop button, and a frame loop that runs pose
 * detection only when the video has advanced to a new frame and draws each
 * pose as depth-sized cyan dots joined by purple connections.
 */
module PoseDetection {
  import opened Media
  import opened Vision

  const StopPrompt := "Press <b>Stop Detection</b> below to end the webcam pose detection."
  const StartPrompt := "Press <b>Start Detection</b> below to initiate the webcam pose detection."
  const StopLabel := "STOP DETECTION"
  const StartLabel := "START DETECTION"
  const CameraWidth: nat := 720
  const CameraHeight: nat := 360

  /** The straight line through (min, newMin) and (max, newMax), evaluated at `value`. */
  function Lerp(value: real, min: real, max: real, newMin: real, newMax: real): (r: real)
    requires max != min
    ensures value == min ==> r == newMin
    ensures value == max ==> r == newMax
  {
    DivSelf(max - min);
    ((value - min) / (max - min)) * (newMax - newMin) + newMin
  }

  lemma DivSelf(d: real)
    requires d != 0.0
    ensures d / d == 1.0
  {
    assert (d / d) * d == d;
    assert ((d / d) - 1.0) * d == 0.0;
  }

  /**
   * Lerp is increasing in `value` when it maps a rising interval onto a
   * rising one, so `DotRadius` keeps the order of depths.
   */
  lemma LerpMonotone(a: real, b: real, min: real, max: real, newMin: real, newMax: real)
    requires min < max && newMin <= newMax && a <= b
    ensures Lerp(a, min, max, newMin, newMax) <= Lerp(b, min, max, newMin, newMax)
  {
    var k := (newMax - newMin) / (max - min);
    assert Lerp(a, min, max, newMin, newMax) == (a - min) * k + newMin;
    assert Lerp(b, min, max, newMin, newMax) == (b - min) * k + newMin;
    assert k >= 0.0;
    assert (b - min) * k - (a - min) * k == (b - a) * k;
  }

  /** The dot radius for a landmark at depth z: z in [-0.15, 0.1] spans [2, 10], never below 2. */
  function DotRadius(z: real): (r: real)
    ensures r >= 2.0
    ensures z <= -0.15 ==> r == 2.0
    ensures z >= -0.15 ==> r == 32.0 * z + 6.8
    ensures z == 0.1 ==> r == 10.0
  {
    var radius := Lerp(z, -0.15, 0.1, 2.0, 10.0);
    if radius > 2.0 then radius else 2.0
  }

  /** A nearer landmark (smaller z) never gets a larger dot. */
  lemma DotRadiusMonotone(a: real, b: real)
    requires a <= b
    ensures DotRadius(a) <= DotRadius(b)
  {
    LerpMonotone(a, b, -0.15, 0.1, 2.0, 10.0);
  }

  const DotStyle := Style(CyanColor, None, DepthRadius)

  /** The two drawing calls for one pose: its dots, then its connections. */
  function PoseMarks(pose: seq<Landmark>): (r: seq<DrawOp>)
    ensures |r| == 2 && ClearFree(r)
    ensures r[0].Points? && r[0].points == pose && r[1].Connectors? && r[1].connections == PoseConnections
  {
    [Points(pose, DotStyle), Connectors(pose, PoseConnections, Colored(PurpleColor))]
  }

  /** The drawing calls of the detection callback's loop over every pose. */
  function PosesMarks(poses: seq<seq<Landmark>>): (r: seq<DrawOp>)
    ensures |r| == 2 * |poses|
    ensures ClearFree(r)
  {
    if |poses| == 0 then [] else PoseMarks(poses[0]) + PosesMarks(poses[1..])
  }

  /** Pose i is drawn by calls 2i and 2i+1: its dots first, then its connections. */
  lemma {:induction false} PosesMarksAt(poses: seq<seq<Landmark>>, i: nat)
    requires i < |poses|
    ensures PosesMarks(poses)[2 * i] == Points(poses[i], DotStyle)
    ensures PosesMarks(poses)[2 * i + 1] == Connectors(poses[i], PoseConnections, Colored(PurpleColor))
  {
    if i > 0 {
      PosesMarksAt(poses[1..], i - 1);
      assert PosesMarks(poses) == PoseMarks(poses[0]) + PosesMarks(poses[1..]);
    }
  }

  /** One run of the detection callback: save, clear, every pose, restore. */
  function FrameOps(poses: seq<seq<Landmark>>): (r: seq<DrawOp>)
    ensures |r| == 2 * |poses| + 3
    ensures r[0] == Save && r[1] == Clear && r[|r| - 1] == Restore
    ensures ClearFree(r[2..])
  {
    var marks := PosesMarks(poses);
    var r := [Save, Clear] + marks + [Restore];
    assert r[2..] == marks + [Restore];
    assert forall j :: 0 <= j < |marks| ==> r[2..][j] == marks[j];
    r
  }

  datatype RunningMode = Image | Video

  /** The page's module state and the DOM, canvas and camera effects it causes. */
  class PosePage {
    var poseLoaded: bool
    var runningMode: RunningMode
    var webcamRunning: bool
    /** The stream stored by the last granted camera request. */
    var stream: Option<Stream>
    var srcObject: Option<Stream>
    var stoppedTracks: seq<nat>
    var videoShown: bool
    var canvasShown: bool
    var promptHtml: string
    var buttonLabel: string
    var cameraRequests: seq<(nat, nat)>
    var canvasWidth: nat
    var canvasHeight: nat
    var lastVideoTime: real
    var detectorCalls: seq<DetectorCall>
    var canvasOps: seq<DrawOp>
    var frameRequests: nat

    /** The camera only runs once the landmarker exists. */
    ghost predicate Valid()
      reads this`webcamRunning, this`poseLoaded
    {
      webcamRunning ==> poseLoaded
    }

    constructor (prompt: string, initialLabel: string, w: nat, h: nat)
      ensures Valid() && runningMode == Video
      ensures !poseLoaded && !webcamRunning && stream == None && srcObject == None && stoppedTracks == []
      ensures promptHtml == prompt && buttonLabel == initialLabel && cameraRequests == []
      ensures canvasWidth == w && canvasHeight == h && lastVideoTime == -1.0
      ensures detectorCalls == [] && canvasOps == [] && frameRequests == 0
      ensures videoShown && canvasShown
    {
      poseLoaded, runningMode, webcamRunning := false, Video, false;
      stream, srcObject, stoppedTracks := None, None, [];
      videoShown, canvasShown := true, true;
      promptHtml, buttonLabel, cameraRequests := prompt, initialLabel, [];
      canvasWidth, canvasHeight, lastVideoTime := w, h, -1.0;
      detectorCalls, canvasOps, frameRequests := [], [], 0;
    }

    method PoseLandmarkerCreated()
      requires Valid()
      modifies this`poseLoaded
      ensures Valid() && poseLoaded
    {
      poseLoaded := true;
    }

    /**
     * A click on the button. Ignored until the landmarker exists. Otherwise
     * flips `webcamRunning` and rewrites the prompt; enabling requests a
     * 720x360 camera. Disabling stops the stored stream's tracks and hides
     * the video and the canvas; when no stream has been stored yet that
     * call raises (`raised`), and the rest of the handler, which relabels
     * the button, does not run.
     */
    method EnableCam() returns (raised: bool)
      requires Valid()
      modifies this`webcamRunning, this`promptHtml, this`buttonLabel, this`cameraRequests
      modifies this`stoppedTracks, this`videoShown, this`canvasShown
      ensures Valid()
      ensures raised <==> old(poseLoaded) && old(webcamRunning) && old(stream).None?
      ensures !old(poseLoaded) ==>
        && webcamRunning == old(webcamRunning) && promptHtml == old(promptHtml) && buttonLabel == old(buttonLabel)
        && cameraRequests == old(cameraRequests) && stoppedTracks == old(stoppedTracks)
        && videoShown == old(videoShown) && canvasShown == old(canvasShown)
      ensures old(poseLoaded) ==>
        && webcamRunning == !old(webcamRunning)
        && promptHtml == (if webcamRunning then StopPrompt else StartPrompt)
        && buttonLabel == (if raised then old(buttonLabel) else if webcamRunning then StopLabel else StartLabel)
      ensures old(poseLoaded) && webcamRunning ==>
        && cameraRequests == old(cameraRequests) + [(CameraWidth, CameraHeight)]
        && stoppedTracks == old(stoppedTracks) && videoShown == old(videoShown) && canvasShown == old(canvasShown)
      ensures old(poseLoaded) && !webcamRunning && raised ==>
        && cameraRequests == old(cameraRequests) && stoppedTracks == old(stoppedTracks)
        && videoShown == old(videoShown) && canvasShown == old(canvasShown)
      ensures old(poseLoaded) && !webcamRunning && !raised ==>
        && cameraRequests == old(cameraRequests) && stoppedTracks == old(stoppedTracks) + old(stream).value.tracks
        && !videoShown && !canvasShown
    {
      raised := false;
      if !poseLoaded {
        return;
      }
      webcamRunning := !webcamRunning;
      promptHtml := if webcamRunning then StopPrompt else StartPrompt;
      if webcamRunning {
        cameraRequests := cameraRequests + [(CameraWidth, CameraHeight)];
      } else {
        if stream.None? {
          raised := true;
          return;
        }
        stoppedTracks := stoppedTracks + stream.value.tracks;
        videoShown, canvasShown := false, false;
      }
      buttonLabel := if webcamRunning then StopLabel else StartLabel;
    }

    /** The getUserMedia promise resolved: store the stream, attach it, show the video. */
    method StreamGranted(s: Stream)
      requires Valid()
      modifies this`stream, this`srcObject, this`videoShown
      ensures Valid() && stream == Some(s) && srcObject == Some(s) && videoShown
    {
      stream, srcObject := Some(s), Some(s);
      videoShown := true;
    }

    /**
     * The video's `loadeddata` listener: size the canvas to the w by h
     * video, which wipes it, show it, and make the first call of the frame loop.
     */
    method LoadedData(w: nat, h: nat, currentTime: real, t: real, poses: seq<seq<Landmark>>)
      requires Valid()
      modifies this`canvasWidth, this`canvasHeight, this`canvasShown
      modifies this`runningMode, this`lastVideoTime, this`detectorCalls, this`canvasOps, this`frameRequests
      ensures Valid() && runningMode == Video
      ensures canvasWidth == w && canvasHeight == h && canvasShown
      ensures lastVideoTime == currentTime
      ensures detectorCalls == old(detectorCalls) + (if currentTime != old(lastVideoTime) then [PoseDetect(t)] else [])
      ensures canvasOps == old(canvasOps) + [Resize(w, h)] + (if currentTime != old(lastVideoTime) then FrameOps(poses) else [])
      ensures frameRequests == old(frameRequests) + (if webcamRunning then 1 else 0)
    {
      canvasWidth, canvasHeight := w, h;
      canvasOps := canvasOps + [Resize(w, h)];
      canvasShown := true;
      PredictWebcam(currentTime, t, poses);
    }

    /**
     * One call of predictWebcam while the video shows the frame at
     * `currentTime`: detection at `t` and its drawing happen only for a
     * frame time different from the last one detected, and the next frame
     * is requested while the camera runs.
     */
    method PredictWebcam(currentTime: real, t: real, poses: seq<seq<Landmark>>)
      requires Valid()
      modifies this`runningMode, this`lastVideoTime, this`detectorCalls, this`canvasOps, this`frameRequests
      ensures Valid() && runningMode == Video
      ensures lastVideoTime == currentTime
      ensures detectorCalls == old(detectorCalls) + (if currentTime != old(lastVideoTime) then [PoseDetect(t)] else [])
      ensures canvasOps == old(canvasOps) + (if currentTime != old(lastVideoTime) then FrameOps(poses) else [])
      ensures frameRequests == old(frameRequests) + (if webcamRunning then 1 else 0)
    {
      if runningMode == Image {
        runningMode := Video;
      }
      if lastVideoTime != currentTime {
        lastVideoTime := currentTime;
        detectorCalls := detectorCalls + [PoseDetect(t)];
        canvasOps := canvasOps + FrameOps(poses);
      }
      if webcamRunning {
        frameRequests := frameRequests + 1;
      }
    }
  }

  /**
   * Two loop iterations on the same video frame detect once: the second
   * sees its frame time as the last one detected and leaves detector and
   * canvas alone.
   */
  method SameFrameDetectsOnce(page: PosePage, currentTime: real, t1: real, t2: real, poses1: seq<seq<Landmark>>, poses2: seq<seq<Landmark>>)
    requires page.Valid() && page.lastVideoTime != currentTime
    modifies page
    ensures page.detectorCalls == old(page.detectorCalls) + [PoseDetect(t1)]
    ensures page.canvasOps == old(page.canvasOps) + FrameOps(poses1)
  {
    page.PredictWebcam(currentTime, t1, poses1);
    page.PredictWebcam(currentTime, t2, poses2);
  }
}
