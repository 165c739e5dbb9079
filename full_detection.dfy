/**
 * The combined face, pose and hand page. Its own logic is the choice of
 * pose landmarks and connectors to draw, the fixed layering of one tick's
 * drawing, and the camera toggle.
 */
module FullDetection {
  import opened Media
  import opened Vision

  /** The torso and limb connectors drawn between pose landmarks, in drawing order. */
  const CustomLandmarkConnections: seq<(nat, nat)> := [
    (11, 12), (11, 13), (12, 14), (13, 15), (14, 16),
    (11, 23), (12, 24), (23, 25), (24, 26), (25, 27),
    (26, 28), (27, 29), (28, 30), (29, 31), (30, 32)
  ]

  /** The pose landmark indices that are drawn as points. */
  const PoseLandmarksToDraw: set<nat> := {11, 12, 13, 14, 15, 16, 23, 24, 25, 26, 27, 28, 29, 30, 31, 32}

  const EnableLabel := "ENABLE DETECTION"
  const DisableLabel := "DISABLE DETECTION"
  const CameraWidth: nat := 1280
  const CameraHeight: nat := 720

  /** Every connector joins two landmarks that are drawn as points. */
  lemma ConnectorsJoinDrawnLandmarks()
    ensures forall k :: 0 <= k < |CustomLandmarkConnections| ==>
      CustomLandmarkConnections[k].0 in PoseLandmarksToDraw && CustomLandmarkConnections[k].1 in PoseLandmarksToDraw
  {
  }

  /** The whitelist is the shoulder-to-wrist run 11..16 and the hip-to-foot run 23..32. */
  lemma WhitelistSize()
    ensures |PoseLandmarksToDraw| == 16
  {
    var arms: set<nat> := {11, 12, 13, 14, 15, 16};
    var legs: set<nat> := {23, 24, 25, 26, 27, 28, 29, 30, 31, 32};
    assert |arms| == 6;
    assert |legs| == 10;
    assert arms * legs == {};
    assert PoseLandmarksToDraw == arms + legs;
  }

  /** The indices in [k, n) that the filter keeps, in increasing order. */
  function KeptIndices(n: nat, k: nat): (r: seq<nat>)
    ensures forall j :: 0 <= j < |r| ==> k <= r[j] < n
    ensures forall j, l :: 0 <= j < l < |r| ==> r[j] < r[l]
    decreases n - k
  {
    if k >= n then []
    else (if k in PoseLandmarksToDraw then [k] else []) + KeptIndices(n, k + 1)
  }

  /** The kept indices are exactly the whitelisted ones in [k, n). */
  lemma {:induction false} KeptAreWhitelisted(n: nat, k: nat)
    ensures forall i :: i in KeptIndices(n, k) <==> k <= i < n && i in PoseLandmarksToDraw
    decreases n - k
  {
    if k < n {
      KeptAreWhitelisted(n, k + 1);
    }
  }

  /** `landmarks.filter((_, index) => poseLandmarksToDraw.has(index))`, from index k on. */
  function FilterFrom(landmarks: seq<Landmark>, k: nat): (r: seq<Landmark>)
    ensures |r| <= if k <= |landmarks| then |landmarks| - k else 0
    ensures forall j :: 0 <= j < |r| ==> r[j] in landmarks
    decreases |landmarks| - k
  {
    if k >= |landmarks| then []
    else
      var rest := FilterFrom(landmarks, k + 1);
      (if k in PoseLandmarksToDraw then [landmarks[k]] else []) + rest
  }

  /** The whitelisted landmarks of one pose: no more than it has, each one of its own. */
  function SpecificLandmarks(landmarks: seq<Landmark>): (r: seq<Landmark>)
    ensures |r| <= |landmarks|
    ensures forall j :: 0 <= j < |r| ==> r[j] in landmarks
  {
    FilterFrom(landmarks, 0)
  }

  /** The filter keeps, in order, exactly the landmarks at the kept indices. */
  lemma {:induction false} FilterFromKeepsIndices(landmarks: seq<Landmark>, k: nat)
    ensures |FilterFrom(landmarks, k)| == |KeptIndices(|landmarks|, k)|
    ensures forall j :: 0 <= j < |FilterFrom(landmarks, k)| ==>
      FilterFrom(landmarks, k)[j] == landmarks[KeptIndices(|landmarks|, k)[j]]
    decreases |landmarks| - k
  {
    if k < |landmarks| {
      FilterFromKeepsIndices(landmarks, k + 1);
    }
  }

  /** A sequence of distinct elements of S is no longer than S. */
  lemma {:induction false} DistinctWithin(r: seq<nat>, s: set<nat>)
    requires forall j, l :: 0 <= j < l < |r| ==> r[j] != r[l]
    requires forall j :: 0 <= j < |r| ==> r[j] in s
    ensures |r| <= |s|
  {
    if |r| > 0 {
      var rest := r[1..];
      assert forall j :: 0 <= j < |rest| ==> rest[j] == r[j + 1];
      DistinctWithin(rest, s - {r[0]});
    }
  }

  /**
   * The pose filter: the result lists exactly the landmarks whose index is
   * whitelisted, in their original order, so at most 16 of them.
   */
  lemma SpecificLandmarksAreWhitelisted(landmarks: seq<Landmark>)
    ensures var r, ix := SpecificLandmarks(landmarks), KeptIndices(|landmarks|, 0);
      && |r| == |ix| <= 16
      && (forall j :: 0 <= j < |r| ==> ix[j] in PoseLandmarksToDraw && ix[j] < |landmarks| && r[j] == landmarks[ix[j]])
      && (forall j, l :: 0 <= j < l < |ix| ==> ix[j] < ix[l])
      && (forall i :: 0 <= i < |landmarks| && i in PoseLandmarksToDraw ==> i in ix)
  {
    FilterFromKeepsIndices(landmarks, 0);
    KeptAreWhitelisted(|landmarks|, 0);
    KeptAtMostWhitelist(|landmarks|);
  }

  /** At most 16 indices are kept, whatever the pose's length. */
  lemma KeptAtMostWhitelist(n: nat)
    ensures |KeptIndices(n, 0)| <= 16
  {
    var ix := KeptIndices(n, 0);
    KeptAreWhitelisted(n, 0);
    assert forall j :: 0 <= j < |ix| ==> ix[j] in ix;
    DistinctWithin(ix, PoseLandmarksToDraw);
    WhitelistSize();
  }

  /** The pairs whose two endpoints exist among n landmarks, in list order. */
  function DrawablePairs(n: nat, pairs: seq<(nat, nat)>): (r: seq<(nat, nat)>)
    ensures |r| <= |pairs|
    ensures forall p :: p in r <==> p in pairs && p.0 < n && p.1 < n
  {
    if pairs == [] then []
    else
      var p := pairs[0];
      (if p.0 < n && p.1 < n then [p] else []) + DrawablePairs(n, pairs[1..])
  }

  /** With every endpoint present, every pair is drawn. */
  lemma {:induction false} AllPairsDrawable(n: nat, pairs: seq<(nat, nat)>)
    requires forall k :: 0 <= k < |pairs| ==> pairs[k].0 < n && pairs[k].1 < n
    ensures DrawablePairs(n, pairs) == pairs
  {
    if pairs != [] {
      AllPairsDrawable(n, pairs[1..]);
    }
  }

  /** With a missing start point in every pair, no pair is drawn. */
  lemma {:induction false} NoPairDrawable(n: nat, pairs: seq<(nat, nat)>)
    requires forall k :: 0 <= k < |pairs| ==> pairs[k].0 >= n
    ensures DrawablePairs(n, pairs) == []
  {
    if pairs != [] {
      NoPairDrawable(n, pairs[1..]);
    }
  }

  /** A full 33-landmark pose gets all fifteen connectors; one with at most 11 landmarks gets none. */
  lemma ConnectorsForPoseSize(n: nat)
    ensures n >= 33 ==> DrawablePairs(n, CustomLandmarkConnections) == CustomLandmarkConnections
    ensures n <= 11 ==> DrawablePairs(n, CustomLandmarkConnections) == []
  {
    if n >= 33 {
      AllPairsDrawable(n, CustomLandmarkConnections);
    }
    if n <= 11 {
      NoPairDrawable(n, CustomLandmarkConnections);
    }
  }

  /** The `customLandmarkConnections.forEach` loop: a line for each pair whose endpoints exist. */
  function LinesFor(landmarks: seq<Landmark>, pairs: seq<(nat, nat)>): (r: seq<DrawOp>)
    ensures ClearFree(r)
  {
    if pairs == [] then []
    else
      var p := pairs[0];
      (if p.0 < |landmarks| && p.1 < |landmarks| then [Line(landmarks[p.0], landmarks[p.1], PurpleColor, 3)] else [])
      + LinesFor(landmarks, pairs[1..])
  }

  /** The lines drawn are those of the drawable pairs, one per pair, in list order. */
  lemma {:induction false} LinesForDrawablePairs(landmarks: seq<Landmark>, pairs: seq<(nat, nat)>)
    ensures var r, d := LinesFor(landmarks, pairs), DrawablePairs(|landmarks|, pairs);
      && |r| == |d|
      && forall k :: 0 <= k < |d| ==> d[k].0 < |landmarks| && d[k].1 < |landmarks| && r[k] == Line(landmarks[d[k].0], landmarks[d[k].1], PurpleColor, 3)
  {
    if pairs != [] {
      LinesForDrawablePairs(landmarks, pairs[1..]);
      var d := DrawablePairs(|landmarks|, pairs);
      forall k | 0 <= k < |d| ensures d[k].0 < |landmarks| && d[k].1 < |landmarks| {
        assert d[k] in d;
      }
    }
  }

  /**
   * Filtering distributes over concatenation, so the drawable pairs keep
   * the order of the list they come from.
   */
  lemma {:induction false} DrawablePairsAppend(n: nat, a: seq<(nat, nat)>, b: seq<(nat, nat)>)
    ensures DrawablePairs(n, a + b) == DrawablePairs(n, a) + DrawablePairs(n, b)
  {
    if a == [] {
      assert a + b == b;
    } else {
      var p := a[0];
      assert (a + b)[0] == p;
      assert (a + b)[1..] == a[1..] + b;
      DrawablePairsAppend(n, a[1..], b);
      var keep := if p.0 < n && p.1 < n then [p] else [];
      AppendAssoc(keep, DrawablePairs(n, a[1..]), DrawablePairs(n, b));
    }
  }

  /** One line per connector whose endpoints the pose has: all fifteen for a full pose. */
  function ConnectorLines(landmarks: seq<Landmark>): (r: seq<DrawOp>)
    ensures ClearFree(r)
    ensures |r| == |DrawablePairs(|landmarks|, CustomLandmarkConnections)|
    ensures |landmarks| >= 33 ==> |r| == 15
    ensures |landmarks| <= 11 ==> r == []
  {
    LinesForDrawablePairs(landmarks, CustomLandmarkConnections);
    ConnectorsForPoseSize(|landmarks|);
    LinesFor(landmarks, CustomLandmarkConnections)
  }

  /** One pose: its whitelisted points, then its connectors; an empty pose draws nothing. */
  function PoseOne(landmarks: seq<Landmark>): (r: seq<DrawOp>)
    ensures ClearFree(r)
  {
    if |landmarks| > 0 then
      var lines := ConnectorLines(landmarks);
      var ops := [Points(SpecificLandmarks(landmarks), Style(CyanColor, None, FixedRadius(10)))] + lines;
      assert ClearFree(ops) by {
        forall j | 0 <= j < |ops| ensures !ops[j].Clear? {
          if j > 0 {
            assert ops[j] == lines[j - 1];
          }
        }
      }
      ops
    else []
  }

  /**
   * The parts of one pose's drawing: nothing for an empty pose; otherwise
   * one cyan radius-10 points call over the whitelisted landmarks, then
   * exactly the connector lines.
   */
  lemma PoseOneParts(landmarks: seq<Landmark>)
    ensures |landmarks| == 0 ==> PoseOne(landmarks) == []
    ensures |landmarks| > 0 ==>
      && |PoseOne(landmarks)| > 0
      && PoseOne(landmarks)[0] == Points(SpecificLandmarks(landmarks), Style(CyanColor, None, FixedRadius(10)))
      && PoseOne(landmarks)[1..] == ConnectorLines(landmarks)
  {
    if |landmarks| > 0 {
      var lines := ConnectorLines(landmarks);
      var head := Points(SpecificLandmarks(landmarks), Style(CyanColor, None, FixedRadius(10)));
      assert PoseOne(landmarks) == [head] + lines;
      assert ([head] + lines)[1..] == lines;
    }
  }

  function PoseOps(poses: seq<seq<Landmark>>): (r: seq<DrawOp>)
    ensures ClearFree(r)
  {
    if |poses| == 0 then [] else PoseOne(poses[0]) + PoseOps(poses[1..])
  }

  /** What a pose or hand result list that may be undefined draws: nothing when it is undefined. */
  function PoseLayer(poses: Option<seq<seq<Landmark>>>): (r: seq<DrawOp>)
    ensures ClearFree(r)
    ensures poses.None? ==> r == []
  {
    if poses.Some? then PoseOps(poses.value) else []
  }

  function HandLayer(hands: Option<seq<seq<Landmark>>>): (r: seq<DrawOp>)
    ensures ClearFree(r)
    ensures |r| == if hands.Some? then 2 * |hands.value| else 0
  {
    if hands.Some? then HandMeshOps(hands.value) else []
  }

  /**
   * The drawing of one running tick: a clear, then face, pose and hand
   * layers. The tick clears the canvas once, first, and never after it
   * has started drawing.
   */
  function TickOps(faces: Option<seq<seq<Landmark>>>, poses: Option<seq<seq<Landmark>>>, hands: Option<seq<seq<Landmark>>>): (r: seq<DrawOp>)
    ensures |r| > 0 && r[0] == Clear && ClearFree(r[1..])
  {
    var f, p, h := FaceLayer(faces), PoseLayer(poses), HandLayer(hands);
    var body := f + p + h;
    ClearFreeJoin(f, p, h);
    assert ([Clear] + body)[1..] == body;
    [Clear] + body
  }

  /** The tick's layers come in the order the source draws them: face, pose, hands. */
  lemma TickOrder(faces: Option<seq<seq<Landmark>>>, poses: Option<seq<seq<Landmark>>>, hands: Option<seq<seq<Landmark>>>)
    ensures TickOps(faces, poses, hands) == [Clear] + FaceLayer(faces) + PoseLayer(poses) + HandLayer(hands)
  {
    var f, p, h := FaceLayer(faces), PoseLayer(poses), HandLayer(hands);
    AppendAssoc([Clear], f, p);
    AppendAssoc([Clear], f + p, h);
  }

  lemma ClearFreeJoin(f: seq<DrawOp>, p: seq<DrawOp>, h: seq<DrawOp>)
    requires ClearFree(f) && ClearFree(p) && ClearFree(h)
    ensures ClearFree(f + p + h)
  {
    forall j | 0 <= j < |f + p + h| ensures !(f + p + h)[j].Clear? {
      if j < |f| {
        assert (f + p + h)[j] == f[j];
      } else if j < |f| + |p| {
        assert (f + p + h)[j] == p[j - |f|];
      } else {
        assert (f + p + h)[j] == h[j - |f| - |p|];
      }
    }
  }

  datatype Detector = GestureModel | FaceModel | PoseModel

  /** The page's module state and the DOM, canvas and camera effects it causes. */
  class FullDetectionPage {
    var gestureLoaded: bool
    var faceLoaded: bool
    var poseLoaded: bool
    var webcamRunning: bool
    /** Initialised false and left so: no handler of this page sets it. */
    var handGestureRunning: bool
    var buttonLabel: string
    var srcObject: Option<Stream>
    var stoppedTracks: seq<nat>
    var cameraRequests: seq<(nat, nat)>
    var canvasWidth: nat
    var canvasHeight: nat
    var canvasOps: seq<DrawOp>
    var detectorCalls: seq<DetectorCall>
    var frameRequests: nat
    var status: HandStatus
    var handCount: nat

    ghost predicate Valid()
      reads this`webcamRunning, this`gestureLoaded, this`faceLoaded, this`poseLoaded, this`handGestureRunning
    {
      && (webcamRunning ==> gestureLoaded && faceLoaded && poseLoaded)
      && !handGestureRunning
    }

    predicate ModelsLoaded()
      reads this`gestureLoaded, this`faceLoaded, this`poseLoaded
    {
      gestureLoaded && faceLoaded && poseLoaded
    }

    constructor (initialLabel: string, initialStatus: HandStatus, w: nat, h: nat)
      ensures Valid()
      ensures !gestureLoaded && !faceLoaded && !poseLoaded && !webcamRunning && !handGestureRunning
      ensures buttonLabel == initialLabel && srcObject == None && canvasWidth == w && canvasHeight == h
      ensures stoppedTracks == [] && cameraRequests == [] && canvasOps == [] && detectorCalls == []
      ensures frameRequests == 0 && status == initialStatus && handCount == 0
    {
      gestureLoaded, faceLoaded, poseLoaded := false, false, false;
      webcamRunning, handGestureRunning := false, false;
      buttonLabel, srcObject := initialLabel, None;
      stoppedTracks, cameraRequests, canvasOps, detectorCalls := [], [], [], [];
      canvasWidth, canvasHeight := w, h;
      frameRequests, status, handCount := 0, initialStatus, 0;
    }

    /** One of the three createFromOptions calls of initializeModels resolved. */
    method ModelCreated(m: Detector)
      requires Valid()
      modifies this`gestureLoaded, this`faceLoaded, this`poseLoaded
      ensures Valid()
      ensures gestureLoaded == (old(gestureLoaded) || m == GestureModel)
      ensures faceLoaded == (old(faceLoaded) || m == FaceModel)
      ensures poseLoaded == (old(poseLoaded) || m == PoseModel)
    {
      match m
      case GestureModel => gestureLoaded := true;
      case FaceModel => faceLoaded := true;
      case PoseModel => poseLoaded := true;
    }

    /**
     * A click on the button. Ignored until all three models exist;
     * otherwise flips `webcamRunning` and relabels the button. Disabling
     * stops every track of the video's current stream, if it has one, and
     * detaches it, then clears the canvas.
     */
    method EnableCam()
      requires Valid()
      modifies this`webcamRunning, this`buttonLabel, this`srcObject, this`stoppedTracks
      modifies this`cameraRequests, this`canvasOps
      ensures Valid()
      ensures !old(ModelsLoaded()) ==>
        && webcamRunning == old(webcamRunning) && buttonLabel == old(buttonLabel) && srcObject == old(srcObject)
        && stoppedTracks == old(stoppedTracks) && cameraRequests == old(cameraRequests) && canvasOps == old(canvasOps)
      ensures old(ModelsLoaded()) ==>
        && webcamRunning == !old(webcamRunning)
        && buttonLabel == (if webcamRunning then DisableLabel else EnableLabel)
      ensures old(ModelsLoaded()) && webcamRunning ==>
        && cameraRequests == old(cameraRequests) + [(CameraWidth, CameraHeight)]
        && srcObject == old(srcObject) && stoppedTracks == old(stoppedTracks) && canvasOps == old(canvasOps)
      ensures old(ModelsLoaded()) && !webcamRunning ==>
        && cameraRequests == old(cameraRequests) && srcObject == None && canvasOps == old(canvasOps) + [Clear]
        && stoppedTracks == old(stoppedTracks) + (if old(srcObject).Some? then old(srcObject).value.tracks else [])
    {
      if !ModelsLoaded() {
        return;
      }
      webcamRunning := !webcamRunning;
      buttonLabel := if webcamRunning then DisableLabel else EnableLabel;
      if webcamRunning {
        cameraRequests := cameraRequests + [(CameraWidth, CameraHeight)];
      } else {
        if srcObject.Some? {
          stoppedTracks := stoppedTracks + srcObject.value.tracks;
          srcObject := None;
        }
        canvasOps := canvasOps + [Clear];
      }
    }

    /** The getUserMedia promise of an enabling click resolved with `s`. */
    method StreamGranted(s: Stream)
      requires Valid()
      modifies this`srcObject
      ensures Valid() && srcObject == Some(s)
    {
      srcObject := Some(s);
    }

    /**
     * One call of predictWebcam on a w by h video. The canvas always takes
     * the video's size, which wipes it. While running: face and pose
     * detection at time t, gesture recognition at wall-clock `now`, one
     * drawing pass and a request for the next frame. The second gesture
     * pass is guarded by `handGestureRunning`, which never holds.
     */
    method PredictWebcam(w: nat, h: nat, t: real, now: int,
                         faces: Option<seq<seq<Landmark>>>, poses: Option<seq<seq<Landmark>>>,
                         hands: Option<seq<seq<Landmark>>>)
      requires Valid()
      modifies this`canvasWidth, this`canvasHeight, this`canvasOps, this`detectorCalls, this`frameRequests
      ensures Valid()
      ensures canvasWidth == w && canvasHeight == h
      ensures !webcamRunning ==>
        canvasOps == old(canvasOps) + [Resize(w, h)] && detectorCalls == old(detectorCalls) && frameRequests == old(frameRequests)
      ensures webcamRunning ==>
        && canvasOps == old(canvasOps) + [Resize(w, h)] + TickOps(faces, poses, hands)
        && detectorCalls == old(detectorCalls) + [FaceDetect(t), PoseDetect(t), GestureRecognize(now)]
        && frameRequests == old(frameRequests) + 1
    {
      canvasWidth, canvasHeight := w, h;
      canvasOps := canvasOps + [Resize(w, h)];
      if !webcamRunning {
        return;
      }
      detectorCalls := detectorCalls + [FaceDetect(t), PoseDetect(t), GestureRecognize(now)];
      canvasOps := canvasOps + TickOps(faces, poses, hands);
      frameRequests := frameRequests + 1;
    }

    /**
     * The `if (handGestureRunning)` block: recognize again at `now2`, draw
     * every hand between a save and a restore, and write the status fields
     * from each hand in turn, showing the raw category name.
     */
    method SecondGesturePass(now2: int, second: seq<Hand>)
      requires AllPaired(second)
      modifies this`canvasOps, this`detectorCalls, this`status, this`handCount
      ensures detectorCalls == old(detectorCalls) + [GestureRecognize(now2)]
      ensures canvasOps == old(canvasOps) + [Save] + HandMeshOps(LandmarksOf(second)) + [Restore]
      ensures status == if |second| == 0 then NotDetected else StatusFold(old(status), second, ByCategory)
      ensures handCount == |second|
    {
      detectorCalls := detectorCalls + [GestureRecognize(now2)];
      canvasOps := canvasOps + [Save];
      ghost var saved := canvasOps;
      if |second| > 0 {
        var handIndex := 0;
        while handIndex < |second|
          invariant 0 <= handIndex <= |second|
          invariant canvasOps == saved + HandMeshOps(LandmarksOf(second[..handIndex]))
          invariant status == StatusFold(old(status), second[..handIndex], ByCategory)
          invariant detectorCalls == old(detectorCalls) + [GestureRecognize(now2)]
        {
          var hand := second[handIndex];
          HandMeshStep(second, handIndex);
          StatusFoldStep(old(status), second, handIndex, ByCategory);
          AppendAssoc(saved, HandMeshOps(LandmarksOf(second[..handIndex])), HandOps(hand.landmarks));
          canvasOps := canvasOps + HandOps(hand.landmarks);
          status := HandLine(hand, ByCategory);
          handIndex := handIndex + 1;
        }
        assert second[..handIndex] == second;
      } else {
        status := NotDetected;
      }
      handCount := |second|;
      canvasOps := canvasOps + [Restore];
    }
  }
}
