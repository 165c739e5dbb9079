/**
 * The face and hand-gesture page: a camera toggle, a toggle for hand
 * recognition, and a per-frame pass that draws the face mesh and, while
 * hand recognition runs, writes the status fields from each hand in turn
 * and reports every recognized gesture to the server.
 */
module HandFaceDetection {
  import opened Media
  import opened Vision

  const FaceOnLabel := "DISABLE FACE"
  const FaceOffLabel := "DETECT FACE"
  const HandsOnLabel := "DISABLE HANDS"
  const HandsOffLabel := "DETECT HANDS"
  const FaceFound := "Face landmarks detected."
  const FaceMissing := "No face landmarks detected."
  const CameraWidth: nat := 1280
  const CameraHeight: nat := 720

  /** What one hand sends to the server: its raw top category name, if it has a gesture. */
  function HandReport(h: Hand): (r: seq<string>)
    ensures |r| <= 1
    ensures |r| == 1 <==> |h.gestures| > 0
    ensures |r| == 1 ==> r[0] == h.gestures[0].categoryName
  {
    if |h.gestures| > 0 then [h.gestures[0].categoryName] else []
  }

  /** The gesture names reported for the hands of one frame, in hand order. */
  function Reports(hands: seq<Hand>): (r: seq<string>)
    ensures |r| <= |hands|
  {
    if |hands| == 0 then [] else HandReport(hands[0]) + Reports(hands[1..])
  }

  /** Reporting hand lists one after the other reports each list in turn. */
  lemma {:induction false} ReportsAppend(a: seq<Hand>, b: seq<Hand>)
    ensures Reports(a + b) == Reports(a) + Reports(b)
  {
    if |a| > 0 {
      assert (a + b)[1..] == a[1..] + b;
      ReportsAppend(a[1..], b);
    } else {
      assert a + b == b;
    }
  }

  /**
   * Every report is the unmapped category name of some hand with a gesture,
   * and a hand with a gesture is always reported: with every hand holding a
   * gesture there is one report per hand, with none there is none.
   */
  lemma {:induction false} ReportsAreRawNames(hands: seq<Hand>)
    ensures forall r :: r in Reports(hands) ==>
      exists i :: 0 <= i < |hands| && |hands[i].gestures| > 0 && hands[i].gestures[0].categoryName == r
    ensures forall i :: 0 <= i < |hands| && |hands[i].gestures| > 0 ==> hands[i].gestures[0].categoryName in Reports(hands)
    ensures (forall i :: 0 <= i < |hands| ==> |hands[i].gestures| > 0) ==> |Reports(hands)| == |hands|
    ensures (forall i :: 0 <= i < |hands| ==> |hands[i].gestures| == 0) ==> Reports(hands) == []
  {
    if |hands| > 0 {
      var tail := hands[1..];
      ReportsAreRawNames(tail);
      assert forall i :: 0 <= i < |tail| ==> tail[i] == hands[i + 1];
      forall r | r in Reports(hands)
        ensures exists i :: 0 <= i < |hands| && |hands[i].gestures| > 0 && hands[i].gestures[0].categoryName == r
      {
        if r !in HandReport(hands[0]) {
          var i :| 0 <= i < |tail| && |tail[i].gestures| > 0 && tail[i].gestures[0].categoryName == r;
          assert hands[i + 1] == tail[i];
        }
      }
      forall i | 0 <= i < |hands| && |hands[i].gestures| > 0
        ensures hands[i].gestures[0].categoryName in Reports(hands)
      {
        if i > 0 {
          assert hands[i] == tail[i - 1];
        }
      }
    }
  }

  datatype Detector = FaceModel | GestureModel

  /** The page's module state and the DOM, canvas, camera and network effects it causes. */
  class HandFacePage {
    var faceLoaded: bool
    var gestureLoaded: bool
    var gestureNameMap: map<string, string>
    var webcamRunning: bool
    var handGestureRunning: bool
    var webcamLabel: string
    var gestureLabel: string
    var gestureButtonDisabled: bool
    var srcObject: Option<Stream>
    var stoppedTracks: seq<nat>
    var cameraRequests: seq<(nat, nat)>
    var canvasWidth: nat
    var canvasHeight: nat
    var canvasOps: seq<DrawOp>
    var detectorCalls: seq<DetectorCall>
    var frameRequests: nat
    var faceText: string
    var status: HandStatus
    var handCount: nat
    /** The `gesture` of every POST to /save-gesture, in the order sent. */
    var sentGestures: seq<string>

    ghost predicate Valid()
      reads this`webcamRunning, this`faceLoaded, this`gestureLoaded
    {
      webcamRunning ==> faceLoaded && gestureLoaded
    }

    predicate ModelsLoaded()
      reads this`faceLoaded, this`gestureLoaded
    {
      faceLoaded && gestureLoaded
    }

    constructor (webcamText: string, gestureText: string, disabled: bool, faceInitial: string, statusInitial: HandStatus, w: nat, h: nat)
      ensures Valid()
      ensures !faceLoaded && !gestureLoaded && gestureNameMap == map[] && !webcamRunning && !handGestureRunning
      ensures webcamLabel == webcamText && gestureLabel == gestureText && gestureButtonDisabled == disabled
      ensures srcObject == None && stoppedTracks == [] && cameraRequests == [] && canvasOps == [] && detectorCalls == []
      ensures canvasWidth == w && canvasHeight == h && frameRequests == 0
      ensures faceText == faceInitial && status == statusInitial && handCount == 0 && sentGestures == []
    {
      faceLoaded, gestureLoaded, gestureNameMap := false, false, map[];
      webcamRunning, handGestureRunning := false, false;
      webcamLabel, gestureLabel, gestureButtonDisabled := webcamText, gestureText, disabled;
      srcObject, stoppedTracks, cameraRequests := None, [], [];
      canvasWidth, canvasHeight, canvasOps, detectorCalls, frameRequests := w, h, [], [], 0;
      faceText, status, handCount, sentGestures := faceInitial, statusInitial, 0, [];
    }

    /** loadGestureNameMap finished: the parsed JSON table, or None when the fetch failed. */
    method GestureMapLoaded(table: Option<map<string, string>>)
      requires Valid()
      modifies this`gestureNameMap
      ensures Valid()
      ensures gestureNameMap == if table.Some? then table.value else old(gestureNameMap)
    {
      if table.Some? {
        gestureNameMap := table.value;
      }
    }

    method ModelCreated(m: Detector)
      requires Valid()
      modifies this`faceLoaded, this`gestureLoaded
      ensures Valid()
      ensures faceLoaded == (old(faceLoaded) || m == FaceModel)
      ensures gestureLoaded == (old(gestureLoaded) || m == GestureModel)
    {
      match m
      case FaceModel => faceLoaded := true;
      case GestureModel => gestureLoaded := true;
    }

    /**
     * A click on the camera button. Ignored until both models exist;
     * otherwise flips `webcamRunning`, relabels the button and enables the
     * hand button exactly while the camera runs. Disabling stops every track
     * of the video's stream, if it has one, detaches it and clears the canvas.
     */
    method EnableCam()
      requires Valid()
      modifies this`webcamRunning, this`webcamLabel, this`gestureButtonDisabled, this`srcObject
      modifies this`stoppedTracks, this`cameraRequests, this`canvasOps
      ensures Valid()
      ensures !old(ModelsLoaded()) ==>
        && webcamRunning == old(webcamRunning) && webcamLabel == old(webcamLabel)
        && gestureButtonDisabled == old(gestureButtonDisabled) && srcObject == old(srcObject)
        && stoppedTracks == old(stoppedTracks) && cameraRequests == old(cameraRequests) && canvasOps == old(canvasOps)
      ensures old(ModelsLoaded()) ==>
        && webcamRunning == !old(webcamRunning)
        && webcamLabel == (if webcamRunning then FaceOnLabel else FaceOffLabel)
        && gestureButtonDisabled == !webcamRunning
      ensures old(ModelsLoaded()) && webcamRunning ==>
        && cameraRequests == old(cameraRequests) + [(CameraWidth, CameraHeight)]
        && srcObject == old(srcObject) && stoppedTracks == old(stoppedTracks) && canvasOps == old(canvasOps)
      ensures old(ModelsLoaded()) && !webcamRunning ==>
        && cameraRequests == old(cameraRequests) && srcObject == None && canvasOps == old(canvasOps) + [Clear]
        && stoppedTracks == old(stoppedTracks) + (if old(srcObject).Some? then old(srcObject).value.tracks else [])
    {
      if !ModelsLoaded() {
        return;
      }
      webcamRunning := !webcamRunning;
      webcamLabel := if webcamRunning then FaceOnLabel else FaceOffLabel;
      gestureButtonDisabled := !webcamRunning;
      if webcamRunning {
        cameraRequests := cameraRequests + [(CameraWidth, CameraHeight)];
      } else {
        if srcObject.Some? {
          stoppedTracks := stoppedTracks + srcObject.value.tracks;
          srcObject := None;
        }
        canvasOps := canvasOps + [Clear];
      }
    }

    /** The getUserMedia promise of an enabling click resolved with `s`. */
    method StreamGranted(s: Stream)
      requires Valid()
      modifies this`srcObject
      ensures Valid() && srcObject == Some(s)
    {
      srcObject := Some(s);
    }

    /** A click on the hand button: flip hand recognition and relabel the button. */
    method ToggleHandGestureDetection()
      requires Valid()
      modifies this`handGestureRunning, this`gestureLabel
      ensures Valid()
      ensures handGestureRunning == !old(handGestureRunning)
      ensures gestureLabel == if handGestureRunning then HandsOnLabel else HandsOffLabel
    {
      handGestureRunning := !handGestureRunning;
      gestureLabel := if handGestureRunning then HandsOnLabel else HandsOffLabel;
    }

    /**
     * One call of predictWebcam on a w by h video. The canvas always takes
     * the video's size, which wipes it. While the camera runs: face detection at time t,
     * a clear, the face mesh, the hand pass while hand recognition runs
     * (recognition at wall-clock `now`), and a request for the next frame.
     * `faces` is None when the result has no face landmark list.
     */
    method PredictWebcam(w: nat, h: nat, t: real, faces: Option<seq<seq<Landmark>>>, now: int, hands: seq<Hand>)
      requires Valid() && AllPaired(hands)
      modifies this`canvasWidth, this`canvasHeight, this`canvasOps, this`detectorCalls, this`frameRequests
      modifies this`faceText, this`status, this`handCount, this`sentGestures
      ensures Valid()
      ensures canvasWidth == w && canvasHeight == h
      ensures !webcamRunning ==>
        && canvasOps == old(canvasOps) + [Resize(w, h)] && detectorCalls == old(detectorCalls) && frameRequests == old(frameRequests)
        && faceText == old(faceText) && status == old(status) && handCount == old(handCount)
        && sentGestures == old(sentGestures)
      ensures webcamRunning ==>
        && faceText == (if faces.Some? then FaceFound else FaceMissing)
        && frameRequests == old(frameRequests) + 1
      ensures webcamRunning && !handGestureRunning ==>
        && detectorCalls == old(detectorCalls) + [FaceDetect(t)]
        && canvasOps == old(canvasOps) + [Resize(w, h)] + [Clear] + FaceLayer(faces)
        && status == old(status) && handCount == old(handCount) && sentGestures == old(sentGestures)
      ensures webcamRunning && handGestureRunning ==>
        && detectorCalls == old(detectorCalls) + [FaceDetect(t)] + [GestureRecognize(now)]
        && canvasOps == old(canvasOps) + [Resize(w, h)] + [Clear] + FaceLayer(faces) + [Save] + HandMeshOps(LandmarksOf(hands)) + [Restore]
        && status == (if |hands| == 0 then NotDetected else StatusFold(old(status), hands, ByMap(gestureNameMap)))
        && handCount == |hands|
        && sentGestures == old(sentGestures) + Reports(hands)
    {
      canvasWidth, canvasHeight := w, h;
      canvasOps := canvasOps + [Resize(w, h)];
      if webcamRunning {
        RunningFrame(t, faces, now, hands);
      }
    }

    /** The body of predictWebcam's `if (webcamRunning)`: the face pass, the hand pass if on, the next frame. */
    method RunningFrame(t: real, faces: Option<seq<seq<Landmark>>>, now: int, hands: seq<Hand>)
      requires AllPaired(hands)
      modifies this`canvasOps, this`detectorCalls, this`frameRequests
      modifies this`faceText, this`status, this`handCount, this`sentGestures
      ensures faceText == (if faces.Some? then FaceFound else FaceMissing)
      ensures frameRequests == old(frameRequests) + 1
      ensures !handGestureRunning ==>
        && detectorCalls == old(detectorCalls) + [FaceDetect(t)]
        && canvasOps == old(canvasOps) + [Clear] + FaceLayer(faces)
        && status == old(status) && handCount == old(handCount) && sentGestures == old(sentGestures)
      ensures handGestureRunning ==>
        && detectorCalls == old(detectorCalls) + [FaceDetect(t)] + [GestureRecognize(now)]
        && canvasOps == old(canvasOps) + [Clear] + FaceLayer(faces) + [Save] + HandMeshOps(LandmarksOf(hands)) + [Restore]
        && status == (if |hands| == 0 then NotDetected else StatusFold(old(status), hands, ByMap(gestureNameMap)))
        && handCount == |hands|
        && sentGestures == old(sentGestures) + Reports(hands)
    {
      FacePass(t, faces);
      if handGestureRunning {
        HandPass(now, hands);
      }
      frameRequests := frameRequests + 1;
    }

    /** Face detection at t, a clear, then the face mesh and the face text. */
    method FacePass(t: real, faces: Option<seq<seq<Landmark>>>)
      modifies this`detectorCalls, this`canvasOps, this`faceText
      ensures detectorCalls == old(detectorCalls) + [FaceDetect(t)]
      ensures canvasOps == old(canvasOps) + [Clear] + FaceLayer(faces)
      ensures faceText == if faces.Some? then FaceFound else FaceMissing
    {
      detectorCalls := detectorCalls + [FaceDetect(t)];
      canvasOps := canvasOps + [Clear];
      if faces.Some? {
        faceText := FaceFound;
        canvasOps := canvasOps + FaceMeshOps(faces.value);
      } else {
        faceText := FaceMissing;
      }
    }

    /**
     * The hand-recognition block: recognize at `now`, then for each hand
     * draw it, overwrite the three status fields from it and, when it has a
     * gesture, send its raw category name; with no hand the fields read
     * "Not Detected", "100%", "Not Detected". Finally the hand count.
     */
    method HandPass(now: int, hands: seq<Hand>)
      requires AllPaired(hands)
      modifies this`canvasOps, this`detectorCalls, this`status, this`handCount, this`sentGestures
      ensures detectorCalls == old(detectorCalls) + [GestureRecognize(now)]
      ensures canvasOps == old(canvasOps) + [Save] + HandMeshOps(LandmarksOf(hands)) + [Restore]
      ensures status == if |hands| == 0 then NotDetected else StatusFold(old(status), hands, ByMap(gestureNameMap))
      ensures handCount == |hands|
      ensures sentGestures == old(sentGestures) + Reports(hands)
    {
      detectorCalls := detectorCalls + [GestureRecognize(now)];
      canvasOps := canvasOps + [Save];
      if |hands| > 0 {
        ShowHands(hands, ByMap(gestureNameMap));
      } else {
        status := NotDetected;
      }
      handCount := |hands|;
      canvasOps := canvasOps + [Restore];
    }

    /** The `for` loop over the hands: each one shown in turn with `naming`. */
    method ShowHands(hands: seq<Hand>, naming: Naming)
      requires AllPaired(hands)
      modifies this`canvasOps, this`status, this`sentGestures
      ensures canvasOps == old(canvasOps) + HandMeshOps(LandmarksOf(hands))
      ensures status == StatusFold(old(status), hands, naming)
      ensures sentGestures == old(sentGestures) + Reports(hands)
    {
      var handIndex := 0;
      while handIndex < |hands|
        invariant 0 <= handIndex <= |hands|
        invariant canvasOps == old(canvasOps) + HandMeshOps(LandmarksOf(hands[..handIndex]))
        invariant status == StatusFold(old(status), hands[..handIndex], naming)
        invariant sentGestures == old(sentGestures) + Reports(hands[..handIndex])
      {
        var hand := hands[handIndex];
        HandMeshStep(hands, handIndex);
        StatusFoldStep(old(status), hands, handIndex, naming);
        ReportsStep(hands, handIndex);
        AppendAssoc(old(canvasOps), HandMeshOps(LandmarksOf(hands[..handIndex])), HandOps(hand.landmarks));
        AppendAssoc(old(sentGestures), Reports(hands[..handIndex]), HandReport(hand));
        ShowHand(hand, naming);
        handIndex := handIndex + 1;
      }
      assert hands[..handIndex] == hands;
    }

    /**
     * One iteration of the hand loop: draw the hand, overwrite the three
     * status fields from it and, when it has a gesture, send the raw
     * category name of its top gesture.
     */
    method ShowHand(hand: Hand, naming: Naming)
      requires Paired(hand)
      modifies this`canvasOps, this`status, this`sentGestures
      ensures canvasOps == old(canvasOps) + HandOps(hand.landmarks)
      ensures status == HandLine(hand, naming)
      ensures sentGestures == old(sentGestures) + HandReport(hand)
    {
      canvasOps := canvasOps + HandOps(hand.landmarks);
      if |hand.gestures| > 0 {
        var gestureName := hand.gestures[0].categoryName;
        status := HandStatus(ShownName(naming, gestureName), Percent(hand.gestures[0].score), hand.handedness[0].categoryName);
        sentGestures := sentGestures + [gestureName];
      } else {
        status := NotDetected;
      }
    }
  }

  /** One more iteration of the hand loop extends the reports by hand k. */
  lemma ReportsStep(hands: seq<Hand>, k: nat)
    requires k < |hands|
    ensures Reports(hands[..k + 1]) == Reports(hands[..k]) + HandReport(hands[k])
  {
    assert hands[..k + 1] == hands[..k] + [hands[k]];
    ReportsAppend(hands[..k], [hands[k]]);
    assert Reports([hands[k]]) == HandReport(hands[k]) + Reports([]);
  }
}
