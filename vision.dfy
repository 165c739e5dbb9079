/**
 * What the pages exchange with the vision library: detector results (taken
 * as inputs), the drawing calls the pages issue, and the fixed drawing
 * styles and status texts that the face and hand pages share.
 */
module Vision {
  import opened Media

  /** A landmark in normalized image coordinates, as the detectors report it. */
  datatype Landmark = Landmark(x: real, y: real, z: real)

  /** A classification entry: a gesture or a handedness label with its score. */
  datatype Category = Category(categoryName: string, score: real)

  /**
   * One detected hand: its landmarks and the entries that the recognizer
   * reports at the same index of `gestures` and `handednesses`. A missing
   * `gestures` entry is the empty sequence.
   */
  datatype Hand = Hand(landmarks: seq<Landmark>, gestures: seq<Category>, handedness: seq<Category>)

  /**
   * The recognizer pairs every classified gesture with a handedness; the
   * pages read `handedness[0]` without a check whenever a gesture exists.
   */
  predicate Paired(h: Hand) {
    |h.gestures| > 0 ==> |h.handedness| > 0
  }

  predicate AllPaired(hands: seq<Hand>) {
    forall i :: 0 <= i < |hands| ==> Paired(hands[i])
  }

  /** One call into a detector, with the timestamp the page passed to it. */
  datatype DetectorCall =
    | FaceDetect(t: real)
    | PoseDetect(t: real)
    | GestureRecognize(ms: int)
    | Segment(t: real)

  /** The built-in connection lists of the library that the pages draw with. */
  datatype ConnectionSet =
    | FaceTesselation | RightEyebrow | RightEye | RightIris
    | LeftEyebrow | LeftEye | LeftIris | FaceOval | Lips
    | HandConnections | PoseConnections

  /** How drawLandmarks sizes its dots: library default, a fixed radius, or from the depth z. */
  datatype Radius = DefaultRadius | FixedRadius(px: nat) | DepthRadius

  datatype Style = Style(color: string, lineWidth: Option<nat>, radius: Radius)

  /**
   * One call on the 2-D canvas context or on DrawingUtils. `Resize` is the
   * assignment of the canvas width and height, which clears the bitmap and
   * resets the context state even when the size stays the same.
   */
  datatype DrawOp =
    | Resize(width: nat, height: nat)
    | Clear
    | Save
    | Restore
    | Connectors(points: seq<Landmark>, connections: ConnectionSet, style: Style)
    | Points(points: seq<Landmark>, style: Style)
    | Line(from: Landmark, to: Landmark, color: string, width: nat)

  const CyanColor := "#22dee5"
  const PurpleColor := "#7696eb"

  function Colored(color: string): Style {
    Style(color, None, DefaultRadius)
  }

  /** The nine connector layers drawn for one face, in drawing order. */
  function FaceOps(face: seq<Landmark>): (r: seq<DrawOp>)
    ensures |r| == 9
  {
    [ Connectors(face, FaceTesselation, Style("#C0C0C070", Some(1), DefaultRadius)),
      Connectors(face, RightEyebrow, Colored("#83f47e")),
      Connectors(face, RightEye, Colored("#83f47e")),
      Connectors(face, RightIris, Colored("#83f47e")),
      Connectors(face, LeftEyebrow, Colored("#83f47e")),
      Connectors(face, LeftEye, Colored("#83f47e")),
      Connectors(face, LeftIris, Colored("#83f47e")),
      Connectors(face, FaceOval, Colored("#E0E0E0")),
      Connectors(face, Lips, Colored("#E0E0E0")) ]
  }

  /** No operation of `ops` clears the canvas. */
  predicate ClearFree(ops: seq<DrawOp>) {
    forall j :: 0 <= j < |ops| ==> !ops[j].Clear?
  }

  /** A hand is drawn as its connections, then its 21 points on top. */
  function HandOps(hand: seq<Landmark>): (r: seq<DrawOp>)
    ensures |r| == 2 && ClearFree(r)
    ensures r[0].Connectors? && r[0].points == hand && r[0].connections == HandConnections
    ensures r[1].Points? && r[1].points == hand
  {
    [ Connectors(hand, HandConnections, Style(PurpleColor, Some(5), DefaultRadius)),
      Points(hand, Style(CyanColor, Some(2), DefaultRadius)) ]
  }

  /** The face layers for every detected face, face after face. */
  function FaceMeshOps(faces: seq<seq<Landmark>>): (r: seq<DrawOp>)
    ensures |r| == 9 * |faces|
    ensures ClearFree(r)
  {
    if |faces| == 0 then [] else FaceOps(faces[0]) + FaceMeshOps(faces[1..])
  }

  /** The face layers of a result whose face list may be undefined: nothing when it is. */
  function FaceLayer(faces: Option<seq<seq<Landmark>>>): (r: seq<DrawOp>)
    ensures ClearFree(r)
    ensures |r| == if faces.Some? then 9 * |faces.value| else 0
  {
    if faces.Some? then FaceMeshOps(faces.value) else []
  }

  /** The connections and points of every hand, hand after hand. */
  function HandMeshOps(hands: seq<seq<Landmark>>): (r: seq<DrawOp>)
    ensures |r| == 2 * |hands|
    ensures ClearFree(r)
  {
    if |hands| == 0 then [] else HandOps(hands[0]) + HandMeshOps(hands[1..])
  }

  /** The landmarks of each hand, in the order the recognizer lists the hands. */
  function LandmarksOf(hands: seq<Hand>): (r: seq<seq<Landmark>>)
    ensures |r| == |hands|
    ensures forall k :: 0 <= k < |hands| ==> r[k] == hands[k].landmarks
  {
    seq(|hands|, k requires 0 <= k < |hands| => hands[k].landmarks)
  }

  /** The confidence field: the top gesture's score as a percentage, or the literal "100%". */
  datatype Confidence = Percent(score: real) | Full

  /** The three status fields a hand-recognition pass writes. */
  datatype HandStatus = HandStatus(gesture: string, confidence: Confidence, handedness: string)

  const NotDetected := HandStatus("Not Detected", Full, "Not Detected")

  /**
   * How a category name becomes the displayed gesture name: through a
   * lookup table loaded from JSON, or the category name itself. In both
   * cases a missing or empty result falls back to "Unknown Gesture".
   */
  datatype Naming = ByMap(names: map<string, string>) | ByCategory

  function ShownName(naming: Naming, name: string): (r: string)
    ensures r != ""
    ensures naming.ByMap? && name in naming.names && naming.names[name] != "" ==> r == naming.names[name]
    ensures naming.ByMap? && (name !in naming.names || naming.names[name] == "") ==> r == "Unknown Gesture"
    ensures naming.ByCategory? ==> r == if name == "" then "Unknown Gesture" else name
  {
    match naming
    case ByMap(names) =>
      if name in names && names[name] != "" then names[name] else "Unknown Gesture"
    case ByCategory =>
      if name != "" then name else "Unknown Gesture"
  }

  /** The status fields one loop iteration writes for hand `h`. */
  function HandLine(h: Hand, naming: Naming): (r: HandStatus)
    requires Paired(h)
    ensures r.gesture != ""
    ensures r == NotDetected <==> |h.gestures| == 0
    ensures |h.gestures| > 0 ==> r.gesture == ShownName(naming, h.gestures[0].categoryName)
    ensures |h.gestures| > 0 ==> r.confidence == Percent(h.gestures[0].score) && r.handedness == h.handedness[0].categoryName
  {
    if |h.gestures| > 0 then
      HandStatus(ShownName(naming, h.gestures[0].categoryName), Percent(h.gestures[0].score), h.handedness[0].categoryName)
    else
      NotDetected
  }

  /** The status fields after the per-hand loop has run over `hands`, starting from `s`. */
  function StatusFold(s: HandStatus, hands: seq<Hand>, naming: Naming): (r: HandStatus)
    requires AllPaired(hands)
    ensures |hands| == 0 ==> r == s
    ensures |hands| > 0 || s.gesture != "" ==> r.gesture != ""
    decreases |hands|
  {
    if |hands| == 0 then s
    else StatusFold(HandLine(hands[0], naming), hands[1..], naming)
  }

  /** Every iteration overwrites all three fields, so the last hand decides them. */
  lemma {:induction false} StatusFoldIsLastHand(s: HandStatus, hands: seq<Hand>, naming: Naming)
    requires AllPaired(hands)
    ensures StatusFold(s, hands, naming) == if |hands| == 0 then s else HandLine(hands[|hands| - 1], naming)
    decreases |hands|
  {
    if |hands| > 0 {
      var tail := hands[1..];
      assert AllPaired(tail) by {
        forall i | 0 <= i < |tail| ensures Paired(tail[i]) {
          assert tail[i] == hands[i + 1];
        }
      }
      StatusFoldIsLastHand(HandLine(hands[0], naming), tail, naming);
      if |tail| > 0 {
        assert tail[|tail| - 1] == hands[|hands| - 1];
      }
    }
  }

  /** Regrouping a log that grows by two appends. */
  lemma AppendAssoc<T>(a: seq<T>, b: seq<T>, c: seq<T>)
    ensures (a + b) + c == a + (b + c)
  {
  }

  /** Drawing one more hand extends the hand layer by that hand's two operations. */
  lemma HandMeshStep(hands: seq<Hand>, k: nat)
    requires k < |hands|
    ensures HandMeshOps(LandmarksOf(hands[..k + 1])) == HandMeshOps(LandmarksOf(hands[..k])) + HandOps(hands[k].landmarks)
  {
    HandMeshAppend(LandmarksOf(hands[..k]), [hands[k].landmarks]);
    assert LandmarksOf(hands[..k + 1]) == LandmarksOf(hands[..k]) + [hands[k].landmarks];
    assert HandMeshOps([hands[k].landmarks]) == HandOps(hands[k].landmarks) + HandMeshOps([]);
  }

  lemma {:induction false} HandMeshAppend(a: seq<seq<Landmark>>, b: seq<seq<Landmark>>)
    ensures HandMeshOps(a + b) == HandMeshOps(a) + HandMeshOps(b)
  {
    if |a| > 0 {
      HandMeshAppend(a[1..], b);
      assert (a + b)[1..] == a[1..] + b;
    } else {
      assert a + b == b;
    }
  }

  /** One more iteration of the status loop leaves the status of its hand. */
  lemma StatusFoldStep(s: HandStatus, hands: seq<Hand>, k: nat, naming: Naming)
    requires AllPaired(hands) && k < |hands|
    ensures AllPaired(hands[..k]) && AllPaired(hands[..k + 1])
    ensures StatusFold(s, hands[..k + 1], naming) == HandLine(hands[k], naming)
  {
    var pre := hands[..k + 1];
    assert forall i :: 0 <= i < |pre| ==> pre[i] == hands[i];
    assert forall i :: 0 <= i < k ==> hands[..k][i] == hands[i];
    StatusFoldIsLastHand(s, pre, naming);
  }
}
