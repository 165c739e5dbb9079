/**
 * The selfie-segmentation page: a camera toggle, and a per-frame callback
 * that resizes both canvases, draws the video frame and cuts the person out
 * of it with the segmenter's category mask, byte by byte, in an RGBA buffer.
 */
module ImageSegmentation {
  import opened Media
  import opened Vision

  const EnableLabel := "ENABLE SEGMENTATION"
  const DisableLabel := "DISABLE SEGMENTATION"
  /** The resolution this page asks getUserMedia for. */
  const CameraWidth: nat := 720
  const CameraHeight: nat := 360

  /** Pixel i of a row-major grid of width w sits at column i % w of row i / w. */
  lemma PixelSlot(i: nat, w: nat)
    requires w > 0
    ensures ((i / w) * w + i % w) * 4 == 4 * i
  {
  }

  /** A cell of a w by h grid has its four bytes inside the 4*w*h byte buffer. */
  lemma CellInGrid(x: nat, y: nat, w: nat, h: nat)
    requires x < w && y < h
    ensures (y * w + x) * 4 + 4 <= 4 * w * h
  {
    assert y * w + x < (y + 1) * w;
    assert (y + 1) * w <= h * w by {
      MulMonotone(y + 1, h, w);
    }
  }

  lemma MulMonotone(a: nat, b: nat, c: nat)
    requires a <= b
    ensures a * c <= b * c
  {
  }

  /** Pixel i of the mask lies in a row of the canvas exactly when i < w * h. */
  lemma RowInGrid(i: nat, w: nat, h: nat)
    requires w > 0 && i < w * h
    ensures i / w < h
  {
    assert (i / w) * w <= i;
  }

  /**
   * The pixel `getImageData(x, y, 1, 1)` reads from a w by h canvas holding
   * `canvas`: its four bytes, or transparent black outside the canvas.
   */
  function CanvasPixel(canvas: seq<Byte>, w: nat, h: nat, x: nat, y: nat): (p: seq<Byte>)
    requires |canvas| == 4 * w * h
    ensures |p| == 4
    ensures x < w && y < h ==> (y * w + x) * 4 + 4 <= |canvas|
    ensures x < w && y < h ==> p == canvas[(y * w + x) * 4 .. (y * w + x) * 4 + 4]
    ensures !(x < w && y < h) ==> p == [0, 0, 0, 0]
  {
    if x < w && y < h then
      var base := (y * w + x) * 4;
      CellInGrid(x, y, w, h);
      assert base + 4 <= |canvas|;
      canvas[base .. base + 4]
    else
      [0, 0, 0, 0]
  }

  /**
   * The byte the mask loop leaves at offset j of a buffer that held `frame`:
   * bytes of foreground pixels keep the frame's colour and get alpha 255,
   * bytes of background pixels become 0, bytes past the mask stay.
   */
  function MaskedByte(frame: seq<Byte>, mask: seq<Byte>, j: nat): (r: Byte)
    requires j < |frame|
    ensures j / 4 >= |mask| ==> r == frame[j]
    ensures j / 4 < |mask| && j % 4 == 3 ==> (r == 255 <==> mask[j / 4] != 0) && (r == 0 <==> mask[j / 4] == 0)
    ensures j / 4 < |mask| && j % 4 < 3 ==> r == (if mask[j / 4] != 0 then frame[j] else 0)
  {
    var i := j / 4;
    if i >= |mask| then frame[j]
    else if mask[i] != 0 then (if j % 4 == 3 then 255 else frame[j])
    else 0
  }

  /** The whole buffer after the mask loop; the bytes past the mask stay as they were. */
  function Masked(frame: seq<Byte>, mask: seq<Byte>): (r: seq<Byte>)
    ensures |r| == |frame|
    ensures forall j :: 4 * |mask| <= j < |frame| ==> r[j] == frame[j]
  {
    seq(|frame|, j requires 0 <= j < |frame| => MaskedByte(frame, mask, j))
  }

  /** A foreground pixel keeps the frame's red, green and blue and becomes opaque. */
  lemma ForegroundPixel(frame: seq<Byte>, mask: seq<Byte>, i: nat)
    requires i < |mask| && 4 * i + 3 < |frame| && mask[i] != 0
    ensures Masked(frame, mask)[4 * i .. 4 * i + 4] == frame[4 * i .. 4 * i + 3] + [255]
  {
    var r := Masked(frame, mask);
    assert r[4 * i] == MaskedByte(frame, mask, 4 * i);
  }

  /** A background pixel becomes transparent black. */
  lemma BackgroundPixel(frame: seq<Byte>, mask: seq<Byte>, i: nat)
    requires i < |mask| && 4 * i + 3 < |frame| && mask[i] == 0
    ensures Masked(frame, mask)[4 * i .. 4 * i + 4] == [0, 0, 0, 0]
  {
  }

  /**
   * The foreground branch addresses pixel i of the buffer, and the four
   * bytes it stores there are the masked bytes of that pixel.
   */
  lemma ForegroundSlot(canvas: seq<Byte>, mask: seq<Byte>, w: nat, h: nat, i: nat)
    requires w > 0 && |canvas| == 4 * w * h && i < |mask| && mask[i] != 0
    ensures ((i / w) * w + i % w) * 4 == 4 * i
    ensures 4 * i < |canvas| ==> forall k :: 0 <= k < 4 ==>
      (CanvasPixel(canvas, w, h, i % w, i / w)[..3] + [255])[k] == MaskedByte(canvas, mask, 4 * i + k)
  {
    PixelSlot(i, w);
    if 4 * i < |canvas| {
      assert i < w * h;
      RowInGrid(i, w, h);
      var p := CanvasPixel(canvas, w, h, i % w, i / w);
      assert p == canvas[4 * i .. 4 * i + 4];
    }
  }

  /**
   * The four stores of one pixel starting at offset p. A Uint8ClampedArray
   * drops stores outside its length.
   */
  method WritePixel(data: array<Byte>, p: nat, px: seq<Byte>)
    requires |px| == 4
    modifies data
    ensures forall j :: 0 <= j < data.Length ==> data[j] == if p <= j < p + 4 then px[j - p] else old(data[j])
  {
    if p < data.Length { data[p] := px[0]; }
    if p + 1 < data.Length { data[p + 1] := px[1]; }
    if p + 2 < data.Length { data[p + 2] := px[2]; }
    if p + 3 < data.Length { data[p + 3] := px[3]; }
  }

  /**
   * The foreground branch for pixel i: read pixel (i % w, i / w) of the
   * canvas and store its colour, made opaque, at that pixel's offset.
   */
  method CutOutPixel(data: array<Byte>, canvas: seq<Byte>, mask: seq<Byte>, w: nat, h: nat, i: nat)
    requires w > 0 && |canvas| == 4 * w * h && data.Length == |canvas| && i < |mask| && mask[i] != 0
    modifies data
    ensures forall j :: 0 <= j < data.Length ==>
      data[j] == if 4 * i <= j < 4 * i + 4 then MaskedByte(canvas, mask, j) else old(data[j])
  {
    var x := i % w;
    var y := i / w;
    var pixelIndex := (y * w + x) * 4;
    var videoPixel := CanvasPixel(canvas, w, h, x, y);
    ForegroundSlot(canvas, mask, w, h, i);
    WritePixel(data, pixelIndex, videoPixel[..3] + [255]);
  }

  /**
   * The mask loop of the frame callback. `data` is the image data read from
   * the canvas just after the frame was drawn, so the canvas still holds
   * what `data` held on entry; the loop reads foreground colours from it.
   */
  method ApplyMask(data: array<Byte>, mask: seq<Byte>, w: nat, h: nat)
    requires w > 0 && data.Length == 4 * w * h
    modifies data
    ensures data[..] == Masked(old(data[..]), mask)
  {
    var canvas := data[..];
    for i := 0 to |mask|
      invariant forall j :: 0 <= j < data.Length ==> data[j] == if j < 4 * i then MaskedByte(canvas, mask, j) else canvas[j]
    {
      var maskIndex := i * 4;
      if mask[i] != 0 {
        CutOutPixel(data, canvas, mask, w, h, i);
      } else {
        WritePixel(data, maskIndex, [0, 0, 0, 0]);
      }
    }
    assert forall j :: 0 <= j < data.Length ==> data[..][j] == Masked(canvas, mask)[j];
  }

  function Zeros(n: nat): (r: seq<Byte>)
    ensures |r| == n && forall j :: 0 <= j < n ==> r[j] == 0
  {
    seq(n, _ => 0)
  }

  /** The page's closure state and the DOM and camera effects it causes. */
  class SegmentationPage {
    var segmenterLoaded: bool
    var webcamRunning: bool
    var stream: Option<Stream>
    var srcObject: Option<Stream>
    /** Every `track.stop()` call, in order. */
    var stoppedTracks: seq<nat>
    /** Every getUserMedia call, as the requested width and height. */
    var cameraRequests: seq<(nat, nat)>
    var buttonLabel: string
    var canvasWidth: nat
    var canvasHeight: nat
    var canvasPixels: seq<Byte>
    var maskedWidth: nat
    var maskedHeight: nat
    var maskedPixels: seq<Byte>
    var detectorCalls: seq<DetectorCall>
    /** How many times `requestAnimationFrame(predictWebcam)` was called. */
    var frameRequests: nat

    ghost predicate Valid()
      reads this
    {
      && (webcamRunning ==> segmenterLoaded)
      && |canvasPixels| == 4 * canvasWidth * canvasHeight
      && |maskedPixels| == 4 * maskedWidth * maskedHeight
    }

    /** The page as loaded: nothing running, canvases at their HTML sizes. */
    constructor (initialLabel: string, w: nat, h: nat, mw: nat, mh: nat)
      ensures Valid()
      ensures !segmenterLoaded && !webcamRunning && stream == None && srcObject == None
      ensures stoppedTracks == [] && cameraRequests == [] && detectorCalls == [] && frameRequests == 0
      ensures buttonLabel == initialLabel
      ensures canvasWidth == w && canvasHeight == h && canvasPixels == Zeros(4 * w * h)
      ensures maskedWidth == mw && maskedHeight == mh && maskedPixels == Zeros(4 * mw * mh)
    {
      segmenterLoaded, webcamRunning := false, false;
      stream, srcObject := None, None;
      stoppedTracks, cameraRequests, detectorCalls, frameRequests := [], [], [], 0;
      buttonLabel := initialLabel;
      canvasWidth, canvasHeight, canvasPixels := w, h, Zeros(4 * w * h);
      maskedWidth, maskedHeight, maskedPixels := mw, mh, Zeros(4 * mw * mh);
    }

    /** createImageSegmenter resolved: the segmenter is set. */
    method SegmenterCreated()
      requires Valid()
      modifies this`segmenterLoaded
      ensures Valid() && segmenterLoaded
    {
      segmenterLoaded := true;
    }

    /**
     * A click on the button, up to the `await getUserMedia`. Ignored until
     * the segmenter exists; otherwise flips `webcamRunning`. Disabling stops
     * every track of the stored stream and forgets it, if there is one.
     */
    method EnableCam()
      requires Valid()
      modifies this`webcamRunning, this`buttonLabel, this`stream, this`stoppedTracks, this`cameraRequests
      ensures Valid()
      ensures !old(segmenterLoaded) ==>
        && webcamRunning == old(webcamRunning) && buttonLabel == old(buttonLabel) && stream == old(stream)
        && stoppedTracks == old(stoppedTracks) && cameraRequests == old(cameraRequests)
      ensures old(segmenterLoaded) ==> webcamRunning == !old(webcamRunning)
      ensures old(segmenterLoaded) && old(webcamRunning) ==>
        && buttonLabel == EnableLabel && stream == None && cameraRequests == old(cameraRequests)
        && stoppedTracks == old(stoppedTracks) + (if old(stream).Some? then old(stream).value.tracks else [])
      ensures old(segmenterLoaded) && !old(webcamRunning) ==>
        && buttonLabel == DisableLabel && stream == old(stream) && stoppedTracks == old(stoppedTracks)
        && cameraRequests == old(cameraRequests) + [(CameraWidth, CameraHeight)]
    {
      if !segmenterLoaded {
        return;
      }
      if webcamRunning {
        webcamRunning := false;
        buttonLabel := EnableLabel;
        if stream.Some? {
          stoppedTracks := stoppedTracks + stream.value.tracks;
          stream := None;
        }
      } else {
        webcamRunning := true;
        buttonLabel := DisableLabel;
        cameraRequests := cameraRequests + [(CameraWidth, CameraHeight)];
      }
    }

    /** The `await getUserMedia` of an enabling click resolved with `s`. */
    method StreamGranted(s: Stream)
      requires Valid()
      modifies this`stream, this`srcObject
      ensures Valid() && stream == Some(s) && srcObject == Some(s)
    {
      stream := Some(s);
      srcObject := Some(s);
    }

    /**
     * One call of predictWebcam: with a segmenter, segment the frame at
     * time t; the segmenter calls back synchronously with the mask.
     */
    method PredictWebcam(frame: seq<Byte>, mask: seq<Byte>, w: nat, h: nat, t: real)
      requires Valid() && |frame| == 4 * w * h
      modifies this
      ensures Valid()
      ensures !old(segmenterLoaded) ==> unchanged(this)
      ensures old(segmenterLoaded) ==>
        && detectorCalls == old(detectorCalls) + [Segment(t)]
        && canvasWidth == w && canvasHeight == h && maskedWidth == w && maskedHeight == h
        && canvasPixels == frame
        && maskedPixels == (if w > 0 && h > 0 then Masked(frame, mask) else [])
        && frameRequests == old(frameRequests) + (if w > 0 && h > 0 && webcamRunning then 1 else 0)
      ensures segmenterLoaded == old(segmenterLoaded) && webcamRunning == old(webcamRunning)
      ensures stream == old(stream) && srcObject == old(srcObject) && buttonLabel == old(buttonLabel)
      ensures stoppedTracks == old(stoppedTracks) && cameraRequests == old(cameraRequests)
    {
      if segmenterLoaded {
        detectorCalls := detectorCalls + [Segment(t)];
        CallbackForVideo(frame, mask, w, h);
      }
    }

    /**
     * The segmenter's callback. Both canvases take the video's size and are
     * cleared, the frame is drawn, and the masked buffer is put on the
     * second canvas; the next frame is requested only while the camera
     * runs. A zero-sized video makes getImageData throw, which ends the
     * callback before the mask loop and before any frame request.
     */
    method CallbackForVideo(frame: seq<Byte>, mask: seq<Byte>, w: nat, h: nat)
      requires Valid() && |frame| == 4 * w * h
      modifies this`canvasWidth, this`canvasHeight, this`canvasPixels
      modifies this`maskedWidth, this`maskedHeight, this`maskedPixels, this`frameRequests
      ensures Valid()
      ensures canvasWidth == w && canvasHeight == h && maskedWidth == w && maskedHeight == h
      ensures canvasPixels == frame
      ensures maskedPixels == if w > 0 && h > 0 then Masked(frame, mask) else []
      ensures frameRequests == old(frameRequests) + (if w > 0 && h > 0 && webcamRunning then 1 else 0)
    {
      canvasWidth, canvasHeight := w, h;
      maskedWidth, maskedHeight := w, h;
      canvasPixels := Zeros(4 * w * h);
      maskedPixels := Zeros(4 * w * h);
      canvasPixels := frame;
      if w == 0 || h == 0 {
        assert maskedPixels == [];
        return;
      }
      var data := new Byte[|frame|](j requires 0 <= j < |frame| => frame[j]);
      assert data[..] == frame;
      ApplyMask(data, mask, w, h);
      maskedPixels := data[..];
      if webcamRunning {
        frameRequests := frameRequests + 1;
      }
    }
  }
}
