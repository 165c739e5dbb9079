# nodejs-mediapipe in Dafny

This is a model of the logic that the nodejs-mediapipe demo writes itself, around
MediaPipe, the DOM and Express. It covers four browser pages and the Express server:

- **Selfie segmentation** (`public/js/image_segmentation.js`). The camera toggle and the
  per-frame callback. The callback resizes both canvases, draws the frame, and cuts the
  person out of an RGBA byte buffer using the segmenter's category mask.
- **Full detection** (`public/js/full_detection.js`). The camera toggle and the drawing of
  one tick: one clear, then the face, pose and hand layers. It also holds the pose filter
  (16 whitelisted landmark indices) and the 15 torso and limb connectors. A connector is
  drawn only when both of its endpoints exist.
- **Face and hand gestures** (`public/js/hand_face_detection.js`). The camera and hand
  toggles, and the per-hand loop. That loop draws each hand, overwrites the three status
  fields, maps the gesture name through the loaded table ("Unknown Gesture" when missing),
  and reports every hand that has a gesture to the server.
- **Pose** (`public/js/pose_detection.js`). The start/stop toggle. Its frame loop detects
  only when the video time differs from `lastVideoTime`, and draws dots whose size
  follows depth.
- **Server** (`server.js`). Which handler a GET reaches (the `/public` static mount, `/`,
  or `/:page`), the file `/:page` sends after `path.join` normalizes it, the start-up
  creation of the log directory, and `POST /save-gesture`. That handler rejects a gesture
  that is blank after trimming, or made only of variation selectors, with a 400.
  Otherwise it appends exactly one `timestamp - gesture` line and answers 200 or 500. The
  validator's `trim`, `isLength` and `escape` are modelled after the validator library
  that express-validator delegates to.

Each page is a `class` whose fields are the page's module or closure variables. The DOM
texts and flags it writes are fields too. Its effects are recorded sequences: camera
requests, stopped tracks, canvas drawing calls, detector calls, animation-frame requests
and POSTed gestures. Event handlers are methods.

Detector results, video frames and sizes, the clocks, and the outcomes of
`getUserMedia`, `fetch` and `fs.appendFile` are all parameters. `getUserMedia` is split
in two. The click handler records the request. A separate `StreamGranted` method is the
promise's continuation.

Modules: `Media` (bytes, `Option`, camera streams), `Vision` (the detector and drawing
vocabulary shared by the pages, and the hand-status fold), `Validator`,
`ImageSegmentation`, `FullDetection`, `HandFaceDetection`, `PoseDetection`,
`GestureServer`.

### Where the code and its description differ (the model follows the code)

- None of the pages catches an exception from a detector call. The model leaves those
  exceptions out; it does not add a recovery path the code lacks.
- The face page writes "Face landmarks detected." whenever the result carries a face list,
  even an empty one. The detector always supplies that list.
- Trimming removes only outer white space. A gesture with an inner line feed is accepted,
  and its log entry spans two lines (`GestureServer.InnerLineFeedSplitsEntry`).
- On the full page, `handGestureRunning` starts false and no handler sets it. The second
  gesture block is therefore never reached. `FullDetectionPage.Valid()` holds it false,
  and no method's `modifies` frame includes that field. `SecondGesturePass` models the
  unreachable block on its own.
- Every `predictWebcam` of the full and face pages assigns the canvas width and height,
  also when the camera is off. That assignment wipes the canvas and resets its context
  (`Resize` in the recorded drawing calls). The pose page does the same when its video
  loads.
- The page route hands the percent-decoded parameter to `path.join`, which normalizes
  `..` segments, so a page parameter holding an encoded `/` can name a file outside
  `templates/` (see Findings).
- The `/public` static mount comes first, so `GET /public` (in any letter case) never
  reaches the page route.
- On the pose page, a stop click before any stream was stored throws at
  `stream.getTracks()`. It then skips the relabelling that follows
  (`PoseDetection.PosePage.EnableCam`, `raised`).
- On the pose page, `runningMode` starts as "VIDEO" and nothing sets it to "IMAGE", so the
  switch back to video mode never runs.

## Model

| member | source | states |
|---|---|---|
| ImageSegmentation.PixelSlot | public/js/image_segmentation.js:76-81 | for w > 0, the foreground offset `(y*w + x)*4` with `x = i % w`, `y = floor(i / w)` is the background offset `4*i` |
| ImageSegmentation.CanvasPixel | public/js/image_segmentation.js:84 | a 1x1 `getImageData` gives the pixel's four bytes inside the canvas, transparent black outside it |
| ImageSegmentation.MaskedByte | public/js/image_segmentation.js:75-96 | a byte past the mask keeps its value; the alpha byte of a masked pixel is 255 exactly for foreground and 0 exactly for background; its colour bytes keep the frame's value for foreground and become 0 for background |
| ImageSegmentation.Masked | public/js/image_segmentation.js:75-96 | the buffer after the mask loop keeps its length, and bytes at positions at or past 4·mask.length are unchanged |
| ImageSegmentation.ForegroundPixel | public/js/image_segmentation.js:78-88 | a pixel with a non-zero mask value keeps the frame's red, green and blue and gets alpha 255 |
| ImageSegmentation.BackgroundPixel | public/js/image_segmentation.js:89-95 | a pixel with mask value 0 becomes four zero bytes |
| ImageSegmentation.ForegroundSlot | public/js/image_segmentation.js:67-70 | the colour read back from the drawn canvas at (i % w, i / w) is the colour the image data already held at pixel i |
| ImageSegmentation.WritePixel | public/js/image_segmentation.js:85-94 | four stores from offset p; stores past the end of the clamped byte array are dropped and every other byte keeps its value |
| ImageSegmentation.CutOutPixel | public/js/image_segmentation.js:78-88 | the foreground branch for pixel i rewrites exactly that pixel's four bytes, with their masked values |
| ImageSegmentation.ApplyMask | public/js/image_segmentation.js:75-96 | the in-place loop leaves exactly `Masked(old buffer, mask)` in the buffer |
| ImageSegmentation.SegmentationPage.constructor | public/js/image_segmentation.js:31-33 | the page starts with no segmenter, no stream and the camera off |
| ImageSegmentation.SegmentationPage.SegmenterCreated | public/js/image_segmentation.js:35-50 | once creation resolves, the segmenter is set |
| ImageSegmentation.SegmentationPage.EnableCam | public/js/image_segmentation.js:114-138 | does nothing without a segmenter; otherwise flips `webcamRunning` and sets the matching label. Disabling stops every track of the stored stream and clears it, only if there is one. Enabling requests a 720x360 camera |
| ImageSegmentation.SegmentationPage.StreamGranted | public/js/image_segmentation.js:138-140 | the awaited stream is stored and attached to the video |
| ImageSegmentation.SegmentationPage.PredictWebcam | public/js/image_segmentation.js:106-112 | segments at the given time only when a segmenter exists, then runs the callback; the camera state is left alone |
| ImageSegmentation.SegmentationPage.CallbackForVideo | public/js/image_segmentation.js:52-104 | both canvases take the video's size; the first shows the frame and the second the masked frame; the next frame is requested only while the camera runs; a zero-sized video throws before the mask loop |
| FullDetection.ConnectorsJoinDrawnLandmarks | public/js/full_detection.js:39-47 | every endpoint of every connector is a whitelisted landmark index |
| FullDetection.WhitelistSize | public/js/full_detection.js:45-47 | the whitelist has 16 indices |
| FullDetection.KeptIndices | public/js/full_detection.js:255-257 | the indices the filter keeps lie in range and increase strictly |
| FullDetection.KeptAreWhitelisted | public/js/full_detection.js:255-257 | an index is kept if and only if it is in range and whitelisted |
| FullDetection.FilterFrom | public/js/full_detection.js:255-257 | the filter from index k on returns no more landmarks than remain from k, each taken from the pose |
| FullDetection.SpecificLandmarks | public/js/full_detection.js:255-257 | the whitelisted landmarks are no more than the pose has, and each one is a landmark of the pose |
| FullDetection.FilterFromKeepsIndices | public/js/full_detection.js:255-257 | the filter returns the landmarks at the kept indices, one per index, in order |
| FullDetection.SpecificLandmarksAreWhitelisted | public/js/full_detection.js:255-257 | the pose filter returns exactly the whitelisted landmarks, in their original order, so at most 16 of them |
| FullDetection.DrawablePairs | public/js/full_detection.js:266-267 | a pair is drawable if and only if it is listed and both endpoints exist |
| FullDetection.AllPairsDrawable | public/js/full_detection.js:266-267 | when every endpoint exists, every listed pair is drawable |
| FullDetection.NoPairDrawable | public/js/full_detection.js:266-267 | when every start point is missing, no pair is drawable |
| FullDetection.ConnectorsForPoseSize | public/js/full_detection.js:266-270 | a full 33-landmark pose gets all 15 connectors; a pose of at most 11 landmarks gets none |
| FullDetection.LinesFor | public/js/full_detection.js:266-270 | the connector loop never clears the canvas |
| FullDetection.LinesForDrawablePairs | public/js/full_detection.js:266-270 | exactly one purple line of width 3 is drawn per drawable pair, between that pair's landmarks, in the order of the drawable pairs |
| FullDetection.DrawablePairsAppend | public/js/full_detection.js:266-270 | the drawable pairs of a concatenation are those of each part, one after the other, so the filter keeps the connector list's order |
| FullDetection.ConnectorLines | public/js/full_detection.js:266-270 | one line per connector whose endpoints the pose has, so 15 for a full 33-landmark pose and none for at most 11 landmarks; never a clear |
| FullDetection.PoseOne | public/js/full_detection.js:253-270 | one pose's drawing contains no clear |
| FullDetection.PoseOneParts | public/js/full_detection.js:253-270 | an empty pose draws nothing; a non-empty pose is drawn as one cyan radius-10 `Points` call over its whitelisted landmarks, then exactly its connector lines |
| FullDetection.PoseOps | public/js/full_detection.js:251-277 | the pose layer contains no clear |
| FullDetection.PoseLayer | public/js/full_detection.js:251-277 | an absent pose list draws nothing, and the pose layer contains no clear |
| FullDetection.HandLayer | public/js/full_detection.js:280-292 | two drawing calls per hand, none for an absent hand list, and no clear |
| FullDetection.TickOps | public/js/full_detection.js:196-292 | a running tick's drawing starts with a clear, and nothing after it clears the canvas again |
| FullDetection.TickOrder | public/js/full_detection.js:196-292 | after the clear, the tick draws the face layer, then the pose layer, then the hand layer |
| FullDetection.FullDetectionPage.constructor | public/js/full_detection.js:37-53 | the page starts with no models, the camera off and `handGestureRunning` false |
| FullDetection.FullDetectionPage.ModelCreated | public/js/full_detection.js:77-127 | each resolved creation marks its own model as loaded and no other |
| FullDetection.FullDetectionPage.EnableCam | public/js/full_detection.js:139-166 | changes nothing unless all three models are loaded; otherwise flips `webcamRunning` and sets the matching label. Enabling requests a 1280x720 camera. Disabling stops the current stream's tracks and detaches it if there is one, then clears the canvas |
| FullDetection.FullDetectionPage.StreamGranted | public/js/full_detection.js:153-155 | the granted stream is attached to the video |
| FullDetection.FullDetectionPage.PredictWebcam | public/js/full_detection.js:169-343 | every call resizes the canvas to the video and records that wiping resize; only while running: face, pose and gesture detection, the tick's drawing, and one frame request; the second gesture block is never entered |
| FullDetection.FullDetectionPage.SecondGesturePass | public/js/full_detection.js:294-339 | the block draws every hand between a save and a restore; the status fields end as the last hand left them (raw category name), or "Not Detected" with no hands; it records the hand count |
| Vision.FaceOps | public/js/hand_face_detection.js:170-219 | nine connector layers are drawn per face |
| Vision.FaceMeshOps | public/js/full_detection.js:199-247 | nine layers are drawn per face, with no clear among them |
| Vision.FaceLayer | public/js/full_detection.js:199 | an absent face list draws nothing, a present one nine layers per face, and the face layer contains no clear |
| Vision.HandOps | public/js/hand_face_detection.js:234-240 | a hand is drawn as its connections first and its points on top, two calls and no clear |
| Vision.HandMeshOps | public/js/full_detection.js:280-292 | two drawing calls per hand, with no clear |
| Vision.ShownName | public/js/hand_face_detection.js:245-247 | the displayed name is the table's non-empty entry for the category; otherwise "Unknown Gesture" (the raw name, when no table is used); it is never empty |
| Vision.HandLine | public/js/hand_face_detection.js:242-256 | one hand writes a non-empty gesture text; the fields read "Not Detected"/"100%"/"Not Detected" exactly when the hand has no gesture; otherwise the gesture text is the displayed name (`ShownName`) of the top category, the confidence is the top score and the handedness its first label |
| Vision.StatusFold | public/js/hand_face_detection.js:233-258 | with no hands the fields stay as they were; after at least one hand the gesture text is non-empty |
| Vision.StatusFoldIsLastHand | public/js/hand_face_detection.js:233-258 | after the loop, all three status fields are the ones the last hand wrote |
| Vision.HandMeshStep | public/js/hand_face_detection.js:233-240 | one more iteration appends that hand's connectors and points to the drawing; hands are visited in the recognizer's order, through `LandmarksOf` |
| Vision.HandMeshAppend | public/js/hand_face_detection.js:233-240 | drawing two hand lists one after the other draws their concatenation |
| Vision.StatusFoldStep | public/js/hand_face_detection.js:242-256 | after iteration k the status fields are the ones hand k wrote |
| HandFaceDetection.Reports | public/js/hand_face_detection.js:244-251 | a frame sends at most one report per hand |
| HandFaceDetection.HandReport | public/js/hand_face_detection.js:244-251 | a hand sends one report exactly when it has a gesture, and that report is its raw top category name |
| HandFaceDetection.ReportsAppend | public/js/hand_face_detection.js:233-258 | reports of consecutive hand lists concatenate |
| HandFaceDetection.ReportsAreRawNames | public/js/hand_face_detection.js:244-251 | every report is the raw (unmapped) category name of a hand with a gesture, and every such hand is reported; no gesturing hand means no report |
| HandFaceDetection.ReportsStep | public/js/hand_face_detection.js:251 | one more iteration sends that hand's report, if it has one |
| HandFaceDetection.HandFacePage.constructor | public/js/hand_face_detection.js:27-31 | the page starts with no models, an empty name table, both flags off and nothing sent |
| HandFaceDetection.HandFacePage.GestureMapLoaded | public/js/hand_face_detection.js:73-87 | a loaded table replaces the map; a failed fetch leaves it as it was |
| HandFaceDetection.HandFacePage.ModelCreated | public/js/hand_face_detection.js:44-71 | each resolved creation marks its own model as loaded and no other |
| HandFaceDetection.HandFacePage.EnableCam | public/js/hand_face_detection.js:116-144 | changes nothing unless both models are loaded; otherwise flips `webcamRunning` and sets the matching label, and `gestureButton.disabled == !webcamRunning`. Disabling stops the stream's tracks, detaches it if present, then clears the canvas |
| HandFaceDetection.HandFacePage.StreamGranted | public/js/hand_face_detection.js:131-133 | the granted stream is attached to the video |
| HandFaceDetection.HandFacePage.ToggleHandGestureDetection | public/js/hand_face_detection.js:146-149 | flips `handGestureRunning`; the label matches the new value |
| HandFaceDetection.HandFacePage.PredictWebcam | public/js/hand_face_detection.js:151-272 | every call resizes the canvas to the video and records that wiping resize; only while running: face detection and drawing, the face text, the hand block only while hand recognition runs, and one frame request |
| HandFaceDetection.HandFacePage.RunningFrame | public/js/hand_face_detection.js:164-271 | the running branch: the face pass, the hand pass exactly when hand recognition runs (status, count and sent gestures otherwise untouched), and exactly one more frame request |
| HandFaceDetection.HandFacePage.FacePass | public/js/hand_face_detection.js:164-222 | face detection, one clear, the face mesh, and the face text |
| HandFaceDetection.HandFacePage.HandPass | public/js/hand_face_detection.js:224-268 | sends `Reports(hands)`; the status fields end as the last hand left them, or "Not Detected"/"100%"/"Not Detected" with no hands; the hand count equals the number of hands; all drawing sits between a save and a restore |
| HandFaceDetection.HandFacePage.ShowHands | public/js/hand_face_detection.js:233-258 | the loop draws every hand in order, leaves the status fields as the hand fold gives them, and sends `Reports(hands)` |
| HandFaceDetection.HandFacePage.ShowHand | public/js/hand_face_detection.js:234-256 | one iteration draws the hand, writes its status fields, and sends its raw name when it has a gesture |
| PoseDetection.Lerp | public/js/pose_detection.js:25-27 | the line maps `min` to `newMin` and `max` to `newMax` |
| PoseDetection.LerpMonotone | public/js/pose_detection.js:25-27 | it is increasing when it maps a rising interval onto a rising one |
| PoseDetection.DotRadius | public/js/pose_detection.js:30-33 | the dot radius is never below 2; it is 2 for z ≤ -0.15 and 32z + 6.8 above that, so 10 at z = 0.1 |
| PoseDetection.DotRadiusMonotone | public/js/pose_detection.js:30-33 | a deeper landmark never gets a smaller dot |
| PoseDetection.PoseMarks | public/js/pose_detection.js:140-147 | a pose is drawn as its dots, then its pose connections, and neither is a clear |
| PoseDetection.PosesMarks | public/js/pose_detection.js:140-148 | two drawing calls per pose, none a clear |
| PoseDetection.PosesMarksAt | public/js/pose_detection.js:140-148 | pose i is drawn by calls 2i (cyan depth-sized dots) and 2i+1 (purple connections) |
| PoseDetection.FrameOps | public/js/pose_detection.js:137-149 | the callback's drawing is a save, a clear, two calls per pose and a restore, with no clear after the first |
| PoseDetection.PosePage.constructor | public/js/pose_detection.js:45-48 | the page starts in VIDEO mode with no landmarker, no stream and `lastVideoTime` = -1 |
| PoseDetection.PosePage.PoseLandmarkerCreated | public/js/pose_detection.js:51-68 | once creation resolves, the landmarker is set |
| PoseDetection.PosePage.EnableCam | public/js/pose_detection.js:85-125 | changes nothing before the landmarker exists; otherwise flips `webcamRunning`, with the prompt (and, unless the stop path raised, the label) matching the new value. Enabling requests a 720x360 camera. Disabling stops the stored stream's tracks and hides video and canvas; it raises exactly when no stream was stored |
| PoseDetection.PosePage.StreamGranted | public/js/pose_detection.js:102-108 | the stream is stored, attached and shown |
| PoseDetection.PosePage.LoadedData | public/js/pose_detection.js:109-114 | the canvas takes the video's size, which records a wiping resize, and is shown, and the frame loop starts |
| PoseDetection.PosePage.PredictWebcam | public/js/pose_detection.js:128-156 | the mode is VIDEO afterwards; detection and drawing happen exactly when the video time differs from `lastVideoTime`, which then becomes that time; a frame is requested only while running |
| PoseDetection.SameFrameDetectsOnce | public/js/pose_detection.js:135-137 | two loop iterations at the same video time detect once |
| Validator.TrimLeft | server.js:52 | `ltrim` drops exactly the longest all-white-space prefix |
| Validator.TrimRight | server.js:52 | `rtrim` drops exactly the longest all-white-space suffix |
| Validator.Trim | server.js:52 | the trimmed value is no longer than the input and has no white space at either end |
| Validator.TrimIsCore | server.js:52 | the trimmed value is one contiguous piece of the input, surrounded only by white space, with none at either end |
| Validator.TrimEmptyIffBlank | server.js:52 | trimming gives the empty string if and only if the input is all white space |
| Validator.TrimIdempotent | server.js:52 | trimming twice is trimming once |
| Validator.DisplayLength | server.js:52 | the length `isLength` checks is at most the number of characters |
| Validator.DisplayLengthZero | server.js:52 | that length is 0 exactly when every character is a variation selector U+FE0E or U+FE0F |
| Validator.DisplayLengthPlain | server.js:52 | without variation selectors it is the number of characters |
| Validator.Escape | server.js:52 | the escaped value is no shorter and holds none of `<`, `>`, `"`, `'`, `` ` ``, `/`, `\` |
| Validator.EscapePlain | server.js:52 | a value with none of the replaced characters is unchanged |
| Validator.EntityAt | server.js:52 | a recognized entity fits inside the text |
| Validator.UnescapeChar | server.js:52 | a replaced character is read back first |
| Validator.EntityOfEscape | server.js:52 | each entity `escape` writes is recognized as the character it replaced |
| Validator.EscapeRoundTrip | server.js:52 | escaping loses nothing: undoing the entities gives the input back |
| Validator.EscapeKeepsLineFeeds | server.js:52 | a line feed survives escaping |
| GestureServer.Split | server.js:40 | cutting a path at `/` gives at least one segment, and a name without `/` is one segment |
| GestureServer.Resolve | server.js:40 | joining segments none of which is empty, `.` or `..` appends them unchanged |
| GestureServer.SentFile | server.js:40 | the file `sendFile` gets is `path.join` of the server's directory, `templates` and `<page>.html`; a page without `/` is sent from `templates/<page>.html` under the server's directory |
| GestureServer.SplitName | server.js:40 | a name without `/` joins the first segment of the text after it |
| GestureServer.SplitUp | server.js:40 | `../<f>` cuts into `..` and `f` |
| GestureServer.ResolveUp | server.js:40 | `..` after a plain segment cancels it |
| GestureServer.TraversalLeavesTemplates | server.js:38-41 | as written, the page `../<name>` (sent as `..%2F<name>`) sends `<name>.html` from the server's own directory, outside `templates/` |
| GestureServer.TraversalAliasesPages | server.js:38-41 | as written, the different page `<dir>/../<name>` sends the same file as `<name>` |
| GestureServer.TemplateFile | server.js:38-41 | a page names a template exactly when it holds no `/`, and that template is `templates/<page>.html` |
| GestureServer.TemplateFileInjective | server.js:38-41 | different pages are served from different templates |
| GestureServer.RouteOf | server.js:29-41 | a GET reaches the static mount exactly for `/public` and the paths below it, in any letter case; `/` reaches the index route; a path not starting with `/` matches no route; a page parameter is one non-empty segment |
| GestureServer.RouteOfPublic | server.js:29 | `/public` and every path below it go to the static files, with the rest of the path |
| GestureServer.UnderMountPage | server.js:29 | the static mount takes `/<page>` exactly when the page is "public" in some letter case |
| GestureServer.RouteOfPage | server.js:29-41 | every other one-segment path, with or without a trailing slash, reaches the page route with that segment; "public" goes to the static files |
| GestureServer.RouteOfNested | server.js:38-41 | a path of two segments outside the static mount matches no route |
| GestureServer.IndexFile | server.js:33-35 | the index route sends `templates/index.html` under the server's directory |
| GestureServer.RoutedFile | server.js:29-41 | the index route sends `templates/index.html`; the page route sends `SentFile` of its parameter, which is `templates/<page>.html` for a page without `/`; the static mount and an unmatched path send no template |
| GestureServer.RootSendsIndex | server.js:33-35 | `GET /` sends `templates/index.html` under the server's directory |
| GestureServer.IndexPath | server.js:38-41 | `/index` reaches the page route with the page "index" |
| GestureServer.IndexPageIsIndex | server.js:33-41 | the page "index" names the same file as `/` |
| GestureServer.Validate | server.js:52-57 | a gesture is rejected exactly when its trimmed value is made only of variation selectors, so every missing, empty or all-white-space gesture is; the single error is `{type: "field", value: <trimmed value>, msg: "Invalid value", path: "gesture", location: "body"}`; an accepted gesture is non-empty and free of `<` and `>` |
| GestureServer.SelectorOnlyRejected | server.js:52 | a gesture of one U+FE0F is not blank and is still rejected |
| GestureServer.LogEntry | server.js:61-62 | the entry is the timestamp, three separator characters, the gesture and a line feed |
| GestureServer.LogEntryParts | server.js:62 | the entry splits back into timestamp, `" - "`, gesture and a final line feed |
| GestureServer.InnerLineFeedSplitsEntry | server.js:52-62 | `"a\nb"` passes unchanged, and its entry has a line feed before its end |
| GestureServer.SuccessMessage | server.js:70 | the 200 message quotes the sanitized gesture between `Gesture "` and `" received and logged.` |
| GestureServer.SuccessMessageInjective | server.js:70 | equal messages quote equal gestures |
| GestureServer.Server.constructor | server.js:44-47 | the log directory exists after start-up, and it was created only if it was missing |
| GestureServer.Server.SaveGesture | server.js:53-73 | a rejected gesture gets a 400 with its error list and nothing is appended; an accepted one causes exactly one append of `LogEntry(timestamp, gesture)`, then a 200 with `Gesture "<g>" received and logged.` or a 500 with "Internal Server Error" |
| GestureServer.AcceptedIsTrimmedEscaped | server.js:52-70 | the logged and echoed value is exactly `Escape(Trim(posted))`, so none of the seven replaced characters survives; unescaping it gives the trimmed value, which has no white space at either end |

## Left out

- MediaPipe model creation and inference are foreign calls. Their results are inputs,
  and a model's creation is one `ModelCreated` event. A failed creation never fires it.
- Detector options are not modelled: delegate, number of poses, mask outputs and the
  `runningMode` passed to `setOptions`.
- DrawingUtils, the canvas paths of `drawLine` and the normalized-to-pixel scaling are
  rendering primitives. A drawing call is recorded as a `DrawOp` value with its
  arguments.
- `drawImage`, `getImageData` and `putImageData` are reduced to their effect on bytes.
  The drawn frame is an input of the right size, not a scaled image.
- The `drawImage` at the start of the segmentation page's `predictWebcam`
  (public/js/image_segmentation.js:107) is not modelled. The callback redraws the frame
  before reading it.
- CSS and display assignments are UI only, except the pose page's video and canvas
  visibility. The same goes for `innerHTML` markup beyond the prompt texts, and console
  logging.
- Clocks are parameters: `performance.now()`, `Date.now()` and the ISO timestamp.
  `requestAnimationFrame` is counted, not run.
- The `loadeddata` listeners are not modelled, except the pose page's `LoadedData`. The
  other pages' listeners only start the loop the `PredictWebcam` methods model. Repeated
  registration of the listener is not modelled.
- Async interleaving is one step per event: `await`s, a second click before
  `getUserMedia` resolves, and the order of fire-and-forget POSTs.
- Internals of `fetch` and Express are I/O. A POST is recorded as the gesture it sends,
  and the server answer is not fed back to the page. `express.json()` parsing is out; the
  body is an optional string field.
- GestureServer.RouteOf: only GET routing is modelled. The static mount is taken to
  answer every path it sees; its fall-through to later routes when no file exists, and
  the files it serves, are not modelled.
- GestureServer.RouteOf: percent-decoding of the page parameter is not modelled.
  `SentFile` takes the parameter as the handler sees it, already decoded; a path segment
  without `%` decodes to itself, and Express answers a malformed escape with a 400.
- GestureServer.SentFile: paths follow POSIX `path.join`; the Windows separator rules
  are not modelled. `sendFile` of a missing file (a 404) is not modelled.
- GestureServer.Validate: the error object follows express-validator 7 (`type`,
  `value`, `msg`, `path`, `location`); the older layout with `param` is not modelled.
  Strings hold code points, so `isLength`'s counting of a surrogate pair as one
  character is built in.
- `fs.appendFile` and `fs.mkdirSync` become recorded effects. The append outcome is a
  parameter, and a failed append writes nothing.
- GestureServer.Server.SaveGesture takes the outcome of the validation middleware as a
  parameter, and that outcome is `GestureServer.Validate` of the posted field. The
  handler method does not call `Validate` itself.
- Floating point is modelled with exact reals: the confidence text (`toFixed(2)` of
  score·100, kept as the score), `Lerp` and `DotRadius`. The model has no rounding,
  NaN or infinities.
- `lerp` and `getRadius` in public/js/full_detection.js:66-74 are defined but unused
  (the radius option is commented out). Only the pose page's copy is modelled.
- Vision.ShownName: a JavaScript object lookup also finds inherited properties such as
  `constructor`. The model reads the loaded table as a plain map.
- The recognizer is assumed to give every hand with a gesture a handedness entry
  (`Vision.Paired`). The pages read `handedness[0]` without a check.
- The full page's hand layer is drawn only when its result lists exist (`HandLayer`), and
  the pose layer likewise. Non-array pose entries, which the page only logs, are not
  modelled.

## Findings

| source | as written | input that shows it | evidently intended | confidence | as-written member | corrected member |
|---|---|---|---|---|---|---|
| server.js:38-41 | the decoded page parameter goes through `path.join`, which resolves `..` | `GET /..%2Fserver` sends `server.html` from the server's directory; `GET /x%2F..%2Fa` sends `templates/a.html` | send only `templates/<page>.html` for a page that names one file | medium, not executed | GestureServer.TraversalLeavesTemplates | GestureServer.TemplateFile |
