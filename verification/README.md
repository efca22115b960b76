# Fake background webcam: a Dafny model of fake.py

fake.py is the compositor of Linux-Fake-Background-Webcam. It reads frames from
a real webcam, asks a segmentation model for a person mask, replaces everything
but the person with a background, optionally lays a foreground image on top, and
writes the result to a v4l2loopback device. In on-demand mode it watches the
loopback device with inotify: it pauses while no program has the device open and
resumes (reloading the background and foreground images) when one opens it.

This project (`fake.dfy`, one module `Fake`) models the deterministic rules of
that program and proves what they guarantee:

- **Consumer bookkeeping.** The class `FakeCam` has fields for the consumer
  count, the pause flag, a counter of image reloads and the stored mask.
  - Each inotify event applies its OPEN and CLOSE flags one by one.
  - After every event, a positive count unpauses the camera and reloads the
    images. Any other count is reset to zero and pauses it.
  - The pure functions `ConsumersAfter`, `Replay` and `ReplayReloads` specify
    these steps. The lemmas relate the per-event clamp to the plain
    "opens minus closes" count.
- **Mask smoothing and blending.** One operation, `Mix(a, b, w) = a*w + b*(1-w)`,
  serves three uses:
  - the exponential average of masks;
  - background replacement with the sigmoid of the mask;
  - the foreground overlay.
  The lemmas show the average stays in range and, pixel by pixel over the
  whole stored mask, moves monotonically towards a constant raw mask and
  converges to it.
- **shift_image.** The roll-then-zero-fill is done on an `array3<int>`. It is
  proved equal to the pixel-wise translation with zero fill.
- **The still background.**
  - The tile counts come from a ceiling division; they are the least repeat
    counts that cover the frame.
  - Tiling then cropping is proved to give `bg[y % H, x % W]`.
  - The keep-aspect crop window stays inside the image, is centred, and
    spans the full image along the axis the camera's aspect ratio selects,
    with the other side the floor of the scaled camera side (in exact
    arithmetic; see "Left out").
  - A zero camera dimension is an error.
- **The looping video background.** The frame advance is computed from the
  video rate and the measured pipeline rate:
  - Python's round, half to even;
  - below a rate of 1, a random draw, which the model takes as a parameter `u`;
  - frame indices wrap modulo the video's frame count.
- **The halftone bands of the hologram effect.**
- **The command-line helpers.** `getNextOddNumber`, used for the blur kernel,
  and `getPercentage`, used for the mask update speed.

Pixels are unbounded integers and masks are exact reals. What the segmentation
model, the sigmoid, OpenCV, the clock and the random generator produce becomes
a parameter of the operation that uses it.

## Model

| member | source | states |
|---|---|---|
| Fake.NextOddNumber | fake.py:440-443 | the result is odd and is n or n+1, i.e. the least odd number not below n |
| Fake.Percentage | fake.py:445-446 | the result lies in 0..100, equals n inside that range, 0 below it and 100 above it |
| Fake.PercentageIdempotent | fake.py:445-446 | clamping twice is clamping once |
| Fake.MaskAlphaFromSpeed | fake.py:474 | the clamped speed divided by 100 (line 133) lies in [0,1], is 1 exactly for speeds >= 100 and 0 exactly for speeds <= 0 |
| Fake.Occurrences | fake.py:333-336 | a flag occurs in an event no more often than the event has flags, and zero times exactly when it is absent |
| Fake.DeltaCountsFlags | fake.py:332-336 | the net change of one event is its OPEN flags minus its CLOSE_NOWRITE and CLOSE_WRITE flags; CREATE does not count |
| Fake.ConsumersAfter | fake.py:331-344 | after an event the count is never negative; it is positive exactly when the old count plus the event's net change is, and then equals it |
| Fake.SingleFlagEvents | fake.py:333-343 | an OPEN event adds one consumer; either CLOSE removes one but never goes below zero; CREATE changes nothing |
| Fake.ReloadsWithoutClose | fake.py:331-341 | from at least one consumer, a batch in which no event has a CLOSE flag reloads the images after every one of its events and never lowers the count |
| Fake.DeltaNoClose | fake.py:332-336 | an event without CLOSE flags changes the count by its number of OPEN flags, never downwards |
| Fake.ReplayNonNegative | fake.py:331-344 | after a non-empty batch the count is non-negative, whatever it was before |
| Fake.ReplayWithoutClamp | fake.py:331-344 | when no event takes the running count below zero, the batch ends at the start count plus opens minus closes of all its flags |
| Fake.ReplayDominatesBatch | fake.py:337-344 | clamping after every event never ends below the start count plus the net change of the whole batch |
| Fake.CloseThenOpenLeavesOne | fake.py:331-344 | a stray close and then an open, from zero, leave one consumer, though the batch's net change is zero |
| Fake.FakeCam.constructor | fake.py:149-153 | a new camera has no consumers, is not paused, has loaded nothing, has no stored mask, and its mask alpha is the speed over 100 |
| Fake.FakeCam.Start | fake.py:316-327 | run loads the images once, and an on-demand camera starts paused |
| Fake.FakeCam.HandleEvent | fake.py:332-344 | the new count is ConsumersAfter of the old count and the flags; paused exactly when the count is 0; one reload exactly when the count is positive |
| Fake.FakeCam.PollEvents | fake.py:330-344 | outside on-demand mode nothing changes; in it the count and the reloads are the per-event replay of the batch, and after a non-empty batch paused means no consumers |
| Fake.FakeCam.TogglePause | fake.py:379-385 | paused is flipped, the consumer count is untouched, and the images reload exactly when it resumes |
| Fake.FakeCam.UpdateMask | fake.py:274-279 | the stored mask becomes SmoothMask of the previous one, the raw mask and alpha, and that mask is the one returned |
| Fake.FakeCam.ComposeFrame | fake.py:271-311 | every output pixel is the live pixel mixed with the background by the sigmoid of the smoothed mask, then mixed under the foreground by its mask when a foreground is loaded |
| Fake.Mix | fake.py:299-300 | for a weight in [0,1] the mix lies between its two operands; weight 1 gives the first and weight 0 the second |
| Fake.MixMask | fake.py:278 | the elementwise mix keeps the mask shape, and for a weight in [0,1] two masks with values in [0,1] give a mask with values in [0,1] |
| Fake.SmoothMask | fake.py:275-279 | no previous mask or alpha 1 stores the raw mask; alpha 0 keeps the previous one; the shape is kept; for alpha in [0,1] masks in [0,1] stay in [0,1] |
| Fake.SmoothMaskPointwise | fake.py:275-278 | whichever branch is taken, each stored pixel is raw*alpha + previous*(1-alpha) |
| Fake.SmoothedDistance | fake.py:278 | after n applications of raw*alpha + old*(1-alpha) with a constant raw value, the offset from it is (1-alpha)^n times the first offset |
| Fake.IterSmoothPixel | fake.py:274-279 | after n UpdateMask steps with the same raw mask, each stored pixel is the scalar recurrence Smoothed started from that pixel of the first stored mask |
| Fake.IterSmoothMonotone | fake.py:274-279 | each further UpdateMask step with the same raw mask brings every stored pixel no further from the raw pixel |
| Fake.IterSmoothConverges | fake.py:274-279 | after n UpdateMask steps with the same raw mask, every stored pixel lies (1-alpha)^n times as far from the raw pixel as it first did, on the same side, with that factor in [0,1] and at most 1/(1 + n*alpha) |
| Fake.SmoothedOffsetScaled | fake.py:278 | a value produced by n smoothing steps lies (1-alpha)^n times as far from the raw value as the first value |
| Fake.SmoothedMonotone | fake.py:278 | each further update brings the stored value no further from a constant raw value |
| Fake.SmoothedConverges | fake.py:274-279 | after n updates towards a constant raw value the offset is (1-alpha)^n times the first offset, a factor in [0,1] that is at most 1/(1 + n*alpha), so for alpha in (0,1] the stored mask converges to a constant raw mask |
| Fake.ReplaceBackground | fake.py:296-300 | a new frame whose every channel value is live*s + background*(1-s), s being the sigmoid mask at that pixel |
| Fake.ApplyForeground | fake.py:302-309 | every channel value becomes frame*(1-m) + foreground*m, m being the foreground mask at that pixel |
| Fake.ShiftSource | fake.py:155-166 | along one axis an output index shows input index i-d when that is inside the axis, and is zero-filled exactly on the first d indices (d > 0) or the last -d indices (d < 0) |
| Fake.ShiftByZero | fake.py:155-166 | a shift by zero shows every index unchanged |
| Fake.ShiftedPixelByZero | fake.py:155-166 | shifting by zero rows and zero columns shows every pixel of the input in its place |
| Fake.Roll | fake.py:156-157 | np.roll: output pixel (y, x) is input pixel ((y-dy) mod H, (x-dx) mod W) |
| Fake.ZeroRows | fake.py:158-161 | exactly the exposed rows are zeroed and every other pixel is unchanged |
| Fake.ZeroColumns | fake.py:162-165 | exactly the exposed columns are zeroed and every other pixel is unchanged |
| Fake.ShiftImage | fake.py:155-166 | a new image of the same size in which each pixel is the translated input pixel, or 0 where the shift exposes it; a shift by (0, 0) returns a copy of the image |
| Fake.TileReps | fake.py:200-201 | (target-1)//size + 1 copies cover the target, and one copy fewer does not |
| Fake.TileAndCrop | fake.py:200-203 | the result is exactly height x width, and pixel (y, x) is background pixel (y mod H, x mod W) |
| Fake.CropWindow | fake.py:174-181 | the keep-aspect window lies inside the image and is centred with the floor of half the margin; when the camera is relatively wider (W*ih >= H*iw) it spans the full image width and is floor(H*iw/W) high, otherwise it spans the full height and is floor(W*ih/H) wide, so it has the camera's aspect ratio up to the floor |
| Fake.ResizeImage | fake.py:170-185 | a zero camera width or height is an error; with keep_aspect the crop is a centred window inside the image that spans its full width and is floor(H*iw/W) high when W*ih >= H*iw, and otherwise spans its full height and is floor(W*ih/H) wide; without keep_aspect it is the whole image |
| Fake.PlanStaticBackground | fake.py:187-203 | without tiling it is resize_image; with tiling it never fails, and it tiles unless the image is larger in both axes, with covering repeat counts |
| Fake.RoundHalfEven | fake.py:232 | the result is within 1/2 of the value and even on a tie |
| Fake.RoundHalfEvenUnique | fake.py:232 | any integer within 1/2 of the value and even on a tie is the rounded value |
| Fake.AdvanceCount | fake.py:224-232 | for a draw in [0,1): below a rate of 1 the advance is 1 exactly when the draw is below the rate, else 0; from 1 up it is the rate rounded half to even, at least 1 and within 1/2 of the rate |
| Fake.AdvanceCadence | fake.py:224-232 | a 30 fps video in a 10 fps pipeline moves 3 frames per call; a 10 fps video in a 30 fps pipeline moves 1 frame when the draw is below 1/3 and 0 otherwise |
| Fake.FirstAdvanceReadsOne | fake.py:210-232 | with current_fps still equal to the video rate the advance is exactly one frame |
| Fake.VideoBackground.constructor | fake.py:210-212 | the current rate starts at the video's own rate, at frame 0, with no frame read |
| Fake.VideoBackground.ReportFps | fake.py:360-362 | the current rate becomes frames over elapsed time, which is positive |
| Fake.VideoBackground.ReadFrame | fake.py:213-219 | an empty video is an error and leaves the position where it was; otherwise the frame read is the old position modulo the frame count, rewinding at the end, and the position moves past it |
| Fake.VideoBackground.NextFrame | fake.py:220-235 | a zero current rate is an error that changes nothing; the advance is AdvanceCount; an advance of 0 yields the previous frame, an error when there is none; an empty video is an error that leaves position and frame as they were; otherwise the frame yielded is (old position + advance - 1) mod the frame count |
| Fake.Darken | fake.py:261 | a non-negative pixel scaled by a factor in [0,1] and cast toward zero stays between 0 and the pixel |
| Fake.Halftone | fake.py:258-261 | exactly the band rows (row mod 7 < 3) are scaled by their row's factor; other rows are unchanged |
| Fake.BandRows | fake.py:258-260 | among the first n rows there are 3*(n div 7) + min(n mod 7, 3) band rows |
| Fake.RowStep | fake.py:258-260 | that count grows by one from n to n+1 rows exactly when row n is a band row |
| Fake.BandRowsPeriod | fake.py:258-260 | every 7k rows hold exactly 3k band rows |

## Left out

- Devices, the segmentation model and OpenCV:
  - RealCam, pyfakewebcam and the v4l2loopback device are outside the model, and so are the blank frame written while paused and put_frame's colour conversion. They are device I/O.
  - The MediaPipe segmentation model is not modelled: its mask is an input to `UpdateMask` and `ComposeFrame`.
  - OpenCV is not modelled: cv2.resize, cv2.blur (the `--no-background` path), applyColorMap, normalize, cvtColor and the addWeighted ghosting of the hologram. They are foreign numerical code. A resize is represented only by the `Plan` that says what is resized.
  - The sigmoid is a parameter of `ComposeFrame`, because it needs the floating-point exponential.
- Numbers and randomness:
  - The uint8 storage of frames is not modelled: the values written back are kept as unbounded integers or reals, without truncation or wrap-around. The exception is `Darken`, which keeps numpy's cast toward zero.
  - np.random.uniform is a parameter: `u` in `NextFrame`, and `factors` in `Halftone`.
  - time.monotonic and the frame counting in run are represented only by `ReportFps`.
- The video background:
  - Frames are identified by their index in the video.
  - The per-frame resize_image call in read_frame is left out, together with its camera-dimension error.
  - A generator that has raised is not modelled as dead: after an error `NextFrame` can be called again.
- Program setup: inotify setup, signal handling, parse_args, findFile, main, and get_codec_args_from_string / RealCam's codec handling are not modelled. They are configuration and process plumbing.
- The control flow of run: the main loop's `if not self.paused` frame path is not modelled. Only the state updates it makes are modelled: `HandleEvent` / `PollEvents`, `ComposeFrame` and `ReportFps`.
- A failed image read is not modelled: the case where cv2.imread returns None and the path is opened as a video instead.
- The consumer count follows the code rather than a looser reading of it: it is clamped once after each event's flags, not per CLOSE flag and not once per batch.
- Floating point: the model computes with exact reals where fake.py uses Python floats.
  - In the crop of resize_image (fake.py:176-180), W/(W/iw) can round to just below iw in floats, and the floor then gives iw-1. So "the window spans the full width (or height)" holds for the exact model; the program can come out one pixel short.
  - The advance rate bg_fps/current_fps (fake.py:224) and the mask alpha speed/100 (fake.py:133) are exact quotients in the model.
- Concurrency: toggle_pause also runs from the SIGQUIT handler (fake.py:437-438, installed at fake.py:476). The handler can fire between any two statements of the event block, for example between setting paused and loading the images (fake.py:338-339). The model treats `HandleEvent` and `TogglePause` as atomic steps and does not model such interleavings.
- Console output: the print calls in the event block (fake.py:340, fake.py:344) and in toggle_pause (fake.py:382, fake.py:384) are dropped; they change no state.
