# Red-badge detector of the WeChat auto-reply script, in Dafny

The script watches a fixed rectangle of the screen for WeChat's red "unread"
badges, clicks each one from top to bottom and pastes a canned reply. The
logic it owns, as opposed to what it delegates to OpenCV, PIL and pyautogui,
is modelled here:

- `ColorMask`: the two HSV red bands (hue 0..10 and 160..180, saturation and
  value at least 120) and the uint8 sum of the two `cv2.inRange` masks.
- `Blobs`: a detection entry `(screen x, screen y, area, circularity)` and
  the stable sort by screen y, with a proof that the stable sort is unique,
  so the insertion sort used here returns the list Python's Timsort returns.
- `ContourFilter`: the per-contour gates (`area > 8`, `perimeter != 0`,
  circularity `4·π·area/perimeter² > 0.7`, `m00 != 0`), the truncated
  centroid moved by the region origin, the loop of `detect_red_circles`, and
  the duplicate gate of `debug_red_detection`. OpenCV's per-contour
  measurements are the input: one `Measure` (area, perimeter, m00, m10, m01,
  as reals) per contour, in the order `findContours` discovers them.
- `Monitor`: one pass of the polling loop of `main` over a detection list,
  with the re-detection after each click given as an oracle `nat -> bool`
  ("the re-check after click i found nothing").
- `Wrappers`: `Option`, for a contour that contributes no entry.

Three facts about the script shape the model: the summed mask holds 0 and
255 (wechatautorelply.py line 34); the script has no check of its own for an
empty capture (line 28 hands the grabbed array straight to `cv2.cvtColor`), so
the model has no error path for it; and there is a single detector, the one
gated on circularity (lines 53-56).

## Model

| member | source | states |
|---|---|---|
| ColorMask.RedMaskAt | wechatautorelply.py:32-34 | the summed mask is 255 at a pixel exactly when its hue lies in [0,10] or [160,180] and saturation and value are both at least 120, and 0 exactly otherwise |
| ColorMask.MaskSumNeverWraps | wechatautorelply.py:12-15 | the two hue bands never both match one pixel, so the uint8 sum of the masks is at most 255 and equals the unwrapped sum |
| ColorMask.RedMask | wechatautorelply.py:32-34 | the mask of an image has the image's shape and at each pixel is 255 iff the pixel is red by the band rule and 0 iff not |
| ColorMask.HueWrapsAroundZero | wechatautorelply.py:12-15 | with saturation and value at least 120, hues 0 and 180 are red while 11 and 159 are not: the band union catches red on both sides of the hue wrap |
| ContourFilter.Trunc | wechatautorelply.py:60-61 | the centroid coordinate is truncated toward zero, as Python's `int()` does: for x >= 0 it lies in (x-1, x], for x < 0 in [x, x+1) |
| ContourFilter.TruncIsOdd | wechatautorelply.py:60-61 | truncation is symmetric about zero, and for every negative non-integer it is one above floor |
| ContourFilter.Entry | wechatautorelply.py:60-65 | an entry carries the contour's area and circularity, and its screen coordinates minus the region origin are the truncations of m10/m00 and m01/m00 |
| ContourFilter.Examine | wechatautorelply.py:46-65 | the nested early exits of one loop iteration yield an entry exactly when all four gates pass, and then the entry is the contour's mapped centroid |
| ContourFilter.Collect | wechatautorelply.py:44-66 | the unsorted list is no longer than the contour list, and an entry is in it exactly when some contour passes every gate and maps to that entry |
| ContourFilter.CollectKeepsDiscoveryOrder | wechatautorelply.py:44-66 | the unsorted list holds one entry per passing contour, in strictly increasing contour order, and a contour index is selected iff it passes every gate |
| ContourFilter.DetectRedCircles | wechatautorelply.py:44-70 | the result is sorted by screen y, keeps discovery order among equal y, is a permutation of the gated list, is no longer than the contour list, holds exactly the entries of passing contours, and is empty iff no contour passes |
| ContourFilter.EmptyIffNonePass | wechatautorelply.py:44-70 | the detector reports nothing exactly when no contour passes all four gates (an empty contour list included) |
| ContourFilter.DebugGateAgrees | wechatautorelply.py:175-186 | for a non-negative perimeter the debug gate (`perimeter > 0`) and the main gate (`perimeter == 0` skips) accept the same contours |
| ContourFilter.DebugGateDiffersOnNegativePerimeter | wechatautorelply.py:177-180 | the non-negative perimeter assumption is needed: a contour with perimeter -1 passes the main gate and fails the debug gate |
| ContourFilter.DebugPasses | wechatautorelply.py:176-186 | the gate of `debug_red_detection`, the definition `DebugGateAgrees` compares: a contour it accepts has area above 8, positive perimeter and non-zero m00 |
| ContourFilter.DebugCentres | wechatautorelply.py:175-189 | the local centres `debug_red_detection` draws, the definition `DebugMatchesDetection` compares: at most one per contour, none when no contour passes the debug gate |
| ContourFilter.DebugMatchesDetection | wechatautorelply.py:175-188 | the centres the debug routine draws are, after adding the region origin, exactly the coordinates of the detector's unsorted list, one for one |
| Blobs.SortByY | wechatautorelply.py:68 | the sorted list is sorted ascending by screen y and is a permutation of its input |
| Blobs.SortByYIsStable | wechatautorelply.py:68 | entries with equal screen y keep their relative order through the sort |
| Blobs.StableSortIsUnique | wechatautorelply.py:68 | two lists that are both sorted by y and order each group of equal-y entries alike are equal |
| Blobs.SortByYIsTheStableSort | wechatautorelply.py:68 | any stable sort by y of a list, Timsort included, returns the model's sorted list |
| Monitor.Positions | wechatautorelply.py:119 | the `(x, y)` projection of the detection list, the definition `PollPass` clicks through: one point per entry with that entry's coordinates, top to bottom when the list is sorted by y |
| Monitor.PollPass | wechatautorelply.py:115-132 | the clicked positions are a prefix of the (x, y) projection of the detection list, at most one per entry, top to bottom when the list is sorted; clicking stops right after the first empty re-check, after which the stored positions are cleared, and an empty detection clicks nothing and clears them |

## Left out

- Screen capture with `ImageGrab.grab` (lines 20-25, 152-157): I/O; the model starts from HSV pixels and contour measurements.
- The RGB to BGR to HSV conversion (lines 28-29): library colour arithmetic; pixels enter already in 8-bit HSV.
- The 5x5 morphological close and open (lines 37-39): OpenCV's border handling is not visible in the script.
- `findContours`, `contourArea`, `arcLength` and `moments` (lines 42, 46, 49, 58): foreign library calls; their results are the `Measure` inputs.
- Floating point: the circularity quotient and m10/m00 are exact reals, and π is the real 3.141592653589793; double rounding is not modelled.
- `process_unread_message` (lines 72-101): mouse moves, clicks, clipboard, hot keys and sleeps are I/O; a click is recorded as its position.
- The re-detection inside the polling pass: an oracle stands for `detect_red_circles` being called again on a new screenshot.
- The `time.sleep` calls, the endless repetition of passes and the `KeyboardInterrupt` exit of `main` (lines 112, 127, 136, 144, 146-147): timing and process control; one pass is modelled.
- The `print` messages and the `cv2.imshow`/`waitKey` drawing of the debug routine (lines 189-195): output only; the debug routine is modelled by the centres it would draw.
- The invariant that every entry lies inside the watched rectangle is not stated: with abstract moments nothing ties m10/m00 to the region's width and height.
