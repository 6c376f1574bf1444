/**
 The colour segmentation step of the red-badge detector: every pixel of the
 captured region, already converted to OpenCV's 8-bit HSV encoding, is tested
 against two hue bands (red wraps around hue 0), and the two `inRange` masks
 are added as unsigned 8-bit images.
 */
module ColorMask {

  /** An unsigned 8-bit channel value, the element type of OpenCV's 8-bit images. */
  type Byte = x: int | 0 <= x < 256

  /** One pixel in OpenCV's 8-bit HSV encoding. */
  datatype Hsv = Hsv(h: Byte, s: Byte, v: Byte)

  /** The low red band, hue 0..10. */
  const RedLower1: Hsv := Hsv(0, 120, 120)
  const RedUpper1: Hsv := Hsv(10, 255, 255)

  /** The high red band, hue 160..180. */
  const RedLower2: Hsv := Hsv(160, 120, 120)
  const RedUpper2: Hsv := Hsv(180, 255, 255)

  /** Reference definition of a red pixel: hue in either band, saturation and value at least 120. */
  predicate IsRed(p: Hsv) {
    && (0 <= p.h <= 10 || 160 <= p.h <= 180)
    && p.s >= 120
    && p.v >= 120
  }

  /** `cv2.inRange` on one pixel: 255 when every channel lies within its inclusive bounds, else 0. */
  function InRange(p: Hsv, lo: Hsv, hi: Hsv): Byte {
    if lo.h <= p.h <= hi.h && lo.s <= p.s <= hi.s && lo.v <= p.v <= hi.v then 255 else 0
  }

  /** Element-wise addition of two uint8 arrays in numpy: the sum wraps modulo 256. */
  function AddU8(a: Byte, b: Byte): Byte {
    (a + b) % 256
  }

  /** The value of `red_mask = mask1 + mask2` at one pixel. */
  function RedMaskAt(p: Hsv): (r: Byte)
    ensures r == 255 <==> IsRed(p)
    ensures r == 0 <==> !IsRed(p)
  {
    AddU8(InRange(p, RedLower1, RedUpper1), InRange(p, RedLower2, RedUpper2))
  }

  /** The two hue bands are disjoint, so the uint8 sum of the masks never wraps. */
  lemma MaskSumNeverWraps(p: Hsv)
    ensures InRange(p, RedLower1, RedUpper1) == 0 || InRange(p, RedLower2, RedUpper2) == 0
    ensures InRange(p, RedLower1, RedUpper1) + InRange(p, RedLower2, RedUpper2) <= 255
    ensures RedMaskAt(p) == InRange(p, RedLower1, RedUpper1) + InRange(p, RedLower2, RedUpper2)
  {
  }

  /** The red mask of a whole image given as rows of pixels. */
  function RedMask(img: seq<seq<Hsv>>): (m: seq<seq<Byte>>)
    ensures |m| == |img|
    ensures forall i :: 0 <= i < |img| ==> |m[i]| == |img[i]|
    ensures forall i, j :: 0 <= i < |img| && 0 <= j < |img[i]| ==>
              (m[i][j] == 255 <==> IsRed(img[i][j])) && (m[i][j] == 0 <==> !IsRed(img[i][j]))
  {
    seq(|img|, i requires 0 <= i < |img| =>
      seq(|img[i]|, j requires 0 <= j < |img[i]| => RedMaskAt(img[i][j])))
  }

  /** A pixel with hue near 0 and one with hue near 180 are both red: the union catches the wrap-around. */
  lemma HueWrapsAroundZero(s: Byte, v: Byte)
    requires s >= 120 && v >= 120
    ensures RedMaskAt(Hsv(0, s, v)) == 255 && RedMaskAt(Hsv(180, s, v)) == 255
    ensures RedMaskAt(Hsv(11, s, v)) == 0 && RedMaskAt(Hsv(159, s, v)) == 0
  {
  }
}
