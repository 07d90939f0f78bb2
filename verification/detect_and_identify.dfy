/** `crop_pad` of the detection script (`detect_and_identify.py`): the
    detector's box, truncated to integers, widened by `pad` on every side
    and clamped to the image, selects the region handed to the matcher. */
module DetectAndIdentify {
  import opened Numbers
  import opened Arrays

  /** `PAD`: the padding the script passes to `crop_pad`. */
  const Pad: int := 8

  /** A detector box `(x1, y1, x2, y2)` in pixel coordinates. */
  datatype Box = Box(x1: real, y1: real, x2: real, y2: real)

  /** Integer slice bounds. */
  datatype Window = Window(x1: int, y1: int, x2: int, y2: int)

  /** `map(int, box)`: every coordinate truncated toward zero. */
  function Truncated(box: Box): Window {
    Window(Trunc(box.x1), Trunc(box.y1), Trunc(box.x2), Trunc(box.y2))
  }

  /** The bounds `crop_pad` slices with for an image `w` wide and `h`
      high. The starts are never negative and the ends never pass the
      image, but an end can be negative. Each bound moves by at most
      `pad`, and moves outwards when `pad >= 0` and the bound lies in the
      image (`PadWindowClamp` pins each bound to its clamp). */
  function PadWindow(w: int, h: int, box: Box, pad: int): (r: Window)
    ensures r.x1 >= 0 && r.y1 >= 0 && r.x2 <= w && r.y2 <= h
    ensures var t := Truncated(box);
            && r.x1 >= t.x1 - pad && r.y1 >= t.y1 - pad && r.x2 <= t.x2 + pad && r.y2 <= t.y2 + pad
            && (pad >= 0 && t.x1 >= 0 ==> r.x1 <= t.x1)
            && (pad >= 0 && t.y1 >= 0 ==> r.y1 <= t.y1)
            && (pad >= 0 && t.x2 <= w ==> r.x2 >= t.x2)
            && (pad >= 0 && t.y2 <= h ==> r.y2 >= t.y2)
  {
    var t := Truncated(box);
    Window(Max(0, t.x1 - pad), Max(0, t.y1 - pad), Min(w, t.x2 + pad), Min(h, t.y2 + pad))
  }

  /** Each bound of the window is the image edge or exactly the padded
      bound; with `PadWindow`'s bounds this makes a start the larger of 0
      and the padded start, and an end the smaller of the image size and
      the padded end. */
  lemma PadWindowClamp(w: int, h: int, box: Box, pad: int)
    ensures var r := PadWindow(w, h, box, pad);
            var t := Truncated(box);
            && (r.x1 == 0 || r.x1 == t.x1 - pad) && (r.y1 == 0 || r.y1 == t.y1 - pad)
            && (r.x2 == w || r.x2 == t.x2 + pad) && (r.y2 == h || r.y2 == t.y2 + pad)
  {
  }

  /** A box that lies in the image, padded by nothing, is its own
      window. */
  lemma PadWindowZero(w: int, h: int, box: Box)
    requires var t := Truncated(box); 0 <= t.x1 && t.x2 <= w && 0 <= t.y1 && t.y2 <= h
    ensures PadWindow(w, h, box, 0) == Truncated(box)
  {
  }

  /** `crop_pad(bgr, box, pad)`: `bgr[y1:y2, x1:x2]` over the padded
      window. */
  function CropPad<P>(bgr: Grid<P>, box: Box, pad: int := 8): (r: Grid<P>)
    requires Rectangular(bgr)
    ensures Rectangular(r)
    ensures |r.rows| <= |bgr.rows| && r.width <= bgr.width
  {
    var win := PadWindow(bgr.width, |bgr.rows|, box, pad);
    Crop(bgr, win.y1, win.y2, win.x1, win.x2)
  }

  /** When neither end is negative, the crop is exactly the part of the
      image inside the padded window. */
  lemma CropPadContent<P>(bgr: Grid<P>, box: Box, pad: int)
    requires Rectangular(bgr)
    requires PadWindow(bgr.width, |bgr.rows|, box, pad).x2 >= 0 && PadWindow(bgr.width, |bgr.rows|, box, pad).y2 >= 0
    ensures var win := PadWindow(bgr.width, |bgr.rows|, box, pad);
            var r := CropPad(bgr, box, pad);
            && |r.rows| == Max(0, win.y2 - win.y1)
            && r.width == Max(0, win.x2 - win.x1)
            && forall i, j :: 0 <= i < |r.rows| && 0 <= j < r.width ==> r.rows[i][j] == bgr.rows[win.y1 + i][win.x1 + j]
  {
    var win := PadWindow(bgr.width, |bgr.rows|, box, pad);
    CropSpec(bgr, win.y1, win.y2, win.x1, win.x2);
  }

  /** A box inside the image, padded by `pad >= 0`, is contained in the
      crop: every pixel `(y, x)` of the box is in it, at its offset from
      the window's corner. */
  lemma CropPadContains<P>(bgr: Grid<P>, box: Box, pad: int)
    requires Rectangular(bgr) && pad >= 0
    requires var t := Truncated(box); 0 <= t.x1 <= t.x2 <= bgr.width && 0 <= t.y1 <= t.y2 <= |bgr.rows|
    ensures var t := Truncated(box);
            var win := PadWindow(bgr.width, |bgr.rows|, box, pad);
            var r := CropPad(bgr, box, pad);
            forall y, x :: t.y1 <= y < t.y2 && t.x1 <= x < t.x2 ==>
              && 0 <= y - win.y1 < |r.rows| && 0 <= x - win.x1 < r.width
              && r.rows[y - win.y1][x - win.x1] == bgr.rows[y][x]
  {
    CropPadContent(bgr, box, pad);
  }

  /** Padded by nothing, a box inside the image is cropped to exactly its
      own pixels. */
  lemma CropPadExact<P>(bgr: Grid<P>, box: Box)
    requires Rectangular(bgr)
    requires var t := Truncated(box); 0 <= t.x1 <= t.x2 <= bgr.width && 0 <= t.y1 <= t.y2 <= |bgr.rows|
    ensures var t := Truncated(box);
            var r := CropPad(bgr, box, 0);
            && |r.rows| == t.y2 - t.y1 && r.width == t.x2 - t.x1
            && forall i, j :: 0 <= i < |r.rows| && 0 <= j < r.width ==> r.rows[i][j] == bgr.rows[t.y1 + i][t.x1 + j]
  {
    PadWindowZero(bgr.width, |bgr.rows|, box);
    CropPadContent(bgr, box, 0);
  }

  /** A padded end left of the image is read by numpy as counted from the
      right edge: a box lying wholly left of a 20-pixel-wide row still
      yields 18 columns. */
  lemma CropPadNegativeEnd()
    ensures var bgr := Grid(20, [seq(20, k => k)]);
            var r := CropPad(bgr, Box(-20.0, 0.0, -10.0, 1.0), 8);
            r.width == 18 && r.rows == [seq(18, k => k)]
  {
    var bgr := Grid(20, [seq(20, k => k)]);
    var box := Box(-20.0, 0.0, -10.0, 1.0);
    assert Truncated(box) == Window(-20, 0, -10, 1);
    assert PadWindow(20, 1, box, 8) == Window(0, 0, -2, 1);
    assert Slice(bgr.rows, 0, 1) == bgr.rows;
    assert Slice(bgr.rows[0], 0, -2) == seq(18, k => k);
  }
}
