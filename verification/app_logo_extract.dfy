/** `crop_with_pad` of the upload app (`app_logo_extract.py`), a second
    copy of the detection script's crop: truncate the box, pad it by
    `pad` (8 unless given), clamp it to the image and slice. */
module AppLogoExtract {
  import opened Arrays
  import opened DetectAndIdentify

  /** `crop_with_pad(image_np, xyxy, pad)`. */
  function CropWithPad<P>(image: Grid<P>, xyxy: Box, pad: int := 8): (r: Grid<P>)
    requires Rectangular(image)
    ensures Rectangular(r)
  {
    var h := |image.rows|;
    var w := image.width;
    var t := Truncated(xyxy);
    var x1 := Max(0, t.x1 - pad);
    var y1 := Max(0, t.y1 - pad);
    var x2 := Min(w, t.x2 + pad);
    var y2 := Min(h, t.y2 + pad);
    Crop(image, y1, y2, x1, x2)
  }

  /** The two copies crop every image the same way for every box and
      padding, the defaults included. */
  lemma CropWithPadAgrees<P>(image: Grid<P>, xyxy: Box, pad: int)
    requires Rectangular(image)
    ensures CropWithPad(image, xyxy, pad) == CropPad(image, xyxy, pad)
    ensures CropWithPad(image, xyxy) == CropPad(image, xyxy)
  {
  }

  /** The slice bounds lie in the image at the start and never pass its
      far edges, and a box inside the image, padded by `pad >= 0`, is
      contained in the crop. */
  lemma CropWithPadContains<P>(image: Grid<P>, xyxy: Box, pad: int)
    requires Rectangular(image) && pad >= 0
    requires var t := Truncated(xyxy); 0 <= t.x1 <= t.x2 <= image.width && 0 <= t.y1 <= t.y2 <= |image.rows|
    ensures var t := Truncated(xyxy);
            var win := PadWindow(image.width, |image.rows|, xyxy, pad);
            var r := CropWithPad(image, xyxy, pad);
            && |r.rows| == win.y2 - win.y1 && r.width == win.x2 - win.x1
            && forall y, x :: t.y1 <= y < t.y2 && t.x1 <= x < t.x2 ==>
                 r.rows[y - win.y1][x - win.x1] == image.rows[y][x]
  {
    CropWithPadAgrees(image, xyxy, pad);
    CropPadContent(image, xyxy, pad);
    CropPadContains(image, xyxy, pad);
  }
}
