/** The YOLO label data the scripts produce and move around. */
module Labels {

  /** Centre and size of a box, each divided by the image's declared width
      or height. */
  datatype YoloBox = YoloBox(cx: real, cy: real, bw: real, bh: real)

  /** One line `"<class> <cx> <cy> <w> <h>"` of a label file; the
      six-decimal text rendering is not modelled. */
  datatype YoloLine = YoloLine(classId: int, box: YoloBox)

  /** Content of a label file: lines the converter renders from boxes, or
      text lines written verbatim by the invoice merger. */
  datatype LabelFile = Boxes(lines: seq<YoloLine>) | TextLines(text: seq<string>)

  /** The flat `labels_all` directory: file name to content. */
  type LabelStore = map<string, LabelFile>
}
