/** The Pascal-VOC to YOLO converter that writes label files and image-path
    lists without copying images (`prep_logodet_yolo_nocopy.py`).

    The file system is the set of paths that exist; the flat label
    directory is a `LabelStore`; each annotation file arrives already parsed
    (`doc` is None when the XML is malformed). The order in which worker
    results are collected, the iteration order of the extension set and the
    shuffle's random draws are parameters. */
module PrepLogodet {
  import opened Options
  import opened Text
  import opened Numbers
  import opened Paths
  import opened Xml
  import opened Labels
  import opened Lists
  import Shuffle

  /** The image extensions tried when `<filename>` does not lead to an
      image. */
  const ImgExts: set<string> := {".jpg", ".jpeg", ".png", ".bmp", ".tif", ".tiff"}

  /** Share of the unique images that goes to the validation split. */
  const ValFraction: real := 0.10

  /** `extOrder` is one iteration order of the extension set. */
  ghost predicate EnumeratesImgExts(extOrder: seq<string>) {
    forall e :: e in extOrder <==> e in ImgExts
  }

  // ---------------------------------------------------------------------
  // Box conversion

  /** A box in pixel corners. */
  datatype Corners = Corners(x1: real, y1: real, x2: real, y2: real)

  /** `bbox_xyxy_to_yolo`: corners to centre and size, normalised by the
      declared image size. Python raises on a zero divisor, hence the
      precondition; callers decide what a zero size means. */
  function BboxToYolo(c: Corners, w: int, h: int): YoloBox
    requires w != 0 && h != 0
  {
    YoloBox((c.x1 + c.x2) / 2.0 / w as real, (c.y1 + c.y2) / 2.0 / h as real,
            (c.x2 - c.x1) / w as real, (c.y2 - c.y1) / h as real)
  }

  /** The inverse transform: back from a normalised box to pixel corners. */
  function YoloToCorners(b: YoloBox, w: int, h: int): Corners {
    Corners((b.cx - b.bw / 2.0) * w as real, (b.cy - b.bh / 2.0) * h as real,
            (b.cx + b.bw / 2.0) * w as real, (b.cy + b.bh / 2.0) * h as real)
  }

  /** One axis of the conversion, in relative units: with `u = lo / size`
      and `v = hi / size`, the centre is `(u + v) / 2` and the extent
      `v - u`. */
  lemma AxisRelative(lo: real, hi: real, size: real)
    requires size != 0.0
    ensures (lo + hi) / 2.0 / size == (lo / size + hi / size) / 2.0
    ensures (hi - lo) / size == hi / size - lo / size
  {
  }

  /** The conversion loses nothing: the corners come back exactly. */
  lemma BboxRoundTrip(c: Corners, w: int, h: int)
    requires w != 0 && h != 0
    ensures YoloToCorners(BboxToYolo(c, w, h), w, h) == c
  {
    AxisRelative(c.x1, c.x2, w as real);
    AxisRelative(c.y1, c.y2, h as real);
  }

  /** A box inside a positive-sized image lands in the unit square: centre
      and size in [0, 1], and its edges at the corners' relative
      positions. */
  lemma BboxInsideImage(c: Corners, w: int, h: int)
    requires w > 0 && h > 0
    requires 0.0 <= c.x1 <= c.x2 <= w as real
    requires 0.0 <= c.y1 <= c.y2 <= h as real
    ensures var b := BboxToYolo(c, w, h);
      && 0.0 <= b.cx <= 1.0 && 0.0 <= b.cy <= 1.0
      && 0.0 <= b.bw <= 1.0 && 0.0 <= b.bh <= 1.0
      && b.cx - b.bw / 2.0 == c.x1 / w as real && b.cx + b.bw / 2.0 == c.x2 / w as real
      && b.cy - b.bh / 2.0 == c.y1 / h as real && b.cy + b.bh / 2.0 == c.y2 / h as real
  {
    AxisRelative(c.x1, c.x2, w as real);
    AxisRelative(c.y1, c.y2, h as real);
    UnitRange(c.x1, c.x2, w as real);
    UnitRange(c.y1, c.y2, h as real);
  }

  lemma UnitRange(lo: real, hi: real, size: real)
    requires 0.0 <= lo <= hi <= size && size > 0.0
    ensures 0.0 <= lo / size <= hi / size <= 1.0
  {
  }

  /** Nothing clamps: a box that overhangs the declared size produces a
      centre outside [0, 1]. */
  lemma BboxNotClamped()
    ensures BboxToYolo(Corners(90.0, 0.0, 130.0, 10.0), 100, 100).cx > 1.0
  {
  }

  // ---------------------------------------------------------------------
  // Reading one annotation

  /** `int(e.text)` for an optional element: None when the element or its
      text is missing or the text is not an integer literal. */
  function IntText(e: Option<Element>): Option<int> {
    match e
    case None => None
    case Some(x) => if x.text.None? then None else ParseInt(x.text.value)
  }

  /** `float(bb.find(tag).text)`, None on any failure. */
  function FloatField(bb: Element, tag: string): Option<real> {
    match Find(bb, tag)
    case None => None
    case Some(x) => if x.text.None? then None else ParseDecimal(x.text.value)
  }

  /** The declared `(width, height)`: `<size>` is looked up first, then its
      `<width>` and `<height>`; None stands for the exception the read
      raises. */
  function ReadSize(root: Element): (r: Option<(int, int)>)
    ensures Find(root, "size").None? ==> r.None?
    ensures r.Some? <==> && Find(root, "size").Some?
                         && IntText(Find(Find(root, "size").value, "width")).Some?
                         && IntText(Find(Find(root, "size").value, "height")).Some?
    ensures r.Some? ==> var size := Find(root, "size").value;
      IntText(Find(size, "width")) == Some(r.value.0) && IntText(Find(size, "height")) == Some(r.value.1)
  {
    match Find(root, "size")
    case None => None
    case Some(size) =>
      match (IntText(Find(size, "width")), IntText(Find(size, "height")))
      case (Some(w), Some(h)) => Some((w, h))
      case _ => None
  }

  /** The corners of one `<object>`; None when `<bndbox>` or one of its four
      coordinates is missing or unreadable. */
  function ObjectCorners(obj: Element): (r: Option<Corners>)
    ensures Find(obj, "bndbox").None? ==> r.None?
    ensures r.Some? <==> && Find(obj, "bndbox").Some?
                         && var bb := Find(obj, "bndbox").value;
                            && FloatField(bb, "xmin").Some? && FloatField(bb, "ymin").Some?
                            && FloatField(bb, "xmax").Some? && FloatField(bb, "ymax").Some?
    ensures r.Some? ==> var bb := Find(obj, "bndbox").value;
      && FloatField(bb, "xmin") == Some(r.value.x1) && FloatField(bb, "ymin") == Some(r.value.y1)
      && FloatField(bb, "xmax") == Some(r.value.x2) && FloatField(bb, "ymax") == Some(r.value.y2)
  {
    match Find(obj, "bndbox")
    case None => None
    case Some(bb) =>
      match (FloatField(bb, "xmin"), FloatField(bb, "ymin"), FloatField(bb, "xmax"), FloatField(bb, "ymax"))
      case (Some(x1), Some(y1), Some(x2), Some(y2)) => Some(Corners(x1, y1, x2, y2))
      case _ => None
  }

  /** The corners of the objects that parse, in document order; the others
      are skipped. */
  function CornerList(objs: seq<Element>): (r: seq<Corners>)
    ensures |r| <= |objs|
  {
    FilterMap(ObjectCorners, objs)
  }

  /** The list is empty exactly when no object parses, and holds only
      corners some object parsed to. */
  lemma CornerListSpec(objs: seq<Element>)
    ensures CornerList(objs) == [] <==> forall k :: 0 <= k < |objs| ==> ObjectCorners(objs[k]).None?
    ensures forall c :: c in CornerList(objs) ==> exists k :: 0 <= k < |objs| && ObjectCorners(objs[k]) == Some(c)
  {
    FilterMapSpec(ObjectCorners, objs);
  }

  /** A single object contributes its corners when it parses and nothing
      otherwise. */
  lemma CornerListOne(obj: Element)
    ensures CornerList([obj]) == if ObjectCorners(obj).Some? then [ObjectCorners(obj).value] else []
  {
    assert [obj][1..] == [];
  }

  /** Skipping is per object: the list for two runs of objects is the two
      lists one after the other. */
  lemma CornerListAppend(a: seq<Element>, b: seq<Element>)
    ensures CornerList(a + b) == CornerList(a) + CornerList(b)
  {
    FilterMapAppend(ObjectCorners, a, b);
  }

  /** The candidate `<filename>` names: `xml_path.parent / Path(fn).name`,
      only for a non-empty `fn`. */
  function FilenameCandidate(xmlPath: Path, fn: Option<string>): Option<Path> {
    if fn.Some? && fn.value != "" then Some(Paths.Join(Parent(xmlPath), Name(fn.value))) else None
  }

  /** The fallback candidates `xml_path.with_suffix(ext)`, one per
      extension, in the order tried. */
  function Candidates(xmlPath: Path, exts: seq<string>): (cs: seq<Path>)
    ensures |cs| == |exts|
    ensures forall k :: 0 <= k < |exts| ==> cs[k] == WithSuffix(xmlPath, exts[k])
  {
    seq(|exts|, k requires 0 <= k < |exts| => WithSuffix(xmlPath, exts[k]))
  }

  /** The first candidate that exists: the loop that breaks at the first
      hit. */
  function FirstExisting(cands: seq<Path>, fs: set<Path>): (r: Option<Path>)
    ensures r.Some? ==> r.value in fs
    decreases |cands|
  {
    if |cands| == 0 then None
    else if cands[0] in fs then Some(cands[0])
    else FirstExisting(cands[1..], fs)
  }

  /** The search finds nothing exactly when no candidate exists. */
  lemma {:induction false} FirstExistingNone(cands: seq<Path>, fs: set<Path>)
    ensures FirstExisting(cands, fs).None? <==> forall k :: 0 <= k < |cands| ==> cands[k] !in fs
    decreases |cands|
  {
    if |cands| > 0 && cands[0] !in fs {
      FirstExistingNone(cands[1..], fs);
      assert forall k :: 1 <= k < |cands| ==> cands[k] == cands[1..][k - 1];
    }
  }

  /** A hit is the first candidate that exists. */
  lemma {:induction false} FirstExistingFirst(cands: seq<Path>, fs: set<Path>)
    ensures FirstExisting(cands, fs).Some? ==>
              exists k :: 0 <= k < |cands| && FirstExisting(cands, fs).value == cands[k]
                          && forall j :: 0 <= j < k ==> cands[j] !in fs
    decreases |cands|
  {
    if |cands| == 0 {
    } else if cands[0] in fs {
      assert FirstExisting(cands, fs).value == cands[0];
    } else {
      var tail := cands[1..];
      FirstExistingFirst(tail, fs);
      assert FirstExisting(cands, fs) == FirstExisting(tail, fs);
      if FirstExisting(tail, fs).Some? {
        var k :| 0 <= k < |tail| && FirstExisting(tail, fs).value == tail[k]
                 && forall j :: 0 <= j < k ==> tail[j] !in fs;
        assert forall j :: 1 <= j < |cands| ==> cands[j] == tail[j - 1];
        assert FirstExisting(cands, fs).value == cands[k + 1];
      }
    }
  }

  /** The image for an annotation: the `<filename>` candidate when it
      exists, otherwise a same-stem sibling with one of the image
      extensions; None when neither exists. */
  function ResolveImage(xmlPath: Path, fn: Option<string>, fs: set<Path>, extOrder: seq<string>): (r: Option<Path>)
    ensures r.Some? ==> r.value in fs && r.value != ""
    ensures FilenameCandidate(xmlPath, fn).Some? && FilenameCandidate(xmlPath, fn).value in fs ==>
              r == FilenameCandidate(xmlPath, fn)
    ensures r.None? <==> (FilenameCandidate(xmlPath, fn).None? || FilenameCandidate(xmlPath, fn).value !in fs)
                         && forall e :: e in extOrder ==> WithSuffix(xmlPath, e) !in fs
    ensures r.Some? && r != FilenameCandidate(xmlPath, fn) ==>
              exists k :: 0 <= k < |extOrder| && r.value == WithSuffix(xmlPath, extOrder[k])
                          && forall j :: 0 <= j < k ==> WithSuffix(xmlPath, extOrder[j]) !in fs
  {
    var cand := FilenameCandidate(xmlPath, fn);
    var cands := Candidates(xmlPath, extOrder);
    FirstExistingNone(cands, fs);
    FirstExistingFirst(cands, fs);
    var img := if cand.Some? && cand.value in fs then cand else FirstExisting(cands, fs);
    if img.Some? && img.value in fs then img else None
  }

  /** When the extensions are tried in some iteration order of the
      extension set, no image resolves exactly when neither the
      `<filename>` candidate nor any same-stem sibling with a known
      extension exists, and a fallback image has a known extension. */
  lemma ResolveImageExts(xmlPath: Path, fn: Option<string>, fs: set<Path>, extOrder: seq<string>)
    requires EnumeratesImgExts(extOrder)
    ensures var r := ResolveImage(xmlPath, fn, fs, extOrder);
      && (r.None? <==> (FilenameCandidate(xmlPath, fn).None? || FilenameCandidate(xmlPath, fn).value !in fs)
                       && forall e :: e in ImgExts ==> WithSuffix(xmlPath, e) !in fs)
      && (r.Some? && r != FilenameCandidate(xmlPath, fn) ==>
            exists e :: e in ImgExts && r.value == WithSuffix(xmlPath, e))
  {
    var r := ResolveImage(xmlPath, fn, fs, extOrder);
    if r.Some? && r != FilenameCandidate(xmlPath, fn) {
      var k :| 0 <= k < |extOrder| && r.value == WithSuffix(xmlPath, extOrder[k])
               && forall j :: 0 <= j < k ==> WithSuffix(xmlPath, extOrder[j]) !in fs;
      assert extOrder[k] in ImgExts;
    }
  }

  /** An annotation file as the run sees it: its path, and its parsed root
      unless the XML is malformed. */
  datatype XmlFile = XmlFile(path: Path, doc: Option<Element>)

  /** A valid pair: the resolved image path and its label lines. */
  datatype Record = Record(image: Path, lines: seq<YoloLine>)

  /** What `parse_xml` does with one file: a pair, the `(None, None)` skip,
      or the division-by-zero error that escapes it. */
  datatype ParseOutcome = Parsed(record: Record) | Skipped | ZeroDivision

  /** One class-0 line per box. */
  function ToLines(cs: seq<Corners>, w: int, h: int): (r: seq<YoloLine>)
    requires w != 0 && h != 0
    ensures |r| == |cs|
    ensures forall k :: 0 <= k < |r| ==> r[k].classId == 0 && YoloToCorners(r[k].box, w, h) == cs[k]
  {
    var r := seq(|cs|, k requires 0 <= k < |cs| => YoloLine(0, BboxToYolo(cs[k], w, h)));
    forall k | 0 <= k < |r| ensures YoloToCorners(r[k].box, w, h) == cs[k] {
      BboxRoundTrip(cs[k], w, h);
    }
    r
  }

  /** `parse_xml`. */
  function ParseXml(xml: XmlFile, fs: set<Path>, extOrder: seq<string>): ParseOutcome
  {
    match xml.doc
    case None => Skipped
    case Some(root) => Convert(xml.path, root, ReadSize(root), fs, extOrder)
  }

  /** A file is skipped exactly when its XML is malformed, its size cannot
      be read, no image resolves or no object parses; the division by zero
      comes from a zero declared size; a parsed file gives the resolved
      image and one class-0 line per parsed object, in document order,
      whose box converts back to the object's corners. */
  lemma ParseXmlSpec(xml: XmlFile, fs: set<Path>, extOrder: seq<string>)
    ensures var r := ParseXml(xml, fs, extOrder);
      && (r.Skipped? <==> xml.doc.None? || ReadSize(xml.doc.value).None?
                          || ResolveImage(xml.path, FindText(xml.doc.value, "filename"), fs, extOrder).None?
                          || CornerList(FindAll(xml.doc.value, "object")) == [])
      && (r.ZeroDivision? <==> !r.Skipped? && (ReadSize(xml.doc.value).value.0 == 0
                                              || ReadSize(xml.doc.value).value.1 == 0))
      && (r.Parsed? ==>
            Some(r.record.image) == ResolveImage(xml.path, FindText(xml.doc.value, "filename"), fs, extOrder))
      && (r.Parsed? ==> r.record.image in fs && r.record.image != "")
      && (r.Parsed? ==> |r.record.lines| == |CornerList(FindAll(xml.doc.value, "object"))| > 0)
      && (r.Parsed? ==> forall k :: 0 <= k < |r.record.lines| ==>
            && r.record.lines[k].classId == 0
            && YoloToCorners(r.record.lines[k].box, ReadSize(xml.doc.value).value.0, ReadSize(xml.doc.value).value.1)
                 == CornerList(FindAll(xml.doc.value, "object"))[k])
  {
  }

  /** The part of `parse_xml` after the size has been read (`size` is None
      when reading it raised): resolve the image, convert the boxes. */
  function Convert(path: Path, root: Element, size: Option<(int, int)>, fs: set<Path>, extOrder: seq<string>)
    : ParseOutcome
  {
    match size
    case None => Skipped
    case Some((w, h)) =>
      match ResolveImage(path, FindText(root, "filename"), fs, extOrder)
      case None => Skipped
      case Some(img) =>
        var corners := CornerList(FindAll(root, "object"));
        if |corners| == 0 then Skipped
        else if w == 0 || h == 0 then ZeroDivision
        else Parsed(Record(img, ToLines(corners, w, h)))
  }

  // ---------------------------------------------------------------------
  // Collecting, de-duplicating and splitting

  /** The outcomes of all annotation files, in collection order. */
  function ParseAll(xmls: seq<XmlFile>, fs: set<Path>, extOrder: seq<string>): (os: seq<ParseOutcome>)
    ensures |os| == |xmls|
    ensures forall k :: 0 <= k < |xmls| ==> os[k] == ParseXml(xmls[k], fs, extOrder)
  {
    seq(|xmls|, k requires 0 <= k < |xmls| => ParseXml(xmls[k], fs, extOrder))
  }

  /** Some file's conversion divided by zero. */
  predicate AnyZeroDivision(os: seq<ParseOutcome>) {
    exists k :: 0 <= k < |os| && os[k].ZeroDivision?
  }

  /** The pairs that parsed, in collection order. */
  function ValidPairs(os: seq<ParseOutcome>): (ps: seq<Record>)
    ensures forall r :: r in ps <==> Parsed(r) in os
    decreases |os|
  {
    if |os| == 0 then []
    else (if os[0].Parsed? then [os[0].record] else []) + ValidPairs(os[1..])
  }

  /** The image paths of `rs`. */
  function PathsOf(rs: seq<Record>): set<Path> {
    set r | r in rs :: r.image
  }

  lemma PathsOfSnoc(rs: seq<Record>, x: Record)
    ensures PathsOf(rs + [x]) == PathsOf(rs) + {x.image}
  {
    assert forall r :: r in rs + [x] <==> r in rs || r == x;
  }

  /** No image path occurs twice in `rs`. */
  predicate DistinctPaths(rs: seq<Record>) {
    forall a, b :: 0 <= a < b < |rs| ==> rs[a].image != rs[b].image
  }

  /** Reference for the de-duplication: scanning left to right, keep a pair
      when its path has not been seen before. */
  function FirstOccurrences(rs: seq<Record>): (u: seq<Record>)
    ensures DistinctPaths(u)
    ensures PathsOf(u) == PathsOf(rs)
    ensures forall r :: r in u ==> r in rs
    decreases |rs|
  {
    if |rs| == 0 then []
    else
      var init := rs[..|rs| - 1];
      var last := rs[|rs| - 1];
      var u := FirstOccurrences(init);
      assert rs == init + [last];
      PathsOfSnoc(init, last);
      if last.image in PathsOf(init) then u
      else
        PathsOfSnoc(u, last);
        u + [last]
  }

  /** Position of the first pair of `rs` with image `p`. */
  function FirstIndexOf(rs: seq<Record>, p: Path): (i: nat)
    requires p in PathsOf(rs)
    ensures i < |rs| && rs[i].image == p
    ensures forall j :: 0 <= j < i ==> rs[j].image != p
    decreases |rs|
  {
    if rs[0].image == p then 0
    else
      assert rs[0] !in rs[1..] || rs[0] in rs[1..];
      var r :| r in rs && r.image == p;
      assert r in rs[1..];
      1 + FirstIndexOf(rs[1..], p)
  }

  lemma FirstIndexOfPrefix(rs: seq<Record>, n: nat, p: Path)
    requires n <= |rs| && p in PathsOf(rs[..n])
    ensures p in PathsOf(rs) && FirstIndexOf(rs[..n], p) == FirstIndexOf(rs, p)
  {
    var i := FirstIndexOf(rs[..n], p);
    assert rs[..n][i] == rs[i];
    assert rs[i] in rs;
  }

  /** Every pair of `u` is the first pair of `rs` with its path. */
  ghost predicate KeepsFirsts(rs: seq<Record>, u: seq<Record>) {
    forall k :: 0 <= k < |u| ==> u[k].image in PathsOf(rs) && u[k] == rs[FirstIndexOf(rs, u[k].image)]
  }

  /** The pairs of `u` appear in the order of their first occurrence in
      `rs`. */
  ghost predicate InFirstOrder(rs: seq<Record>, u: seq<Record>)
    requires KeepsFirsts(rs, u)
  {
    forall a, b :: 0 <= a < b < |u| ==> FirstIndexOf(rs, u[a].image) < FirstIndexOf(rs, u[b].image)
  }

  /** The last pair of `rs` is a first occurrence when no earlier pair has
      its path. */
  lemma LastIsFirst(rs: seq<Record>)
    requires |rs| > 0 && rs[|rs| - 1].image !in PathsOf(rs[..|rs| - 1])
    ensures rs[|rs| - 1].image in PathsOf(rs) && FirstIndexOf(rs, rs[|rs| - 1].image) == |rs| - 1
  {
    var n := |rs| - 1;
    assert rs[n] in rs;
    forall j | 0 <= j < n ensures rs[j].image != rs[n].image {
      assert rs[j] == rs[..n][j] && rs[..n][j] in rs[..n];
    }
  }

  /** One step of the scan: the last pair is kept exactly when its path is
      new. */
  lemma FirstOccurrencesSnoc(rs: seq<Record>)
    requires |rs| > 0
    ensures FirstOccurrences(rs)
            == if rs[|rs| - 1].image in PathsOf(rs[..|rs| - 1]) then FirstOccurrences(rs[..|rs| - 1])
               else FirstOccurrences(rs[..|rs| - 1]) + [rs[|rs| - 1]]
  {
  }

  /** First occurrences in a prefix of `rs` are first occurrences in `rs`,
      at positions inside the prefix. */
  lemma KeepsFirstsPrefix(rs: seq<Record>, n: nat, u: seq<Record>)
    requires n <= |rs|
    requires KeepsFirsts(rs[..n], u) && InFirstOrder(rs[..n], u)
    ensures KeepsFirsts(rs, u) && InFirstOrder(rs, u)
    ensures forall k :: 0 <= k < |u| ==> FirstIndexOf(rs, u[k].image) < n
  {
    forall k | 0 <= k < |u|
      ensures u[k].image in PathsOf(rs)
      ensures FirstIndexOf(rs, u[k].image) == FirstIndexOf(rs[..n], u[k].image) < n
      ensures u[k] == rs[FirstIndexOf(rs, u[k].image)]
    {
      FirstIndexOfPrefix(rs, n, u[k].image);
      assert rs[..n][FirstIndexOf(rs[..n], u[k].image)] == rs[FirstIndexOf(rs[..n], u[k].image)];
    }
  }

  /** Appending the last pair of `rs`, when its path is new, keeps the kept
      pairs first occurrences in first-occurrence order. */
  lemma KeepsFirstsSnoc(rs: seq<Record>, u: seq<Record>)
    requires |rs| > 0 && rs[|rs| - 1].image !in PathsOf(rs[..|rs| - 1])
    requires KeepsFirsts(rs, u)
    ensures KeepsFirsts(rs, u + [rs[|rs| - 1]])
  {
    var last := rs[|rs| - 1];
    var u' := u + [last];
    LastIsFirst(rs);
    forall k | 0 <= k < |u'| ensures u'[k].image in PathsOf(rs) && u'[k] == rs[FirstIndexOf(rs, u'[k].image)] {
      if k < |u| {
        assert u'[k] == u[k];
        assert u[k].image in PathsOf(rs) && u[k] == rs[FirstIndexOf(rs, u[k].image)];
      } else {
        assert u'[k] == last;
      }
    }
  }

  lemma InFirstOrderSnoc(rs: seq<Record>, u: seq<Record>)
    requires |rs| > 0 && rs[|rs| - 1].image !in PathsOf(rs[..|rs| - 1])
    requires KeepsFirsts(rs, u) && InFirstOrder(rs, u) && KeepsFirsts(rs, u + [rs[|rs| - 1]])
    requires forall k :: 0 <= k < |u| ==> FirstIndexOf(rs, u[k].image) < |rs| - 1
    ensures InFirstOrder(rs, u + [rs[|rs| - 1]])
  {
    var last := rs[|rs| - 1];
    var u' := u + [last];
    LastIsFirst(rs);
    forall a, b | 0 <= a < b < |u'| ensures FirstIndexOf(rs, u'[a].image) < FirstIndexOf(rs, u'[b].image) {
      assert u'[a] == u[a];
      if b < |u| {
        assert u'[b] == u[b];
      } else {
        assert u'[b] == last;
        assert FirstIndexOf(rs, u[a].image) < |rs| - 1;
      }
    }
  }

  lemma KeepsFirstsAppend(rs: seq<Record>, u: seq<Record>)
    requires |rs| > 0 && rs[|rs| - 1].image !in PathsOf(rs[..|rs| - 1])
    requires KeepsFirsts(rs, u) && InFirstOrder(rs, u)
    requires forall k :: 0 <= k < |u| ==> FirstIndexOf(rs, u[k].image) < |rs| - 1
    ensures KeepsFirsts(rs, u + [rs[|rs| - 1]]) && InFirstOrder(rs, u + [rs[|rs| - 1]])
  {
    KeepsFirstsSnoc(rs, u);
    InFirstOrderSnoc(rs, u);
  }

  /** The kept pairs are first occurrences, in the order of their first
      occurrence. */
  lemma {:induction false} FirstOccurrencesOrder(rs: seq<Record>)
    ensures KeepsFirsts(rs, FirstOccurrences(rs))
    ensures InFirstOrder(rs, FirstOccurrences(rs))
    decreases |rs|
  {
    if |rs| > 0 {
      FirstOccurrencesOrder(rs[..|rs| - 1]);
      FirstOccurrencesOrderStep(rs);
    }
  }

  /** One step of the loop keeps the kept pairs first occurrences in order. */
  lemma FirstOccurrencesOrderStep(rs: seq<Record>)
    requires |rs| > 0
    requires KeepsFirsts(rs[..|rs| - 1], FirstOccurrences(rs[..|rs| - 1]))
    requires InFirstOrder(rs[..|rs| - 1], FirstOccurrences(rs[..|rs| - 1]))
    ensures KeepsFirsts(rs, FirstOccurrences(rs))
    ensures InFirstOrder(rs, FirstOccurrences(rs))
  {
    var n := |rs| - 1;
    var u := FirstOccurrences(rs[..n]);
    KeepsFirstsPrefix(rs, n, u);
    FirstOccurrencesSnoc(rs);
    if rs[n].image !in PathsOf(rs[..n]) {
      KeepsFirstsAppend(rs, u);
    }
  }

  /** One iteration of the de-duplication loop over the prefix of length
      `i`. */
  lemma DedupeStep(pairs: seq<Record>, i: nat)
    requires i < |pairs|
    ensures FirstOccurrences(pairs[..i + 1])
            == if pairs[i].image in PathsOf(pairs[..i]) then FirstOccurrences(pairs[..i])
               else FirstOccurrences(pairs[..i]) + [pairs[i]]
    ensures PathsOf(pairs[..i + 1]) == PathsOf(pairs[..i]) + {pairs[i].image}
  {
    var rs := pairs[..i + 1];
    assert |rs| == i + 1 && rs[i] == pairs[i] && rs[..i] == pairs[..i];
    FirstOccurrencesSnoc(rs);
    assert PathsOf(pairs[..i + 1]) == PathsOf(pairs[..i]) + {pairs[i].image} by {
      assert pairs[..i + 1] == pairs[..i] + [pairs[i]];
      PathsOfSnoc(pairs[..i], pairs[i]);
    }
  }

  /** The de-duplication loop: a set of seen paths and the list of kept
      pairs. */
  method Dedupe(pairs: seq<Record>) returns (unique: seq<Record>)
    ensures unique == FirstOccurrences(pairs)
    ensures DistinctPaths(unique) && PathsOf(unique) == PathsOf(pairs)
  {
    var seen: set<Path> := {};
    unique := [];
    var i := 0;
    while i < |pairs|
      invariant 0 <= i <= |pairs|
      invariant unique == FirstOccurrences(pairs[..i])
      invariant seen == PathsOf(pairs[..i])
    {
      DedupeStep(pairs, i);
      if pairs[i].image !in seen {
        unique := unique + [pairs[i]];
        seen := seen + {pairs[i].image};
      }
      i := i + 1;
    }
    assert pairs[..|pairs|] == pairs;
  }

  /** `max(1, int(n_total * frac))`: one exactly when the product is
      below two, and otherwise the product rounded down. */
  function ValCount(nTotal: nat, frac: real): (n: int)
    ensures n >= 1
    ensures n == 1 <==> nTotal as real * frac < 2.0
    ensures n > 1 ==> n as real <= nTotal as real * frac < n as real + 1.0
  {
    var t := Trunc(nTotal as real * frac);
    if t > 1 then t else 1
  }

  /** With the script's fraction the validation size is a tenth of the
      total rounded down, but never below one. */
  lemma ValCountTenth(n: nat)
    ensures ValCount(n, ValFraction) == if n / 10 > 1 then n / 10 else 1
  {
    var t := Trunc(n as real * ValFraction);
    var q := n / 10;
    assert n == 10 * q + n % 10;
    assert q as real <= n as real * ValFraction < q as real + 1.0;
    assert t == q;
  }

  /** For a non-empty list and a fraction at most one, the validation size
      fits: the slice takes exactly that many pairs. */
  lemma ValCountFits(n: nat, frac: real)
    requires n >= 1 && 0.0 <= frac <= 1.0
    ensures ValCount(n, frac) <= n
  {
    assert n as real * frac <= n as real;
  }

  /** The two splits. */
  datatype Split = Split(val: seq<Record>, train: seq<Record>)

  /** `unique[:n_val]` and `unique[n_val:]`, where a slice bound past the
      end stops at the end. */
  function SplitVal(u: seq<Record>, frac: real): (s: Split)
    ensures s.val + s.train == u
    ensures |s.val| == if ValCount(|u|, frac) <= |u| then ValCount(|u|, frac) else |u|
  {
    var k := ValCount(|u|, frac);
    var m := if k <= |u| then k else |u|;
    assert u[..m] + u[m..] == u;
    Split(u[..m], u[m..])
  }

  // ---------------------------------------------------------------------
  // Writing labels and path lists

  /** `img_path.replace(":", "_").replace("/", "__")`. */
  function SafeStem(p: Path): string {
    ReplaceChar(ReplaceChar(p, ':', "_"), '/', "__")
  }

  /** Name of the flat label file for an image path. */
  function LabelName(p: Path): string {
    SafeStem(p) + ".txt"
  }

  /** A label name is a plain file name: no ':' and no '/' before the
      `.txt` it ends with; a path without either character keeps its text
      as the stem. */
  lemma LabelNameShape(p: Path)
    ensures EndsWith(LabelName(p), ".txt")
    ensures ':' !in SafeStem(p) && '/' !in SafeStem(p)
    ensures ':' !in p && '/' !in p ==> SafeStem(p) == p
  {
    var t := ReplaceChar(p, ':', "_");
    ReplaceCharSpec(p, ':', "_");
    ReplaceCharSpec(t, '/', "__");
    assert LabelName(p)[|LabelName(p)| - 4..] == ".txt";
  }

  /** The mangling is not injective: a ':' and a '_' in the same place
      give the same label name, so two distinct images can share one label
      file. */
  lemma LabelNameCollides(a: string, b: string)
    ensures a + ":" + b != a + "_" + b
    ensures LabelName(a + ":" + b) == LabelName(a + "_" + b)
  {
    assert (a + ":" + b)[|a|] == ':';
    var a1 := ReplaceChar(a, ':', "_");
    var b1 := ReplaceChar(b, ':', "_");
    ReplaceCharAppend(a + ":", b, ':', "_");
    ReplaceCharAppend(a, ":", ':', "_");
    ReplaceCharAppend(a + "_", b, ':', "_");
    ReplaceCharAppend(a, "_", ':', "_");
    assert ReplaceChar(":", ':', "_") == "_";
    assert ReplaceChar("_", ':', "_") == "_";
    assert ReplaceChar(a + ":" + b, ':', "_") == a1 + "_" + b1;
    assert ReplaceChar(a + "_" + b, ':', "_") == a1 + "_" + b1;
  }

  /** The image paths of `rs`, in order: the lines of a split's path
      list. */
  function ImagesOf(rs: seq<Record>): seq<Path> {
    seq(|rs|, k requires 0 <= k < |rs| => rs[k].image)
  }

  lemma ImagesOfAppend(a: seq<Record>, b: seq<Record>)
    ensures ImagesOf(a + b) == ImagesOf(a) + ImagesOf(b)
  {
    assert forall k :: 0 <= k < |a| + |b| ==> (a + b)[k] == if k < |a| then a[k] else b[k - |a|];
  }

  /** The label-writing half of `save_split`: for each pair, write its
      label file unless a file of that name exists. */
  function SaveLabels(store: LabelStore, items: seq<Record>): (r: LabelStore)
    ensures forall n :: n in store ==> n in r && r[n] == store[n]
    ensures forall k :: 0 <= k < |items| ==> LabelName(items[k].image) in r
    ensures forall n :: n in r && n !in store ==> exists k :: 0 <= k < |items| && n == LabelName(items[k].image)
    decreases |items|
  {
    if |items| == 0 then store
    else
      var name := LabelName(items[0].image);
      var store' := if name in store then store else store[name := Boxes(items[0].lines)];
      assert forall k :: 1 <= k < |items| ==> items[k] == items[1..][k - 1];
      SaveLabels(store', items[1..])
  }

  /** First writer wins: a label file that did not exist gets the lines of
      the first pair that maps to its name. */
  lemma {:induction false} SaveLabelsContent(store: LabelStore, items: seq<Record>, k: nat)
    requires k < |items|
    requires LabelName(items[k].image) !in store
    requires forall j :: 0 <= j < k ==> LabelName(items[j].image) != LabelName(items[k].image)
    ensures SaveLabels(store, items)[LabelName(items[k].image)] == Boxes(items[k].lines)
    decreases k
  {
    var name := LabelName(items[0].image);
    var store' := if name in store then store else store[name := Boxes(items[0].lines)];
    if k == 0 {
      assert store'[name] == Boxes(items[0].lines);
    } else {
      assert name != LabelName(items[k].image);
      assert items[k] == items[1..][k - 1];
      forall j | 0 <= j < k - 1 ensures LabelName(items[1..][j].image) != LabelName(items[1..][k - 1].image) {
        assert items[1..][j] == items[j + 1];
      }
      SaveLabelsContent(store', items[1..], k - 1);
    }
  }

  /** What a run leaves behind: the two path lists and the label store. */
  datatype Output = Output(train: seq<Path>, val: seq<Path>, labels: LabelStore)

  /** Split the shuffled unique pairs and save train, then val. */
  function Emit(shuffled: seq<Record>, frac: real, store: LabelStore): (out: Output)
    ensures out.val + out.train == ImagesOf(shuffled)
    ensures forall n :: n in store ==> n in out.labels && out.labels[n] == store[n]
    ensures forall k :: 0 <= k < |out.train| ==> LabelName(out.train[k]) in out.labels
    ensures forall k :: 0 <= k < |out.val| ==> LabelName(out.val[k]) in out.labels
  {
    var s := SplitVal(shuffled, frac);
    var afterTrain := SaveLabels(store, s.train);
    var afterVal := SaveLabels(afterTrain, s.val);
    var out := Output(ImagesOf(s.train), ImagesOf(s.val), afterVal);
    ImagesOfAppend(s.val, s.train);
    assert forall k :: 0 <= k < |out.train| ==> LabelName(out.train[k]) in out.labels by {
      forall k | 0 <= k < |out.train| ensures LabelName(out.train[k]) in out.labels {
        assert out.train[k] == s.train[k].image;
        assert LabelName(s.train[k].image) in afterTrain;
      }
    }
    assert forall k :: 0 <= k < |out.val| ==> LabelName(out.val[k]) in out.labels by {
      forall k | 0 <= k < |out.val| ensures LabelName(out.val[k]) in out.labels {
        assert out.val[k] == s.val[k].image;
      }
    }
    out
  }

  /** Why a run stops without writing anything. */
  datatype RunError = NoXmlFound | DivisionByZero | NoValidPairs

  /** `main`: parse every annotation, keep the valid pairs, de-duplicate by
      image path, shuffle, split and save. */
  function Run(xmls: seq<XmlFile>, fs: set<Path>, extOrder: seq<string>, draws: seq<nat>, store: LabelStore)
    : (r: Result<Output, RunError>)
  {
    if |xmls| == 0 then Err(NoXmlFound)
    else Finish(ParseAll(xmls, fs, extOrder), draws, store)
  }

  /** `main` after the parse: stop on a division by zero or when no pair
      parsed, otherwise de-duplicate, shuffle, split and save. */
  function Finish(os: seq<ParseOutcome>, draws: seq<nat>, store: LabelStore): (r: Result<Output, RunError>)
  {
    if AnyZeroDivision(os) then Err(DivisionByZero)
    else
      var pairs := ValidPairs(os);
      if |pairs| == 0 then Err(NoValidPairs)
      else Ok(Emit(Shuffle.Shuffle(FirstOccurrences(pairs), draws), ValFraction, store))
  }

  /** A run stops for want of annotation files exactly when there are none,
      on a division by zero exactly when some file's conversion divides by
      zero, and for want of valid pairs exactly when every file was skipped. */
  lemma RunSpec(xmls: seq<XmlFile>, fs: set<Path>, extOrder: seq<string>, draws: seq<nat>, store: LabelStore)
    ensures var r := Run(xmls, fs, extOrder, draws, store);
      && (r == Err(NoXmlFound) <==> |xmls| == 0)
      && (r == Err(DivisionByZero) <==>
            |xmls| > 0 && exists k :: 0 <= k < |xmls| && ParseXml(xmls[k], fs, extOrder).ZeroDivision?)
      && (r == Err(NoValidPairs) <==>
            && |xmls| > 0
            && forall k :: 0 <= k < |xmls| ==> ParseXml(xmls[k], fs, extOrder).Skipped?)
  {
    var os := ParseAll(xmls, fs, extOrder);
    var pairs := ValidPairs(os);
    assert Run(xmls, fs, extOrder, draws, store)
           == if |xmls| == 0 then Err(NoXmlFound) else Finish(os, draws, store);
    assert Finish(os, draws, store)
           == if AnyZeroDivision(os) then Err(DivisionByZero)
              else if |pairs| == 0 then Err(NoValidPairs)
              else Ok(Emit(Shuffle.Shuffle(FirstOccurrences(pairs), draws), ValFraction, store));
    if |xmls| > 0 {
      if |pairs| == 0 {
        assert forall k :: 0 <= k < |os| ==> os[k] in os;
      } else {
        assert Parsed(pairs[0]) in os;
      }
    }
  }

  /** A run's two path lists have no path in common and none twice, hold
      exactly the images of the files that parsed, and the validation list
      is not empty. */
  lemma RunPaths(xmls: seq<XmlFile>, fs: set<Path>, extOrder: seq<string>, draws: seq<nat>, store: LabelStore)
    requires Run(xmls, fs, extOrder, draws, store).Ok?
    ensures var out := Run(xmls, fs, extOrder, draws, store).value;
      && Distinct(out.val + out.train)
      && |out.val| >= 1
      && forall p :: p in out.val + out.train <==>
           exists k :: 0 <= k < |xmls| && ParseXml(xmls[k], fs, extOrder).Parsed?
                       && ParseXml(xmls[k], fs, extOrder).record.image == p
  {
    var os := ParseAll(xmls, fs, extOrder);
    var sh := Shuffle.Shuffle(FirstOccurrences(ValidPairs(os)), draws);
    RunOk(xmls, fs, extOrder, draws, store);
    EmittedPaths(os, sh, store);
    ParsedPaths(os);
  }

  /** A run that completes has valid pairs and emits their shuffled first
      occurrences. */
  lemma RunOk(xmls: seq<XmlFile>, fs: set<Path>, extOrder: seq<string>, draws: seq<nat>, store: LabelStore)
    requires Run(xmls, fs, extOrder, draws, store).Ok?
    ensures var os := ParseAll(xmls, fs, extOrder);
      && |ValidPairs(os)| > 0
      && Run(xmls, fs, extOrder, draws, store).value
         == Emit(Shuffle.Shuffle(FirstOccurrences(ValidPairs(os)), draws), ValFraction, store)
  {
    var os := ParseAll(xmls, fs, extOrder);
    var pairs := ValidPairs(os);
    var out := Emit(Shuffle.Shuffle(FirstOccurrences(pairs), draws), ValFraction, store);
    assert Run(xmls, fs, extOrder, draws, store) == Finish(os, draws, store);
    assert Finish(os, draws, store)
           == if AnyZeroDivision(os) then Err(DivisionByZero)
              else if |pairs| == 0 then Err(NoValidPairs)
              else Ok(out);
  }

  /** The paths of the valid pairs are the images of the outcomes that
      parsed. */
  lemma ParsedPaths(os: seq<ParseOutcome>)
    ensures forall p :: p in PathsOf(ValidPairs(os)) <==>
              exists k :: 0 <= k < |os| && os[k].Parsed? && os[k].record.image == p
  {
    forall p
      ensures p in PathsOf(ValidPairs(os)) <==> exists k :: 0 <= k < |os| && os[k].Parsed? && os[k].record.image == p
    {
      if p in PathsOf(ValidPairs(os)) {
        var r :| r in ValidPairs(os) && r.image == p;
        var k :| 0 <= k < |os| && os[k] == Parsed(r);
      }
      if exists k :: 0 <= k < |os| && os[k].Parsed? && os[k].record.image == p {
        var k :| 0 <= k < |os| && os[k].Parsed? && os[k].record.image == p;
        assert os[k] in os;
        assert os[k].record in ValidPairs(os);
      }
    }
  }

  /** The image path of a pair, as a key for `Shuffle.DistinctBy`. */
  function ImageOf(r: Record): Path {
    r.image
  }

  /** Rearranging pairs with distinct paths keeps the paths distinct. */
  lemma PermutedDistinctPaths(u: seq<Record>, sh: seq<Record>)
    requires multiset(sh) == multiset(u)
    requires DistinctPaths(u)
    ensures DistinctPaths(sh)
  {
    assert Shuffle.DistinctBy(u, ImageOf) by {
      forall a, b | 0 <= a < b < |u| ensures ImageOf(u[a]) != ImageOf(u[b]) {
      }
    }
    Shuffle.PermutationDistinctBy(u, sh, ImageOf);
    forall a, b | 0 <= a < b < |sh| ensures sh[a].image != sh[b].image {
      assert ImageOf(sh[a]) != ImageOf(sh[b]);
    }
  }

  /** Distinct paths make a path list without repeats. */
  lemma DistinctImages(rs: seq<Record>)
    requires DistinctPaths(rs)
    ensures Distinct(ImagesOf(rs))
  {
  }

  /** A rearrangement lists the same paths. */
  lemma PermutedPaths(u: seq<Record>, sh: seq<Record>)
    requires multiset(sh) == multiset(u)
    ensures forall p :: p in ImagesOf(sh) <==> p in PathsOf(u)
  {
    forall p ensures p in ImagesOf(sh) <==> p in PathsOf(u) {
      if p in ImagesOf(sh) {
        var k :| 0 <= k < |sh| && ImagesOf(sh)[k] == p;
        assert sh[k] in multiset(u);
      }
      if p in PathsOf(u) {
        var r :| r in u && r.image == p;
        assert r in multiset(sh);
        var k :| 0 <= k < |sh| && sh[k] == r;
        assert ImagesOf(sh)[k] == p;
      }
    }
  }

  /** The lists `Emit` writes for a shuffle of the first occurrences of
      the parsed pairs: distinct paths, the parsed paths and nothing else,
      and a validation list that is not empty when some pair parsed. */
  lemma EmittedPaths(os: seq<ParseOutcome>, sh: seq<Record>, store: LabelStore)
    requires multiset(sh) == multiset(FirstOccurrences(ValidPairs(os)))
    ensures var out := Emit(sh, ValFraction, store);
      && Distinct(out.val + out.train)
      && (forall p :: p in out.val + out.train <==> p in PathsOf(ValidPairs(os)))
      && (|ValidPairs(os)| > 0 ==> |out.val| >= 1)
  {
    var u := FirstOccurrences(ValidPairs(os));
    var out := Emit(sh, ValFraction, store);
    assert out.val + out.train == ImagesOf(sh);
    assert Distinct(ImagesOf(sh)) by {
      PermutedDistinctPaths(u, sh);
      DistinctImages(sh);
    }
    PermutedPaths(u, sh);
    if |ValidPairs(os)| > 0 {
      assert |u| > 0 by {
        var first := ValidPairs(os)[0];
        assert first in ValidPairs(os);
        assert first.image in PathsOf(u);
        var r :| r in u && r.image == first.image;
      }
      EmitLists(sh, ValFraction, store);
    }
  }

  /** Each list `Emit` writes is its split's paths, in order: validation
      takes the first `min(n_val, n_total)` pairs, training the rest. */
  lemma EmitLists(shuffled: seq<Record>, frac: real, store: LabelStore)
    ensures var m := if ValCount(|shuffled|, frac) <= |shuffled| then ValCount(|shuffled|, frac) else |shuffled|;
            var out := Emit(shuffled, frac, store);
            && out.val == ImagesOf(shuffled[..m])
            && out.train == ImagesOf(shuffled[m..])
            && (|shuffled| > 0 ==> |out.val| >= 1)
  {
    var s := SplitVal(shuffled, frac);
    assert s.val == shuffled[..|s.val|] && s.train == shuffled[|s.val|..];
  }
}
