/** The command-line variant of the converter
    (`prep_logodet_yolo_nocopy_gpu.py`). It parses each annotation file as
    the configured script does, except that it reads the size through the
    path lookups `find("size/width")` and `find("size/height")`. Its main
    loop takes the validation fraction as an argument, keeps a pair when
    its path is a non-empty string, and has no guard for a run where no
    pair parsed. */
module PrepLogodetGpu {
  import opened Options
  import opened Paths
  import opened Xml
  import opened Labels
  import opened PrepLogodet
  import Shuffle

  /** The declared `(width, height)` read through `find("size/width")` and
      `find("size/height")`: each looks at the first `<size>` that has the
      field, independently of the other. */
  function ReadSizeGpu(root: Element): (r: Option<(int, int)>)
    ensures FindPath(root, "size", "width").None? || FindPath(root, "size", "height").None? ==> r.None?
    ensures r.Some? <==> IntText(FindPath(root, "size", "width")).Some?
                         && IntText(FindPath(root, "size", "height")).Some?
    ensures r.Some? ==> IntText(FindPath(root, "size", "width")) == Some(r.value.0)
                        && IntText(FindPath(root, "size", "height")) == Some(r.value.1)
  {
    match (IntText(FindPath(root, "size", "width")), IntText(FindPath(root, "size", "height")))
    case (Some(w), Some(h)) => Some((w, h))
    case _ => None
  }

  /** With at most one `<size>` element the two ways of reading the size
      agree. */
  lemma ReadSizeAgrees(root: Element)
    requires AtMostOne(root, "size")
    ensures ReadSizeGpu(root) == ReadSize(root)
  {
    FindPathTwoStep(root.children, "size", "width");
    FindPathTwoStep(root.children, "size", "height");
  }

  /** A document with a leading empty `<size>` and a second, complete one:
      the configured script gives up on the first, the command-line one
      reads the second. */
  lemma ReadSizeDiffers()
    ensures var root := Element("annotation", None, [
              Element("size", None, []),
              Element("size", None, [Element("width", Some("5"), []), Element("height", Some("7"), [])])]);
            ReadSize(root).None? && ReadSizeGpu(root) == Some((5, 7))
  {
    var width := Element("width", Some("5"), []);
    var height := Element("height", Some("7"), []);
    var first := Element("size", None, []);
    var second := Element("size", None, [width, height]);
    var root := Element("annotation", None, [first, second]);
    assert Find(first, "width").None? && Find(first, "height").None?;
    assert Find(second, "width") == Some(width);
    assert [width, height][1..] == [height];
    assert |width.tag| != |"height"|;
    assert Find(second, "height") == FirstWithTag([height], "height") == Some(height);
    assert root.children[1..] == [second];
    assert FindPath(root, "size", "width") == FirstUnder([second], "size", "width") == Some(width);
    assert FindPath(root, "size", "height") == FirstUnder([second], "size", "height") == Some(height);
    Numbers.ParseIntRoundTrip(5);
    Numbers.ParseIntRoundTrip(7);
    assert Numbers.IntToString(5) == "5";
    assert Numbers.IntToString(7) == "7";
  }

  /** `parse_xml` of the command-line script. */
  function ParseXmlGpu(xml: XmlFile, fs: set<Path>, extOrder: seq<string>): (r: ParseOutcome)
    ensures xml.doc.None? ==> r.Skipped?
    ensures xml.doc.Some? && ReadSizeGpu(xml.doc.value).None? ==> r.Skipped?
    ensures xml.doc.Some? && ResolveImage(xml.path, FindText(xml.doc.value, "filename"), fs, extOrder).None? ==>
              r.Skipped?
    ensures xml.doc.Some? && CornerList(FindAll(xml.doc.value, "object")) == [] ==> r.Skipped?
    ensures r.ZeroDivision? ==> ReadSizeGpu(xml.doc.value).value.0 == 0 || ReadSizeGpu(xml.doc.value).value.1 == 0
    ensures r.Parsed? ==> r.record.image in fs && r.record.image != ""
  {
    match xml.doc
    case None => Skipped
    case Some(root) => Convert(xml.path, root, ReadSizeGpu(root), fs, extOrder)
  }

  /** A file is skipped exactly when its XML is malformed, the two path
      lookups do not both give an integer, no image resolves or no object
      parses; the division by zero comes from a zero size; a parsed file
      gives the resolved image and one class-0 line per parsed object, in
      document order, whose box converts back to the object's corners. This
      holds whatever number of `<size>` elements the document has. */
  lemma ParseXmlGpuSpec(xml: XmlFile, fs: set<Path>, extOrder: seq<string>)
    ensures var r := ParseXmlGpu(xml, fs, extOrder);
      && (r.Skipped? <==> xml.doc.None? || ReadSizeGpu(xml.doc.value).None?
                          || ResolveImage(xml.path, FindText(xml.doc.value, "filename"), fs, extOrder).None?
                          || CornerList(FindAll(xml.doc.value, "object")) == [])
      && (r.ZeroDivision? <==> !r.Skipped? && (ReadSizeGpu(xml.doc.value).value.0 == 0
                                              || ReadSizeGpu(xml.doc.value).value.1 == 0))
      && (r.Parsed? ==>
            Some(r.record.image) == ResolveImage(xml.path, FindText(xml.doc.value, "filename"), fs, extOrder))
      && (r.Parsed? ==> |r.record.lines| == |CornerList(FindAll(xml.doc.value, "object"))| > 0)
      && (r.Parsed? ==> forall k :: 0 <= k < |r.record.lines| ==>
            && r.record.lines[k].classId == 0
            && YoloToCorners(r.record.lines[k].box, ReadSizeGpu(xml.doc.value).value.0,
                             ReadSizeGpu(xml.doc.value).value.1)
                 == CornerList(FindAll(xml.doc.value, "object"))[k])
  {
  }

  /** On documents with at most one `<size>`, both scripts parse a file the
      same way. */
  lemma ParseXmlGpuAgrees(xml: XmlFile, fs: set<Path>, extOrder: seq<string>)
    requires xml.doc.Some? ==> AtMostOne(xml.doc.value, "size")
    ensures ParseXmlGpu(xml, fs, extOrder) == ParseXml(xml, fs, extOrder)
  {
    if xml.doc.Some? {
      ReadSizeAgrees(xml.doc.value);
    }
  }

  /** The outcomes of all annotation files, in collection order. */
  function ParseAllGpu(xmls: seq<XmlFile>, fs: set<Path>, extOrder: seq<string>): (os: seq<ParseOutcome>)
    ensures |os| == |xmls|
    ensures forall k :: 0 <= k < |xmls| ==> os[k] == ParseXmlGpu(xmls[k], fs, extOrder)
  {
    seq(|xmls|, k requires 0 <= k < |xmls| => ParseXmlGpu(xmls[k], fs, extOrder))
  }

  /** `[(p, l) for (p, l) in results if p]`: the parsed pairs whose path is
      a non-empty string. */
  function TruthyPairs(os: seq<ParseOutcome>): (ps: seq<Record>)
    ensures forall r :: r in ps <==> Parsed(r) in os && r.image != ""
    decreases |os|
  {
    if |os| == 0 then []
    else (if os[0].Parsed? && os[0].record.image != "" then [os[0].record] else []) + TruthyPairs(os[1..])
  }

  /** When no parsed path is empty, the truthiness filter keeps exactly
      the parsed pairs, in the same order. */
  lemma {:induction false} TruthyPairsAreValid(os: seq<ParseOutcome>)
    requires forall k :: 0 <= k < |os| && os[k].Parsed? ==> os[k].record.image != ""
    ensures TruthyPairs(os) == ValidPairs(os)
    decreases |os|
  {
    if |os| > 0 {
      assert forall k :: 1 <= k < |os| ==> os[1..][k - 1] == os[k];
      TruthyPairsAreValid(os[1..]);
    }
  }

  lemma {:induction false} TruthyPairsNone(os: seq<ParseOutcome>)
    requires forall k :: 0 <= k < |os| ==> !os[k].Parsed?
    ensures TruthyPairs(os) == []
    decreases |os|
  {
    if |os| > 0 {
      assert forall k :: 1 <= k < |os| ==> os[1..][k - 1] == os[k];
      TruthyPairsNone(os[1..]);
    }
  }

  /** Splitting and saving nothing writes nothing. */
  lemma EmitEmpty(frac: real, store: LabelStore)
    ensures Emit([], frac, store) == Output([], [], store)
  {
    var s := SplitVal([], frac);
    assert s.val == [] && s.train == [];
    assert SaveLabels(store, []) == store;
  }

  /** `main` of the command-line script, with `--val` as `frac`. */
  function RunGpu(xmls: seq<XmlFile>, fs: set<Path>, extOrder: seq<string>, draws: seq<nat>, frac: real,
                  store: LabelStore)
    : (r: Result<Output, RunError>)
    ensures r == Err(NoXmlFound) <==> |xmls| == 0
    ensures r == Err(DivisionByZero) <==>
              |xmls| > 0 && exists k :: 0 <= k < |xmls| && ParseXmlGpu(xmls[k], fs, extOrder).ZeroDivision?
    ensures r != Err(NoValidPairs)
  {
    if |xmls| == 0 then Err(NoXmlFound)
    else FinishGpu(ParseAllGpu(xmls, fs, extOrder), draws, frac, store)
  }

  /** The command-line `main` after the parse: stop on a division by zero,
      otherwise de-duplicate, shuffle, split and save whatever pairs are
      truthy, none included. */
  function FinishGpu(os: seq<ParseOutcome>, draws: seq<nat>, frac: real, store: LabelStore)
    : (r: Result<Output, RunError>)
    ensures r.Err? <==> AnyZeroDivision(os)
    ensures r.Err? ==> r.error == DivisionByZero
  {
    if AnyZeroDivision(os) then Err(DivisionByZero)
    else Ok(Emit(Shuffle.Shuffle(FirstOccurrences(TruthyPairs(os)), draws), frac, store))
  }

  /** A run in which no file yields a pair completes and writes two empty
      path lists and no label. */
  lemma RunGpuNothingParsed(xmls: seq<XmlFile>, fs: set<Path>, extOrder: seq<string>, draws: seq<nat>, frac: real,
                            store: LabelStore)
    requires |xmls| > 0
    requires forall k :: 0 <= k < |xmls| ==> ParseXmlGpu(xmls[k], fs, extOrder).Skipped?
    ensures RunGpu(xmls, fs, extOrder, draws, frac, store) == Ok(Output([], [], store))
  {
    var os := ParseAllGpu(xmls, fs, extOrder);
    assert !AnyZeroDivision(os);
    TruthyPairsNone(os);
    EmitEmpty(frac, store);
  }

  /** On documents with at most one `<size>` both scripts produce the same
      outcome list, and none of its parsed paths is empty. */
  lemma ParseAllGpuAgrees(xmls: seq<XmlFile>, fs: set<Path>, extOrder: seq<string>)
    requires forall k :: 0 <= k < |xmls| && xmls[k].doc.Some? ==> AtMostOne(xmls[k].doc.value, "size")
    ensures ParseAllGpu(xmls, fs, extOrder) == ParseAll(xmls, fs, extOrder)
    ensures forall k :: 0 <= k < |xmls| && ParseAll(xmls, fs, extOrder)[k].Parsed? ==>
              ParseAll(xmls, fs, extOrder)[k].record.image != ""
  {
    var os := ParseAllGpu(xmls, fs, extOrder);
    forall k | 0 <= k < |xmls| ensures os[k] == ParseAll(xmls, fs, extOrder)[k] {
      ParseXmlGpuAgrees(xmls[k], fs, extOrder);
    }
  }

  /** On an outcome list whose parsed paths are all non-empty, the two
      mains agree except where the configured one stops for want of valid
      pairs. */
  lemma FinishGpuAgrees(os: seq<ParseOutcome>, draws: seq<nat>, store: LabelStore)
    requires forall k :: 0 <= k < |os| && os[k].Parsed? ==> os[k].record.image != ""
    ensures FinishGpu(os, draws, ValFraction, store)
            == if Finish(os, draws, store) == Err(NoValidPairs) then Ok(Output([], [], store))
               else Finish(os, draws, store)
  {
    TruthyPairsAreValid(os);
    if !AnyZeroDivision(os) && |ValidPairs(os)| == 0 {
      assert FirstOccurrences(ValidPairs(os)) == [];
      assert Shuffle.Shuffle<Record>([], draws) == [];
      EmitEmpty(ValFraction, store);
    }
  }

  /** With the default fraction and at most one `<size>` per document, the
      command-line script does what the configured one does, except that
      where the configured one stops for want of valid pairs it writes two
      empty lists. */
  lemma RunGpuAgrees(xmls: seq<XmlFile>, fs: set<Path>, extOrder: seq<string>, draws: seq<nat>, store: LabelStore)
    requires forall k :: 0 <= k < |xmls| && xmls[k].doc.Some? ==> AtMostOne(xmls[k].doc.value, "size")
    ensures RunGpu(xmls, fs, extOrder, draws, ValFraction, store)
            == if Run(xmls, fs, extOrder, draws, store) == Err(NoValidPairs) then Ok(Output([], [], store))
               else Run(xmls, fs, extOrder, draws, store)
  {
    if |xmls| > 0 {
      var os := ParseAll(xmls, fs, extOrder);
      ParseAllGpuAgrees(xmls, fs, extOrder);
      assert RunGpu(xmls, fs, extOrder, draws, ValFraction, store) == FinishGpu(os, draws, ValFraction, store);
      assert Run(xmls, fs, extOrder, draws, store) == Finish(os, draws, store);
      FinishGpuAgrees(os, draws, store);
    }
  }
}
