/** Merging annotated invoice images into the converted dataset
    (`add_invoices.py`): every `.jpg` of the invoice directory that has a
    same-stem `.txt` label gets its label lines normalised to class 0 and
    written into the flat label store; then the images that have a label
    file are appended to the training list.

    The invoice directory is a map from the paths that exist to their
    lines; `dir` is its absolute path and `entries` the names it holds.
    Labels go to the `LabelStore`, the training list is a sequence of
    paths. */
module AddInvoices {
  import opened Options
  import opened Text
  import opened Paths
  import opened Labels
  import opened Lists
  import PrepLogodet

  /** The files of the invoice directory: path to lines, as `readlines`
      returns them. */
  type Files = map<Path, seq<string>>

  // ---------------------------------------------------------------------
  // Fixing label lines

  /** One line of the fixing loop: a line that splits into exactly five
      tokens is kept with its first token replaced by `0`, re-joined with
      single spaces and terminated by a newline; any other line is
      dropped. */
  function FixLine(line: string): Option<string> {
    var parts := SplitWs(Strip(line));
    if |parts| == 5 then Some(Text.Join(["0"] + parts[1..], " ") + "\n") else None
  }

  /** A line is kept exactly when it has five tokens; reading a kept line
      back gives `0` followed by the original's last four tokens. */
  lemma FixLineSpec(line: string)
    ensures FixLine(line).Some? <==> |SplitWs(Strip(line))| == 5
    ensures FixLine(line).Some? ==>
              && EndsWith(FixLine(line).value, "\n")
              && SplitWs(Strip(FixLine(line).value)) == ["0"] + SplitWs(Strip(line))[1..]
  {
    var parts := SplitWs(Strip(line));
    if |parts| == 5 {
      var ws := ["0"] + parts[1..];
      assert forall k :: 0 <= k < |ws| ==> IsWord(ws[k]) by {
        forall k | 0 <= k < |ws| ensures IsWord(ws[k]) {
          if k > 0 { assert ws[k] == parts[k]; }
        }
      }
      var j := Text.Join(ws, " ");
      JoinWordsEnds(ws);
      StripTrailing(j, "\n");
      SplitJoin(ws);
      var f := j + "\n";
      assert f[|f| - 1..] == "\n";
    }
  }

  /** Fixing a fixed line changes nothing. */
  lemma FixLineFixed(line: string)
    ensures FixLine(line).Some? ==> FixLine(FixLine(line).value) == FixLine(line)
  {
    FixLineSpec(line);
    if FixLine(line).Some? {
      var parts := SplitWs(Strip(line));
      assert (["0"] + parts[1..])[1..] == parts[1..];
    }
  }

  /** The fixing loop over a label file. */
  function FixLines(lines: seq<string>): seq<string> {
    FilterMap(FixLine, lines)
  }

  /** Re-running the fix on its own output is a no-op. */
  lemma FixLinesIdempotent(lines: seq<string>)
    ensures FixLines(FixLines(lines)) == FixLines(lines)
  {
    forall a ensures FixLine(a).Some? ==> FixLine(FixLine(a).value) == FixLine(a) {
      FixLineFixed(a);
    }
    FilterMapIdempotent(FixLine, lines);
  }

  /** A fixed label is empty exactly when no line has five tokens, and each
      of its lines is the fix of some line. */
  lemma FixLinesSpec(lines: seq<string>)
    ensures FixLines(lines) == [] <==> forall k :: 0 <= k < |lines| ==> |SplitWs(Strip(lines[k]))| != 5
    ensures forall f :: f in FixLines(lines) ==> exists k :: 0 <= k < |lines| && FixLine(lines[k]) == Some(f)
  {
    FilterMapSpec(FixLine, lines);
    forall k | 0 <= k < |lines| ensures FixLine(lines[k]).None? <==> |SplitWs(Strip(lines[k]))| != 5 {
      FixLineSpec(lines[k]);
    }
  }

  // ---------------------------------------------------------------------
  // Names and paths

  /** The names `glob("*.jpg")` matches. */
  function Jpgs(entries: seq<string>): (r: seq<string>)
    ensures forall n :: n in r <==> n in entries && EndsWith(n, ".jpg")
    ensures multiset(r) <= multiset(entries)
    decreases |entries|
  {
    if |entries| == 0 then []
    else
      assert entries == [entries[0]] + entries[1..];
      (if EndsWith(entries[0], ".jpg") then [entries[0]] else []) + Jpgs(entries[1..])
  }

  /** `sorted(invoices_dir.glob("*.jpg"))`, as names: all paths share the
      directory, so they sort as their names do. */
  function InvoiceImages(entries: seq<string>): (r: seq<string>)
    ensures forall n :: n in r <==> n in entries && EndsWith(n, ".jpg")
    ensures SortedLex(r)
    ensures multiset(r) <= multiset(entries)
  {
    var r := Sort(Jpgs(entries));
    assert forall n :: n in r <==> n in multiset(r);
    r
  }

  /** The absolute path of an image (`img_path.resolve()`). */
  function ImagePath(dir: Path, name: string): Path {
    Paths.Join(dir, name)
  }

  /** `invoices_dir / f"{img_path.stem}.txt"`. */
  function LabelPath(dir: Path, name: string): Path {
    Paths.Join(dir, Stem(name) + ".txt")
  }

  /** `abs_path.replace("/", "__") + ".txt"`. */
  function MangledName(p: Path): string {
    ReplaceChar(p, '/', "__") + ".txt"
  }

  /** Without a ':' in the path, the mangled name is the converter's label
      name, so the invoice labels land where the converter's would. */
  lemma MangledIsLabelName(p: Path)
    requires ':' !in p
    ensures MangledName(p) == PrepLogodet.LabelName(p)
  {
    ReplaceCharSpec(p, ':', "_");
  }

  /** With a ':' the two rules part ways: this script keeps it, the
      converter turns it into '_', so the invoice label is not where the
      converter would look. */
  lemma MangledDiffersOnColon(p: Path)
    requires ':' in p
    ensures MangledName(p) != PrepLogodet.LabelName(p)
  {
    ReplaceCharKeeps(p, '/', "__", ':');
    PrepLogodet.LabelNameShape(p);
    assert ':' in MangledName(p);
    assert ':' !in PrepLogodet.LabelName(p);
  }

  /** Names a directory listing can hold: non-empty, without '/'. */
  predicate PlainNames(names: seq<string>) {
    forall k :: 0 <= k < |names| ==> names[k] != "" && '/' !in names[k]
  }

  /** Distinct names of one directory have distinct mangled names. */
  lemma MangledDistinct(dir: Path, a: string, b: string)
    requires a != "" && '/' !in a && b != "" && '/' !in b && a != b
    ensures MangledName(ImagePath(dir, a)) != MangledName(ImagePath(dir, b))
  {
    var pre := DirPrefix(dir);
    var q := ReplaceChar(pre, '/', "__");
    JoinName(dir, a);
    JoinName(dir, b);
    ReplaceCharAppend(pre, a, '/', "__");
    ReplaceCharAppend(pre, b, '/', "__");
    ReplaceCharSpec(a, '/', "__");
    ReplaceCharSpec(b, '/', "__");
    var ma := q + a + ".txt";
    var mb := q + b + ".txt";
    if |a| == |b| {
      assert ma[|q|..|q| + |a|] == a && mb[|q|..|q| + |b|] == b;
    } else {
      assert |ma| != |mb|;
    }
  }

  // ---------------------------------------------------------------------
  // The processing loop

  /** The fixing applied to a label file's lines; `FixLines` in the
      script, a parameter here so that the loop's lemmas do not depend on
      how lines are fixed. */
  type Fix = seq<string> -> seq<string>

  /** An image whose label file exists and keeps at least one line after
      fixing: the loop writes its label and counts it. */
  predicate Written(fix: Fix, dir: Path, files: Files, name: string) {
    LabelPath(dir, name) in files && fix(files[LabelPath(dir, name)]) != []
  }

  /** `[n for n in names if Written(n)]`: the images that get a label. */
  function WrittenNames(fix: Fix, dir: Path, files: Files, names: seq<string>): seq<string> {
    FilterMap(n => if Written(fix, dir, files, n) then Some(n) else None, names)
  }

  /** The labels the loop writes, image by image: each overwrites the
      store entry under its mangled name. Returns the store and
      `added_count`. */
  function WriteLabels(fix: Fix, dir: Path, names: seq<string>, files: Files, store: LabelStore)
    : (r: (LabelStore, nat))
    ensures r.1 <= |names|
    ensures forall key :: key in store ==> key in r.0
    ensures forall k :: 0 <= k < |names| && Written(fix, dir, files, names[k]) ==>
              MangledName(ImagePath(dir, names[k])) in r.0
    ensures r.1 == 0 <==> forall k :: 0 <= k < |names| ==> !Written(fix, dir, files, names[k])
    ensures r.1 == 0 ==> r.0 == store
    decreases |names|
  {
    if |names| == 0 then (store, 0)
    else
      assert forall k :: 1 <= k < |names| ==> names[k] == names[1..][k - 1];
      var n := names[0];
      if !Written(fix, dir, files, n) then WriteLabels(fix, dir, names[1..], files, store)
      else
        var lines := fix(files[LabelPath(dir, n)]);
        var r := WriteLabels(fix, dir, names[1..], files, store[MangledName(ImagePath(dir, n)) := TextLines(lines)]);
        (r.0, r.1 + 1)
  }

  /** `added_count` is the number of images whose label file exists and
      keeps a line after fixing. */
  lemma {:induction false} WriteLabelsCount(fix: Fix, dir: Path, names: seq<string>, files: Files, store: LabelStore)
    ensures WriteLabels(fix, dir, names, files, store).1 == |WrittenNames(fix, dir, files, names)|
    decreases |names|
  {
    if |names| > 0 {
      var n := names[0];
      var f := n => if Written(fix, dir, files, n) then Some(n) else None;
      assert WrittenNames(fix, dir, files, names)
             == (if Written(fix, dir, files, n) then [n] else []) + WrittenNames(fix, dir, files, names[1..]);
      WriteLabelsCount(fix, dir, names[1..], files, StoreAfterFirst(fix, dir, n, files, store));
      WriteLabelsCount(fix, dir, names[1..], files, store);
    }
  }

  /** Nothing else is written: an entry of the result either was in the
      store with the same value or is the mangled name of an image that got
      a label. */
  lemma {:induction false} WriteLabelsFrame(fix: Fix, dir: Path, names: seq<string>, files: Files, store: LabelStore,
                                            key: string)
    requires key in WriteLabels(fix, dir, names, files, store).0
    ensures || (key in store && WriteLabels(fix, dir, names, files, store).0[key] == store[key])
            || exists k :: 0 <= k < |names| && Written(fix, dir, files, names[k])
                           && key == MangledName(ImagePath(dir, names[k]))
    decreases |names|
  {
    if |names| > 0 {
      var n := names[0];
      var store' := StoreAfterFirst(fix, dir, n, files, store);
      WriteLabelsStep(fix, dir, names, files, store);
      WriteLabelsFrame(fix, dir, names[1..], files, store', key);
      if exists k :: 0 <= k < |names| - 1 && Written(fix, dir, files, names[1..][k])
                     && key == MangledName(ImagePath(dir, names[1..][k])) {
        var k :| 0 <= k < |names| - 1 && Written(fix, dir, files, names[1..][k])
                 && key == MangledName(ImagePath(dir, names[1..][k]));
        assert names[1..][k] == names[k + 1];
      } else if Written(fix, dir, files, n) && key == MangledName(ImagePath(dir, n)) {
        assert names[0] == n;
      }
    }
  }

  /** Entries no written image maps to keep their value. */
  lemma {:induction false} WriteLabelsKeeps(fix: Fix, dir: Path, names: seq<string>, files: Files, store: LabelStore,
                                            key: string)
    requires key in store
    requires forall k :: 0 <= k < |names| && Written(fix, dir, files, names[k]) ==>
               MangledName(ImagePath(dir, names[k])) != key
    ensures WriteLabels(fix, dir, names, files, store).0[key] == store[key]
    decreases |names|
  {
    if |names| > 0 {
      assert forall k :: 1 <= k < |names| ==> names[k] == names[1..][k - 1];
      var n := names[0];
      if !Written(fix, dir, files, n) {
        WriteLabelsKeeps(fix, dir, names[1..], files, store, key);
      } else {
        var store' := store[MangledName(ImagePath(dir, n)) := TextLines(fix(files[LabelPath(dir, n)]))];
        WriteLabelsKeeps(fix, dir, names[1..], files, store', key);
      }
    }
  }

  /** The store after writing the first image's label, if it has one. */
  function StoreAfterFirst(fix: Fix, dir: Path, name: string, files: Files, store: LabelStore): LabelStore {
    if Written(fix, dir, files, name)
    then store[MangledName(ImagePath(dir, name)) := TextLines(fix(files[LabelPath(dir, name)]))]
    else store
  }

  lemma WriteLabelsStep(fix: Fix, dir: Path, names: seq<string>, files: Files, store: LabelStore)
    requires |names| > 0
    ensures WriteLabels(fix, dir, names, files, store).0
            == WriteLabels(fix, dir, names[1..], files, StoreAfterFirst(fix, dir, names[0], files, store)).0
  {
  }

  /** The first image's entry survives the rest of the loop, since no
      other name maps to it. */
  lemma WriteLabelsFirst(fix: Fix, dir: Path, names: seq<string>, files: Files, store: LabelStore)
    requires PlainNames(names) && Distinct(names)
    requires |names| > 0 && Written(fix, dir, files, names[0])
    ensures WriteLabels(fix, dir, names, files, store).0[MangledName(ImagePath(dir, names[0]))]
            == TextLines(fix(files[LabelPath(dir, names[0])]))
  {
    var n := names[0];
    var tail := names[1..];
    var key := MangledName(ImagePath(dir, n));
    assert forall j :: 0 <= j < |tail| && Written(fix, dir, files, tail[j]) ==>
                         MangledName(ImagePath(dir, tail[j])) != key by {
      forall j | 0 <= j < |tail| && Written(fix, dir, files, tail[j])
        ensures MangledName(ImagePath(dir, tail[j])) != key
      {
        assert tail[j] == names[j + 1];
        MangledDistinct(dir, tail[j], n);
      }
    }
    WriteLabelsStep(fix, dir, names, files, store);
    WriteLabelsKeeps(fix, dir, tail, files, StoreAfterFirst(fix, dir, n, files, store), key);
  }

  /** With distinct plain names, every written image's store entry holds
      its fixed lines. */
  lemma {:induction false} WriteLabelsContent(fix: Fix, dir: Path, names: seq<string>, files: Files, store: LabelStore,
                                              k: nat)
    requires PlainNames(names) && Distinct(names)
    requires k < |names| && Written(fix, dir, files, names[k])
    ensures WriteLabels(fix, dir, names, files, store).0[MangledName(ImagePath(dir, names[k]))]
            == TextLines(fix(files[LabelPath(dir, names[k])]))
    decreases k
  {
    if k == 0 {
      WriteLabelsFirst(fix, dir, names, files, store);
    } else {
      var tail := names[1..];
      var n := names[k];
      var store' := StoreAfterFirst(fix, dir, names[0], files, store);
      assert PlainNames(tail) && Distinct(tail) && k - 1 < |tail| && tail[k - 1] == n by {
        assert forall j :: 1 <= j < |names| ==> names[j] == tail[j - 1];
      }
      WriteLabelsContent(fix, dir, tail, files, store', k - 1);
      WriteLabelsStep(fix, dir, names, files, store);
    }
  }

  /** The append step: for each image in order, its path when its label
      file exists, whether or not a label was written for it. */
  function AppendEntry(dir: Path, files: Files): string -> Option<Path> {
    name => if LabelPath(dir, name) in files then Some(ImagePath(dir, name)) else None
  }

  function Appended(dir: Path, names: seq<string>, files: Files): seq<Path> {
    FilterMap(AppendEntry(dir, files), names)
  }

  /** Every counted image is also appended: the number of appended paths is
      at least `added_count`. */
  lemma {:induction false} AddedAtMostAppended(fix: Fix, dir: Path, names: seq<string>, files: Files, store: LabelStore)
    ensures WriteLabels(fix, dir, names, files, store).1 <= |Appended(dir, names, files)|
    decreases |names|
  {
    if |names| > 0 {
      var n := names[0];
      if !Written(fix, dir, files, n) {
        AddedAtMostAppended(fix, dir, names[1..], files, store);
      } else {
        var store' := store[MangledName(ImagePath(dir, n)) := TextLines(fix(files[LabelPath(dir, n)]))];
        AddedAtMostAppended(fix, dir, names[1..], files, store');
      }
    }
  }

  /** What the script leaves behind: the label store, the training list and
      the number of labels it reports as added. */
  datatype Merge = Merge(labels: LabelStore, train: seq<Path>, added: nat)

  /** `main`: fix and write the labels, then, if any was written, append
      the labelled images to the training list. */
  function Run(dir: Path, entries: seq<string>, files: Files, store: LabelStore, train: seq<Path>): (r: Merge)
    ensures |train| <= |r.train| && r.train[..|train|] == train
    ensures r.added == 0 ==> r.labels == store && r.train == train
    ensures r.added > 0 ==> r.train[|train|..] == Appended(dir, InvoiceImages(entries), files)
    ensures (r.labels, r.added) == WriteLabels(FixLines, dir, InvoiceImages(entries), files, store)
  {
    var images := InvoiceImages(entries);
    if |images| == 0 then Merge(store, train, 0)
    else
      var w := WriteLabels(FixLines, dir, images, files, store);
      if w.1 == 0 then Merge(w.0, train, 0)
      else
        var app := Appended(dir, images, files);
        assert (train + app)[..|train|] == train && (train + app)[|train|..] == app;
        Merge(w.0, train + app, w.1)
  }

  /** Nothing is added exactly when no `.jpg` has a label file with a
      five-token line. */
  lemma RunAddsNothing(dir: Path, entries: seq<string>, files: Files, store: LabelStore, train: seq<Path>)
    ensures Run(dir, entries, files, store, train).added == 0
            <==> forall n :: n in entries && EndsWith(n, ".jpg") ==> !Written(FixLines, dir, files, n)
  {
    var images := InvoiceImages(entries);
    var w := WriteLabels(FixLines, dir, images, files, store);
    assert Run(dir, entries, files, store, train).added == w.1;
    if w.1 == 0 {
      forall n | n in entries && EndsWith(n, ".jpg") ensures !Written(FixLines, dir, files, n) {
        assert n in images;
        var k :| 0 <= k < |images| && images[k] == n;
      }
    } else {
      var k :| 0 <= k < |images| && Written(FixLines, dir, files, images[k]);
      assert images[k] in entries && EndsWith(images[k], ".jpg");
    }
  }

  /** The labels already in the store stay, and every written image gets
      an entry. */
  lemma RunLabels(dir: Path, entries: seq<string>, files: Files, store: LabelStore, train: seq<Path>)
    ensures var r := Run(dir, entries, files, store, train);
      && (forall key :: key in store ==> key in r.labels)
      && (forall n :: n in entries && EndsWith(n, ".jpg") && Written(FixLines, dir, files, n) ==>
            MangledName(ImagePath(dir, n)) in r.labels)
  {
    var images := InvoiceImages(entries);
    var w := WriteLabels(FixLines, dir, images, files, store);
    assert Run(dir, entries, files, store, train).labels == w.0;
    forall n | n in entries && EndsWith(n, ".jpg") && Written(FixLines, dir, files, n)
      ensures MangledName(ImagePath(dir, n)) in w.0
    {
      assert n in images;
      var k :| 0 <= k < |images| && images[k] == n;
    }
  }

  /** The appended paths are the paths of the images, in order, whose
      label file exists. */
  lemma AppendedSpec(dir: Path, names: seq<string>, files: Files)
    ensures forall p :: p in Appended(dir, names, files) <==>
              exists k :: 0 <= k < |names| && LabelPath(dir, names[k]) in files && p == ImagePath(dir, names[k])
  {
    FilterMapSpec(AppendEntry(dir, files), names);
    forall k | 0 <= k < |names| && LabelPath(dir, names[k]) in files
      ensures ImagePath(dir, names[k]) in Appended(dir, names, files)
    {
      FilterMapHas(AppendEntry(dir, files), names, k);
    }
  }

  /** Names of one directory in sorted order give their paths in sorted
      order: the paths share the directory's prefix. */
  lemma {:induction false} AppendedSorted(dir: Path, names: seq<string>, files: Files)
    requires SortedLex(names)
    requires forall k :: 0 <= k < |names| ==> names[k] != ""
    ensures SortedLex(Appended(dir, names, files))
    decreases |names|
  {
    if |names| > 0 {
      var n := names[0];
      var tail := names[1..];
      assert forall k :: 0 <= k < |tail| ==> tail[k] == names[k + 1];
      assert SortedLex(tail) by {
        forall i, j | 0 <= i < j < |tail| ensures LexLessEq(tail[i], tail[j]) {
          assert tail[i] == names[i + 1] && tail[j] == names[j + 1];
        }
      }
      AppendedSorted(dir, tail, files);
      var rest := Appended(dir, tail, files);
      if LabelPath(dir, n) in files {
        assert Appended(dir, names, files) == [ImagePath(dir, n)] + rest;
        AppendedSpec(dir, tail, files);
        forall j | 0 <= j < |rest| ensures LexLessEq(ImagePath(dir, n), rest[j]) {
          assert rest[j] in rest;
          var k :| 0 <= k < |tail| && LabelPath(dir, tail[k]) in files && rest[j] == ImagePath(dir, tail[k]);
          assert LexLessEq(n, tail[k]);
          JoinName(dir, n);
          JoinName(dir, tail[k]);
          LexLessPrefix(DirPrefix(dir), n, tail[k]);
        }
        SortedCons(ImagePath(dir, n), rest);
      } else {
        assert Appended(dir, names, files) == rest;
      }
    }
  }

  /** The paths appended to the training list are in sorted order, the
      order of `sorted(glob("*.jpg"))`. */
  lemma RunAppendedSorted(dir: Path, entries: seq<string>, files: Files, store: LabelStore, train: seq<Path>)
    ensures var r := Run(dir, entries, files, store, train); SortedLex(r.train[|train|..])
  {
    var images := InvoiceImages(entries);
    var r := Run(dir, entries, files, store, train);
    if r.added > 0 {
      forall k | 0 <= k < |images| ensures images[k] != "" {
        assert images[k] in images;
      }
      AppendedSorted(dir, images, files);
    } else {
      assert r.train[|train|..] == [];
    }
  }

  /** `added_count` is the number of `.jpg` images, in sorted order, whose
      label file keeps a line after fixing. */
  lemma RunAdded(dir: Path, entries: seq<string>, files: Files, store: LabelStore, train: seq<Path>)
    ensures Run(dir, entries, files, store, train).added
            == |WrittenNames(FixLines, dir, files, InvoiceImages(entries))|
  {
    WriteLabelsCount(FixLines, dir, InvoiceImages(entries), files, store);
  }

  /** Nothing but invoice labels is written: an entry of the resulting store
      either was there with the same content or is the mangled name of a
      `.jpg` whose label file keeps a line after fixing. */
  lemma RunFrame(dir: Path, entries: seq<string>, files: Files, store: LabelStore, train: seq<Path>, key: string)
    requires key in Run(dir, entries, files, store, train).labels
    ensures var r := Run(dir, entries, files, store, train);
      || (key in store && r.labels[key] == store[key])
      || exists n :: n in entries && EndsWith(n, ".jpg") && Written(FixLines, dir, files, n)
                     && key == MangledName(ImagePath(dir, n))
  {
    var images := InvoiceImages(entries);
    WriteLabelsFrame(FixLines, dir, images, files, store, key);
    if exists k :: 0 <= k < |images| && Written(FixLines, dir, files, images[k])
                   && key == MangledName(ImagePath(dir, images[k])) {
      var k :| 0 <= k < |images| && Written(FixLines, dir, files, images[k])
               && key == MangledName(ImagePath(dir, images[k]));
      assert images[k] in images;
    }
  }

  /** When something was added, the appended paths are exactly the `.jpg`
      images that have a label file, invalid ones included, and there are
      at least as many of them as labels added. */
  lemma RunAppended(dir: Path, entries: seq<string>, files: Files, store: LabelStore, train: seq<Path>)
    ensures var r := Run(dir, entries, files, store, train);
      && r.added <= |r.train| - |train|
      && (r.added > 0 ==> forall p :: p in r.train[|train|..] <==>
            exists n :: n in entries && EndsWith(n, ".jpg") && LabelPath(dir, n) in files && p == ImagePath(dir, n))
  {
    var images := InvoiceImages(entries);
    var r := Run(dir, entries, files, store, train);
    assert r.added <= |r.train| - |train| by {
      AddedAtMostAppended(FixLines, dir, images, files, store);
    }
    if r.added > 0 {
      var app := r.train[|train|..];
      assert app == Appended(dir, images, files);
      AppendedSpec(dir, images, files);
      forall p ensures p in app <==>
          exists n :: n in entries && EndsWith(n, ".jpg") && LabelPath(dir, n) in files && p == ImagePath(dir, n)
      {
        if p in app {
          var k :| 0 <= k < |images| && LabelPath(dir, images[k]) in files && p == ImagePath(dir, images[k]);
          assert images[k] in images;
        }
        if exists n :: n in entries && EndsWith(n, ".jpg") && LabelPath(dir, n) in files && p == ImagePath(dir, n) {
          var n :| n in entries && EndsWith(n, ".jpg") && LabelPath(dir, n) in files && p == ImagePath(dir, n);
          assert n in images;
          var k := IndexOf(images, n);
        }
      }
    }
  }

  /** A directory's names are distinct, so each written image's entry holds
      its own fixed lines: no other invoice overwrites it. */
  lemma RunContent(dir: Path, entries: seq<string>, files: Files, store: LabelStore, train: seq<Path>, n: string)
    requires PlainNames(entries) && Distinct(entries)
    requires n in entries && EndsWith(n, ".jpg") && Written(FixLines, dir, files, n)
    ensures Run(dir, entries, files, store, train).labels[MangledName(ImagePath(dir, n))]
            == TextLines(FixLines(files[LabelPath(dir, n)]))
  {
    var images := InvoiceImages(entries);
    assert Distinct(images) by {
      DistinctCounts(entries);
      CountsDistinct(images);
    }
    assert PlainNames(images) by {
      forall k | 0 <= k < |images| ensures images[k] != "" && '/' !in images[k] {
        assert images[k] in images;
        var e := IndexOf(entries, images[k]);
      }
    }
    var k := IndexOf(images, n);
    WriteLabelsContent(FixLines, dir, images, files, store, k);
  }
}
