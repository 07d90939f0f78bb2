/** The reorganisation script (`fix_yolo_dataset.py`). It reads the two
    manifests the converter wrote, copies every listed image that exists
    into `images/<split>/` under a name built from its position in the
    manifest, copies its label from `labels_all/` under the matching name
    when there is one, and rewrites the manifests to list the copies. The
    file system is the set of paths that exist before the run. */
module FixYoloDataset {
  import opened Options
  import Text
  import opened Numbers
  import opened Paths
  import opened Lists
  import AddInvoices

  /** The dataset directory the script works in. */
  const BaseDir: Path := "/root" + "/colander_image_extraction" + "/data_logodet_yolo"

  /** A manifest line as the script keeps it: stripped, and dropped when
      blank. */
  function ManifestEntry(line: string): Option<Path> {
    var p := Text.Strip(line);
    if p != "" then Some(p) else None
  }

  /** `[line.strip() for line in f if line.strip()]`. */
  function ReadManifest(lines: seq<string>): seq<Path> {
    FilterMap(ManifestEntry, lines)
  }

  /** Non-empty, with no whitespace at either end. */
  predicate Trimmed(p: string) {
    p != "" && !Text.IsSpace(p[0]) && !Text.IsSpace(p[|p| - 1])
  }

  /** Every entry read is a trimmed, non-blank line; nothing is read
      exactly when every line is blank; every non-blank line is read. */
  lemma ReadManifestSpec(lines: seq<string>)
    ensures forall p :: p in ReadManifest(lines) ==> Trimmed(p)
    ensures ReadManifest(lines) == [] <==> forall k :: 0 <= k < |lines| ==> Text.AllSpace(lines[k])
    ensures forall k :: 0 <= k < |lines| && !Text.AllSpace(lines[k]) ==> Text.Strip(lines[k]) in ReadManifest(lines)
  {
    FilterMapSpec(ManifestEntry, lines);
    forall k | 0 <= k < |lines| ensures ManifestEntry(lines[k]).None? <==> Text.AllSpace(lines[k]) {
      Text.StripEmpty(lines[k]);
    }
    forall p | p in ReadManifest(lines) ensures Trimmed(p) {
      var k :| 0 <= k < |lines| && ManifestEntry(lines[k]) == Some(p);
      Text.StripEmpty(lines[k]);
      Text.StripSpec(lines[k]);
    }
    forall k | 0 <= k < |lines| && !Text.AllSpace(lines[k]) ensures Text.Strip(lines[k]) in ReadManifest(lines) {
      Text.StripEmpty(lines[k]);
      FilterMapHas(ManifestEntry, lines, k);
    }
  }

  /** Lines are read one after another, in file order: a further line adds
      its stripped text at the end unless it is blank. With an empty file
      reading nothing, this fixes every result. */
  lemma ReadManifestSnoc(lines: seq<string>, l: string)
    ensures ReadManifest([]) == []
    ensures ReadManifest(lines + [l]) == ReadManifest(lines) + (if Text.AllSpace(l) then [] else [Text.Strip(l)])
  {
    FilterMapAppend(ManifestEntry, lines, [l]);
    Text.StripEmpty(l);
    assert [l][1..] == [];
  }

  /** The lines `f.write(path + "\\n")` puts in a rewritten manifest. */
  function WriteManifest(paths: seq<Path>): (lines: seq<string>)
    ensures |lines| == |paths|
  {
    seq(|paths|, k requires 0 <= k < |paths| => paths[k] + "\n")
  }

  /** Reading back a rewritten manifest gives the paths that were written. */
  lemma {:induction false} ReadWrittenManifest(paths: seq<Path>)
    requires forall k :: 0 <= k < |paths| ==> Trimmed(paths[k])
    ensures ReadManifest(WriteManifest(paths)) == paths
    decreases |paths|
  {
    if |paths| > 0 {
      var lines := WriteManifest(paths);
      assert lines[1..] == WriteManifest(paths[1..]);
      assert forall k :: 0 <= k < |paths| - 1 ==> paths[1..][k] == paths[k + 1];
      ReadWrittenManifest(paths[1..]);
      Text.StripTrailing(paths[0], "\n");
      assert ManifestEntry(lines[0]) == Some(paths[0]);
    }
  }

  /** `f"{split}_{i:06d}{ext}"`. */
  function NewName(split: string, i: nat, ext: string): string {
    split + "_" + ZeroPad(i, 6) + ext
  }

  /** Different positions give different names. */
  lemma NewNameInjective(split: string, ext: string, i: nat, j: nat)
    requires NewName(split, i, ext) == NewName(split, j, ext)
    ensures i == j
  {
    var a := ZeroPad(i, 6);
    var b := ZeroPad(j, 6);
    var n := |split| + 1;
    assert |a| == |b|;
    assert NewName(split, i, ext)[n..n + |a|] == a;
    assert NewName(split, j, ext)[n..n + |b|] == b;
    ZeroPadInjective(i, j, 6);
  }

  /** `base_dir / kind / split`. */
  function SplitDir(base: Path, kind: string, split: string): Path {
    Join(Join(base, kind), split)
  }

  /** Where the image at position `i` is copied. */
  function ImageTarget(base: Path, split: string, i: nat): Path {
    Join(SplitDir(base, "images", split), NewName(split, i, ".jpg"))
  }

  /** Where the label of the image at position `i` is copied. */
  function LabelTarget(base: Path, split: string, i: nat): Path {
    Join(SplitDir(base, "labels", split), NewName(split, i, ".txt"))
  }

  /** `base_dir / "labels_all" / mangled_name`: the label the converter
      saved for `img`, with '/' turned into "__" and no other change. */
  function LabelSource(base: Path, img: Path): Path {
    Join(Join(base, "labels_all"), AddInvoices.MangledName(img))
  }

  /** Names joined onto one directory give the same path only for the
      same position. */
  lemma TargetInjective(dir: Path, split: string, ext: string, i: nat, j: nat)
    ensures Join(dir, NewName(split, i, ext)) == Join(dir, NewName(split, j, ext)) ==> i == j
  {
    var a := NewName(split, i, ext);
    var b := NewName(split, j, ext);
    var d := DirPrefix(dir);
    JoinName(dir, a);
    JoinName(dir, b);
    assert (d + a)[|d|..] == a && (d + b)[|d|..] == b;
    if a == b {
      NewNameInjective(split, ext, i, j);
    }
  }

  /** A new name ends with its extension's last character. */
  lemma NewNameLast(split: string, i: nat, ext: string)
    requires ext != ""
    ensures var n := NewName(split, i, ext); n[|n| - 1] == ext[|ext| - 1]
  {
  }

  /** A non-empty name joined onto a directory ends the path. */
  lemma JoinLast(dir: Path, name: string)
    requires name != ""
    ensures var p := Join(dir, name); p[|p| - 1] == name[|name| - 1]
  {
    JoinName(dir, name);
  }

  /** An image target ends in 'g' and a label target in 't', so no image
      copy lands on a label copy. */
  lemma ImageNotLabel(base: Path, split: string, i: nat, j: nat)
    ensures ImageTarget(base, split, i) != LabelTarget(base, split, j)
  {
    TargetLast(base, "images", split, i, ".jpg");
    TargetLast(base, "labels", split, j, ".txt");
  }

  /** A target path ends in the last character of its extension. */
  lemma TargetLast(base: Path, kind: string, split: string, i: nat, ext: string)
    requires ext != ""
    ensures var p := Join(SplitDir(base, kind, split), NewName(split, i, ext)); p[|p| - 1] == ext[|ext| - 1]
  {
    NewNameLast(split, i, ext);
    JoinLast(SplitDir(base, kind, split), NewName(split, i, ext));
  }

  /** A new name is a single path component whose stem is
      `split_NNNNNN`. */
  lemma NewNameStem(split: string, i: nat, ext: string)
    requires '/' !in split && '/' !in ext
    requires |ext| >= 2 && ext[0] == '.' && '.' !in ext[1..]
    ensures var n := NewName(split, i, ext);
            n != "" && '/' !in n && n != "." && Stem(n) == split + "_" + ZeroPad(i, 6)
  {
    var stem := split + "_" + ZeroPad(i, 6);
    assert '/' !in stem by {
      assert forall k :: |split| < k < |stem| ==> stem[k] == ("_" + ZeroPad(i, 6))[k - |split|];
    }
    assert '/' !in stem + ext;
    StemWithSuffix(stem, ext);
  }

  /** The copied image and its copied label have the same stem,
      `split_NNNNNN`. */
  lemma PairedNames(base: Path, split: string, i: nat)
    requires '/' !in split
    ensures Stem(Name(ImageTarget(base, split, i))) == split + "_" + ZeroPad(i, 6)
    ensures Stem(Name(LabelTarget(base, split, i))) == split + "_" + ZeroPad(i, 6)
  {
    NewNameStem(split, i, ".jpg");
    NewNameStem(split, i, ".txt");
    NameJoin(SplitDir(base, "images", split), NewName(split, i, ".jpg"));
    NameJoin(SplitDir(base, "labels", split), NewName(split, i, ".txt"));
  }

  /** A file copy `shutil.copy2(src, dst)`. */
  datatype Copy = Copy(src: Path, dst: Path)

  /** What one split's loop does: the copies in order and the new paths
      it lists. */
  datatype SplitPlan = SplitPlan(copies: seq<Copy>, listed: seq<Path>)

  /** One iteration, for the image `img` at position `i`: nothing when it
      does not exist; otherwise its copy, its label's copy when the label
      exists, and its new path. */
  function Step(base: Path, split: string, img: Path, i: nat, fs: set<Path>): SplitPlan {
    if img !in fs then SplitPlan([], [])
    else
      var source := LabelSource(base, img);
      var labelCopy := if source in fs then [Copy(source, LabelTarget(base, split, i))] else [];
      SplitPlan([Copy(img, ImageTarget(base, split, i))] + labelCopy, [ImageTarget(base, split, i)])
  }

  /** The loop over `enumerate(images)`. */
  function Plan(base: Path, split: string, images: seq<Path>, fs: set<Path>): SplitPlan
    decreases |images|
  {
    if |images| == 0 then SplitPlan([], [])
    else
      var n := |images| - 1;
      var p := Plan(base, split, images[..n], fs);
      var s := Step(base, split, images[n], n, fs);
      SplitPlan(p.copies + s.copies, p.listed + s.listed)
  }

  /** The positions of the images that exist, in increasing order. */
  function Kept(images: seq<Path>, fs: set<Path>): (r: seq<nat>)
    ensures forall k :: 0 <= k < |r| ==> r[k] < |images| && images[r[k]] in fs
    ensures forall a, b :: 0 <= a < b < |r| ==> r[a] < r[b]
    ensures forall i :: 0 <= i < |images| && images[i] in fs ==> i in r
    ensures |r| <= |images|
    decreases |images|
  {
    if |images| == 0 then []
    else
      var n := |images| - 1;
      var r := Kept(images[..n], fs) + (if images[n] in fs then [n] else []);
      assert forall i :: 0 <= i < n ==> images[..n][i] == images[i];
      r
  }

  /** The new manifest lists the new path of every image that exists, in
      the manifest's order and nothing else. */
  lemma {:induction false} PlanListed(base: Path, split: string, images: seq<Path>, fs: set<Path>)
    ensures |Plan(base, split, images, fs).listed| == |Kept(images, fs)|
    ensures forall k :: 0 <= k < |Kept(images, fs)| ==>
              Plan(base, split, images, fs).listed[k] == ImageTarget(base, split, Kept(images, fs)[k])
    decreases |images|
  {
    if |images| > 0 {
      PlanListed(base, split, images[..|images| - 1], fs);
    }
  }

  /** An image's new path is listed exactly when the image exists. */
  lemma PlanListedIff(base: Path, split: string, images: seq<Path>, fs: set<Path>, i: nat)
    requires i < |images|
    ensures ImageTarget(base, split, i) in Plan(base, split, images, fs).listed <==> images[i] in fs
  {
    var listed := Plan(base, split, images, fs).listed;
    var kept := Kept(images, fs);
    PlanListed(base, split, images, fs);
    if images[i] in fs {
      var k := IndexOf(kept, i);
      assert listed[k] == ImageTarget(base, split, i);
    }
    if ImageTarget(base, split, i) in listed {
      var k := IndexOf(listed, ImageTarget(base, split, i));
      TargetInjective(SplitDir(base, "images", split), split, ".jpg", kept[k], i);
    }
  }

  /** No path is listed twice. */
  lemma PlanListedDistinct(base: Path, split: string, images: seq<Path>, fs: set<Path>)
    ensures Distinct(Plan(base, split, images, fs).listed)
  {
    var listed := Plan(base, split, images, fs).listed;
    var kept := Kept(images, fs);
    PlanListed(base, split, images, fs);
    forall a, b | 0 <= a < b < |listed| ensures listed[a] != listed[b] {
      TargetInjective(SplitDir(base, "images", split), split, ".jpg", kept[a], kept[b]);
    }
  }

  /** The copy `c` belongs to the image at position `i`: the image exists
      and `c` is its copy or its label's. */
  predicate FromIndex(base: Path, split: string, images: seq<Path>, fs: set<Path>, c: Copy, i: nat)
    requires i < |images|
  {
    && images[i] in fs
    && (|| c == Copy(images[i], ImageTarget(base, split, i))
        || (LabelSource(base, images[i]) in fs && c == Copy(LabelSource(base, images[i]), LabelTarget(base, split, i))))
  }

  /** Every copy belongs to an image that exists. */
  lemma {:induction false} PlanCopiesFrom(base: Path, split: string, images: seq<Path>, fs: set<Path>)
    ensures forall c :: c in Plan(base, split, images, fs).copies ==>
              exists i :: 0 <= i < |images| && FromIndex(base, split, images, fs, c, i)
    decreases |images|
  {
    if |images| > 0 {
      var n := |images| - 1;
      var p := Plan(base, split, images[..n], fs);
      var st := Step(base, split, images[n], n, fs).copies;
      assert Plan(base, split, images, fs).copies == p.copies + st;
      PlanCopiesFrom(base, split, images[..n], fs);
      forall c | c in p.copies + st ensures exists i :: 0 <= i < |images| && FromIndex(base, split, images, fs, c, i) {
        if c in p.copies {
          var i :| 0 <= i < n && FromIndex(base, split, images[..n], fs, c, i);
          assert images[..n][i] == images[i];
          assert FromIndex(base, split, images, fs, c, i);
        } else {
          assert FromIndex(base, split, images, fs, c, n);
        }
      }
    }
  }

  /** The image `img` at position `i`, when it exists, is among
      `copies`, and so is its label when the label exists. */
  predicate CopiedAt(base: Path, split: string, img: Path, i: nat, fs: set<Path>, copies: seq<Copy>) {
    && (img in fs ==> Copy(img, ImageTarget(base, split, i)) in copies)
    && (img in fs && LabelSource(base, img) in fs ==>
          Copy(LabelSource(base, img), LabelTarget(base, split, i)) in copies)
  }

  lemma CopiedAtAppend(base: Path, split: string, img: Path, i: nat, fs: set<Path>, p: seq<Copy>, st: seq<Copy>)
    requires CopiedAt(base, split, img, i, fs, p)
    ensures CopiedAt(base, split, img, i, fs, p + st)
  {
  }

  lemma CopiedAtPrepend(base: Path, split: string, img: Path, i: nat, fs: set<Path>, p: seq<Copy>, st: seq<Copy>)
    requires st == Step(base, split, img, i, fs).copies
    ensures CopiedAt(base, split, img, i, fs, p + st)
  {
  }

  /** Every image that exists is copied, and so is its label when the
      label exists. */
  lemma {:induction false} PlanCopiesAll(base: Path, split: string, images: seq<Path>, fs: set<Path>)
    ensures forall i :: 0 <= i < |images| ==>
              CopiedAt(base, split, images[i], i, fs, Plan(base, split, images, fs).copies)
    decreases |images|
  {
    if |images| > 0 {
      var n := |images| - 1;
      var p := Plan(base, split, images[..n], fs).copies;
      var st := Step(base, split, images[n], n, fs).copies;
      var copies := Plan(base, split, images, fs).copies;
      assert copies == p + st;
      PlanCopiesAll(base, split, images[..n], fs);
      CopiedAtPrepend(base, split, images[n], n, fs, p, st);
      forall i | 0 <= i < |images| ensures CopiedAt(base, split, images[i], i, fs, copies) {
        if i < n {
          assert images[..n][i] == images[i];
          CopiedAtAppend(base, split, images[i], i, fs, p, st);
        } else {
          assert i == n;
        }
      }
    }
  }

  /** A copy that belongs to position `j` and lands on position `i`'s
      image path is the copy of that image. */
  lemma ImageTargetOwner(base: Path, split: string, images: seq<Path>, fs: set<Path>, c: Copy, i: nat, j: nat)
    requires i < |images| && j < |images| && FromIndex(base, split, images, fs, c, j)
    ensures c.dst == ImageTarget(base, split, i) ==> i == j && c.src == images[i]
  {
    TargetInjective(SplitDir(base, "images", split), split, ".jpg", i, j);
    ImageNotLabel(base, split, i, j);
  }

  /** A copy that belongs to position `j` and lands on position `i`'s
      label path is the copy of that image's label. */
  lemma LabelTargetOwner(base: Path, split: string, images: seq<Path>, fs: set<Path>, c: Copy, i: nat, j: nat)
    requires i < |images| && j < |images| && FromIndex(base, split, images, fs, c, j)
    ensures c.dst == LabelTarget(base, split, i) ==>
              i == j && c.src == LabelSource(base, images[i]) && LabelSource(base, images[i]) in fs
  {
    TargetInjective(SplitDir(base, "labels", split), split, ".txt", i, j);
    ImageNotLabel(base, split, j, i);
  }

  /** The copies of earlier positions never write the files of the last
      one. */
  lemma BeforeLast(base: Path, split: string, images: seq<Path>, fs: set<Path>, c: Copy)
    requires |images| > 0 && c in Plan(base, split, images[..|images| - 1], fs).copies
    ensures c.dst != ImageTarget(base, split, |images| - 1) && c.dst != LabelTarget(base, split, |images| - 1)
  {
    var n := |images| - 1;
    PlanCopiesFrom(base, split, images[..n], fs);
    var i :| 0 <= i < n && FromIndex(base, split, images[..n], fs, c, i);
    assert images[..n][i] == images[i];
    ImageTargetOwner(base, split, images, fs, c, n, i);
    LabelTargetOwner(base, split, images, fs, c, n, i);
  }

  /** No two copies in `copies` write the same file. */
  predicate DistinctDsts(copies: seq<Copy>) {
    forall a, b :: 0 <= a < b < |copies| ==> copies[a].dst != copies[b].dst
  }

  /** Appending copies that write only `u` or `v`, once each, to copies
      that write neither keeps the destinations distinct. */
  lemma DistinctDstsAppend(p: seq<Copy>, st: seq<Copy>, u: Path, v: Path)
    requires DistinctDsts(p) && DistinctDsts(st)
    requires forall x :: 0 <= x < |st| ==> st[x].dst == u || st[x].dst == v
    requires forall c :: c in p ==> c.dst != u && c.dst != v
    ensures DistinctDsts(p + st)
  {
    var copies := p + st;
    forall a, b | 0 <= a < b < |copies| ensures copies[a].dst != copies[b].dst {
      if b < |p| {
        assert copies[a] == p[a] && copies[b] == p[b];
      } else if a >= |p| {
        assert copies[a] == st[a - |p|] && copies[b] == st[b - |p|];
      } else {
        assert copies[a] == p[a] && p[a] in p && copies[b] == st[b - |p|];
      }
    }
  }

  /** One iteration writes at most the image's and the label's new paths,
      each once. */
  lemma StepDsts(base: Path, split: string, img: Path, n: nat, fs: set<Path>)
    ensures var st := Step(base, split, img, n, fs).copies;
            && DistinctDsts(st)
            && forall x :: 0 <= x < |st| ==>
                 st[x].dst == ImageTarget(base, split, n) || st[x].dst == LabelTarget(base, split, n)
  {
    var st := Step(base, split, img, n, fs).copies;
    var it := ImageTarget(base, split, n);
    var lt := LabelTarget(base, split, n);
    ImageNotLabel(base, split, n, n);
    if img in fs {
      var source := LabelSource(base, img);
      if source in fs {
        assert st == [Copy(img, it), Copy(source, lt)];
      } else {
        assert st == [Copy(img, it)];
      }
    }
    CopiesToTwo(st, it, lt);
  }

  /** At most an image copy to `u` followed by a label copy to `v`, with
      `u != v`, writes each destination once. */
  lemma CopiesToTwo(st: seq<Copy>, u: Path, v: Path)
    requires u != v && |st| <= 2
    requires |st| >= 1 ==> st[0].dst == u
    requires |st| == 2 ==> st[1].dst == v
    ensures DistinctDsts(st)
    ensures forall x :: 0 <= x < |st| ==> st[x].dst == u || st[x].dst == v
  {
  }

  /** No two copies write the same file. */
  lemma {:induction false} PlanDstsDistinct(base: Path, split: string, images: seq<Path>, fs: set<Path>)
    ensures DistinctDsts(Plan(base, split, images, fs).copies)
    decreases |images|
  {
    if |images| > 0 {
      var n := |images| - 1;
      var p := Plan(base, split, images[..n], fs).copies;
      var st := Step(base, split, images[n], n, fs).copies;
      assert Plan(base, split, images, fs).copies == p + st;
      PlanDstsDistinct(base, split, images[..n], fs);
      StepDsts(base, split, images[n], n, fs);
      forall c | c in p ensures c.dst != ImageTarget(base, split, n) && c.dst != LabelTarget(base, split, n) {
        BeforeLast(base, split, images, fs, c);
      }
      DistinctDstsAppend(p, st, ImageTarget(base, split, n), LabelTarget(base, split, n));
    }
  }

  /** New paths under a directory that starts with non-whitespace are
      trimmed, so the rewritten manifest reads back unchanged. */
  lemma TargetTrimmed(base: Path, split: string, i: nat)
    requires base != "" && base != "." && !Text.IsSpace(base[0]) && split != ""
    ensures Trimmed(ImageTarget(base, split, i))
  {
    var images := Join(base, "images");
    JoinHead(base, "images");
    JoinHead(images, split);
    var dir := SplitDir(base, "images", split);
    var name := NewName(split, i, ".jpg");
    JoinHead(dir, name);
    NewNameLast(split, i, ".jpg");
    JoinLast(dir, name);
  }

  /** What the script leaves behind: the copies of both splits, train
      first, and the two rewritten manifests. */
  datatype Reorganised = Reorganised(copies: seq<Copy>, trainManifest: seq<string>, valManifest: seq<string>)

  /** `main`, given the lines of `train.txt` and `val.txt` and the files
      that exist. */
  function Run(trainLines: seq<string>, valLines: seq<string>, fs: set<Path>): Reorganised {
    var train := Plan(BaseDir, "train", ReadManifest(trainLines), fs);
    var val := Plan(BaseDir, "val", ReadManifest(valLines), fs);
    Reorganised(train.copies + val.copies, WriteManifest(train.listed), WriteManifest(val.listed))
  }

  /** Each rewritten manifest reads back as the new paths of its split's
      existing images, in order, and is no longer than the old one. */
  lemma RunManifests(trainLines: seq<string>, valLines: seq<string>, fs: set<Path>)
    ensures ReadManifest(Run(trainLines, valLines, fs).trainManifest)
            == Plan(BaseDir, "train", ReadManifest(trainLines), fs).listed
    ensures ReadManifest(Run(trainLines, valLines, fs).valManifest)
            == Plan(BaseDir, "val", ReadManifest(valLines), fs).listed
    ensures |ReadManifest(Run(trainLines, valLines, fs).trainManifest)| <= |ReadManifest(trainLines)|
    ensures |ReadManifest(Run(trainLines, valLines, fs).valManifest)| <= |ReadManifest(valLines)|
  {
    RunSplitManifest("train", ReadManifest(trainLines), fs);
    RunSplitManifest("val", ReadManifest(valLines), fs);
  }

  lemma RunSplitManifest(split: string, images: seq<Path>, fs: set<Path>)
    requires split != ""
    ensures ReadManifest(WriteManifest(Plan(BaseDir, split, images, fs).listed))
            == Plan(BaseDir, split, images, fs).listed
    ensures |Plan(BaseDir, split, images, fs).listed| <= |images|
  {
    var listed := Plan(BaseDir, split, images, fs).listed;
    var kept := Kept(images, fs);
    PlanListed(BaseDir, split, images, fs);
    assert BaseDir[0] == '/';
    forall k | 0 <= k < |listed| ensures Trimmed(listed[k]) {
      TargetTrimmed(BaseDir, split, kept[k]);
    }
    ReadWrittenManifest(listed);
  }
}
