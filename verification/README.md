# colander_image_extraction: the dataset scripts' logic, in Dafny

The repository turns LogoDet-3K's Pascal-VOC annotations and a folder of
hand-labelled invoices into a single-class YOLO dataset, and crops detected
logos out of images. Its glue code drives YOLO, OpenCV, PIL and Streamlit.
Underneath the glue sit four small, deterministic pieces of logic, and this
project models them and proves what they promise:

- **The VOC to YOLO converter**, `prep_logodet_yolo_nocopy.py` and its
  command-line twin `prep_logodet_yolo_nocopy_gpu.py`. Modelled in
  modules `PrepLogodet` and `PrepLogodetGpu`. It covers:
  - the corner-to-centre box transform;
  - `parse_xml`: read the declared size, resolve the image, convert every
    object that parses, drop a file with no boxes;
  - first-occurrence de-duplication by image path;
  - the shuffle and the `max(1, int(n * frac))` validation split;
  - the label-name mangling;
  - `save_split`: write a label only if absent, always list the path.
- **The invoice merger**, `add_invoices.py`, modelled in module
  `AddInvoices`. It covers:
  - the five-token label-line fix;
  - its own mangling rule;
  - the unconditional label write and the `added_count`;
  - the selection of the paths appended to `train.txt`.
- **The reorganisation plan**, `fix_yolo_dataset.py`, modelled in module
  `FixYoloDataset`. It covers:
  - reading the manifests;
  - the index-based `train_{i:06d}` / `val_{i:06d}` renaming;
  - the copies of existing images and of their labels;
  - the rewritten manifests.
- **Crop-box clamping**: `crop_pad` (`detect_and_identify.py`) and
  `crop_with_pad` (`app_logo_extract.py`), modelled in modules
  `DetectAndIdentify` and `AppLogoExtract`. Each truncates the box, pads
  it, clamps it to the image and slices the numpy array (module `Arrays`).

Shared modules model the Python and `pathlib` behaviour these scripts rely
on:

- `Text`: `str.strip`, `str.split`, `join`, one-character `replace` and
  code-point `sorted`.
- `Numbers`: `int()`/`float()` on decimal literals, `int(x)` truncation
  and `{:06d}`.
- `Paths`: `.name`, `.parent`, `.stem`, `.with_suffix` and `/`.
- `Xml`: `find`, `findtext`, `findall` and the `"size/width"` path lookup.
- `Shuffle`: CPython's `random.shuffle` loop.
- `Labels`, `Lists` and `Options`: data types and sequence helpers.

How the outside world is represented:

- The file system is the set of paths that exist.
- The flat `labels_all` directory is a map from file name to content.
- The invoice directory is a map from path to the lines `readlines`
  returns.
- An annotation file arrives already parsed, with no document when the XML
  is malformed.
- The following are parameters:
  - the order in which worker results are collected;
  - the iteration order of `IMG_EXTS`;
  - the outputs of the random generator.

Some scripts raise where they would divide by zero or find nothing.
Those outcomes are modelled as `Result`/`ParseOutcome` values.

## Model

| member | source | states |
|---|---|---|
| PrepLogodet.BboxRoundTrip | prep_logodet_yolo_nocopy.py:16-21 | for a non-zero size, converting the YOLO box back to corners gives the original corners: the transform is exactly centre `(x1+x2)/2w`, `(y1+y2)/2h` and extent `(x2-x1)/w`, `(y2-y1)/h` |
| PrepLogodet.BboxInsideImage | prep_logodet_yolo_nocopy.py:16-21 | a box inside a positive-sized image gives centre and size in [0, 1], with `cx - bw/2 = x1/w`, `cx + bw/2 = x2/w` and likewise vertically |
| PrepLogodet.BboxNotClamped | prep_logodet_yolo_nocopy.py:16-21 | nothing is clamped: a box overhanging the declared width yields `cx > 1` |
| PrepLogodet.ReadSize | prep_logodet_yolo_nocopy.py:28-30 | the size is read iff there is a `<size>` element and the texts of its `<width>` and `<height>` both parse as integers, and then it is those two integers |
| PrepLogodet.ObjectCorners | prep_logodet_yolo_nocopy.py:56-63 | an object gives corners iff it has a `<bndbox>` whose `xmin`, `ymin`, `xmax` and `ymax` all parse as floats, and then the corners are those four values |
| PrepLogodet.CornerListOne | prep_logodet_yolo_nocopy.py:55-63 | a single object contributes exactly its corners when they parse and nothing otherwise; with `CornerListAppend`, the box list has one entry per parsable object, in document order |
| PrepLogodet.CornerListSpec | prep_logodet_yolo_nocopy.py:54-65 | the box list is empty iff no object parses, and every listed box is what some object parsed to |
| PrepLogodet.CornerListAppend | prep_logodet_yolo_nocopy.py:55-63 | objects are skipped one by one: two runs of objects give the two box lists one after the other, in document order |
| PrepLogodet.FirstExistingNone | prep_logodet_yolo_nocopy.py:44-48 | the extension loop finds nothing iff no candidate exists |
| PrepLogodet.FirstExistingFirst | prep_logodet_yolo_nocopy.py:44-48 | the loop's hit is a candidate such that no earlier candidate exists (the `break`) |
| PrepLogodet.ResolveImage | prep_logodet_yolo_nocopy.py:35-51 | the chosen image exists and is not empty; an existing `<filename>` candidate is the image; the result is None iff neither the candidate nor any same-stem sibling exists; a fallback is the first existing sibling in iteration order |
| PrepLogodet.ResolveImageExts | prep_logodet_yolo_nocopy.py:42-51 | whatever the set's iteration order, no image resolves iff neither the `<filename>` candidate nor a same-stem file with an `IMG_EXTS` extension exists, and a fallback has one of those extensions |
| PrepLogodet.ToLines | prep_logodet_yolo_nocopy.py:53-65 | one line per box, in order, each of class 0 and converting back to its box's corners |
| PrepLogodet.ParseXmlSpec | prep_logodet_yolo_nocopy.py:23-70 | a file is skipped iff the XML is malformed, the size is unreadable, no image resolves or no object parses; the conversion divides by zero iff it is not skipped and a declared size is 0; a parsed file carries the resolved, existing image and one class-0 line per parsed object that converts back to that object's corners |
| PrepLogodet.ValidPairs | prep_logodet_yolo_nocopy.py:87 | a pair is kept iff it is the result of some file that parsed |
| PrepLogodet.ParsedPaths | prep_logodet_yolo_nocopy.py:87 | the kept pairs' paths are exactly the images of the outcomes that parsed |
| PrepLogodet.FirstOccurrences | prep_logodet_yolo_nocopy.py:91-97 | the reference de-duplication keeps no path twice, keeps every path of the input, and keeps only input pairs |
| PrepLogodet.FirstOccurrencesOrder | prep_logodet_yolo_nocopy.py:91-97 | every kept pair is the first pair of the input with its path (it keeps its first occurrence's boxes), and kept pairs appear in the order of their first occurrences |
| PrepLogodet.DedupeStep | prep_logodet_yolo_nocopy.py:94-97 | one loop iteration appends the pair iff its path was not seen, and adds its path to the seen set |
| PrepLogodet.Dedupe | prep_logodet_yolo_nocopy.py:91-97 | the `seen`/`unique` loop computes the reference de-duplication; its result has distinct paths and covers every input path |
| PrepLogodet.ValCount | prep_logodet_yolo_nocopy.py:102 | the validation size is 1 exactly when `n * frac < 2` (a negative `--val` included), and otherwise `floor(n * frac)`, with the product taken over exact reals |
| PrepLogodet.ValCountTenth | prep_logodet_yolo_nocopy.py:102 | with `VAL_FRACTION = 0.10` the validation size is `max(1, n div 10)` |
| PrepLogodet.ValCountFits | prep_logodet_yolo_nocopy.py:101-104 | for a non-empty list and a fraction in [0, 1], the validation size does not exceed the list |
| PrepLogodet.SplitVal | prep_logodet_yolo_nocopy.py:100-104 | validation then training is the shuffled list; validation holds `min(n_val, n_total)` pairs, as the slices clamp |
| PrepLogodet.LabelNameShape | prep_logodet_yolo_nocopy.py:113-114 | a label name ends with `.txt` and its stem contains no `:` and no `/`; a path with neither is its own stem |
| PrepLogodet.LabelNameCollides | prep_logodet_yolo_nocopy.py:113 | the mangling is not injective: paths that differ only by `:` versus `_` share one label file |
| PrepLogodet.SaveLabels | prep_logodet_yolo_nocopy.py:107-117 | an existing label file keeps its content; every saved image gets a label file; every new file belongs to a saved image |
| PrepLogodet.SaveLabelsContent | prep_logodet_yolo_nocopy.py:115-117 | a label file that did not exist gets the boxes of the first pair that maps to its name |
| PrepLogodet.Emit | prep_logodet_yolo_nocopy.py:107-121 | the val list followed by the train list is the shuffled pairs' paths, in order; existing labels are unchanged; every listed path has a label file |
| PrepLogodet.EmitLists | prep_logodet_yolo_nocopy.py:103-121 | each list is exactly its split's paths, in order, whether or not their labels already existed |
| PrepLogodet.RunSpec | prep_logodet_yolo_nocopy.py:72-89 | a run stops for want of XML iff there is none; on a division by zero iff some file's conversion divides by zero; for want of pairs iff every file was skipped |
| PrepLogodet.RunOk | prep_logodet_yolo_nocopy.py:86-121 | a completed run had valid pairs and wrote the split of a shuffle of their first occurrences |
| PrepLogodet.RunPaths | prep_logodet_yolo_nocopy.py:87-104 | in a completed run, no path is listed twice or in both lists; the lists hold exactly the images of the files that parsed; the validation list is not empty |
| PrepLogodet.EmittedPaths | prep_logodet_yolo_nocopy.py:99-121 | for any rearrangement of the de-duplicated pairs, the written lists are distinct, hold exactly the parsed paths, and have a non-empty validation list when some pair parsed |
| PrepLogodet.PermutedDistinctPaths | prep_logodet_yolo_nocopy.py:100 | rearranging pairs with distinct paths keeps the paths distinct |
| PrepLogodet.PermutedPaths | prep_logodet_yolo_nocopy.py:100 | a rearrangement lists the same set of paths |
| Shuffle.Shuffle | prep_logodet_yolo_nocopy.py:100 | `random.shuffle` yields a permutation: same length and same multiset of elements |
| Shuffle.Swap | prep_logodet_yolo_nocopy.py:100 | one step of the shuffle exchanges two positions and leaves the others unchanged |
| Shuffle.PermutationDistinctBy | prep_logodet_yolo_nocopy.py:100 | a permutation of a sequence whose keys are pairwise distinct has pairwise distinct keys |
| Shuffle.ShuffleDistinct | prep_logodet_yolo_nocopy.py:100 | shuffling keeps distinct image paths distinct |
| PrepLogodetGpu.ReadSizeGpu | prep_logodet_yolo_nocopy_gpu.py:20-21 | the size is read iff the texts found by `find("size/width")` and `find("size/height")` both parse as integers, and then it is those two integers |
| PrepLogodetGpu.ReadSizeAgrees | prep_logodet_yolo_nocopy_gpu.py:20-21 | with at most one `<size>`, the path lookups read the same size as the two-step lookup |
| PrepLogodetGpu.ReadSizeDiffers | prep_logodet_yolo_nocopy_gpu.py:20-21 | with an empty first `<size>` and a complete second one, the two scripts disagree: one fails, the other reads the second |
| PrepLogodetGpu.ParseXmlGpu | prep_logodet_yolo_nocopy_gpu.py:16-52 | a malformed XML file, an unreadable size, an unresolvable image or no parsed object skips the file; a division by zero needs a zero declared size; a parsed image exists and is not empty |
| PrepLogodetGpu.ParseXmlGpuSpec | prep_logodet_yolo_nocopy_gpu.py:16-52 | whatever the number of `<size>` elements, a file is skipped iff the XML is malformed, the path lookups give no integer size, no image resolves or no object parses; it divides by zero iff not skipped and a size is 0; a parsed file carries the resolved image and one class-0 line per parsed object that converts back to its corners |
| PrepLogodetGpu.ParseXmlGpuAgrees | prep_logodet_yolo_nocopy_gpu.py:16-52 | with at most one `<size>`, both scripts parse a file identically, including the `bndbox is None` skip |
| PrepLogodetGpu.TruthyPairs | prep_logodet_yolo_nocopy_gpu.py:75 | a pair is kept iff some file parsed to it and its path is non-empty |
| PrepLogodetGpu.TruthyPairsAreValid | prep_logodet_yolo_nocopy_gpu.py:75 | when no parsed path is empty, the truthiness filter equals the `is not None` filter |
| PrepLogodetGpu.EmitEmpty | prep_logodet_yolo_nocopy_gpu.py:82-96 | with no unique pairs, the clamped slices give two empty lists and no label is written |
| PrepLogodetGpu.RunGpu | prep_logodet_yolo_nocopy_gpu.py:54-99 | the run stops for want of XML iff there is none, on a division by zero iff some conversion divides by zero, and never for want of pairs |
| PrepLogodetGpu.FinishGpu | prep_logodet_yolo_nocopy_gpu.py:72-99 | after the parse, the run fails exactly when some conversion divided by zero, and then with that error |
| PrepLogodetGpu.ParseAllGpuAgrees | prep_logodet_yolo_nocopy_gpu.py:72-73 | with at most one `<size>` per file, both scripts produce the same outcome list and no parsed path in it is empty |
| PrepLogodetGpu.FinishGpuAgrees | prep_logodet_yolo_nocopy_gpu.py:75-99 | when no parsed path is empty, the two mains agree after the parse, except that the command-line one writes empty lists where the other stops for want of pairs |
| PrepLogodetGpu.RunGpuNothingParsed | prep_logodet_yolo_nocopy_gpu.py:75-99 | when every file is skipped, the run completes with two empty lists and an unchanged label directory |
| PrepLogodetGpu.RunGpuAgrees | prep_logodet_yolo_nocopy_gpu.py:54-99 | with the default `--val` and at most one `<size>` per file, the command-line script does what the configured one does, except that it writes empty lists where the other stops for want of pairs |
| AddInvoices.FixLineSpec | add_invoices.py:47-51 | a line is kept iff it splits into exactly 5 tokens; a kept line ends with a newline and splits into `0` followed by the original's tokens 2 to 5 |
| AddInvoices.FixLineFixed | add_invoices.py:46-51 | fixing a fixed line gives it back unchanged |
| AddInvoices.FixLinesIdempotent | add_invoices.py:46-51 | fixing a fixed label file changes nothing |
| AddInvoices.FixLinesSpec | add_invoices.py:46-55 | a fixed label is empty iff no line has 5 tokens, and each output line is the fix of some input line |
| AddInvoices.InvoiceImages | add_invoices.py:22 | the images are exactly the `.jpg` names of the directory, in sorted order, each at most as often as listed |
| AddInvoices.MangledIsLabelName | add_invoices.py:59-60 | for a path without `:`, the invoice label name equals the converter's label name |
| AddInvoices.MangledDiffersOnColon | add_invoices.py:59-60 | for a path with `:`, the two mangling rules give different names |
| AddInvoices.MangledDistinct | add_invoices.py:59-61 | distinct names in one directory get distinct label names |
| AddInvoices.WriteLabels | add_invoices.py:31-68 | existing label names stay present; every image whose label file has a valid line gets a label; `added_count` is 0 iff no image qualifies, and then the store is unchanged |
| AddInvoices.WriteLabelsCount | add_invoices.py:31-68 | `added_count` is the number of images whose label file exists and keeps a line after fixing: an image without a label file or with no valid line is not counted |
| AddInvoices.WriteLabelsFrame | add_invoices.py:31-68 | nothing else is written: every label in the result either was there with the same content or belongs to an image whose label file exists and keeps a line after fixing |
| AddInvoices.WriteLabelsKeeps | add_invoices.py:64-65 | a label no written image maps to keeps its content |
| AddInvoices.WriteLabelsContent | add_invoices.py:61-65 | with distinct plain names, each written image's label holds its fixed lines |
| AddInvoices.AddedAtMostAppended | add_invoices.py:79-83 | the number of appended paths is at least `added_count` |
| AddInvoices.AppendedSpec | add_invoices.py:79-83 | a path is appended iff it is an image's path and the image has a `.txt` file |
| AddInvoices.Run | add_invoices.py:21-83 | the old training list is kept as a prefix, and when nothing was added neither the labels nor the training list change |
| AddInvoices.RunAppendedSorted | add_invoices.py:80-83 | the paths appended to the training list are in sorted order, the order of `sorted(glob("*.jpg"))` |
| AddInvoices.RunAdded | add_invoices.py:22-68 | the reported `added_count` is the number of `.jpg` images whose label file exists and keeps a line after fixing |
| AddInvoices.RunFrame | add_invoices.py:22-68 | every label in the resulting store either was there with the same content or is the mangled name of a `.jpg` whose label file keeps a line after fixing |
| AddInvoices.RunAddsNothing | add_invoices.py:70-75 | nothing is added iff no `.jpg` has a label file with a five-token line |
| AddInvoices.RunLabels | add_invoices.py:31-68 | existing label names survive, and every qualifying `.jpg` gets a label under its mangled name |
| AddInvoices.RunAppended | add_invoices.py:77-83 | the appended paths are at least `added_count` in number, and when something was added they are exactly the `.jpg` images with a `.txt` file, invalid labels included |
| AddInvoices.RunContent | add_invoices.py:59-65 | each qualifying image's label file is overwritten with its own fixed lines |
| FixYoloDataset.ReadManifestSpec | fix_yolo_dataset.py:14-18 | entries are stripped and non-blank; nothing is read iff every line is blank; every non-blank line is read |
| FixYoloDataset.ReadManifestSnoc | fix_yolo_dataset.py:14-18 | lines are read in file order: an empty file reads as nothing, and a further line appends its stripped text at the end unless it is blank |
| FixYoloDataset.ReadWrittenManifest | fix_yolo_dataset.py:91-97 | a rewritten manifest of trimmed paths reads back as those paths |
| FixYoloDataset.NewNameInjective | fix_yolo_dataset.py:36 | different indices give different new names |
| FixYoloDataset.TargetInjective | fix_yolo_dataset.py:35-37 | new paths in one directory coincide only for the same index |
| FixYoloDataset.ImageNotLabel | fix_yolo_dataset.py:36-51 | no image copy lands on a label copy |
| FixYoloDataset.NewNameStem | fix_yolo_dataset.py:36-50 | a new name is a single path component with stem `split_NNNNNN` |
| FixYoloDataset.PairedNames | fix_yolo_dataset.py:35-52 | a copied image and its copied label share the stem `split_NNNNNN` |
| FixYoloDataset.Kept | fix_yolo_dataset.py:24-33 | the kept indices are increasing, each of an existing image, and include every existing image |
| FixYoloDataset.PlanListed | fix_yolo_dataset.py:24-41 | the new manifest is the new path of each existing image, by original index, in order and nothing else |
| FixYoloDataset.PlanListedIff | fix_yolo_dataset.py:29-41 | an image's new path is listed iff the image exists |
| FixYoloDataset.PlanListedDistinct | fix_yolo_dataset.py:35-41 | no new path is listed twice |
| FixYoloDataset.PlanCopiesFrom | fix_yolo_dataset.py:24-55 | every copy is of an existing image to its new path, or of that image's existing mangled label to the matching label path |
| FixYoloDataset.PlanCopiesAll | fix_yolo_dataset.py:24-55 | every existing image is copied, and so is its label when the mangled label exists |
| FixYoloDataset.StepDsts | fix_yolo_dataset.py:35-52 | one iteration writes at most the image's and the label's new paths, each once |
| FixYoloDataset.PlanDstsDistinct | fix_yolo_dataset.py:24-55 | no two copies write the same file |
| FixYoloDataset.TargetTrimmed | fix_yolo_dataset.py:37-41 | new paths under the dataset directory are non-blank and unpadded |
| FixYoloDataset.RunManifests | fix_yolo_dataset.py:89-97 | each rewritten manifest reads back as its split's new paths and is no longer than the old one |
| FixYoloDataset.RunSplitManifest | fix_yolo_dataset.py:89-97 | one split's rewritten manifest reads back as the listed paths, and lists no more than the manifest read |
| DetectAndIdentify.PadWindow | detect_and_identify.py:15-19 | starts are at least 0 and at least the truncated start minus `pad`; ends are at most the image size and at most the truncated end plus `pad`; so each bound moves outwards when `pad >= 0` and the truncated bound lies inside the image |
| DetectAndIdentify.PadWindowClamp | detect_and_identify.py:18-19 | each bound equals the image edge or the padded truncated bound; with `PadWindow`'s bounds the window is exactly the clamped padded box, `x1 = max(0, x1 - pad)`, `x2 = min(w, x2 + pad)` and likewise for y |
| DetectAndIdentify.PadWindowZero | detect_and_identify.py:18-19 | with pad 0 a box inside the image is its own window |
| DetectAndIdentify.CropPad | detect_and_identify.py:15-20 | the crop is a rectangular array no larger than the image |
| DetectAndIdentify.CropPadContent | detect_and_identify.py:15-20 | when no end is negative, the crop is the part of the image inside the padded window |
| DetectAndIdentify.CropPadContains | detect_and_identify.py:18-20 | with `pad >= 0` every pixel of a box inside the image is in the crop, at its offset from the window's corner |
| DetectAndIdentify.CropPadExact | detect_and_identify.py:18-20 | with pad 0 a box inside the image is cropped to exactly its own pixels |
| DetectAndIdentify.CropPadNegativeEnd | detect_and_identify.py:19-20 | ends are not bounded below by 0: a box left of the image yields a negative end that numpy counts from the right edge |
| AppLogoExtract.CropWithPad | app_logo_extract.py:23-31 | the crop is a rectangular array |
| AppLogoExtract.CropWithPadAgrees | app_logo_extract.py:23-31 | `crop_with_pad` equals `crop_pad` for every image, box and pad, and also with the default pad of 8 |
| AppLogoExtract.CropWithPadContains | app_logo_extract.py:27-31 | with `pad >= 0` a box inside the image is contained in the padded crop, whose size is the clamped window's |
| Arrays.SliceSpec | detect_and_identify.py:20 | within bounds, `s[lo:hi]` holds the elements from `lo` up to `hi` |
| Arrays.CropSpec | detect_and_identify.py:20 | within bounds, `a[y1:y2, x1:x2]` is the sub-rectangle from `(y1, x1)` up to `(y2, x2)` |
| Text.StripEmpty | fix_yolo_dataset.py:15 | `strip()` leaves nothing iff the line is all whitespace |
| Text.StripSpec | fix_yolo_dataset.py:15 | a non-blank line strips to a contiguous part of it that starts and ends with non-whitespace |
| Text.SplitWs | add_invoices.py:48 | `split()` gives non-empty whitespace-free tokens, none iff the text is all whitespace |
| Text.SplitWsRuns | add_invoices.py:48 | the text is its tokens interleaved with whitespace runs, the runs between tokens non-empty: the tokens are the maximal whitespace-free runs, in order |
| Text.SplitWsUnique | add_invoices.py:48 | conversely, any words interleaved that way with whitespace runs are exactly what `split()` returns |
| Text.SplitJoin | add_invoices.py:48-51 | splitting tokens joined by single spaces gives the tokens back |
| Text.ReplaceCharSpec | prep_logodet_yolo_nocopy.py:113 | `replace` changes nothing without an occurrence; every character of the result comes from the replacement or is an original character other than the replaced one |
| Text.Sort | add_invoices.py:22 | `sorted` gives a permutation in non-decreasing code-point order |
| Numbers.ParseIntRoundTrip | prep_logodet_yolo_nocopy.py:29-30 | `int()` reads back every integer `str()` writes |
| Numbers.ParseDecimalExtendsParseInt | prep_logodet_yolo_nocopy.py:58-61 | every literal `int()` accepts, `float()` accepts with the same value |
| Numbers.ZeroPad | fix_yolo_dataset.py:36 | `{:06d}` renders the number's digits, at least the given width |
| Numbers.ZeroPadInjective | fix_yolo_dataset.py:36 | distinct numbers have distinct zero-padded renderings |
| Numbers.ZeroPadWidth | fix_yolo_dataset.py:36 | a number below `10^width` takes exactly `width` characters |
| Numbers.Trunc | detect_and_identify.py:17 | `int(x)` truncates toward zero |
| Paths.NameJoin | fix_yolo_dataset.py:37 | the name of `dir / name` is `name` |
| Paths.StemWithSuffix | prep_logodet_yolo_nocopy.py:45 | a base plus a one-dot extension has that base as its stem |
| Xml.FirstWithTag | prep_logodet_yolo_nocopy.py:28 | `find` gives nothing iff no child has the tag, and otherwise a child with the tag |
| Xml.FindPathTwoStep | prep_logodet_yolo_nocopy_gpu.py:20-21 | with a single `<size>`, `find("size/width")` is `find("size").find("width")` |

## Left out

- XML parsing itself: a document arrives as an `Element` tree, or as no
  document when the parser raises.
- File I/O: reads, writes, `shutil.copy2`, `mkdir` and appending to a
  file are modelled by their effect on a set of paths, a label map or a
  list of lines.
  - `fix_yolo_dataset.py` never creates `images/<split>` or
    `labels/<split>`; the model assumes they exist.
  - Whether a path exists is judged against the file system before the
    run; copies made during it are not seen by later existence checks.
  - `shutil.SameFileError` is not modelled.
- `multiprocessing.Pool` / `imap_unordered`: the order in which results
  arrive is nondeterministic, so the annotation list is taken in
  collection order and every lemma holds for any order.
- `random.seed` and the Mersenne Twister: `Shuffle` follows CPython's swap
  loop, with the outputs of `_randbelow` given as a sequence of draws.
- Iteration order of the `IMG_EXTS` set: the parameter `extOrder`;
  `PrepLogodet.ResolveImageExts` connects it to the set.
- Floating point: the box transform is over exact reals, and the `:.6f`
  text of a label line is not modelled; a line is a class and a box.
- `Path.resolve()` and symbolic links: paths are taken as already
  absolute and normalised, so resolving is the identity.
- `int()` and `float()` beyond plain decimal literals (underscores,
  exponents, `inf`/`nan`, non-ASCII digits) are outside `Numbers`.
- The YAML file, `print` output, `argparse`, and the sanity-check read at
  the end of `add_invoices.py`: static or informational.
- ORB matching (`identify_logo`, `load_gallery`), the Streamlit UI, YOLO
  calls, and the scripts `make_synth_dataset.py`, `train_yolo.py`,
  `annotate_invoices.py` and `check_exif_orientation.py`: library-driven
  glue with no logic of their own to state.
- PrepLogodet.ResolveImage: states the fallback over the given iteration
  order; that the order enumerates `IMG_EXTS` is assumed only in
  `ResolveImageExts`.
- PrepLogodet.ValCount: the product `n * frac` is taken over exact reals,
  not as a double: that agrees with Python for `0.10`, whose double lies
  just above 1/10 (`ValCountTenth`), but not for every `--val`; with
  `0.29` and 100 pairs Python computes `28.999999999999996` and keeps 28
  where the model gives 29.
- AddInvoices.WriteLabelsContent: needs distinct names without `/`, which
  a directory listing guarantees; the model takes the names as given.
- DetectAndIdentify.CropPadContent: describes the crop only when both
  padded ends are at least 0; `CropPadNegativeEnd` shows a case where an
  end is negative.
