/** POSIX path strings as `pathlib` treats them in the scripts: `.name`,
    `.parent`, `.stem`, `.with_suffix(...)` and the `/` operator, rendered
    with `str`. Paths here are the normalised absolute paths a recursive
    glob under an absolute root produces. */
module Paths {

  type Path = string

  /** Index of the last `c` in `s`, or -1. */
  function LastIndex(s: string, c: char): (i: int)
    ensures -1 <= i < |s|
    ensures i >= 0 ==> s[i] == c
    ensures forall k :: i < k < |s| ==> s[k] != c
    decreases |s|
  {
    if |s| == 0 then -1
    else if s[|s| - 1] == c then |s| - 1
    else LastIndex(s[..|s| - 1], c)
  }

  /** `PurePosixPath(s).name`: the last component, where empty and `.`
      components do not count. */
  function Name(s: string): (n: string)
    ensures '/' !in n && n != "."
    decreases |s|
  {
    var i := LastIndex(s, '/');
    var last := s[i + 1..];
    if last != "" && last != "." then last
    else if i < 0 then ""
    else Name(s[..i])
  }

  /** `PurePosixPath(p).parent` of a normalised path: everything before the
      last '/', "/" for a top-level entry and "." for a bare name. */
  function Parent(p: Path): (r: Path)
    ensures r != ""
  {
    var i := LastIndex(p, '/');
    if i < 0 then "." else if i == 0 then "/" else p[..i]
  }

  /** `str(Path(dir) / name)` for a normalised `dir` and a single-component
      `name`. */
  function Join(dir: Path, name: string): (r: Path)
    ensures dir != "" ==> r != ""
  {
    if name == "" then dir
    else if dir == "." then name
    else if |dir| > 0 && dir[|dir| - 1] == '/' then dir + name
    else dir + "/" + name
  }

  /** What `/` puts before a non-empty name: the directory and, unless it
      already ends with one, a separator ("" for the current directory). */
  function DirPrefix(dir: Path): string {
    if dir == "." then "" else if |dir| > 0 && dir[|dir| - 1] == '/' then dir else dir + "/"
  }

  /** Joining a non-empty name appends it to the directory's prefix, so
      names in one directory give distinct paths. */
  lemma JoinName(dir: Path, name: string)
    requires name != ""
    ensures Join(dir, name) == DirPrefix(dir) + name
  {
  }

  /** Joining a name onto a real directory keeps the directory's first
      character and makes the path longer. */
  lemma JoinHead(dir: Path, name: string)
    requires dir != "" && dir != "." && name != ""
    ensures |Join(dir, name)| > |dir| && Join(dir, name)[0] == dir[0]
  {
    JoinName(dir, name);
  }

  /** The name of a joined path is the name that was joined. */
  lemma NameJoin(dir: Path, name: string)
    requires name != "" && '/' !in name && name != "."
    ensures Name(Join(dir, name)) == name
  {
    JoinName(dir, name);
    var d := DirPrefix(dir);
    LastIndexAfter(d, name, '/');
    assert (d + name)[|d|..] == name;
  }

  /** The last `c` of `d + name` is the one `d` ends with, when `name` has
      none. */
  lemma LastIndexAfter(d: string, name: string, c: char)
    requires d == "" || d[|d| - 1] == c
    requires c !in name
    ensures LastIndex(d + name, c) == |d| - 1
  {
    var s := d + name;
    assert forall k :: |d| <= k < |s| ==> s[k] == name[k - |d|];
    assert d != "" ==> s[|d| - 1] == c;
  }

  /** Start of `PurePath.suffix` inside a name: the last '.', provided it is
      neither the first nor the last character; -1 when there is no
      suffix. */
  function SuffixStart(name: string): (i: int)
    ensures -1 <= i < |name|
    ensures i >= 0 ==> 0 < i < |name| - 1 && name[i] == '.'
  {
    var d := LastIndex(name, '.');
    if 0 < d < |name| - 1 then d else -1
  }

  /** `PurePath.stem`: the name without its suffix. */
  function Stem(name: string): string {
    var i := SuffixStart(name);
    if i >= 0 then name[..i] else name
  }

  /** `p.with_suffix(ext)`: the sibling of `p` whose name is `p`'s stem
      followed by `ext`. */
  function WithSuffix(p: Path, ext: string): Path {
    Join(Parent(p), Stem(Name(p)) + ext)
  }

  /** A name made of a non-empty base and a one-dot extension has that
      base as its stem. */
  lemma StemWithSuffix(base: string, ext: string)
    requires base != "" && |ext| >= 2 && ext[0] == '.' && '.' !in ext[1..]
    ensures Stem(base + ext) == base
  {
    var s := base + ext;
    var d := LastIndex(s, '.');
    assert s[|base|] == '.';
    assert forall k :: |base| < k < |s| ==> s[k] == ext[1..][k - |base| - 1];
    assert d == |base|;
    assert s[..d] == base;
  }
}
