/** Two-dimensional numpy arrays as the crop helpers index them:
    `a[y1:y2, x1:x2]` with integer bounds and step 1. */
module Arrays {

  function Max(a: int, b: int): int {
    if a >= b then a else b
  }

  function Min(a: int, b: int): int {
    if a <= b then a else b
  }

  /** An image array: `rows` of `width` pixels each; the height is the
      number of rows. Channels, when there are any, live in `P`. */
  datatype Grid<P> = Grid(width: nat, rows: seq<seq<P>>)

  predicate Rectangular<P>(g: Grid<P>) {
    forall r :: 0 <= r < |g.rows| ==> |g.rows[r]| == g.width
  }

  /** Where a slice bound lands on an axis of length `n`: a negative bound
      counts from the end, and the result is clamped to `[0, n]`. */
  function SliceIndex(i: int, n: nat): (r: nat)
    ensures r <= n
  {
    if i < 0 then Max(0, i + n) else Min(i, n)
  }

  /** `s[lo:hi]`. */
  function Slice<T>(s: seq<T>, lo: int, hi: int): (r: seq<T>)
    ensures |r| <= |s|
  {
    var a := SliceIndex(lo, |s|);
    var b := SliceIndex(hi, |s|);
    if a < b then s[a..b] else []
  }

  /** With bounds that are not negative and an end within the sequence,
      a slice holds the elements from `lo` up to `hi`, and nothing when
      `hi <= lo`. */
  lemma SliceSpec<T>(s: seq<T>, lo: int, hi: int)
    requires 0 <= lo && 0 <= hi <= |s|
    ensures |Slice(s, lo, hi)| == Max(0, hi - lo)
    ensures forall k :: 0 <= k < |Slice(s, lo, hi)| ==> Slice(s, lo, hi)[k] == s[lo + k]
  {
  }

  /** `g[y1:y2, x1:x2]`. */
  function Crop<P>(g: Grid<P>, y1: int, y2: int, x1: int, x2: int): (r: Grid<P>)
    requires Rectangular(g)
    ensures Rectangular(r)
    ensures |r.rows| <= |g.rows| && r.width <= g.width
  {
    var rows := Slice(g.rows, y1, y2);
    var a := SliceIndex(x1, g.width);
    var b := SliceIndex(x2, g.width);
    Grid(if a < b then b - a else 0, seq(|rows|, k requires 0 <= k < |rows| => Slice(rows[k], x1, x2)))
  }

  /** Within the array's bounds, a crop is the sub-rectangle from
      `(y1, x1)` up to `(y2, x2)`, empty along an axis whose end does not
      exceed its start. */
  lemma CropSpec<P>(g: Grid<P>, y1: int, y2: int, x1: int, x2: int)
    requires Rectangular(g)
    requires 0 <= y1 && 0 <= y2 <= |g.rows| && 0 <= x1 && 0 <= x2 <= g.width
    ensures |Crop(g, y1, y2, x1, x2).rows| == Max(0, y2 - y1)
    ensures Crop(g, y1, y2, x1, x2).width == Max(0, x2 - x1)
    ensures forall i, j :: 0 <= i < |Crop(g, y1, y2, x1, x2).rows| && 0 <= j < Crop(g, y1, y2, x1, x2).width ==>
              Crop(g, y1, y2, x1, x2).rows[i][j] == g.rows[y1 + i][x1 + j]
  {
    var r := Crop(g, y1, y2, x1, x2);
    var rows := Slice(g.rows, y1, y2);
    SliceSpec(g.rows, y1, y2);
    forall i, j | 0 <= i < |r.rows| && 0 <= j < r.width ensures r.rows[i][j] == g.rows[y1 + i][x1 + j] {
      assert rows[i] == g.rows[y1 + i];
      SliceSpec(rows[i], x1, x2);
    }
  }
}
