/** Sequence helpers shared by the scripts' models. */
module Lists {
  import opened Options

  /** The results of `f` that are present, in order: a loop that appends
      what parses and skips what does not. */
  function FilterMap<A, B>(f: A -> Option<B>, s: seq<A>): (r: seq<B>)
    ensures |r| <= |s|
    decreases |s|
  {
    if |s| == 0 then []
    else (match f(s[0]) case None => [] case Some(b) => [b]) + FilterMap(f, s[1..])
  }

  /** The result is empty exactly when nothing is present, and holds only
      values `f` produced. */
  lemma {:induction false} FilterMapSpec<A, B>(f: A -> Option<B>, s: seq<A>)
    ensures FilterMap(f, s) == [] <==> forall k :: 0 <= k < |s| ==> f(s[k]).None?
    ensures forall b :: b in FilterMap(f, s) ==> exists k :: 0 <= k < |s| && f(s[k]) == Some(b)
    decreases |s|
  {
    if |s| > 0 {
      FilterMapSpec(f, s[1..]);
      assert forall k :: 1 <= k < |s| ==> s[k] == s[1..][k - 1];
    }
  }

  lemma AppendAssoc<T>(x: seq<T>, y: seq<T>, z: seq<T>)
    ensures x + (y + z) == (x + y) + z
  {
  }

  /** Filtering is element by element: filtering two runs is filtering
      each, one after the other. */
  lemma {:induction false} FilterMapAppend<A, B>(f: A -> Option<B>, a: seq<A>, b: seq<A>)
    ensures FilterMap(f, a + b) == FilterMap(f, a) + FilterMap(f, b)
    decreases |a|
  {
    if |a| > 0 {
      FilterMapAppend(f, a[1..], b);
      assert (a + b)[1..] == a[1..] + b;
      assert (a + b)[0] == a[0];
      var h := match f(a[0]) case None => [] case Some(x) => [x];
      AppendAssoc(h, FilterMap(f, a[1..]), FilterMap(f, b));
    } else {
      assert a + b == b;
    }
  }

  /** When every value `f` produces is a fixed point of `f`, filtering
      twice is filtering once. */
  lemma {:induction false} FilterMapIdempotent<A>(f: A -> Option<A>, s: seq<A>)
    requires forall a :: f(a).Some? ==> f(f(a).value) == f(a)
    ensures FilterMap(f, FilterMap(f, s)) == FilterMap(f, s)
    decreases |s|
  {
    if |s| > 0 {
      FilterMapIdempotent(f, s[1..]);
      var h := match f(s[0]) case None => [] case Some(x) => [x];
      FilterMapAppend(f, h, FilterMap(f, s[1..]));
      if f(s[0]).Some? {
        assert h[1..] == [];
      }
    }
  }

  /** What `f` produces for an element, the result holds. */
  lemma {:induction false} FilterMapHas<A, B>(f: A -> Option<B>, s: seq<A>, k: nat)
    requires k < |s| && f(s[k]).Some?
    ensures f(s[k]).value in FilterMap(f, s)
    decreases k
  {
    if k > 0 {
      FilterMapHas(f, s[1..], k - 1);
      assert s[1..][k - 1] == s[k];
    }
  }

  /** A position of `x` in `s`. */
  function IndexOf<T(==)>(s: seq<T>, x: T): (k: nat)
    requires x in s
    ensures k < |s| && s[k] == x
    decreases |s|
  {
    if s[0] == x then 0 else 1 + IndexOf(s[1..], x)
  }

  /** No two positions of `s` hold the same value. */
  predicate Distinct<T(==)>(s: seq<T>) {
    forall i, j :: 0 <= i < j < |s| ==> s[i] != s[j]
  }

  /** A sequence without repeats holds each value at most once. */
  lemma {:induction false} DistinctCounts<T>(s: seq<T>)
    requires Distinct(s)
    ensures forall x :: multiset(s)[x] <= 1
    decreases |s|
  {
    if |s| > 0 {
      assert Distinct(s[1..]) by {
        forall i, j | 0 <= i < j < |s| - 1 ensures s[1..][i] != s[1..][j] {
          assert s[1..][i] == s[i + 1] && s[1..][j] == s[j + 1];
        }
      }
      DistinctCounts(s[1..]);
      assert s == [s[0]] + s[1..];
      assert s[0] !in s[1..] by {
        forall k | 0 <= k < |s| - 1 ensures s[1..][k] != s[0] {
          assert s[1..][k] == s[k + 1];
        }
      }
    }
  }

  /** A sequence that holds each value at most once has no repeats. */
  lemma CountsDistinct<T>(s: seq<T>)
    requires forall x :: multiset(s)[x] <= 1
    ensures Distinct(s)
  {
    forall i, j | 0 <= i < j < |s| ensures s[i] != s[j] {
      var x := s[j];
      assert s == s[..j] + s[j..];
      assert s[..j][i] == s[i] && s[j..][0] == x;
      assert multiset(s[..j])[s[i]] >= 1 && multiset(s[j..])[x] >= 1;
      assert multiset(s)[x] == multiset(s[..j])[x] + multiset(s[j..])[x];
    }
  }
}
